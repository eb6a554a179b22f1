/** The kernel's entry points, as updates of its global tables (student-distrib/syscall.c,
    scheduler.c, pit.c). Each carries out one step of the process system, and leaves every copy of
    "the current process" in agreement. Entry points are atomic: interrupts between the statements
    of one of them are not part of the model. */
module Kernel {
  import opened Bytes
  import opened Processes
  import opened ProcessRuns
  import opened KernelTables
  import FS = FileSystem

  /** What the processor does when an entry point ends. */
  datatype Outcome =
    | ReturnValue(value: int)
    | EnterUser(pid: nat)
    | Restore(esp: int, ebp: int, eax: int)
    | Switch(esp: int, ebp: int)

  function Seen(effect: Effect): Outcome {
    match effect
    case Returned(value) => ReturnValue(value)
    case Delivered(data) => ReturnValue(|data|)
    case Started(pid) => EnterUser(pid)
    case Resumed(to, status) => Restore(to.esp, to.ebp, status)
    case Rescheduled(from) => Switch(Registers(from).0, Registers(from).1)
  }

  lemma OverlaidIs(header: seq<byte>, junk: seq<byte>, buffer: seq<byte>)
    requires |header| <= |junk| == HEADER && buffer == junk[..0] + header + junk[0 + |header|..]
    ensures buffer == Overlaid(header, junk) && |buffer| == HEADER
    ensures ELF_MAGIC <= buffer <==> buffer[0] == ELF_MAGIC[0] && buffer[1] == ELF_MAGIC[1]
                                     && buffer[2] == ELF_MAGIC[2] && buffer[3] == ELF_MAGIC[3]
  {
  }

  lemma HeaderFits(v: seq<byte>)
    ensures |FS.Slice(v, 0, HEADER)| <= HEADER
  {
  }

  /** The bytes that a read places in the caller's buffer. */
  ghost function Placed(img: FS.Image, f: OpenFile, nbytes: int, driven: seq<byte>): seq<byte>
    requires FS.WellFormed(img) && -0x8000_0000 <= nbytes < 0x8000_0000
    requires f.ops.FileOps? ==> f.inode < |img.inodes|
  {
    if f.ops.FileOps? || f.ops.DirOps? then ReadBytes(img, f, nbytes) else driven
  }

  lemma PlacedFits(img: FS.Image, f: OpenFile, nbytes: int)
    requires FS.WellFormed(img) && -0x8000_0000 <= nbytes < 0x8000_0000
    requires f.ops.FileOps? ==> f.inode < |img.inodes|
    ensures |Placed(img, f, nbytes, [])| <= FS.DATA_BLOCKS_MAX_NUM * FS.DATA_BLOCK_SIZE
  {
    hide FS.View;
    if f.ops.FileOps? {
      assert FS.WellFormedInode(img, img.inodes[f.inode]);
    }
  }

  class Kernel {
    const img: FS.Image
    var currentPCB: int
    var currentPid: nat
    var cntPid: nat
    var cntProgram: nat
    var pidArr: seq<nat>
    var pcbs: seq<Pcb>
    var currentTerminal: int
    var processTerminal: int
    var terminalPid: seq<int>
    var terminalProcessPids: seq<int>
    var espEbpTerm: seq<(int, int)>
    var pageSlot: int
    var tssEsp0: int
    ghost var sys: System

    /** The tables as one value. */
    ghost function Now(): Tables
      reads this
    {
      Tables(currentPCB, currentPid, cntPid, cntProgram, pidArr, pcbs, processTerminal, terminalPid,
             terminalProcessPids, espEbpTerm, pageSlot, tssEsp0)
    }

    ghost predicate ImageOk() {
      FS.WellFormed(img) && IsExecutable(img, SHELL)
    }

    ghost predicate Valid()
      reads this
    {
      ImageOk() && Represents(img, Now(), sys)
    }

    constructor (img: FS.Image, pcbs: seq<Pcb>)
      requires FS.WellFormed(img) && IsExecutable(img, SHELL)
      requires |pcbs| == MAX_PID && forall p :: 0 <= p < MAX_PID ==> |pcbs[p].fds| == MAX_FD
      ensures ImageOk() && Unbooted(Now()) && this.img == img
    {
      this.img := img;
      this.pcbs := pcbs;
      currentPCB, currentPid, cntPid, cntProgram := 0, 0, 0, 0;
      pidArr := [0, 0, 0, 0, 0, 0];
      currentTerminal, processTerminal := 0, 0;
      terminalPid, terminalProcessPids := [0, -1, -1], [0, -1, -1];
      espEbpTerm := [(-1, -1), (-1, -1), (-1, -1)];
      pageSlot := 0;
      tssEsp0 := EIGHT_MB;
      sys := Boot(None);
    }

    /** The control block of the running process, found through its terminal. */
    function GetCurrentPcb(): int
      reads this
      requires |terminalProcessPids| == 3 && 0 <= processTerminal < 3
    {
      var p := terminalProcessPids[processTerminal];
      if p < 0 then 0 else EIGHT_MB - EIGHT_KB * (p + 1)
    }

    /** In every valid state the two ways of finding the current process agree, and the page slot,
        the kernel stack and the control block are those of the running terminal's top process. */
    lemma CurrentPcbAgrees()
      requires Valid()
      ensures GetCurrentPcb() == currentPCB && BlockOf(currentPCB) == Top(sys).pid < MAX_PID
      ensures terminalProcessPids[processTerminal] == Top(sys).pid == pcbs[Top(sys).pid].pid
      ensures currentPCB == 0x80_0000 - 0x2000 * (Top(sys).pid + 1)
      ensures pageSlot == 2 + Top(sys).pid && tssEsp0 == 0x80_0000 - 0x2000 * Top(sys).pid - 4
      ensures cntPid == |LivePids(sys)| == StartedShells(sys) + cntProgram && cntProgram <= MAX_PROGRAMS
      ensures forall p :: 0 <= p < MAX_PID ==> (pidArr[p] != 0 <==> p in LivePids(sys))
    {
      hide FS.WellFormed, StackOk, Distinct, ParkedOk, StackShape, IsExecutable, HoldsSystem, TerminalsAgree;
      TopHeld(img, Now(), sys);
      CountersAgree(img, sys);
      BlockOfAddress(Top(sys).pid);
    }

    /** What the tables say of a live process: its slot is taken, and its block holds its pid, its parent's,
        its open descriptors and, for a program, the registers of the execute that started it. */
    lemma ProcessRecorded(t: nat, i: nat)
      requires Valid() && t < 3 && |sys.stacks| == 3 && i < |sys.stacks[t]|
      ensures var stack := sys.stacks[t]; var p := stack[i].pid;
        && p < |pidArr| == |pcbs| == 6 && pidArr[p] != 0
        && pcbs[p].pid == p && pcbs[p].parentId == (if i == 0 then 0xFFFF_FFFF else stack[i - 1].pid)
        && (stack[i].Program? ==> pcbs[p].savedEsp == stack[i].saved.esp && pcbs[p].savedEbp == stack[i].saved.ebp)
        && |pcbs[p].fds| == |stack[i].fds| == 8
        && forall fd :: 0 <= fd < 8 ==>
             var entry := pcbs[p].fds[fd];
             stack[i].fds[fd] == if entry.flags == 0 then None
                                 else Some(OpenFile(entry.ops, entry.inode, entry.position))
    {
      hide FS.WellFormed, StackOk, StackShape, IsExecutable, TerminalsAgree, HoldsAll, CurrentIs;
      HoldsOne(pcbs, sys, t);
      HoldsAt(pcbs, sys.stacks[t], i);
      ProcessLives(sys, t, i);
      LiveInRange(img, sys, sys.stacks[t][i].pid);
    }

    /** What they say of a terminal: whether it is started, its top process, and the registers it was
        preempted with. */
    lemma TerminalRecorded(t: nat)
      requires Valid() && t < 3
      ensures |sys.stacks| == |sys.parked| == |terminalPid| == |terminalProcessPids| == |espEbpTerm| == 3
      ensures processTerminal == sys.running && (terminalPid[t] == -1 <==> sys.stacks[t] == [])
      ensures var stack := sys.stacks[t]; stack != [] ==> terminalProcessPids[t] == stack[|stack| - 1].pid
      ensures espEbpTerm[t] ==
        match sys.parked[t]
        case Some(c) => (c.esp, c.ebp)
        case None => (-1, -1)
    {
      hide FS.WellFormed, StackOk, StackShape, IsExecutable, HoldsSystem, CurrentIs;
      assert TerminalAgrees(Now(), sys.stacks[t], sys.parked[t], t);
    }

    // ---- Building a process ----

    /** What an uninitialised header buffer may hold. */
    static method AnyHeader() returns (junk: seq<byte>)
      ensures |junk| == HEADER
    {
      ghost var zeros: seq<byte> := seq(HEADER, _ => 0);
      assert |zeros| == HEADER;
      junk :| |junk| == HEADER;
    }

    /** The file checks that execute and shell_execute share. */
    method CheckExecutable(name: seq<byte>, junk: seq<byte>) returns (ok: bool)
      requires FS.WellFormed(img) && NUL !in name && |junk| == HEADER
      ensures ok <==> Passes(img, name, junk)
    {
      hide FS.WellFormed, FS.LookupFrom, FS.Slice, FS.View, Overlaid, CString;
      CStringIs(name + [NUL], |name|);
      FS.LookupFindsNames(img, 0, name);
      var entry := FS.ReadDentryByName(img, name + [NUL]);
      if entry.None? {
        return false;
      }
      var exeBuf := new byte[HEADER](i requires 0 <= i < HEADER => junk[i]);
      assert exeBuf[..] == junk;
      ghost var header := FS.Slice(FS.View(img, entry.value.inode), 0, HEADER);
      HeaderFits(FS.View(img, entry.value.inode));
      var count := FS.ReadData(img, entry.value.inode, 0, exeBuf, 0, HEADER);
      OverlaidIs(header, junk, exeBuf[..]);
      ok := exeBuf[0] == ELF_MAGIC[0] && exeBuf[1] == ELF_MAGIC[1]
         && exeBuf[2] == ELF_MAGIC[2] && exeBuf[3] == ELF_MAGIC[3];
    }

    /** The free-pid search. */
    method AllocatePid()
      requires |pidArr| == MAX_PID && exists p :: 0 <= p < MAX_PID && pidArr[p] == 0
      modifies this`pidArr, this`currentPid
      ensures currentPid < MAX_PID && old(pidArr)[currentPid] == 0 && pidArr == old(pidArr)[currentPid := 1]
      ensures forall q :: 0 <= q < currentPid ==> old(pidArr)[q] != 0
    {
      var i := 0;
      while i < MAX_PID
        invariant 0 <= i <= MAX_PID && pidArr == old(pidArr) && forall q :: 0 <= q < i ==> pidArr[q] != 0
      {
        if pidArr[i] == 0 {
          currentPid := i;
          pidArr := pidArr[i := 1];
          return;
        }
        i := i + 1;
      }
      assert false;
    }

    method SetTerminalProcessPid(terminal: int, pid: int)
      requires |terminalProcessPids| == 3 && 0 <= terminal && 0 <= pid
      modifies this`terminalProcessPids
      ensures terminalProcessPids ==
        if terminal > 2 || pid > MAX_PID then old(terminalProcessPids) else old(terminalProcessPids)[terminal := pid]
    {
      if terminal > 2 || pid > MAX_PID { return; }
      terminalProcessPids := terminalProcessPids[terminal := pid];
    }

    /** The tail of execute and shell_execute: map the process' page, fill its control block, and
        make it the running process of its terminal. */
    method Launch(parentId: nat, esp: int, ebp: int) returns (r: Outcome)
      requires Sized(Now()) && currentPid < MAX_PID
      modifies this`pageSlot, this`pcbs, this`currentPCB, this`tssEsp0, this`cntPid, this`terminalProcessPids
      ensures Sized(Now()) && r == EnterUser(currentPid)
      ensures CurrentIs(Now(), currentPid)
      ensures terminalProcessPids == old(terminalProcessPids)[processTerminal := currentPid]
      ensures cntPid == old(cntPid) + 1
      ensures pcbs == old(pcbs)[currentPid := pcbs[currentPid]]
      ensures var b := pcbs[currentPid];
        && b.pid == currentPid && b.parentId == parentId && b.savedEsp == esp && b.savedEbp == ebp
        && Shows(b.fds, FRESH_TABLE)
    {
      pageSlot := (EIGHT_MB + currentPid * PROGRAM_SIZE) / PROGRAM_SIZE;
      var newPcb := EIGHT_MB - (currentPid + 1) * EIGHT_KB;
      BlockOfAddress(currentPid);
      var block := BlockOf(newPcb);
      var fds := pcbs[block].fds;
      for i := 0 to MAX_FD
        invariant |fds| == MAX_FD && forall k :: 0 <= k < i ==> fds[k].flags == 0
      {
        fds := fds[i := fds[i].(flags := 0)];
      }
      for i := 0 to 2
        invariant |fds| == MAX_FD
        invariant forall k :: 0 <= k < MAX_FD ==>
          KernelTables.View(fds[k]) == if k < i then Some(OpenFile(TerminalOps, 0, 0)) else None
      {
        fds := fds[i := FdEntry(TerminalOps, 0, 0, 1)];
      }
      pcbs := pcbs[block := Pcb(currentPid, parentId, fds, esp, ebp, 1)];
      currentPCB := newPcb;
      tssEsp0 := EIGHT_MB - currentPid * EIGHT_KB - 4;
      cntPid := cntPid + 1;
      SetTerminalProcessPid(processTerminal, currentPid);
      r := EnterUser(currentPid);
    }

    /** execute, as an update of the tables. */
    method DoExecute(name: seq<byte>, junk: seq<byte>, esp: int, ebp: int) returns (r: Outcome)
      requires FS.WellFormed(img) && NUL !in name && Sized(Now()) && |junk| == HEADER
      requires cntPid < MAX_PID && cntProgram < MAX_PROGRAMS ==> exists p :: 0 <= p < MAX_PID && pidArr[p] == 0
      requires pidArr[0] != 0 ==> 0 <= BlockOf(currentPCB) < MAX_PID // execute reads the caller's block
      modifies this`pidArr, this`currentPid, this`pageSlot, this`pcbs, this`currentPCB, this`tssEsp0, this`cntPid,
        this`cntProgram, this`terminalProcessPids
      ensures Sized(Now())
      ensures if old(cntPid) >= MAX_PID || old(cntProgram) >= MAX_PROGRAMS || !Passes(img, name, junk) then
          r == ReturnValue(-1) && Now() == old(Now())
        else
          r == EnterUser(currentPid)
          && Launched(old(Now()), Now(), if currentPid == 0 then NO_PARENT else CurrentPid(old(Now())),
                      old(cntProgram) + (if currentPid == 0 then 0 else 1), esp, ebp)
    {
      if cntPid >= MAX_PID || cntProgram >= MAX_PROGRAMS {
        return ReturnValue(-1);
      }
      var ok := CheckExecutable(name, junk);
      if !ok {
        return ReturnValue(-1);
      }
      AllocatePid();
      var parentId := NO_PARENT;
      if currentPid != 0 {
        parentId := pcbs[BlockOf(currentPCB)].pid;
        cntProgram := cntProgram + 1;
      }
      r := Launch(parentId, esp, ebp);
    }

    /** shell_execute, as an update of the tables: no program limit, and no parent. */
    method ShellExecute(name: seq<byte>, junk: seq<byte>, esp: int, ebp: int) returns (r: Outcome)
      requires FS.WellFormed(img) && NUL !in name && Sized(Now()) && |junk| == HEADER
      requires cntPid < MAX_PID ==> exists p :: 0 <= p < MAX_PID && pidArr[p] == 0
      modifies this`pidArr, this`currentPid, this`pageSlot, this`pcbs, this`currentPCB, this`tssEsp0, this`cntPid,
        this`terminalProcessPids
      ensures Sized(Now())
      ensures if old(cntPid) >= MAX_PID || !Passes(img, name, junk) then
          r == ReturnValue(-1) && Now() == old(Now())
        else
          r == EnterUser(currentPid) && Launched(old(Now()), Now(), NO_PARENT, old(cntProgram), esp, ebp)
    {
      if cntPid >= MAX_PID {
        return ReturnValue(-1);
      }
      var ok := CheckExecutable(name, junk);
      if !ok {
        return ReturnValue(-1);
      }
      AllocatePid();
      r := Launch(NO_PARENT, esp, ebp);
    }

    // ---- Entry points ----

    /** The kernel's first execute starts terminal 0's base shell, with pid 0. */
    method BootShell(esp: int, ebp: int) returns (r: Outcome)
      requires ImageOk() && Unbooted(Now())
      modifies this
      ensures Valid() && r == EnterUser(0)
      ensures exists c :: sys == Boot(c)
      ensures sys.running == 0 && |sys.stacks| == 3 && sys.stacks[1] == sys.stacks[2] == []
      ensures |sys.stacks[0]| == 1
      ensures var shell := sys.stacks[0][0];
        && shell.Shell? && shell.pid == 0 && |shell.fds| == 8
        && shell.fds[0] == shell.fds[1] == Some(OpenFile(TerminalOps, 0, 0))
        && forall fd :: 2 <= fd < 8 ==> shell.fds[fd] == None
    {
      hide FS.WellFormed, StackShape, StacksOk, Records, Shows;
      ghost var k, saved := Now(), espEbpTerm[0];
      ghost var c := if saved == (-1, -1) then None else Some(Context(EIGHT_MB, saved.0, saved.1));
      assert pidArr[0] == 0;
      var junk := AnyHeader();
      PassesExactly(img, SHELL, junk);
      r := DoExecute(SHELL, junk, esp, ebp);
      sys := Boot(c);
      BootRecords(img, k, Now(), c, esp, ebp);
    }

    /** execute. */
    method Execute(name: seq<byte>, junk: seq<byte>, esp: int, ebp: int) returns (r: Outcome)
      requires Valid() && NUL !in name && |junk| == HEADER
      modifies this
      ensures Valid()
      ensures var (s', effect) := Step(img, old(sys), Processes.Execute(name, junk, esp, ebp));
        sys == s' && r == Seen(effect)
    {
      hide FS.WellFormed, Invariant, StackShape, IsExecutable, Passes, HoldsSystem, Holds, Shows, PidsAgree,
        TerminalsAgree;
      RepresentsShape(img, Now(), sys);
      RepresentsInvariant(img, Now(), sys);
      TopHeld(img, Now(), sys);
      if Total(sys) < MAX_PID { FreeSlot(pidArr, sys); }
      ghost var s, k := sys, Now();
      r := DoExecute(name, junk, esp, ebp);
      if r != ReturnValue(-1) {
        ExecuteRecords(img, k, Now(), s, name, junk, esp, ebp);
        sys := ExecuteStep(img, s, name, junk, esp, ebp).0;
      }
    }

    /** close, as an update of the tables; a regular file's driver clears the descriptor once more,
        in the block that get_current_pcb finds. */
    method DoClose(fd: int) returns (r: int)
      requires Sized(Now()) && 0 <= BlockOf(currentPCB) < MAX_PID && GetCurrentPcb() == currentPCB
      modifies this`pcbs
      ensures var b := BlockOf(currentPCB); var was := old(pcbs[b].fds);
        && Sized(Now()) && pcbs == old(pcbs)[b := old(pcbs[b]).(fds := pcbs[b].fds)]
        && if fd < 2 || fd >= MAX_FD || was[fd].flags == 0 then r == -1 && pcbs[b].fds == was
           else r == 0 && forall i :: 0 <= i < MAX_FD ==>
             KernelTables.View(pcbs[b].fds[i]) == if i == fd then None else KernelTables.View(was[i])
    {
      var b := BlockOf(currentPCB);
      if fd < 2 || fd >= MAX_FD || pcbs[b].fds[fd].flags == 0 {
        assert pcbs[b].(fds := pcbs[b].fds) == pcbs[b];
        return -1;
      }
      var entry := pcbs[b].fds[fd].(flags := 0, position := 0, inode := 0);
      pcbs := pcbs[b := pcbs[b].(fds := pcbs[b].fds[fd := entry])];
      if entry.ops.FileOps? {
        var own := BlockOf(GetCurrentPcb());
        pcbs := pcbs[own := pcbs[own].(fds := pcbs[own].fds[fd := pcbs[own].fds[fd].(flags := 0, position := 0)])];
      }
      r := 0;
    }

    /** close. */
    method Close(fd: int) returns (r: int)
      requires Valid()
      modifies this
      ensures Valid()
      ensures var (s', effect) := Step(img, old(sys), Processes.Close(fd)); sys == s' && ReturnValue(r) == Seen(effect)
    {
      hide FS.WellFormed, StacksOk, StackShape, IsExecutable, HoldsAll, TableOk;
      TopHeld(img, Now(), sys);
      TopTableOk(img, sys);
      ghost var s, k := sys, Now();
      r := DoClose(fd);
      if r == 0 {
        ghost var table := Top(s).fds[fd := None];
        CloseKeeps(img, s, fd);
        TopTableOk(img, CloseStep(s, fd).0);
        assert Top(CloseStep(s, fd).0).fds == table;
        sys := SetTopTable(s, table);
        FdsRecord(img, k, Now(), s, table);
      } else {
        assert Now() == k;
      }
    }

    /** The closing loop of halt: descriptors 2 to 7 of the current block are free, 0 and 1 as they were. */
    method CloseAll()
      requires Sized(Now()) && 0 <= BlockOf(currentPCB) < MAX_PID && GetCurrentPcb() == currentPCB
      modifies this`pcbs
      ensures Sized(Now())
      ensures var b := BlockOf(currentPCB); pcbs == old(pcbs)[b := old(pcbs[b]).(fds := pcbs[b].fds)]
      ensures var b := BlockOf(currentPCB); forall i :: 0 <= i < MAX_FD ==>
        KernelTables.View(pcbs[b].fds[i]) == if i >= 2 then None else KernelTables.View(old(pcbs[b].fds)[i])
    {
      var i := 2;
      while i < MAX_FD
        invariant 2 <= i <= MAX_FD && Sized(Now())
        invariant var b := BlockOf(currentPCB); pcbs == old(pcbs)[b := old(pcbs[b]).(fds := pcbs[b].fds)]
        invariant var b := BlockOf(currentPCB); forall k :: 0 <= k < MAX_FD ==>
          KernelTables.View(pcbs[b].fds[k])
          == if 2 <= k < i then None else KernelTables.View(old(pcbs[b].fds)[k])
        decreases MAX_FD - i
      {
        var closed := DoClose(i);
        i := i + 1;
      }
    }

    /** The part of halt that makes the parent the current process again. */
    method RestoreParent(parentId: nat)
      requires Sized(Now()) && parentId < MAX_PID && pcbs[parentId].pid == parentId && cntPid > 0 && cntProgram > 0
      modifies this`currentPCB, this`pageSlot, this`tssEsp0, this`cntPid, this`cntProgram, this`terminalProcessPids
      ensures Sized(Now()) && CurrentIs(Now(), parentId)
      ensures cntPid == old(cntPid) - 1 && cntProgram == old(cntProgram) - 1
      ensures terminalProcessPids == old(terminalProcessPids)[processTerminal := parentId]
    {
      currentPCB := EIGHT_MB - EIGHT_KB * (parentId + 1);
      BlockOfAddress(parentId);
      var parent := pcbs[BlockOf(currentPCB)].pid;
      pageSlot := (EIGHT_MB + parent * PROGRAM_SIZE) / PROGRAM_SIZE;
      tssEsp0 := EIGHT_MB - parent * EIGHT_KB - 4;
      cntPid := cntPid - 1;
      cntProgram := cntProgram - 1;
      SetTerminalProcessPid(processTerminal, parent);
    }

    /** The part of halt that replaces a base shell. */
    method RestartShell(pid: nat, esp: int, ebp: int) returns (r: Outcome, ghost freed: Tables)
      requires FS.WellFormed(img) && IsExecutable(img, SHELL) && Sized(Now()) && pid < MAX_PID && 0 < cntPid <= MAX_PID
      modifies this`pidArr, this`currentPid, this`pageSlot, this`pcbs, this`currentPCB, this`tssEsp0, this`cntPid,
        this`terminalProcessPids
      ensures Sized(Now()) && Sized(freed) && r == EnterUser(currentPid)
      ensures freed == old(Now()).(cntPid := old(cntPid) - 1, pidArr := old(pidArr)[pid := 0])
      ensures Launched(freed, Now(), NO_PARENT, old(cntProgram), esp, ebp)
    {
      cntPid := cntPid - 1;
      pidArr := pidArr[pid := 0];
      freed := Now();
      assert pidArr[pid] == 0;
      var junk := AnyHeader();
      PassesExactly(img, SHELL, junk);
      r := ShellExecute(SHELL, junk, esp, ebp);
    }

    /** The part of halt that leaves the current block dead. */
    method CloseDown()
      requires Sized(Now()) && 0 <= BlockOf(currentPCB) < MAX_PID && GetCurrentPcb() == currentPCB
      modifies this`pcbs
      ensures Sized(Now())
      ensures Dead(pcbs[BlockOf(currentPCB)])
      ensures var b := BlockOf(currentPCB); pcbs == old(pcbs)[b := old(pcbs[b]).(fds := pcbs[b].fds, active := 0)]
    {
      CloseAll();
      var block := BlockOf(currentPCB);
      pcbs := pcbs[block := pcbs[block].(active := 0)];
      assert forall i :: 2 <= i < MAX_FD ==> KernelTables.View(pcbs[block].fds[i]) == None;
    }

    /** halt, as an update of the tables; `freed` is their value when the halting process' slot has
        been given up and nothing has taken its place. */
    method DoHalt(status: byte, esp: int, ebp: int) returns (r: Outcome, ghost freed: Tables)
      requires FS.WellFormed(img) && IsExecutable(img, SHELL) && Sized(Now())
      requires 0 <= BlockOf(currentPCB) < MAX_PID && GetCurrentPcb() == currentPCB
      requires CurrentPid(Now()) < MAX_PID && 0 < cntPid <= MAX_PID
      requires var parentId := pcbs[BlockOf(currentPCB)].parentId;
        parentId != NO_PARENT ==>
          parentId < MAX_PID && pcbs[parentId].pid == parentId != CurrentPid(Now()) && cntProgram > 0
      requires CurrentPid(Now()) == BlockOf(currentPCB)
      modifies this
      ensures Sized(Now()) && sys == old(sys)
      ensures Sized(freed) && Dead(freed.pcbs[CurrentPid(old(Now()))])
      ensures var k := old(Now()); var p := CurrentPid(k); var parentId := k.pcbs[p].parentId;
        if parentId == NO_PARENT then
          && freed == k.(cntPid := k.cntPid - 1, pidArr := k.pidArr[p := 0], pcbs := k.pcbs[p := freed.pcbs[p]])
          && Launched(freed, Now(), NO_PARENT, k.cntProgram, esp, ebp)
          && r == EnterUser(currentPid)
        else
          && pcbs == freed.pcbs && CurrentIs(Now(), parentId)
          && r == Restore(k.pcbs[p].savedEsp, k.pcbs[p].savedEbp, status)
          && Now() == k.(currentPCB := currentPCB, cntPid := k.cntPid - 1, cntProgram := k.cntProgram - 1,
                         pidArr := k.pidArr[p := 0], pcbs := k.pcbs[p := pcbs[p]],
                         terminalProcessPids := k.terminalProcessPids[k.processTerminal := parentId],
                         pageSlot := pageSlot, tssEsp0 := tssEsp0)
    {
      hide FS.WellFormed, IsExecutable, Shows, Launched, Dead;
      ghost var k := Now();
      var block := BlockOf(currentPCB);
      var savedEsp, savedEbp := pcbs[block].savedEsp, pcbs[block].savedEbp;
      CloseDown();
      if pcbs[block].parentId == NO_PARENT {
        r, freed := RestartShell(pcbs[block].pid, esp, ebp);
        return;
      }
      pidArr := pidArr[pcbs[block].pid := 0];
      freed := Now();
      RestoreParent(pcbs[block].parentId);
      r := Restore(savedEsp, savedEbp, status);
    }

    /** halt: a program gives the processor back to the execute that started it; a base shell is
        replaced by a new one, which records the registers (esp, ebp). */
    method Halt(status: byte, esp: int, ebp: int) returns (r: Outcome)
      requires Valid()
      modifies this
      ensures Valid()
      ensures var (s', effect) := Step(img, old(sys), Processes.Halt(status)); sys == s' && r == Seen(effect)
      ensures r.Restore? ==> Dead(pcbs[old(Top(sys).pid)])
    {
      hide FS.WellFormed, StacksOk, StackShape, IsExecutable, Records, Shows, Launched;
      TopHeld(img, Now(), sys);
      ghost var s, k := sys, Now();
      ghost var freed;
      r, freed := DoHalt(status, esp, ebp);
      if |s.stacks[s.running]| == 1 {
        HaltShellRecords(img, k, freed, Now(), s, status, esp, ebp);
      } else {
        HaltProgramRecords(img, k, Now(), s, status);
      }
      sys := HaltStep(s, status).0;
    }

    /** switch_process_for_sched: starts a terminal's base shell the first time, and otherwise makes
        its top process the current one. Starting a shell does not return here. */
    method SwitchProcessForSched(terminal: nat, esp: int, ebp: int) returns (started: bool, pid: int, r: Outcome)
      requires FS.WellFormed(img) && IsExecutable(img, SHELL) && Sized(Now()) && terminal < 3
      requires terminalPid[terminal] == -1 ==> cntPid < MAX_PID && exists p :: 0 <= p < MAX_PID && pidArr[p] == 0
      requires terminalPid[terminal] != -1 ==> 0 <= terminalProcessPids[terminal] < MAX_PID
      modifies this
      ensures Sized(Now()) && sys == old(sys) && started == (old(terminalPid)[terminal] == -1)
      ensures started ==>
        && Launched(old(Now()).(terminalPid := old(terminalPid)[terminal := terminal], processTerminal := terminal),
                    Now(), NO_PARENT, old(cntProgram), esp, ebp)
        && r == EnterUser(currentPid)
      ensures !started ==>
        && pid == old(terminalProcessPids)[terminal]
        && Now() == old(Now()).(currentPCB := PcbAddress(pid), pageSlot := PageFrame(pid), processTerminal := terminal)
    {
      hide FS.WellFormed, IsExecutable;
      r := ReturnValue(0);
      pid := 0;
      if terminalPid[terminal] == -1 {
        terminalPid := terminalPid[terminal := terminal];
        processTerminal := terminal;
        var junk := AnyHeader();
        PassesExactly(img, SHELL, junk);
        r := ShellExecute(SHELL, junk, esp, ebp);
        return true, 0, r;
      }
      started := false;
      pid := terminalProcessPids[terminal];
      currentPCB := EIGHT_MB - EIGHT_KB * (pid + 1);
      pageSlot := (EIGHT_MB + pid * PROGRAM_SIZE) / PROGRAM_SIZE;
      processTerminal := terminal;
    }

    /** The scheduler: does nothing before the first process, and otherwise moves on one terminal. */
    method Scheduler(esp: int, ebp: int) returns (r: Outcome)
      requires FS.WellFormed(img) && IsExecutable(img, SHELL) && Sized(Now())
      requires var next := (processTerminal + 1) % 3; cntPid > 0 ==>
        && (terminalPid[next] == -1 ==> cntPid < MAX_PID && exists p :: 0 <= p < MAX_PID && pidArr[p] == 0)
        && (terminalPid[next] != -1 ==> 0 <= terminalProcessPids[next] < MAX_PID)
      modifies this
      ensures Sized(Now()) && sys == old(sys)
      ensures var k := old(Now()); var next := (k.processTerminal + 1) % 3;
        if k.cntPid == 0 then Now() == k && r == ReturnValue(0)
        else if k.terminalPid[next] == -1 then
          && Launched(k.(terminalPid := k.terminalPid[next := next], processTerminal := next), Now(), NO_PARENT,
                      k.cntProgram, esp, ebp)
          && r == EnterUser(currentPid)
        else
          && Now() == k.(processTerminal := next, currentPCB := currentPCB, pageSlot := pageSlot, tssEsp0 := tssEsp0)
          && CurrentIs(Now(), k.terminalProcessPids[next])
          && r == Switch(k.espEbpTerm[next].0, k.espEbpTerm[next].1)
    {
      hide FS.WellFormed, IsExecutable, Launched;
      if cntPid == 0 {
        return ReturnValue(0);
      }
      var started, pid, outcome := SwitchProcessForSched((processTerminal + 1) % 3, esp, ebp);
      if started {
        return outcome;
      }
      tssEsp0 := EIGHT_MB - pid * EIGHT_KB - 4;
      r := Switch(espEbpTerm[processTerminal].0, espEbpTerm[processTerminal].1);
    }

    /** The timer interrupt. Before the first process it only notes the boot code's registers; a base
        shell that it starts records (shellEsp, shellEbp). */
    method PitIrqHandler(esp: int, ebp: int, shellEsp: int, shellEbp: int) returns (r: Outcome)
      requires Valid() || (ImageOk() && Unbooted(Now()))
      modifies this
      ensures old(Valid()) ==> Valid()
      ensures old(Valid()) ==>
        var (s', effect) := Step(img, old(sys), Tick(esp, ebp)); sys == s' && r == Seen(effect)
      ensures old(ImageOk() && Unbooted(Now())) ==>
        Unbooted(Now()) && r == ReturnValue(0) && Now() == old(Now()).(espEbpTerm := [(esp, ebp), (-1, -1), (-1, -1)])
    {
      hide FS.WellFormed, StacksOk, StackShape, IsExecutable, Records, Launched;
      ghost var s, k := sys, Now();
      if Valid() {
        NextTerminal(img, k, s);
      }
      espEbpTerm := espEbpTerm[processTerminal := (esp, ebp)];
      r := Scheduler(shellEsp, shellEbp);
      if Represents(img, k, s) {
        if s.stacks[(s.running + 1) % 3] == [] {
          TickStartRecords(img, k, Now(), s, esp, ebp, shellEsp, shellEbp);
        } else {
          TickResumeRecords(img, k, Now(), s, esp, ebp);
        }
        sys := TickStep(s, esp, ebp).0;
      }
    }

    /** open, as an update of the tables. */
    method DoOpen(name: seq<byte>) returns (r: int)
      requires FS.WellFormed(img) && NUL !in name && Sized(Now()) && 0 <= BlockOf(currentPCB) < MAX_PID
      requires pcbs[BlockOf(currentPCB)].fds[0].flags != 0 && pcbs[BlockOf(currentPCB)].fds[1].flags != 0
      modifies this`pcbs
      ensures Sized(Now())
      ensures var b := BlockOf(currentPCB);
        var was, fds, entry := old(pcbs[b].fds), pcbs[b].fds, FS.Lookup(img, name);
        && pcbs == old(pcbs)[b := old(pcbs[b]).(fds := fds)]
        && if name == [] || entry.None? || (forall i :: 2 <= i < MAX_FD ==> was[i].flags != 0) then
             r == -1 && fds == was
           else
             && 2 <= r < MAX_FD && was[r].flags == 0 && (forall i :: 2 <= i < r ==> was[i].flags != 0)
             && fds == was[r := FdEntry(OperationsOf(entry.value.kind), entry.value.inode, 0, 1)]
    {
      hide FS.WellFormed, FS.LookupFrom, CString;
      var b := BlockOf(currentPCB);
      assert pcbs[b].(fds := pcbs[b].fds) == pcbs[b];
      if name == [] { return -1; }
      CStringIs(name + [NUL], |name|);
      FS.LookupFindsNames(img, 0, name);
      var dentry := FS.ReadDentryByName(img, name + [NUL]);
      if dentry.None? { return -1; }
      ghost var was := pcbs[b].fds;
      var i := 0;
      while i < MAX_FD && pcbs[b].fds[i].flags != 0
        invariant 0 <= i <= MAX_FD && forall k :: 0 <= k < i ==> was[k].flags != 0
      {
        i := i + 1;
      }
      if i == MAX_FD { return -1; } // too many files open
      i := 2;
      while i < MAX_FD
        invariant 2 <= i <= MAX_FD && pcbs == old(pcbs) && forall k :: 2 <= k < i ==> was[k].flags != 0
      {
        if pcbs[b].fds[i].flags == 0 {
          var entry := pcbs[b].fds[i].(inode := dentry.value.inode, flags := 1, position := 0);
          if dentry.value.kind == 0 {
            entry := entry.(ops := RtcOps);
          } else if dentry.value.kind == 1 {
            entry := entry.(ops := DirOps);
          } else if dentry.value.kind == 2 {
            entry := entry.(ops := FileOps);
          }
          pcbs := pcbs[b := pcbs[b].(fds := pcbs[b].fds[i := entry])];
          return i;
        }
        i := i + 1;
      }
      return -1;
    }

    /** open. */
    method Open(name: seq<byte>) returns (r: int)
      requires Valid() && NUL !in name
      modifies this
      ensures Valid()
      ensures var (s', effect) := Step(img, old(sys), Processes.Open(name)); sys == s' && ReturnValue(r) == Seen(effect)
    {
      hide FS.WellFormed, StacksOk, StackShape, IsExecutable, Records, TableOk;
      TopHeld(img, Now(), sys);
      TopTableOk(img, sys);
      ghost var s, k := sys, Now();
      r := DoOpen(name);
      if r == -1 {
        assert Now() == k;
      } else {
        assert FreeFrom(Top(s).fds, 2) == r;
        sys := OpenStep(img, s, name).0;
        OpenKeeps(img, s, name);
        TopRecords(img, k, Now(), s, sys);
      }
    }

    /** Display switches move the picture, not the processor. */
    method SwitchDisplay(terminal: int)
      requires Valid()
      modifies this`currentTerminal
      ensures Valid() && Now() == old(Now())
      ensures sys == Step(img, old(sys), Display(terminal)).0
      ensures currentTerminal == if 0 <= terminal <= 2 then terminal else old(currentTerminal)
    {
      if terminal < 0 || terminal > 2 { return; }
      currentTerminal := terminal;
    }

    static method CopyName(temp: seq<byte>, buf: array<byte>) returns (r: int)
      requires |temp| == FS.FILE_NAME_LENGTH && NUL in temp && |CString(temp)| <= buf.Length
      modifies buf
      ensures r == |CString(temp)| && buf[..] == CString(temp) + old(buf[r..])
    {
      ghost var name := CString(temp);
      r := 0;
      while temp[r] != NUL && r < FS.FILE_NAME_LENGTH
        invariant 0 <= r <= |name|
        invariant forall k :: 0 <= k < buf.Length ==> buf[k] == if k < r then name[k] else old(buf[k])
        decreases |temp| - r
      {
        buf[r] := temp[r];
        r := r + 1;
      }
      assert buf[..] == name + old(buf[r..]);
    }

    /** directory_read: the name of the entry at the descriptor's position. */
    method DirectoryRead(fd: nat, buf: array<byte>) returns (r: int)
      requires FS.WellFormed(img) && Sized(Now()) && fd < MAX_FD && 0 <= BlockOf(GetCurrentPcb()) < MAX_PID
      requires var f := pcbs[BlockOf(GetCurrentPcb())].fds[fd];
        f.position <= |img.inodes| ==> |CString(img.dentries[f.position].name)| <= buf.Length
      modifies this`pcbs, buf
      ensures var b := BlockOf(GetCurrentPcb()); var f := old(pcbs[b].fds[fd]);
        if f.position > |img.inodes| then r == 0 && pcbs == old(pcbs) && buf[..] == old(buf[..])
        else var name := CString(img.dentries[f.position].name);
          && r == |name| && buf[..] == name + old(buf[r..])
          && pcbs == old(pcbs)[b := old(pcbs[b]).(fds := old(pcbs[b].fds)[fd := f.(position := f.position + 1)])]
    {
      var b := BlockOf(GetCurrentPcb());
      var f := pcbs[b].fds[fd];
      if f.position > |img.inodes| { return 0; }
      r := CopyName(img.dentries[f.position].name, buf);
      pcbs := pcbs[b := pcbs[b].(fds := pcbs[b].fds[fd := f.(position := f.position + 1)])];
    }

    /** file_read: reads on from the descriptor's position, through the block that get_current_pcb
        finds. */
    method FileRead(fd: nat, buf: array<byte>, nbytes: int) returns (r: int)
      requires FS.WellFormed(img) && Sized(Now()) && fd < MAX_FD && 0 <= BlockOf(GetCurrentPcb()) < MAX_PID
      requires -0x8000_0000 <= nbytes < 0x8000_0000
      requires var f := pcbs[BlockOf(GetCurrentPcb())].fds[fd];
        && f.inode < |img.inodes|
        && |FS.Slice(FS.View(img, f.inode), f.position, FS.UnsignedLength(nbytes))| <= buf.Length
      modifies this`pcbs, buf
      ensures var b := BlockOf(GetCurrentPcb()); var f := old(pcbs[b].fds[fd]);
        var data := FS.Slice(FS.View(img, f.inode), f.position, FS.UnsignedLength(nbytes));
        && r == |data| && buf[..] == data + old(buf[r..])
        && pcbs == old(pcbs)[b := old(pcbs[b]).(fds := old(pcbs[b].fds)[fd := f.(position := f.position + |data|)])]
    {
      hide FS.WellFormed, FS.View, FS.Slice;
      var b := BlockOf(GetCurrentPcb());
      var f := pcbs[b].fds[fd];
      r := FS.ReadData(img, f.inode, f.position, buf, 0, FS.UnsignedLength(nbytes));
      pcbs := pcbs[b := pcbs[b].(fds := pcbs[b].fds[fd := f.(position := f.position + r)])];
    }

    /** The bytes that read(fd, buf, nbytes) is about to place in buf: those of the file or directory, or
        what the real-time clock's or the terminal's driver puts there. */
    ghost function Pending(fd: int, nbytes: int, driven: seq<byte>): seq<byte>
      reads this
      requires Valid() && -0x8000_0000 <= nbytes < 0x8000_0000
    {
      hide FS.WellFormed, StacksOk, StackShape, Records;
      TopReads(img, sys, fd);
      var fds := Top(sys).fds;
      if fd < 0 || fd >= MAX_FD || fds[fd].None? then []
      else Placed(img, fds[fd].value, nbytes, driven)
    }

    lemma PendingFits(fd: int, nbytes: int)
      requires Valid() && -0x8000_0000 <= nbytes < 0x8000_0000
      ensures |Pending(fd, nbytes, [])| <= FS.DATA_BLOCKS_MAX_NUM * FS.DATA_BLOCK_SIZE
    {
      hide FS.WellFormed, StacksOk, StackShape, Records, Placed;
      TopReads(img, sys, fd);
      var fds := Top(sys).fds;
      if 0 <= fd < MAX_FD && fds[fd].Some? {
        PlacedFits(img, fds[fd].value, nbytes);
      }
    }

    /** read, as an update of the tables. */
    method DoRead(fd: int, buf: array<byte>, nbytes: int, device: int, driven: seq<byte>, ghost f: OpenFile)
      returns (r: int)
      requires FS.WellFormed(img) && Sized(Now()) && 0 <= BlockOf(currentPCB) < MAX_PID && GetCurrentPcb() == currentPCB
      requires -0x8000_0000 <= nbytes < 0x8000_0000
      requires 0 <= fd < MAX_FD ==> var entry := pcbs[BlockOf(currentPCB)].fds[fd];
        entry.flags != 0 ==>
          && KernelTables.View(entry) == Some(f) && (f.ops.FileOps? ==> f.inode < |img.inodes|)
          && |Placed(img, f, nbytes, driven)| <= buf.Length
      modifies this`pcbs, buf
      ensures Sized(Now())
      ensures var b := BlockOf(currentPCB);
        if fd < 0 || fd >= MAX_FD || old(pcbs[b].fds[fd].flags) == 0 then
          r == -1 && pcbs == old(pcbs) && buf[..] == old(buf[..])
        else
          var data := Placed(img, f, nbytes, driven);
          && buf[..] == data + old(buf[|data|..])
          && r == (if f.ops.FileOps? || f.ops.DirOps? then |data| else device)
          && pcbs == old(pcbs)[b := old(pcbs[b]).(fds := pcbs[b].fds)]
          && pcbs[b].fds == old(pcbs[b].fds)[fd := pcbs[b].fds[fd]]
          && KernelTables.View(pcbs[b].fds[fd]) == Some(AfterRead(img, f, nbytes))
    {
      var b := BlockOf(currentPCB);
      assert buf[..] == buf[0..];
      assert pcbs[b].(fds := pcbs[b].fds) == pcbs[b];
      if fd < 0 || fd >= MAX_FD || pcbs[b].fds[fd].flags == 0 {
        return -1;
      }
      var ops := pcbs[b].fds[fd].ops;
      if ops.FileOps? {
        r := FileRead(fd, buf, nbytes);
      } else if ops.DirOps? {
        r := DirectoryRead(fd, buf);
      } else {
        Fill(buf, driven);
        r := device;
      }
    }

    static method Fill(buf: array<byte>, data: seq<byte>)
      requires |data| <= buf.Length
      modifies buf
      ensures buf[..] == data + old(buf[|data|..])
    {
      for i := 0 to |data|
        invariant buf[..i] == data[..i] && buf[|data|..] == old(buf[|data|..])
      {
        buf[i] := data[i];
      }
      assert buf[..] == buf[..|data|] + buf[|data|..];
    }

    /** read; `device` is what the real-time clock's or the terminal's driver returns, and `driven` what it
        puts in the buffer. */
    method Read(fd: int, buf: array<byte>, nbytes: int, device: int, driven: seq<byte>) returns (r: int)
      requires Valid() && -0x8000_0000 <= nbytes < 0x8000_0000 && |Pending(fd, nbytes, driven)| <= buf.Length
      modifies this, buf
      ensures Valid()
      ensures var (s', effect) := Step(img, old(sys), Processes.Read(fd, nbytes, device));
        sys == s' && ReturnValue(r) == Seen(effect)
      ensures var data := old(Pending(fd, nbytes, driven)); buf[..] == data + old(buf[|data|..])
      ensures var effect := Step(img, old(sys), Processes.Read(fd, nbytes, device)).1;
        && (effect.Delivered? ==> old(Pending(fd, nbytes, driven)) == effect.data)
        && (effect == Returned(-1) && device != -1 ==> buf[..] == old(buf[..]))
    {
      hide FS.WellFormed, StacksOk, StackShape, IsExecutable, Records, ReadBytes, AfterRead;
      TopHeld(img, Now(), sys);
      TopTableOk(img, sys);
      ghost var s, k := sys, Now();
      ghost var fds := Top(s).fds;
      ghost var open := 0 <= fd < MAX_FD && fds[fd].Some?;
      assert buf[..] == buf[0..];
      r := DoRead(fd, buf, nbytes, device, driven, if open then fds[fd].value else OpenFile(RtcOps, 0, 0));
      if open {
        ReadRecords(img, k, Now(), s, fd, nbytes, device);
        sys := ReadStep(img, s, fd, nbytes, device).0;
      }
    }
  }

  /** Any interleaving of system calls, timer ticks and display switches on a valid kernel is a run of
      the process system. */
  method Drive(kernel: Kernel, events: seq<Event>)
    requires kernel.Valid() && AllPossible(events)
    requires forall e :: e in events && (e.Execute? || e.Open?) ==> NUL !in e.name
    modifies kernel
    ensures kernel.Valid() && kernel.sys == Run(kernel.img, old(kernel.sys), events)
  {
    hide FS.WellFormed, Represents, Step, Invariant, Kernel.Pending;
    ghost var s := kernel.sys;
    assert Invariant(kernel.img, s) by { RepresentsInvariant(kernel.img, kernel.Now(), s); }
    var buf := new byte[FS.DATA_BLOCKS_MAX_NUM * FS.DATA_BLOCK_SIZE](_ => 0);
    for n := 0 to |events|
      invariant kernel.Valid() && AllPossible(events[..n]) && kernel.sys == Run(kernel.img, s, events[..n])
    {
      assert events[..n + 1] == events[..n] + [events[n]];
      RunThen(kernel.img, s, events[..n], events[n]);
      match events[n]
      case Execute(name, junk, esp, ebp) => var _ := kernel.Execute(name, junk, esp, ebp);
      case Halt(status) => var _ := kernel.Halt(status, 0, 0);
      case Tick(esp, ebp) => var _ := kernel.PitIrqHandler(esp, ebp, 0, 0);
      case Open(name) => var _ := kernel.Open(name);
      case Close(fd) => var _ := kernel.Close(fd);
      case Read(fd, nbytes, device) =>
        kernel.PendingFits(fd, nbytes);
        var _ := kernel.Read(fd, buf, nbytes, device, []);
      case Display(terminal) => kernel.SwitchDisplay(terminal);
    }
    assert events[..|events|] == events;
  }
}
