/** The kernel's tables and what it means for them to record a system of processes. The current
    process is kept four times over: as a control-block address, as its terminal's top pid, as a
    page-directory slot and as a kernel stack (student-distrib/syscall.c, scheduler.c). */
module KernelTables {
  import opened Bytes
  import opened Processes
  import opened ProcessRuns
  import FS = FileSystem

  const NO_PARENT := 0xFFFF_FFFF // parent_id = -1, stored in a uint32_t

  datatype FdEntry = FdEntry(ops: Operations, inode: nat, position: nat, flags: nat)
  datatype Pcb = Pcb(pid: nat, parentId: nat, fds: seq<FdEntry>, savedEsp: int, savedEbp: int, active: nat)

  datatype Tables = Tables(
    currentPCB: int, currentPid: nat, cntPid: nat, cntProgram: nat, pidArr: seq<nat>, pcbs: seq<Pcb>,
    processTerminal: int, terminalPid: seq<int>, terminalProcessPids: seq<int>, espEbpTerm: seq<(int, int)>,
    pageSlot: int, tssEsp0: int)

  /** Which control block an address denotes. */
  function BlockOf(address: int): int {
    (EIGHT_MB - address) / EIGHT_KB - 1
  }

  /** current_PCB->pid. */
  function CurrentPid(k: Tables): nat {
    if 0 <= BlockOf(k.currentPCB) < |k.pcbs| then k.pcbs[BlockOf(k.currentPCB)].pid else 0
  }

  lemma BlockOfAddress(p: nat)
    ensures BlockOf(PcbAddress(p)) == p && PageFrame(p) == 2 + p
  {
  }

  /** The bytes of a control block: two words, eight descriptors of four words, four words of saved
      registers, the active byte with its padding, a word and 128 bytes of argument. */
  const PCB_SIZE := 8 + MAX_FD * 16 + 16 + 4 + 4 + 128

  /** Control blocks, kernel stacks and page frames of distinct processes do not overlap: a block and
      the stack above it fill one 8 KB slot below 8 MB, a program one 4 MB frame above it. */
  lemma PlacesAreDisjoint(p: nat, q: nat)
    requires p < q < MAX_PID
    ensures PcbAddress(q) + PCB_SIZE <= KernelStack(q) < KernelStack(q) + 4 <= PcbAddress(p)
    ensures PcbAddress(p) + PCB_SIZE <= KernelStack(p) < EIGHT_MB
    ensures PcbAddress(q) + EIGHT_KB == KernelStack(q) + 4
    ensures EIGHT_MB <= PageFrame(p) * PROGRAM_SIZE < (PageFrame(p) + 1) * PROGRAM_SIZE <= PageFrame(q) * PROGRAM_SIZE
  {
    BlockOfAddress(p);
    BlockOfAddress(q);
  }

  function View(fd: FdEntry): Option<OpenFile> {
    if fd.flags == 0 then None else Some(OpenFile(fd.ops, fd.inode, fd.position))
  }

  /** What halt leaves in a control block: inactive, with descriptors 2 to 7 free. */
  ghost predicate Dead(pcb: Pcb) {
    && pcb.active == 0 && |pcb.fds| == MAX_FD
    && forall i :: 2 <= i < MAX_FD ==> pcb.fds[i].flags == 0
  }

  predicate Shows(fds: seq<FdEntry>, table: Table) {
    |fds| == |table| == MAX_FD && forall i :: 0 <= i < MAX_FD ==> View(fds[i]) == table[i]
  }

  /** A control block holds process stack[i], with its parent's pid. */
  ghost predicate Holds(pcb: Pcb, stack: seq<Process>, i: nat)
    requires i < |stack|
  {
    && pcb.pid == stack[i].pid
    && pcb.parentId == (if i == 0 then NO_PARENT else stack[i - 1].pid)
    && Shows(pcb.fds, stack[i].fds)
    && (stack[i].Program? ==> stack[i].saved.esp == pcb.savedEsp && stack[i].saved.ebp == pcb.savedEbp)
  }

  ghost predicate HoldsAll(pcbs: seq<Pcb>, stack: seq<Process>) {
    forall i :: 0 <= i < |stack| ==> stack[i].pid < |pcbs| && Holds(pcbs[stack[i].pid], stack, i)
  }

  ghost predicate HoldsSystem(pcbs: seq<Pcb>, s: System)
    requires |s.stacks| == 3
  {
    HoldsAll(pcbs, s.stacks[0]) && HoldsAll(pcbs, s.stacks[1]) && HoldsAll(pcbs, s.stacks[2])
  }

  ghost predicate Sized(k: Tables) {
    && |k.pidArr| == MAX_PID && |k.pcbs| == MAX_PID
    && |k.terminalPid| == 3 && |k.terminalProcessPids| == 3 && |k.espEbpTerm| == 3
    && 0 <= k.processTerminal < 3
    && forall p :: 0 <= p < MAX_PID ==> |k.pcbs[p].fds| == MAX_FD
  }

  /** Before the first execute: no process, and only terminal 0 can have been preempted. */
  ghost predicate Unbooted(k: Tables) {
    && Sized(k)
    && k.cntPid == 0 && k.cntProgram == 0 && k.processTerminal == 0
    && k.pidArr == [0, 0, 0, 0, 0, 0]
    && k.terminalPid == [0, -1, -1]
    && k.espEbpTerm[1] == (-1, -1) && k.espEbpTerm[2] == (-1, -1)
  }

  /** All copies of "the current process" name the same pid. */
  ghost predicate CurrentIs(k: Tables, p: nat)
    requires Sized(k)
  {
    && k.currentPCB == PcbAddress(p)
    && k.terminalProcessPids[k.processTerminal] == p
    && k.pageSlot == PageFrame(p)
    && k.tssEsp0 == KernelStack(p)
  }

  ghost predicate PidsAgree(pidArr: seq<nat>, live: set<nat>) {
    |pidArr| == MAX_PID && forall p :: 0 <= p < MAX_PID ==> (pidArr[p] != 0 <==> p in live)
  }

  function Registers(parked: Option<Context>): (int, int) {
    match parked
    case Some(c) => (c.esp, c.ebp)
    case None => (-1, -1)
  }

  ghost predicate TerminalAgrees(k: Tables, stack: seq<Process>, parked: Option<Context>, t: nat)
    requires Sized(k) && t < 3
  {
    && (k.terminalPid[t] == -1 <==> stack == [])
    && (stack != [] ==> k.terminalProcessPids[t] == stack[|stack| - 1].pid)
    && k.espEbpTerm[t] == Registers(parked)
  }

  /** Agreement on the terminals, leaving out the started flag and top pid of terminal `but`. */
  ghost predicate TerminalsAgree(k: Tables, s: System, but: int)
    requires Sized(k) && |s.stacks| == 3 && |s.parked| == 3
  {
    forall t :: 0 <= t < 3 ==>
      if t == but then k.espEbpTerm[t] == Registers(s.parked[t])
      else TerminalAgrees(k, s.stacks[t], s.parked[t], t)
  }

  /** The tables record the system s, leaving out terminal `but`'s top and which process is current. */
  ghost predicate Records(k: Tables, s: System, but: int)
    requires Sized(k) && |s.stacks| == 3 && |s.parked| == 3
  {
    && k.cntPid == Total(s) && k.cntProgram == Programs(s)
    && PidsAgree(k.pidArr, LivePids(s))
    && TerminalsAgree(k, s, but)
    && HoldsSystem(k.pcbs, s)
  }

  ghost predicate Represents(img: FS.Image, k: Tables, s: System) {
    && Sized(k) && Invariant(img, s)
    && k.processTerminal == s.running
    && CurrentIs(k, Top(s).pid)
    && Records(k, s, -1)
  }

  lemma HoldsAt(pcbs: seq<Pcb>, stack: seq<Process>, i: nat)
    requires HoldsAll(pcbs, stack) && i < |stack|
    ensures stack[i].pid < |pcbs| && Holds(pcbs[stack[i].pid], stack, i)
  {
  }

  lemma ProcessLives(s: System, t: nat, i: nat)
    requires |s.stacks| == 3 && t < 3 && i < |s.stacks[t]|
    ensures s.stacks[t][i].pid in LivePids(s)
  {
    assert t == 0 || t == 1 || t == 2;
    assert s.stacks[t][i] in s.stacks[t];
  }

  // ---- Launching a process ----

  /** k' is k after the free-pid search and the tail of execute: the first free slot is taken, its
      block holds a new process, and that process is the current one of its terminal. */
  ghost predicate Launched(k: Tables, k': Tables, parentId: nat, programs: nat, esp: int, ebp: int)
    requires Sized(k) && Sized(k')
  {
    var p := k'.currentPid;
    && p < MAX_PID && k.pidArr[p] == 0 && (forall q :: 0 <= q < p ==> k.pidArr[q] != 0)
    && CurrentIs(k', p)
    && k'.pcbs[p].pid == p && k'.pcbs[p].parentId == parentId
    && k'.pcbs[p].savedEsp == esp && k'.pcbs[p].savedEbp == ebp
    && Shows(k'.pcbs[p].fds, FRESH_TABLE)
    && k' == k.(currentPCB := k'.currentPCB, currentPid := p, cntPid := k.cntPid + 1, cntProgram := programs,
                pidArr := k.pidArr[p := 1], pcbs := k.pcbs[p := k'.pcbs[p]], pageSlot := k'.pageSlot,
                tssEsp0 := k'.tssEsp0, terminalProcessPids := k.terminalProcessPids[k.processTerminal := p])
  }

  lemma LowestIs(s: System, pidArr: seq<nat>, p: nat)
    requires |s.stacks| == 3 && PidsAgree(pidArr, LivePids(s)) && p < MAX_PID && pidArr[p] == 0
    requires forall q :: 0 <= q < p ==> pidArr[q] != 0
    ensures LowestFree(s) == p
  {
  }

  lemma HoldsElsewhere(pcbs: seq<Pcb>, stack: seq<Process>, p: nat, pcb: Pcb)
    requires HoldsAll(pcbs, stack) && p < |pcbs| && p !in PidsOf(stack)
    ensures HoldsAll(pcbs[p := pcb], stack)
  {
    forall i | 0 <= i < |stack| ensures Holds(pcbs[p := pcb][stack[i].pid], stack, i) {
      assert stack[i] in stack;
      assert Holds(pcbs[stack[i].pid], stack, i);
    }
  }

  lemma SameHolds(pcb: Pcb, stack: seq<Process>, other: seq<Process>, i: nat)
    requires i < |stack| && i < |other| && other[..i + 1] == stack[..i + 1] && Holds(pcb, stack, i)
    ensures Holds(pcb, other, i)
  {
    assert other[i] == other[..i + 1][i] && stack[i] == stack[..i + 1][i];
    assert i > 0 ==> other[i - 1] == other[..i + 1][i - 1] && stack[i - 1] == stack[..i + 1][i - 1];
  }

  lemma HoldsPush(pcbs: seq<Pcb>, stack: seq<Process>, proc: Process)
    requires HoldsAll(pcbs, stack) && proc.pid < |pcbs|
    requires Holds(pcbs[proc.pid], stack + [proc], |stack|)
    ensures HoldsAll(pcbs, stack + [proc])
  {
    hide Holds;
    forall i | 0 <= i < |stack| ensures Holds(pcbs[stack[i].pid], stack + [proc], i) {
      SameHolds(pcbs[stack[i].pid], stack, stack + [proc], i);
    }
  }

  lemma HoldsPrefix(pcbs: seq<Pcb>, stack: seq<Process>, n: nat)
    requires HoldsAll(pcbs, stack) && n <= |stack|
    ensures HoldsAll(pcbs, stack[..n])
  {
    forall i | 0 <= i < n ensures Holds(pcbs[stack[i].pid], stack[..n], i) {
      assert Holds(pcbs[stack[i].pid], stack, i);
    }
  }

  /** Filling block p, which no process uses. */
  lemma HoldsSystemElsewhere(pcbs: seq<Pcb>, s: System, p: nat, pcb: Pcb)
    requires |s.stacks| == 3 && HoldsSystem(pcbs, s) && p < |pcbs| && p !in LivePids(s)
    ensures HoldsSystem(pcbs[p := pcb], s)
  {
    HoldsElsewhere(pcbs, s.stacks[0], p, pcb);
    HoldsElsewhere(pcbs, s.stacks[1], p, pcb);
    HoldsElsewhere(pcbs, s.stacks[2], p, pcb);
  }

  lemma HoldsSystemWith(pcbs: seq<Pcb>, s: System, t: nat, stack: seq<Process>)
    requires |s.stacks| == 3 && t < 3 && HoldsSystem(pcbs, s) && HoldsAll(pcbs, stack)
    ensures HoldsSystem(pcbs, WithStack(s, t, stack))
  {
    hide HoldsAll;
    assert t == 0 || t == 1 || t == 2;
  }

  lemma HoldsOne(pcbs: seq<Pcb>, s: System, t: nat)
    requires |s.stacks| == 3 && t < 3 && HoldsSystem(pcbs, s)
    ensures HoldsAll(pcbs, s.stacks[t])
  {
    hide HoldsAll;
    assert t == 0 || t == 1 || t == 2;
  }

  lemma LastChanged(stack: seq<Process>, changed: Process)
    requires stack != []
    ensures stack[..|stack| - 1] + [changed] == stack[|stack| - 1 := changed]
  {
  }

  lemma PushLive(s: System, t: nat, proc: Process)
    requires |s.stacks| == 3 && t < 3
    ensures var s' := WithStack(s, t, s.stacks[t] + [proc]);
      && LivePids(s') == LivePids(s) + {proc.pid} && Total(s') == Total(s) + 1
      && Programs(s') == Programs(s) + (if s.stacks[t] == [] then 0 else 1)
  {
    var pushed := s.stacks[t] + [proc];
    assert proc in pushed;
    assert forall p :: p in pushed <==> p in s.stacks[t] || p == proc;
    assert PidsOf(pushed) == PidsOf(s.stacks[t]) + {proc.pid};
    assert t == 0 || t == 1 || t == 2;
  }

  lemma PushHolds(pcbs: seq<Pcb>, s: System, t: nat, proc: Process, pcb: Pcb)
    requires |s.stacks| == 3 && t < 3 && HoldsSystem(pcbs, s)
    requires proc.pid < |pcbs| && proc.pid !in LivePids(s)
    requires Holds(pcb, s.stacks[t] + [proc], |s.stacks[t]|)
    ensures HoldsSystem(pcbs[proc.pid := pcb], WithStack(s, t, s.stacks[t] + [proc]))
  {
    hide HoldsAll, Holds;
    var pcbs' := pcbs[proc.pid := pcb];
    HoldsSystemElsewhere(pcbs, s, proc.pid, pcb);
    HoldsOne(pcbs', s, t);
    HoldsPush(pcbs', s.stacks[t], proc);
    HoldsSystemWith(pcbs', s, t, s.stacks[t] + [proc]);
  }

  lemma PushTerminals(k: Tables, k': Tables, s: System, proc: Process)
    requires Sized(k) && Sized(k') && |s.stacks| == 3 && |s.parked| == 3 && k.processTerminal == s.running
    requires TerminalsAgree(k, s, s.running) && k.terminalPid[s.running] != -1
    requires k'.terminalPid == k.terminalPid && k'.espEbpTerm == k.espEbpTerm
    requires k'.terminalProcessPids == k.terminalProcessPids[s.running := proc.pid]
    ensures TerminalsAgree(k', WithStack(s, s.running, s.stacks[s.running] + [proc]), -1)
  {
    assert forall t :: 0 <= t < 3 && t != s.running ==> TerminalAgrees(k, s.stacks[t], s.parked[t], t);
  }

  /** A launch records the push of the new process, which gets the lowest free pid. */
  lemma LaunchRecords(k: Tables, k': Tables, s: System, proc: Process, esp: int, ebp: int)
    requires Sized(k) && Sized(k') && |s.stacks| == 3 && |s.parked| == 3 && k.processTerminal == s.running
    requires Records(k, s, s.running) && k.terminalPid[s.running] != -1
    requires var stack := s.stacks[s.running];
      && Launched(k, k', if stack == [] then NO_PARENT else stack[|stack| - 1].pid,
                  k.cntProgram + (if stack == [] then 0 else 1), esp, ebp)
      && proc.pid == k'.currentPid && proc.fds == FRESH_TABLE
      && (proc.Program? ==> proc.saved.esp == esp && proc.saved.ebp == ebp)
    ensures proc.pid == LowestFree(s)
    ensures Records(k', WithStack(s, s.running, s.stacks[s.running] + [proc]), -1)
  {
    hide HoldsSystem, TerminalsAgree, Shows;
    var p := proc.pid;
    LowestIs(s, k.pidArr, p);
    PushLive(s, s.running, proc);
    PushTerminals(k, k', s, proc);
    assert Holds(k'.pcbs[p], s.stacks[s.running] + [proc], |s.stacks[s.running]|);
    PushHolds(k.pcbs, s, s.running, proc, k'.pcbs[p]);
  }

  /** The tables before the first execute record a system without processes. */
  lemma UnbootedRecords(k: Tables, c: Option<Context>)
    requires Unbooted(k) && k.espEbpTerm[0] == Registers(c)
    ensures Records(k, System([[], [], []], 0, [c, None, None]), 0)
  {
    hide Shows;
    var empty := System([[], [], []], 0, [c, None, None]);
    forall t | 0 <= t < 3
      ensures if t == 0 then k.espEbpTerm[t] == Registers(empty.parked[t])
              else TerminalAgrees(k, empty.stacks[t], empty.parked[t], t)
    {
      assert t == 0 || t == 1 || t == 2;
    }
  }

  /** The first launch makes it the system that the kernel boots into. */
  lemma BootRecords(img: FS.Image, k: Tables, k': Tables, c: Option<Context>, esp: int, ebp: int)
    requires FS.WellFormed(img) && Unbooted(k) && Sized(k') && k.espEbpTerm[0] == Registers(c)
    requires Launched(k, k', NO_PARENT, 0, esp, ebp)
    ensures k'.currentPid == 0 && Represents(img, k', Boot(c))
  {
    hide FS.WellFormed, StackShape, StacksOk, HoldsSystem, Records, Shows;
    var empty, shell := System([[], [], []], 0, [c, None, None]), Shell(0, FRESH_TABLE);
    UnbootedRecords(k, c);
    assert k.pidArr[0] == 0;
    LaunchRecords(k, k', empty, shell, esp, ebp);
    assert [] + [shell] == [shell];
    assert WithStack(empty, 0, [] + [shell]) == Boot(c);
    BootIsGood(img, c);
  }

  // ---- Ending a process ----

  lemma PopLive(img: FS.Image, s: System)
    requires Invariant(img, s)
    ensures var stack := s.stacks[s.running]; var n := |stack| - 1; var popped := WithStack(s, s.running, stack[..n]);
      && LivePids(popped) == LivePids(s) - {stack[n].pid} && Total(popped) == Total(s) - 1
      && Programs(popped) == Programs(s) - (if n == 0 then 0 else 1)
      && stack[n].pid !in LivePids(popped) && stack[n].pid in LivePids(s)
  {
    hide FS.WellFormed, StacksOk, StackShape, LivePids, PidsOf;
    var t, stack := s.running, s.stacks[s.running];
    var n := |stack| - 1;
    var popped := WithStack(s, t, stack[..n]);
    TopPidGone(img, s);
    assert stack == stack[..n] + [stack[n]];
    assert WithStack(popped, t, popped.stacks[t] + [stack[n]]) == s;
    PushLive(popped, t, stack[n]);
  }

  lemma TopPidGone(img: FS.Image, s: System)
    requires Invariant(img, s)
    ensures var stack := s.stacks[s.running]; var n := |stack| - 1;
      stack[n].pid !in LivePids(WithStack(s, s.running, stack[..n]))
  {
    hide FS.WellFormed, StackOk, StackShape, ParkedOk, Injective, PidsOf;
    var t, stack := s.running, s.stacks[s.running];
    PoppedOk(img, s);
    PidIn(stack, |stack| - 1);
    assert t == 0 || t == 1 || t == 2;
  }

  lemma PidIn(stack: seq<Process>, i: nat)
    requires i < |stack|
    ensures stack[i].pid in PidsOf(stack)
  {
    assert stack[i] in stack;
  }

  /** The blocks of everything but the stack's top process, whose block is dead. */
  lemma PopHolds(pcbs: seq<Pcb>, s: System, t: nat, pcb: Pcb)
    requires |s.stacks| == 3 && t < 3 && s.stacks[t] != [] && HoldsSystem(pcbs, s)
    requires var n := |s.stacks[t]| - 1; var p := s.stacks[t][n].pid;
      p < |pcbs| && p !in LivePids(WithStack(s, t, s.stacks[t][..n]))
    ensures var n := |s.stacks[t]| - 1;
      HoldsSystem(pcbs[s.stacks[t][n].pid := pcb], WithStack(s, t, s.stacks[t][..n]))
  {
    hide HoldsAll, HoldsSystem, LivePids;
    var n := |s.stacks[t]| - 1;
    HoldsOne(pcbs, s, t);
    HoldsPrefix(pcbs, s.stacks[t], n);
    HoldsSystemWith(pcbs, s, t, s.stacks[t][..n]);
    HoldsSystemElsewhere(pcbs, WithStack(s, t, s.stacks[t][..n]), s.stacks[t][n].pid, pcb);
  }

  lemma PopTerminals(k: Tables, k': Tables, s: System, t: nat, stack: seq<Process>)
    requires Sized(k) && Sized(k') && |s.stacks| == 3 && |s.parked| == 3 && t < 3 && TerminalsAgree(k, s, -1)
    requires k'.terminalPid == k.terminalPid && k'.espEbpTerm == k.espEbpTerm
    requires k'.terminalProcessPids == k.terminalProcessPids[t := k'.terminalProcessPids[t]]
    ensures TerminalsAgree(k', WithStack(s, t, stack), t)
  {
    forall u | 0 <= u < 3
      ensures k.espEbpTerm[u] == Registers(s.parked[u])
      ensures u != t ==> TerminalAgrees(k', s.stacks[u], s.parked[u], u)
    {
      assert TerminalAgrees(k, s.stacks[u], s.parked[u], u);
    }
  }

  /** Ending the running process: its slot is free and its block is dead; the tables record the rest,
      leaving open what the terminal runs next. */
  lemma PopRecords(img: FS.Image, k: Tables, k': Tables, s: System)
    requires Represents(img, k, s) && Sized(k')
    requires var p := Top(s).pid;
      && p < MAX_PID
      && k'.cntPid == k.cntPid - 1 && k'.cntProgram == k.cntProgram - (if |s.stacks[s.running]| == 1 then 0 else 1)
      && k'.pidArr == k.pidArr[p := 0] && k'.pcbs == k.pcbs[p := k'.pcbs[p]]
      && k'.terminalPid == k.terminalPid && k'.espEbpTerm == k.espEbpTerm
      && k'.terminalProcessPids == k.terminalProcessPids[s.running := k'.terminalProcessPids[s.running]]
    ensures var stack := s.stacks[s.running];
      Records(k', WithStack(s, s.running, stack[..|stack| - 1]), s.running)
  {
    hide FS.WellFormed, StacksOk, StackShape, HoldsSystem, TerminalsAgree, LivePids, PidsOf, Injective, ParkedOk;
    PopLive(img, s);
    PopHolds(k.pcbs, s, s.running, k'.pcbs[Top(s).pid]);
    PopTerminals(k, k', s, s.running, s.stacks[s.running][..|s.stacks[s.running]| - 1]);
  }

  /** A program's halt, as a change of the tables: its slot is free, its block is dead, and its
      parent is the current process again. */
  lemma HaltProgramRecords(img: FS.Image, k: Tables, k': Tables, s: System, status: byte)
    requires Represents(img, k, s) && Sized(k') && |s.stacks[s.running]| > 1
    requires var stack := s.stacks[s.running]; var p, q := Top(s).pid, stack[|stack| - 2].pid;
      && p < MAX_PID && CurrentIs(k', q)
      && k' == k.(currentPCB := k'.currentPCB, cntPid := k.cntPid - 1, cntProgram := k.cntProgram - 1,
                  pidArr := k.pidArr[p := 0], pcbs := k.pcbs[p := k'.pcbs[p]],
                  terminalProcessPids := k.terminalProcessPids[s.running := q], pageSlot := k'.pageSlot,
                  tssEsp0 := k'.tssEsp0)
    ensures Represents(img, k', HaltStep(s, status).0)
  {
    hide FS.WellFormed, StacksOk, StackShape, HoldsSystem;
    PopRecords(img, k, k', s);
    HaltKeeps(img, s, status);
  }

  /** A base shell's halt: its slot is freed (k1), and then a new base shell is launched. */
  lemma HaltShellRecords(img: FS.Image, k: Tables, k1: Tables, k': Tables, s: System, status: byte, esp: int, ebp: int)
    requires Represents(img, k, s) && Sized(k1) && Sized(k') && |s.stacks[s.running]| == 1
    requires Top(s).pid < MAX_PID
    requires k1 == k.(cntPid := k.cntPid - 1, pidArr := k.pidArr[Top(s).pid := 0],
                      pcbs := k.pcbs[Top(s).pid := k1.pcbs[Top(s).pid]])
    requires Launched(k1, k', NO_PARENT, k1.cntProgram, esp, ebp)
    ensures Represents(img, k', HaltStep(s, status).0) && HaltStep(s, status).1 == Started(k'.currentPid)
  {
    hide FS.WellFormed, StacksOk, StackShape, HoldsSystem, Shows;
    var stack := s.stacks[s.running];
    PopRecords(img, k, k1, s);
    assert stack[..0] == [];
    var empty := WithStack(s, s.running, []);
    var shell := Shell(k'.currentPid, FRESH_TABLE);
    LaunchRecords(k1, k', empty, shell, esp, ebp);
    assert [] + [shell] == [shell];
    WithStackTwice(s, s.running, [], [shell]);
    HaltKeeps(img, s, status);
  }

  /** A program's launch under the running process. */
  lemma ExecuteRecords(img: FS.Image, k: Tables, k': Tables, s: System, name: seq<byte>, junk: seq<byte>,
                       esp: int, ebp: int)
    requires FS.WellFormed(img) && Represents(img, k, s) && Sized(k') && |junk| == HEADER
    requires k.cntPid < MAX_PID && k.cntProgram < MAX_PROGRAMS && Passes(img, name, junk)
    requires k'.currentPid != 0 && Launched(k, k', CurrentPid(k), k.cntProgram + 1, esp, ebp)
    ensures Represents(img, k', ExecuteStep(img, s, name, junk, esp, ebp).0)
    ensures ExecuteStep(img, s, name, junk, esp, ebp).1 == Started(k'.currentPid)
  {
    hide FS.WellFormed, StacksOk, StackShape, Passes, HoldsSystem, Holds, Shows, PidsAgree;
    TopHeld(img, k, s);
    var child := Program(k'.currentPid, FRESH_TABLE, Context(KernelStack(Top(s).pid), esp, ebp));
    LaunchRecords(k, k', s, child, esp, ebp);
    ExecuteKeeps(img, s, name, junk, esp, ebp);
  }

  lemma FreeSlot(pidArr: seq<nat>, s: System)
    requires |s.stacks| == 3 && PidsAgree(pidArr, LivePids(s)) && Total(s) < MAX_PID
    ensures exists p :: 0 <= p < MAX_PID && pidArr[p] == 0
  {
    FreePidExists(s);
    assert pidArr[LowestFree(s)] == 0;
  }

  lemma TopHeld(img: FS.Image, k: Tables, s: System)
    requires Represents(img, k, s)
    ensures var stack := s.stacks[s.running]; var n := |stack| - 1; var p := stack[n].pid;
      && p < MAX_PID && BlockOf(k.currentPCB) == p && Holds(k.pcbs[p], stack, n)
      && CurrentPid(k) == p && k.pidArr[p] != 0 && k.pidArr[0] != 0 && 0 < k.cntPid <= MAX_PID
      && (n > 0 ==>
            && k.cntProgram > 0 && stack[n].Program?
            && stack[n - 1].pid < MAX_PID && k.pcbs[stack[n - 1].pid].pid == stack[n - 1].pid != p)
  {
    hide FS.WellFormed, StackShape;
    var stack := s.stacks[s.running];
    var n := |stack| - 1;
    BlockOfAddress(stack[n].pid);
    HoldsOne(k.pcbs, s, s.running);
    PopLive(img, s);
    CountersAgree(img, s);
    StackAt(img, s, s.running);
    assert ProcessOk(img, stack, n);
    assert n > 0 ==> ProcessOk(img, stack, n - 1) && Holds(k.pcbs[stack[n - 1].pid], stack, n - 1);
    assert s.stacks[0][0] in s.stacks[0];
  }

  // ---- Descriptor changes ----

  /** Changing the running process' descriptors. */
  lemma FdsRecord(img: FS.Image, k: Tables, k': Tables, s: System, table: Table)
    requires Represents(img, k, s) && Sized(k') && TableOk(img, table)
    requires var p := Top(s).pid;
      && p < MAX_PID
      && k' == k.(pcbs := k.pcbs[p := k.pcbs[p].(fds := k'.pcbs[p].fds)]) && Shows(k'.pcbs[p].fds, table)
    ensures Represents(img, k', SetTopTable(s, table))
  {
    hide FS.WellFormed, StacksOk, StackShape, TableOk, HoldsAll, Holds, Shows;
    var t, stack, p := s.running, s.stacks[s.running], Top(s).pid;
    var n := |stack| - 1;
    var s' := SetTopTable(s, table);
    SetTopTableKeeps(img, s, table);
    SetTableLive(img, s, table);
    FdsHold(img, k, k'.pcbs[p].fds, s, table);
  }

  lemma SetTableLive(img: FS.Image, s: System, table: Table)
    requires Invariant(img, s)
    ensures LivePids(SetTopTable(s, table)) == LivePids(s) && Total(SetTopTable(s, table)) == Total(s)
    ensures Programs(SetTopTable(s, table)) == Programs(s)
  {
    hide FS.WellFormed, StacksOk, StackShape;
    var stack := s.stacks[s.running];
    var n := |stack| - 1;
    SamePids(stack, stack[n := stack[n].(fds := table)]);
    assert s.running == 0 || s.running == 1 || s.running == 2;
  }

  lemma RepresentsInvariant(img: FS.Image, k: Tables, s: System)
    requires Represents(img, k, s)
    ensures Invariant(img, s)
  {
  }

  lemma RepresentsShape(img: FS.Image, k: Tables, s: System)
    requires Represents(img, k, s)
    ensures Shape(s) && HoldsSystem(k.pcbs, s) && |k.pcbs| == MAX_PID
  {
  }

  lemma ChangedHolds(pcb: Pcb, fds: seq<FdEntry>, stack: seq<Process>, table: Table)
    requires stack != [] && Holds(pcb, stack, |stack| - 1) && Shows(fds, table)
    ensures var n := |stack| - 1; Holds(pcb.(fds := fds), stack[..n] + [stack[n].(fds := table)], n)
  {
  }

  lemma FdsHold(img: FS.Image, k: Tables, fds: seq<FdEntry>, s: System, table: Table)
    requires Represents(img, k, s) && Top(s).pid < MAX_PID && Shows(fds, table)
    ensures var p := Top(s).pid; HoldsSystem(k.pcbs[p := k.pcbs[p].(fds := fds)], SetTopTable(s, table))
  {
    hide FS.WellFormed, Invariant, HoldsAll, Holds, HoldsSystem, LivePids, Shows, CurrentIs, Records, StackShape;
    assert Shape(s) && HoldsSystem(k.pcbs, s) && |k.pcbs| == MAX_PID by { RepresentsShape(img, k, s); }
    var t, stack, p := s.running, s.stacks[s.running], Top(s).pid;
    var n := |stack| - 1;
    var rest := WithStack(s, t, stack[..n]);
    var pcbs := k.pcbs[p := k.pcbs[p].(fds := fds)];
    var changed := stack[n].(fds := table);
    PopLive(img, s);
    TopHeld(img, k, s);
    PopHolds(k.pcbs, s, t, pcbs[p]);
    HoldsOne(pcbs, rest, t);
    ChangedHolds(k.pcbs[p], fds, stack, table);
    HoldsPush(pcbs, stack[..n], changed);
    LastChanged(stack, changed);
    HoldsSystemWith(pcbs, rest, t, stack[n := changed]);
    WithStackTwice(s, t, stack[..n], stack[n := changed]);
  }

  /** A call that changes at most the running process' descriptors. */
  lemma TopRecords(img: FS.Image, k: Tables, k': Tables, s: System, s': System)
    requires Represents(img, k, s) && Sized(k') && Invariant(img, s') && s' == SetTopTable(s, Top(s').fds)
    requires var p := Top(s).pid;
      && p < MAX_PID
      && k' == k.(pcbs := k.pcbs[p := k.pcbs[p].(fds := k'.pcbs[p].fds)]) && Shows(k'.pcbs[p].fds, Top(s').fds)
    ensures Represents(img, k', s')
  {
    hide FS.WellFormed, StacksOk, StackShape, Records, Shows;
    TopTableOk(img, s');
    FdsRecord(img, k, k', s, Top(s').fds);
  }

  /** A read changes at most the running process' table. */
  lemma ReadSetsTop(img: FS.Image, s: System, fd: int, nbytes: int, device: int)
    requires FS.WellFormed(img) && Shape(s) && ReadAllowed(img, s, fd, nbytes)
    ensures var s' := ReadStep(img, s, fd, nbytes, device).0;
      Shape(s') && SetTopTable(s, Top(s').fds) == s'
  {
    hide FS.WellFormed;
    var stack := s.stacks[s.running];
    assert stack[|stack| - 1 := Top(s).(fds := Top(s).fds)] == stack;
    assert SetTopTable(s, Top(s).fds) == s;
  }

  /** read's table change: the one descriptor has moved on. */
  lemma ReadRecords(img: FS.Image, k: Tables, k': Tables, s: System, fd: nat, nbytes: int, device: int)
    requires FS.WellFormed(img) && Represents(img, k, s) && Sized(k') && ReadAllowed(img, s, fd, nbytes)
    requires fd < MAX_FD && Top(s).pid < MAX_PID && |Top(s).fds| == MAX_FD && Top(s).fds[fd].Some?
    requires var p := Top(s).pid;
      && k' == k.(pcbs := k.pcbs[p := k.pcbs[p].(fds := k'.pcbs[p].fds)])
      && Shows(k.pcbs[p].fds, Top(s).fds)
      && k'.pcbs[p].fds == k.pcbs[p].fds[fd := k'.pcbs[p].fds[fd]]
      && View(k'.pcbs[p].fds[fd]) == Some(AfterRead(img, Top(s).fds[fd].value, nbytes))
    ensures Represents(img, k', ReadStep(img, s, fd, nbytes, device).0)
  {
    hide FS.WellFormed, StacksOk, Records, ReadBytes, AfterRead;
    ReadKeeps(img, s, fd, nbytes, device);
    ReadSetsTop(img, s, fd, nbytes, device);
    var s' := ReadStep(img, s, fd, nbytes, device).0;
    assert Shows(k'.pcbs[Top(s).pid].fds, Top(s').fds);
    TopRecords(img, k, k', s, s');
  }

  // ---- Switching ----

  /** The tables just after the timer handler has saved the running terminal's registers and the
      scheduler has moved on to terminal `next`. */
  function Moved(k: Tables, next: nat, started: bool, esp: int, ebp: int): Tables
    requires next < 3 && 0 <= k.processTerminal < 3 && |k.espEbpTerm| == 3 && |k.terminalPid| == 3
  {
    k.(espEbpTerm := k.espEbpTerm[k.processTerminal := (esp, ebp)], processTerminal := next,
       terminalPid := if started then k.terminalPid else k.terminalPid[next := next])
  }

  /** The next terminal, whether it is started, and what starting it needs. */
  lemma NextTerminal(img: FS.Image, k: Tables, s: System)
    requires Represents(img, k, s)
    ensures var next := (s.running + 1) % 3;
      && k.cntPid > 0
      && (k.terminalPid[next] == -1 <==> s.stacks[next] == [])
      && (s.stacks[next] == [] ==> k.cntPid < MAX_PID && exists p :: 0 <= p < MAX_PID && k.pidArr[p] == 0)
      && (s.stacks[next] != [] ==>
            var stack := s.stacks[next];
            k.terminalProcessPids[next] == stack[|stack| - 1].pid < MAX_PID)
  {
    hide FS.WellFormed, HoldsSystem;
    var next := (s.running + 1) % 3;
    assert TerminalAgrees(k, s.stacks[next], s.parked[next], next);
    if s.stacks[next] == [] {
      FreeSlot(k.pidArr, s);
    } else {
      StackAt(img, s, next);
      assert ProcessOk(img, s.stacks[next], |s.stacks[next]| - 1);
    }
  }

  lemma MovedRecords(k: Tables, s: System, c: Context)
    requires Sized(k) && |s.stacks| == 3 && |s.parked| == 3 && s.running == k.processTerminal
    requires Records(k, s, -1)
    ensures var next := (s.running + 1) % 3; var started := s.stacks[next] != [];
      Records(Moved(k, next, started, c.esp, c.ebp), s.(parked := s.parked[s.running := Some(c)], running := next),
              if started then -1 else next)
  {
    hide HoldsAll;
    var next := (s.running + 1) % 3;
    var started := s.stacks[next] != [];
    var k' := Moved(k, next, started, c.esp, c.ebp);
    var s' := s.(parked := s.parked[s.running := Some(c)], running := next);
    assert LivePids(s') == LivePids(s);
    forall t | 0 <= t < 3 && (started || t != next) ensures TerminalAgrees(k', s'.stacks[t], s'.parked[t], t) {
      assert TerminalAgrees(k, s.stacks[t], s.parked[t], t);
    }
    assert TerminalAgrees(k, s.stacks[next], s.parked[next], next);
  }

  /** A tick that resumes a started terminal. */
  lemma TickResumeRecords(img: FS.Image, k: Tables, k': Tables, s: System, esp: int, ebp: int)
    requires Represents(img, k, s) && Sized(k') && s.stacks[(s.running + 1) % 3] != []
    requires var next := (s.running + 1) % 3; var pid := k.terminalProcessPids[next];
      && 0 <= pid && CurrentIs(k', pid)
      && k' == Moved(k, next, true, esp, ebp).(
                 currentPCB := k'.currentPCB, pageSlot := k'.pageSlot, tssEsp0 := k'.tssEsp0)
    ensures Represents(img, k', TickStep(s, esp, ebp).0)
    ensures TickStep(s, esp, ebp).1.Rescheduled?
    ensures k.espEbpTerm[(s.running + 1) % 3] == Registers(TickStep(s, esp, ebp).1.from)
  {
    hide FS.WellFormed, StacksOk, StackShape, HoldsSystem;
    var next := (s.running + 1) % 3;
    TickKeeps(img, s, esp, ebp);
    MovedRecords(k, s, Context(KernelStack(Top(s).pid), esp, ebp));
    assert TerminalAgrees(k, s.stacks[next], s.parked[next], next);
    var s' := TickStep(s, esp, ebp).0;
    assert Records(Moved(k, next, true, esp, ebp), s', -1);
  }

  /** A tick that starts a terminal's base shell. */
  lemma TickStartRecords(img: FS.Image, k: Tables, k': Tables, s: System, esp: int, ebp: int, esp1: int, ebp1: int)
    requires Represents(img, k, s) && Sized(k') && s.stacks[(s.running + 1) % 3] == []
    requires Launched(Moved(k, (s.running + 1) % 3, false, esp, ebp), k', NO_PARENT, k.cntProgram, esp1, ebp1)
    ensures Represents(img, k', TickStep(s, esp, ebp).0)
    ensures TickStep(s, esp, ebp).1 == Started(k'.currentPid)
  {
    hide FS.WellFormed, StacksOk, StackShape, HoldsSystem, Shows;
    var next := (s.running + 1) % 3;
    TickKeeps(img, s, esp, ebp);
    var c := Context(KernelStack(Top(s).pid), esp, ebp);
    MovedRecords(k, s, c);
    var saved := s.(parked := s.parked[s.running := Some(c)], running := next);
    var k1 := Moved(k, next, false, esp, ebp);
    assert Records(k1, saved, next);
    var shell := Shell(k'.currentPid, FRESH_TABLE);
    LaunchRecords(k1, k', saved, shell, esp1, ebp1);
    assert [] + [shell] == [shell];
    TickStartsShell(s, esp, ebp);
    assert LowestFree(saved) == LowestFree(s);
    assert TickStep(s, esp, ebp).0 == WithStack(saved, next, [shell]);
  }
}
