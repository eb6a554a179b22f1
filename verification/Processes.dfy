/** Three terminals, each with a stack of processes, scheduled round robin: the meaning of execute,
    halt, the timer tick and the descriptor calls, free of the kernel's redundant bookkeeping
    (student-distrib/syscall.c, scheduler.c, pit.c). */
module Processes {
  import opened Bytes
  import FS = FileSystem

  const MAX_PID := 6
  const MAX_PROGRAMS := 3
  const MAX_FD := 8
  const HEADER := 30 // bytes of a file that execute checks
  const EIGHT_MB := 0x80_0000
  const EIGHT_KB := 0x2000
  const PROGRAM_SIZE := 0x40_0000
  const SHELL: seq<byte> := [115, 104, 101, 108, 108]
  const ELF_MAGIC: seq<byte> := [0x7f, 0x45, 0x4c, 0x46]

  /** Where process `pid` keeps its kernel stack, its control block and its program. */
  function KernelStack(pid: int): int { EIGHT_MB - pid * EIGHT_KB - 4 }
  function PcbAddress(pid: int): int { EIGHT_MB - EIGHT_KB * (pid + 1) }
  function PageFrame(pid: int): int { (EIGHT_MB + pid * PROGRAM_SIZE) / PROGRAM_SIZE }

  /** A saved (esp, ebp) pair, tagged with the kernel stack on which it was taken. */
  datatype Context = Context(stack: int, esp: int, ebp: int)

  datatype Operations = RtcOps | DirOps | FileOps | TerminalOps
  datatype OpenFile = OpenFile(ops: Operations, inode: nat, position: nat)
  type Table = seq<Option<OpenFile>>

  const FRESH_TABLE: Table :=
    [Some(OpenFile(TerminalOps, 0, 0)), Some(OpenFile(TerminalOps, 0, 0)), None, None, None, None, None, None]

  /** A base shell, or a program that some process of the same terminal executed. */
  datatype Process =
    | Shell(pid: nat, fds: Table)
    | Program(pid: nat, fds: Table, saved: Context)

  /** stacks[t] lists terminal t's processes, base shell first; parked[t] is the context taken at
      the terminal's latest preemption. */
  datatype System = System(stacks: seq<seq<Process>>, running: nat, parked: seq<Option<Context>>)

  datatype Event =
    | Execute(name: seq<byte>, junk: seq<byte>, esp: int, ebp: int) // junk: what execute's header buffer held
    | Halt(status: byte)
    | Tick(esp: int, ebp: int)
    | Open(name: seq<byte>)
    | Close(fd: int)
    | Read(fd: int, nbytes: int, device: int)
    | Display(terminal: int)

  datatype Effect =
    | Returned(value: int)
    | Delivered(data: seq<byte>)
    | Started(pid: nat)
    | Resumed(to: Context, status: byte)
    | Rescheduled(from: Option<Context>)

  /** A terminal's stack: a base shell at the bottom and programs above it. */
  ghost predicate StackShape(stack: seq<Process>) {
    forall i :: 0 <= i < |stack| ==> |stack[i].fds| == MAX_FD && (stack[i].Shell? <==> i == 0)
  }

  /** The shape that every step needs in order to be defined. */
  ghost predicate Shape(s: System) {
    && |s.stacks| == 3 && |s.parked| == 3 && s.running < 3
    && s.stacks[s.running] != []
    && forall t :: 0 <= t < 3 ==> StackShape(s.stacks[t])
  }

  ghost function Top(s: System): Process
    requires Shape(s)
  {
    var stack := s.stacks[s.running];
    stack[|stack| - 1]
  }

  ghost function WithStack(s: System, t: nat, stack: seq<Process>): System
    requires t < |s.stacks|
  {
    s.(stacks := s.stacks[t := stack])
  }

  // ---- Counting ----

  function Total(s: System): nat
    requires |s.stacks| == 3
  {
    |s.stacks[0]| + |s.stacks[1]| + |s.stacks[2]|
  }

  /** Processes above a terminal's base shell. */
  function Above(stack: seq<Process>): nat {
    if stack == [] then 0 else |stack| - 1
  }

  function Programs(s: System): nat
    requires |s.stacks| == 3
  {
    Above(s.stacks[0]) + Above(s.stacks[1]) + Above(s.stacks[2])
  }

  function StartedShells(s: System): nat
    requires |s.stacks| == 3
  {
    Total(s) - Programs(s)
  }

  ghost function PidsOf(stack: seq<Process>): set<nat> {
    set p | p in stack :: p.pid
  }

  ghost function LivePids(s: System): set<nat>
    requires |s.stacks| == 3
  {
    PidsOf(s.stacks[0]) + PidsOf(s.stacks[1]) + PidsOf(s.stacks[2])
  }

  /** The first pid from p on that is not in use, or MAX_PID. */
  ghost function LowestFrom(used: set<nat>, p: nat): (r: nat)
    requires p <= MAX_PID
    ensures p <= r <= MAX_PID && (r < MAX_PID ==> r !in used)
    ensures forall q :: p <= q < r ==> q in used
    decreases MAX_PID - p
  {
    if p == MAX_PID || p !in used then p else LowestFrom(used, p + 1)
  }

  ghost function LowestFree(s: System): nat
    requires |s.stacks| == 3
  {
    LowestFrom(LivePids(s), 0)
  }

  // ---- Steps ----

  ghost predicate IsExecutable(img: FS.Image, name: seq<byte>)
    requires FS.WellFormed(img)
  {
    FS.LookupFindsNames(img, 0, name);
    var entry := FS.Lookup(img, name);
    entry.Some? && ELF_MAGIC <= FS.Slice(FS.View(img, entry.value.inode), 0, HEADER)
  }

  /** The header buffer of execute after the front of a file was read into it. */
  function Overlaid(header: seq<byte>, junk: seq<byte>): seq<byte>
    requires |header| <= |junk|
  {
    header + junk[|header|..]
  }

  /** The file exists, and the header buffer then starts with the ELF magic number. */
  ghost predicate Passes(img: FS.Image, name: seq<byte>, junk: seq<byte>)
    requires FS.WellFormed(img) && |junk| == HEADER
  {
    FS.LookupFindsNames(img, 0, name);
    var entry := FS.Lookup(img, name);
    entry.Some? && ELF_MAGIC <= Overlaid(FS.Slice(FS.View(img, entry.value.inode), 0, HEADER), junk)
  }

  /** The check passes files that start with the magic number, and an empty file if the uninitialised
      buffer starts with it. A shorter file never passes: its last byte reads as a newline. */
  lemma PassesExactly(img: FS.Image, name: seq<byte>, junk: seq<byte>)
    requires FS.WellFormed(img) && |junk| == HEADER
    ensures var entry := FS.Lookup(img, name);
      && (entry.Some? ==> entry.value.inode < |img.inodes|)
      && var emptyPasses := entry.Some? && FS.View(img, entry.value.inode) == [] && ELF_MAGIC <= junk;
      (Passes(img, name, junk) <==> IsExecutable(img, name) || emptyPasses)
  {
    FS.LookupFindsNames(img, 0, name);
    var entry := FS.Lookup(img, name);
    if entry.Some? {
      HeaderPasses(FS.View(img, entry.value.inode), junk);
    }
  }

  lemma HeaderPasses(v: seq<byte>, junk: seq<byte>)
    requires |junk| == HEADER && (v != [] ==> v[|v| - 1] == NEWLINE)
    ensures |FS.Slice(v, 0, HEADER)| <= HEADER
    ensures ELF_MAGIC <= Overlaid(FS.Slice(v, 0, HEADER), junk)
       <==> ELF_MAGIC <= FS.Slice(v, 0, HEADER) || (v == [] && ELF_MAGIC <= junk)
  {
    var header := FS.Slice(v, 0, HEADER);
    var buffer := Overlaid(header, junk);
    if v == [] {
      assert buffer == junk;
    } else if |v| < 4 {
      assert header == v && buffer[|v| - 1] == NEWLINE;
      assert ELF_MAGIC[|v| - 1] != NEWLINE;
    } else {
      assert buffer[..4] == header[..4];
    }
  }

  ghost function ExecuteStep(img: FS.Image, s: System, name: seq<byte>, junk: seq<byte>, esp: int, ebp: int)
      : (System, Effect)
    requires FS.WellFormed(img) && Shape(s) && |junk| == HEADER
  {
    if Total(s) >= MAX_PID || Programs(s) >= MAX_PROGRAMS || !Passes(img, name, junk) then (s, Returned(-1))
    else
      var p := LowestFree(s);
      var child := Program(p, FRESH_TABLE, Context(KernelStack(Top(s).pid), esp, ebp));
      (WithStack(s, s.running, s.stacks[s.running] + [child]), Started(p))
  }

  /** A fresh base shell on terminal t, whose stack is replaced. */
  ghost function StartShell(s: System, t: nat): (System, Effect)
    requires |s.stacks| == 3 && t < 3
  {
    var p := LowestFree(WithStack(s, t, []));
    (WithStack(s, t, [Shell(p, FRESH_TABLE)]), Started(p))
  }

  ghost function HaltStep(s: System, status: byte): (System, Effect)
    requires Shape(s)
  {
    var stack := s.stacks[s.running];
    if |stack| == 1 then StartShell(s, s.running)
    else (WithStack(s, s.running, stack[..|stack| - 1]), Resumed(Top(s).saved, status))
  }

  ghost function TickStep(s: System, esp: int, ebp: int): (System, Effect)
    requires Shape(s)
  {
    var next := (s.running + 1) % 3;
    var saved := s.(parked := s.parked[s.running := Some(Context(KernelStack(Top(s).pid), esp, ebp))], running := next);
    if s.stacks[next] == [] then StartShell(saved, next)
    else (saved, Rescheduled(s.parked[next]))
  }

  ghost function SetTopTable(s: System, fds: Table): System
    requires Shape(s)
  {
    var stack := s.stacks[s.running];
    WithStack(s, s.running, stack[|stack| - 1 := Top(s).(fds := fds)])
  }

  /** The first unused descriptor from i on, or MAX_FD. */
  function FreeFrom(fds: Table, i: nat): (r: nat)
    requires |fds| == MAX_FD && i <= MAX_FD
    ensures i <= r <= MAX_FD && (r < MAX_FD ==> fds[r].None?)
    ensures forall j :: i <= j < r ==> fds[j].Some?
    decreases MAX_FD - i
  {
    if i == MAX_FD || fds[i].None? then i else FreeFrom(fds, i + 1)
  }

  function OperationsOf(kind: nat): Operations {
    if kind == 0 then RtcOps else if kind == 1 then DirOps else FileOps
  }

  ghost function OpenStep(img: FS.Image, s: System, name: seq<byte>): (System, Effect)
    requires FS.WellFormed(img) && Shape(s)
  {
    var entry := FS.Lookup(img, name);
    var fds := Top(s).fds;
    var fd := FreeFrom(fds, 2);
    if name == [] || entry.None? || fd == MAX_FD then (s, Returned(-1))
    else (SetTopTable(s, fds[fd := Some(OpenFile(OperationsOf(entry.value.kind), entry.value.inode, 0))]), Returned(fd))
  }

  ghost function CloseStep(s: System, fd: int): (System, Effect)
    requires Shape(s)
  {
    var fds := Top(s).fds;
    if fd < 2 || fd >= MAX_FD || fds[fd].None? then (s, Returned(-1))
    else (SetTopTable(s, fds[fd := None]), Returned(0))
  }

  /** The bytes that a read of an open file or directory delivers. */
  ghost function ReadBytes(img: FS.Image, f: OpenFile, nbytes: int): seq<byte>
    requires FS.WellFormed(img) && -0x8000_0000 <= nbytes < 0x8000_0000
    requires f.ops.FileOps? ==> f.inode < |img.inodes|
  {
    if f.ops.FileOps? then FS.Slice(FS.View(img, f.inode), f.position, FS.UnsignedLength(nbytes))
    else if f.ops.DirOps? && f.position <= |img.inodes| then CString(img.dentries[f.position].name)
    else []
  }

  /** The descriptor after that read. */
  ghost function AfterRead(img: FS.Image, f: OpenFile, nbytes: int): OpenFile
    requires FS.WellFormed(img) && -0x8000_0000 <= nbytes < 0x8000_0000
    requires f.ops.FileOps? ==> f.inode < |img.inodes|
  {
    if f.ops.FileOps? then f.(position := f.position + |ReadBytes(img, f, nbytes)|)
    else if f.ops.DirOps? && f.position <= |img.inodes| then f.(position := f.position + 1)
    else f
  }

  ghost predicate ReadAllowed(img: FS.Image, s: System, fd: int, nbytes: int)
    requires Shape(s)
  {
    && -0x8000_0000 <= nbytes < 0x8000_0000
    && (0 <= fd < MAX_FD && Top(s).fds[fd].Some? && Top(s).fds[fd].value.ops.FileOps? ==>
          Top(s).fds[fd].value.inode < |img.inodes|)
  }

  ghost function ReadStep(img: FS.Image, s: System, fd: int, nbytes: int, device: int): (System, Effect)
    requires FS.WellFormed(img) && Shape(s) && ReadAllowed(img, s, fd, nbytes)
  {
    var fds := Top(s).fds;
    if fd < 0 || fd >= MAX_FD || fds[fd].None? then (s, Returned(-1))
    else
      var f := fds[fd].value;
      var effect := if f.ops.FileOps? || f.ops.DirOps? then Delivered(ReadBytes(img, f, nbytes)) else Returned(device);
      (SetTopTable(s, fds[fd := Some(AfterRead(img, f, nbytes))]), effect)
  }

  lemma TopReads(img: FS.Image, s: System, fd: int)
    requires Invariant(img, s)
    ensures |Top(s).fds| == MAX_FD
    ensures 0 <= fd < MAX_FD && Top(s).fds[fd].Some? && Top(s).fds[fd].value.ops.FileOps? ==>
      Top(s).fds[fd].value.inode < |img.inodes|
  {
    hide Distinct, StackShape, ParkedOk;
    var stack := s.stacks[s.running];
    assert StackOk(img, stack) && ProcessOk(img, stack, |stack| - 1);
    TableReads(img, Top(s).fds, fd);
  }

  lemma TableReads(img: FS.Image, fds: Table, fd: int)
    requires TableOk(img, fds)
    ensures 0 <= fd < MAX_FD && fds[fd].Some? && fds[fd].value.ops.FileOps? ==> fds[fd].value.inode < |img.inodes|
  {
    if 0 <= fd < 2 {
      assert fds[fd] == fds[..2][fd] == FRESH_TABLE[..2][fd];
    }
  }

  ghost function Step(img: FS.Image, s: System, e: Event): (System, Effect)
    requires FS.WellFormed(img) && Invariant(img, s) && Possible(e)
  {
    match e
    case Execute(name, junk, esp, ebp) => ExecuteStep(img, s, name, junk, esp, ebp)
    case Halt(status) => HaltStep(s, status)
    case Tick(esp, ebp) => TickStep(s, esp, ebp)
    case Open(name) => OpenStep(img, s, name)
    case Close(fd) => CloseStep(s, fd)
    case Read(fd, nbytes, device) =>
      TopReads(img, s, fd);
      ReadStep(img, s, fd, nbytes, device)
    case Display(_) => (s, Returned(0))
  }

  /** Arguments are 32-bit. */
  predicate Possible(e: Event) {
    && (e.Read? ==> -0x8000_0000 <= e.nbytes < 0x8000_0000)
    && (e.Execute? ==> |e.junk| == HEADER)
  }

  // ---- The invariant of every run ----

  ghost predicate TableOk(img: FS.Image, fds: Table) {
    && |fds| == MAX_FD
    && fds[..2] == FRESH_TABLE[..2]
    && forall f {:trigger fds[f]} :: 2 <= f < MAX_FD && fds[f].Some? ==>
         && !fds[f].value.ops.TerminalOps?
         && (fds[f].value.ops.FileOps? ==>
               && fds[f].value.inode < |img.inodes|
               && fds[f].value.position <= img.inodes[fds[f].value.inode].length)
  }

  /** One process of a terminal's stack: a program's saved context lies on the kernel stack of the
      process below it. */
  ghost predicate ProcessOk(img: FS.Image, stack: seq<Process>, i: nat)
    requires i < |stack|
  {
    && stack[i].pid < MAX_PID
    && (stack[i].Shell? <==> i == 0)
    && (i > 0 ==> stack[i].saved.stack == KernelStack(stack[i - 1].pid))
    && TableOk(img, stack[i].fds)
  }

  ghost predicate StackOk(img: FS.Image, stack: seq<Process>) {
    forall i :: 0 <= i < |stack| ==> ProcessOk(img, stack, i)
  }

  ghost predicate Injective(stack: seq<Process>) {
    forall i, j :: 0 <= i < j < |stack| ==> stack[i].pid != stack[j].pid
  }

  /** No pid is used twice, on one terminal or across terminals. */
  ghost predicate Distinct(s: System)
    requires |s.stacks| == 3
  {
    && Injective(s.stacks[0]) && Injective(s.stacks[1]) && Injective(s.stacks[2])
    && PidsOf(s.stacks[0]) !! PidsOf(s.stacks[1])
    && PidsOf(s.stacks[0]) !! PidsOf(s.stacks[2])
    && PidsOf(s.stacks[1]) !! PidsOf(s.stacks[2])
  }

  /** A terminal that is started but not running is parked on its top process' kernel stack. */
  ghost predicate ParkedOk(stack: seq<Process>, parked: Option<Context>) {
    stack != [] ==> parked.Some? && parked.value.stack == KernelStack(stack[|stack| - 1].pid)
  }

  /** Everything but who is running: enough to start a base shell. */
  ghost predicate StacksOk(img: FS.Image, s: System) {
    && |s.stacks| == 3 && |s.parked| == 3 && s.running < 3
    && Distinct(s)
    && Programs(s) <= MAX_PROGRAMS
    && StackOk(img, s.stacks[0]) && StackOk(img, s.stacks[1]) && StackOk(img, s.stacks[2])
    && (forall t :: 0 <= t < 3 && t != s.running ==> ParkedOk(s.stacks[t], s.parked[t]))
  }

  ghost predicate Invariant(img: FS.Image, s: System) {
    && Shape(s)
    && StacksOk(img, s)
    && s.stacks[0] != [] && s.stacks[0][0].pid == 0
  }

  /** The system just after the kernel has executed the first shell. */
  ghost function Boot(parked: Option<Context>): System {
    System([[Shell(0, FRESH_TABLE)], [], []], 0, [parked, None, None])
  }

  // ---- A free pid exists whenever the limits have been checked ----

  lemma {:induction false} PidsOfSmall(stack: seq<Process>)
    ensures |PidsOf(stack)| <= |stack|
  {
    if stack != [] {
      PidsOfSmall(stack[1..]);
      assert PidsOf(stack) == {stack[0].pid} + PidsOf(stack[1..]);
    }
  }

  lemma FreePidExists(s: System)
    requires |s.stacks| == 3 && Total(s) < MAX_PID
    ensures LowestFree(s) < MAX_PID
  {
    for t := 0 to 3
      invariant forall u :: 0 <= u < t ==> |PidsOf(s.stacks[u])| <= |s.stacks[u]|
    {
      PidsOfSmall(s.stacks[t]);
    }
    var live := LivePids(s);
    assert |live| <= Total(s);
    if LowestFree(s) == MAX_PID {
      var all := {0, 1, 2, 3, 4, 5};
      assert all <= live;
      assert |all| <= |live| by { SubsetSmall(all, live); }
    }
  }

  lemma {:induction false} SubsetSmall(a: set<nat>, b: set<nat>)
    requires a <= b
    ensures |a| <= |b|
  {
    assert b == a + (b - a);
  }

  lemma LiveMeans(s: System, p: nat)
    requires |s.stacks| == 3
    ensures p in LivePids(s) <==>
      exists t, i :: 0 <= t < 3 && 0 <= i < |s.stacks[t]| && s.stacks[t][i].pid == p
  {
    if p in LivePids(s) {
      var t :| 0 <= t < 3 && p in PidsOf(s.stacks[t]);
      var q :| q in s.stacks[t] && q.pid == p;
      var i :| 0 <= i < |s.stacks[t]| && s.stacks[t][i] == q;
    }
  }
}
