/** What holds over every run of the process system: the invariant, the bracketing of execute by
    halt, the soundness of context switches, and the isolation of descriptor tables. */
module ProcessRuns {
  import opened Bytes
  import opened Processes
  import FS = FileSystem

  // ---- Every step keeps the invariant ----

  lemma BootIsGood(img: FS.Image, parked: Option<Context>)
    requires FS.WellFormed(img)
    ensures Invariant(img, Boot(parked))
  {
  }

  lemma SameProcessOk(img: FS.Image, stack: seq<Process>, other: seq<Process>, i: nat)
    requires i < |stack| && i < |other| && ProcessOk(img, stack, i)
    requires other[i] == stack[i] && (i > 0 ==> other[i - 1].pid == stack[i - 1].pid)
    ensures ProcessOk(img, other, i)
  {
  }

  /** Pushing a process with a fresh pid. */
  lemma PushOk(img: FS.Image, stack: seq<Process>, proc: Process)
    requires StackOk(img, stack) && Injective(stack) && proc.pid !in PidsOf(stack)
    requires ProcessOk(img, stack + [proc], |stack|)
    ensures StackOk(img, stack + [proc]) && Injective(stack + [proc])
    ensures PidsOf(stack + [proc]) == PidsOf(stack) + {proc.pid}
  {
    var pushed := stack + [proc];
    forall i | 0 <= i < |pushed| ensures ProcessOk(img, pushed, i) {
      if i < |stack| {
        SameProcessOk(img, stack, pushed, i);
      }
    }
    PushedPids(stack, proc);
  }

  lemma PushedPids(stack: seq<Process>, proc: Process)
    requires Injective(stack) && proc.pid !in PidsOf(stack)
    ensures Injective(stack + [proc])
    ensures PidsOf(stack + [proc]) == PidsOf(stack) + {proc.pid}
  {
    var pushed := stack + [proc];
    assert proc in pushed;
    assert forall p :: p in pushed <==> p in stack || p == proc;
    assert forall i :: 0 <= i < |stack| ==> stack[i] in stack;
  }

  lemma PopInjective(stack: seq<Process>)
    requires Injective(stack) && stack != []
    ensures var rest := stack[..|stack| - 1];
      Injective(rest) && PidsOf(rest) <= PidsOf(stack) && stack[|stack| - 1].pid !in PidsOf(rest)
  {
  }

  lemma PopOk(img: FS.Image, stack: seq<Process>)
    requires StackOk(img, stack) && Injective(stack) && stack != []
    ensures var rest := stack[..|stack| - 1];
      StackOk(img, rest) && Injective(rest) && StackShape(rest) && PidsOf(rest) <= PidsOf(stack)
      && stack[|stack| - 1].pid !in PidsOf(rest)
  {
    var rest := stack[..|stack| - 1];
    PopInjective(stack);
    assert forall i :: 0 <= i < |rest| ==> ProcessOk(img, stack, i) && rest[i] == stack[i];
  }

  lemma SetTableOk(img: FS.Image, stack: seq<Process>, fds: Table)
    requires StackOk(img, stack) && Injective(stack) && stack != [] && TableOk(img, fds)
    ensures var n := |stack| - 1; var changed := stack[n := stack[n].(fds := fds)];
      StackOk(img, changed) && Injective(changed) && StackShape(changed) && PidsOf(changed) == PidsOf(stack)
  {
    var n := |stack| - 1;
    var changed := stack[n := stack[n].(fds := fds)];
    forall i | 0 <= i < |stack| ensures ProcessOk(img, changed, i) && changed[i].pid == stack[i].pid {
      assert ProcessOk(img, stack, i);
    }
    SamePids(stack, changed);
  }

  lemma SamePids(a: seq<Process>, b: seq<Process>)
    requires |a| == |b| && forall i :: 0 <= i < |a| ==> b[i].pid == a[i].pid
    ensures PidsOf(a) == PidsOf(b)
  {
    forall p | p in PidsOf(a) ensures p in PidsOf(b) {
      var i :| 0 <= i < |a| && a[i].pid == p;
      assert b[i] in b;
    }
    forall p | p in PidsOf(b) ensures p in PidsOf(a) {
      var i :| 0 <= i < |b| && b[i].pid == p;
      assert a[i] in a;
    }
  }

  lemma StackOkShape(img: FS.Image, stack: seq<Process>)
    requires StackOk(img, stack)
    ensures StackShape(stack)
  {
    forall i | 0 <= i < |stack| ensures |stack[i].fds| == MAX_FD && (stack[i].Shell? <==> i == 0) {
      assert ProcessOk(img, stack, i);
    }
  }

  lemma OkShape(img: FS.Image, s: System)
    requires StacksOk(img, s) && s.stacks[s.running] != []
    ensures Shape(s)
  {
    StackOkShape(img, s.stacks[0]);
    StackOkShape(img, s.stacks[1]);
    StackOkShape(img, s.stacks[2]);
  }

  lemma ExecuteKeeps(img: FS.Image, s: System, name: seq<byte>, junk: seq<byte>, esp: int, ebp: int)
    requires FS.WellFormed(img) && Invariant(img, s) && |junk| == HEADER
    ensures Invariant(img, ExecuteStep(img, s, name, junk, esp, ebp).0)
  {
    hide FS.WellFormed, Passes, StackShape, ParkedOk;
    var r := ExecuteStep(img, s, name, junk, esp, ebp);
    if r.1.Started? {
      FreePidExists(s);
      var child := Program(LowestFree(s), FRESH_TABLE, Context(KernelStack(Top(s).pid), esp, ebp));
      PushOk(img, s.stacks[s.running], child);
      OkShape(img, r.0);
    }
  }

  /** Starting a base shell where none runs needs no limit check: three terminals and three
      programs leave a pid free, and pid 0 goes to terminal 0. */
  lemma StartShellKeeps(img: FS.Image, s: System, t: nat)
    requires StacksOk(img, s) && t == s.running && s.stacks[t] == []
    requires t == 0 ==> 0 !in LivePids(s)
    requires t != 0 ==> s.stacks[0] != [] && s.stacks[0][0].pid == 0
    ensures StartShell(s, t).1.pid < MAX_PID
    ensures Invariant(img, StartShell(s, t).0)
  {
    assert WithStack(s, t, []) == s;
    FreePidExists(s);
    var shell := Shell(LowestFree(s), FRESH_TABLE);
    assert s.stacks[t] + [shell] == [shell];
    PushOk(img, s.stacks[t], shell);
    OkShape(img, StartShell(s, t).0);
  }

  /** The system without the running terminal's top process. */
  lemma PoppedOk(img: FS.Image, s: System)
    requires Invariant(img, s)
    ensures var stack := s.stacks[s.running]; var popped := WithStack(s, s.running, stack[..|stack| - 1]);
      StacksOk(img, popped) && stack[|stack| - 1].pid !in PidsOf(stack[..|stack| - 1])
  {
    hide StackShape, StackOk, Injective;
    PopOk(img, s.stacks[s.running]);
    assert s.running == 0 || s.running == 1 || s.running == 2;
  }

  lemma HaltKeeps(img: FS.Image, s: System, status: byte)
    requires Invariant(img, s)
    ensures Invariant(img, HaltStep(s, status).0)
  {
    hide StackShape, StackOk, StacksOk, Distinct;
    var t, stack := s.running, s.stacks[s.running];
    var popped := WithStack(s, t, stack[..|stack| - 1]);
    PoppedOk(img, s);
    if |stack| == 1 {
      assert stack[..0] == [];
      if t == 0 { OnlyShell(img, s); }
      StartShellKeeps(img, popped, t);
      StartShellAgain(s, t);
    } else {
      OkShape(img, popped);
    }
  }

  lemma StartShellAgain(s: System, t: nat)
    requires |s.stacks| == 3 && t < 3
    ensures StartShell(WithStack(s, t, []), t) == StartShell(s, t)
  {
    WithStackTwice(s, t, [], []);
    WithStackTwice(s, t, [], [Shell(LowestFree(WithStack(s, t, [])), FRESH_TABLE)]);
  }

  lemma WithStackTwice(s: System, t: nat, a: seq<Process>, b: seq<Process>)
    requires |s.stacks| == 3 && t < 3
    ensures WithStack(WithStack(s, t, a), t, b) == WithStack(s, t, b)
  {
  }

  /** Without terminal 0's shell, nobody has pid 0. */
  lemma OnlyShell(img: FS.Image, s: System)
    requires Invariant(img, s) && |s.stacks[0]| == 1
    ensures 0 !in LivePids(WithStack(s, 0, []))
  {
    hide StackShape, StackOk, Injective;
    assert s.stacks[0][0] in s.stacks[0];
    assert 0 in PidsOf(s.stacks[0]);
  }

  lemma TickKeeps(img: FS.Image, s: System, esp: int, ebp: int)
    requires Invariant(img, s)
    ensures Invariant(img, TickStep(s, esp, ebp).0)
  {
    hide StackOk, StackShape, Injective;
    var next := (s.running + 1) % 3;
    var saved := s.(parked := s.parked[s.running := Some(Context(KernelStack(Top(s).pid), esp, ebp))], running := next);
    assert StacksOk(img, saved);
    if s.stacks[next] == [] {
      StartShellKeeps(img, saved, next);
    }
  }

  lemma SetTopTableKeeps(img: FS.Image, s: System, fds: Table)
    requires Invariant(img, s) && TableOk(img, fds)
    ensures Invariant(img, SetTopTable(s, fds))
  {
    hide StackShape, TableOk, PidsOf, FS.WellFormed;
    SetTableOk(img, s.stacks[s.running], fds);
    OkShape(img, SetTopTable(s, fds));
  }

  lemma TopTableOk(img: FS.Image, s: System)
    requires Invariant(img, s)
    ensures TableOk(img, Top(s).fds) && Top(s).fds[0] == FRESH_TABLE[0] && Top(s).fds[1] == FRESH_TABLE[1]
  {
    var stack := s.stacks[s.running];
    assert StackOk(img, stack) && ProcessOk(img, stack, |stack| - 1);
    assert Top(s).fds[..2][0] == Top(s).fds[0] && Top(s).fds[..2][1] == Top(s).fds[1];
  }

  lemma OpenKeeps(img: FS.Image, s: System, name: seq<byte>)
    requires FS.WellFormed(img) && Invariant(img, s)
    ensures Invariant(img, OpenStep(img, s, name).0)
  {
    hide StackShape, StacksOk;
    TopTableOk(img, s);
    FS.LookupFindsNames(img, 0, name);
    hide FS.WellFormed, FS.Lookup;
    var r := OpenStep(img, s, name);
    if r.1 != Returned(-1) {
      var entry := FS.Lookup(img, name).value;
      var fds := Top(s).fds[r.1.value := Some(OpenFile(OperationsOf(entry.kind), entry.inode, 0))];
      assert fds[..2] == Top(s).fds[..2];
      SetTopTableKeeps(img, s, fds);
    }
  }

  lemma CloseKeeps(img: FS.Image, s: System, fd: int)
    requires Invariant(img, s)
    ensures Invariant(img, CloseStep(s, fd).0)
  {
    hide StackShape, StacksOk;
    TopTableOk(img, s);
    var r := CloseStep(s, fd);
    if r.1 != Returned(-1) {
      var fds := Top(s).fds[fd := None];
      assert fds[..2] == Top(s).fds[..2];
      SetTopTableKeeps(img, s, fds);
    }
  }

  /** A read moves a position, never past the end of its file; descriptors 0 and 1 stay as they are. */
  lemma AfterReadOk(img: FS.Image, fds: Table, fd: nat, nbytes: int)
    requires FS.WellFormed(img) && TableOk(img, fds) && fd < MAX_FD && fds[fd].Some?
    requires -0x8000_0000 <= nbytes < 0x8000_0000
    requires fd < 2 ==> fds[fd] == FRESH_TABLE[fd]
    requires fds[fd].value.ops.FileOps? ==> fds[fd].value.inode < |img.inodes|
    ensures TableOk(img, fds[fd := Some(AfterRead(img, fds[fd].value, nbytes))])
  {
    hide FS.WellFormed, FS.View;
    var f := AfterRead(img, fds[fd].value, nbytes);
    assert fd < 2 ==> f == fds[fd].value;
    assert fds[fd := Some(f)][..2] == fds[..2];
  }

  lemma ReadKeeps(img: FS.Image, s: System, fd: int, nbytes: int, device: int)
    requires FS.WellFormed(img) && Invariant(img, s) && ReadAllowed(img, s, fd, nbytes)
    ensures Invariant(img, ReadStep(img, s, fd, nbytes, device).0)
  {
    hide FS.WellFormed, StackShape, StacksOk, TableOk, AfterRead, ReadBytes;
    TopTableOk(img, s);
    var fds := Top(s).fds;
    if 0 <= fd < MAX_FD && fds[fd].Some? {
      AfterReadOk(img, fds, fd, nbytes);
      SetTopTableKeeps(img, s, fds[fd := Some(AfterRead(img, fds[fd].value, nbytes))]);
    }
  }

  lemma StepKeepsInvariant(img: FS.Image, s: System, e: Event)
    requires FS.WellFormed(img) && Invariant(img, s) && Possible(e)
    ensures Invariant(img, Step(img, s, e).0)
  {
    match e
    case Execute(name, junk, esp, ebp) => ExecuteKeeps(img, s, name, junk, esp, ebp);
    case Halt(status) => HaltKeeps(img, s, status);
    case Tick(esp, ebp) => TickKeeps(img, s, esp, ebp);
    case Open(name) => OpenKeeps(img, s, name);
    case Close(fd) => CloseKeeps(img, s, fd);
    case Read(fd, nbytes, device) =>
      TopTableOk(img, s);
      ReadKeeps(img, s, fd, nbytes, device);
    case Display(_) =>
  }

  // ---- Runs ----

  predicate AllPossible(es: seq<Event>) {
    forall e :: e in es ==> Possible(e)
  }

  /** The state after a run of events, in any interleaving. */
  ghost function Run(img: FS.Image, s: System, es: seq<Event>): (r: System)
    requires FS.WellFormed(img) && Invariant(img, s) && AllPossible(es)
    ensures Invariant(img, r)
    decreases |es|
  {
    if es == [] then s
    else
      StepKeepsInvariant(img, s, es[0]);
      Run(img, Step(img, s, es[0]).0, es[1..])
  }

  lemma {:induction false} RunThen(img: FS.Image, s: System, es: seq<Event>, e: Event)
    requires FS.WellFormed(img) && Invariant(img, s) && AllPossible(es) && Possible(e)
    ensures AllPossible(es + [e])
    ensures Run(img, s, es + [e]) == Step(img, Run(img, s, es), e).0
    decreases |es|
  {
    hide FS.WellFormed, Invariant;
    if es == [] {
      StepKeepsInvariant(img, s, e);
      assert (es + [e])[0] == e && (es + [e])[1..] == [];
    } else {
      StepKeepsInvariant(img, s, es[0]);
      assert (es + [e])[0] == es[0] && (es + [e])[1..] == es[1..] + [e];
      RunThen(img, Step(img, s, es[0]).0, es[1..], e);
    }
  }

  /** How many timer ticks a run contains. */
  function Ticks(es: seq<Event>): nat {
    if es == [] then 0 else (if es[0].Tick? then 1 else 0) + Ticks(es[1..])
  }

  lemma RunningAfter(img: FS.Image, s: System, e: Event)
    requires FS.WellFormed(img) && Invariant(img, s) && Possible(e)
    ensures Step(img, s, e).0.running == if !e.Tick? then s.running else if s.running == 2 then 0 else s.running + 1
  {
  }

  /** Whatever else happens, k ticks move the processor k terminals on. */
  lemma {:induction false} RoundRobin(img: FS.Image, s: System, es: seq<Event>)
    requires FS.WellFormed(img) && Invariant(img, s) && AllPossible(es)
    ensures Run(img, s, es).running == (s.running + Ticks(es)) % 3
    decreases |es|
  {
    hide FS.WellFormed, StacksOk, StackShape, Step;
    if es != [] {
      StepKeepsInvariant(img, s, es[0]);
      RunningAfter(img, s, es[0]);
      RoundRobin(img, Step(img, s, es[0]).0, es[1..]);
    }
  }

  // ---- Counting and pids ----

  lemma {:induction false} PidsOfExact(stack: seq<Process>)
    requires Injective(stack)
    ensures |PidsOf(stack)| == |stack|
  {
    if stack != [] {
      var rest := stack[..|stack| - 1];
      var last := stack[|stack| - 1];
      assert stack == rest + [last];
      PopInjective(stack);
      hide *;
      PidsOfExact(rest);
      PushedPids(rest, last);
    }
  }

  lemma StartedCount(s: System)
    requires |s.stacks| == 3
    ensures StartedShells(s) == |set t | 0 <= t < 3 && s.stacks[t] != []|
  {
    SetOfThree((set t | 0 <= t < 3 && s.stacks[t] != []), s.stacks[0] != [], s.stacks[1] != [], s.stacks[2] != []);
  }

  lemma SetOfThree(some: set<int>, a: bool, b: bool, c: bool)
    requires forall t :: t in some ==> 0 <= t < 3
    requires (0 in some <==> a) && (1 in some <==> b) && (2 in some <==> c)
    ensures |some| == (if a then 1 else 0) + (if b then 1 else 0) + (if c then 1 else 0)
  {
    var withoutTwo := some - {2};
    var withoutOne := withoutTwo - {1};
    forall t | t in withoutOne ensures t == 0 {
      assert t in some;
    }
    if a {
      assert withoutOne == {0};
    } else {
      assert withoutOne == {};
    }
    assert |withoutTwo| == |withoutOne| + if b then 1 else 0;
    assert |some| == |withoutTwo| + if c then 1 else 0;
  }

  lemma LiveInRange(img: FS.Image, s: System, p: nat)
    requires Invariant(img, s) && p in LivePids(s)
    ensures p < MAX_PID
  {
    hide FS.WellFormed, LivePids, StackShape;
    LiveMeans(s, p);
    var t, i :| 0 <= t < 3 && 0 <= i < |s.stacks[t]| && s.stacks[t][i].pid == p;
    StackAt(img, s, t);
    assert ProcessOk(img, s.stacks[t], i);
  }

  /** The number of pids in use is the number of processes; it is also the number of started base
      shells plus the programs above them, and there are never more than MAX_PID. */
  lemma CountersAgree(img: FS.Image, s: System)
    requires Invariant(img, s)
    ensures |LivePids(s)| == Total(s) == StartedShells(s) + Programs(s) <= MAX_PID
    ensures StartedShells(s) == |set t | 0 <= t < 3 && s.stacks[t] != []|
    ensures forall p :: p in LivePids(s) ==> p < MAX_PID
    ensures 0 in LivePids(s)
  {
    hide StackOk, StackShape;
    PidsOfExact(s.stacks[0]);
    PidsOfExact(s.stacks[1]);
    PidsOfExact(s.stacks[2]);
    StartedCount(s);
    assert s.stacks[0][0] in s.stacks[0];
    forall p | p in LivePids(s) ensures p < MAX_PID {
      LiveInRange(img, s, p);
    }
  }

  lemma StackAt(img: FS.Image, s: System, t: nat)
    requires StacksOk(img, s) && t < 3
    ensures StackOk(img, s.stacks[t]) && Injective(s.stacks[t])
  {
    assert t == 0 || t == 1 || t == 2;
  }

  /** A pid names one process: no two processes anywhere share it. */
  lemma PidsAreUnique(img: FS.Image, s: System, t: nat, i: nat, u: nat, j: nat)
    requires Invariant(img, s) && t < 3 && u < 3 && i < |s.stacks[t]| && j < |s.stacks[u]|
    requires s.stacks[t][i].pid == s.stacks[u][j].pid
    ensures t == u && i == j
  {
    assert s.stacks[t][i] in s.stacks[t] && s.stacks[u][j] in s.stacks[u];
    assert s.stacks[t][i].pid in PidsOf(s.stacks[t]) && s.stacks[u][j].pid in PidsOf(s.stacks[u]);
    StackAt(img, s, t);
    assert t < u || t == u || u < t;
    assert t == u ==> i < j || i == j || j < i;
  }

  // ---- Isolation ----

  /** No step touches a process other than the running one: it stays where it is, with the same pid,
      saved context and descriptor table. */
  lemma OthersUntouched(img: FS.Image, s: System, e: Event, t: nat, i: nat)
    requires FS.WellFormed(img) && Invariant(img, s) && Possible(e)
    requires t < 3 && i < |s.stacks[t]| && !(t == s.running && i == |s.stacks[t]| - 1)
    ensures var s' := Step(img, s, e).0; i < |s'.stacks[t]| && s'.stacks[t][i] == s.stacks[t][i]
  {
    hide FS.WellFormed, StacksOk, StackShape, Passes, LowestFree, ReadBytes, AfterRead, FS.Lookup;
  }

  /** A stopped terminal keeps its whole stack and its parked context. */
  lemma StoppedUntouched(img: FS.Image, s: System, e: Event, t: nat)
    requires FS.WellFormed(img) && Invariant(img, s) && Possible(e)
    requires t < 3 && t != s.running && s.stacks[t] != []
    ensures var s' := Step(img, s, e).0; s'.stacks[t] == s.stacks[t] && s'.parked[t] == s.parked[t]
  {
    hide FS.WellFormed, StacksOk, StackShape, Passes, LowestFree, ReadBytes, AfterRead, FS.Lookup;
  }

  // ---- Context switches ----

  /** Ticks until terminal t runs again. */
  function Distance(s: System, t: nat): nat {
    if s.running <= t then t - s.running else if s.running < t + 3 then t + 3 - s.running else 0
  }

  lemma {:induction false} WhileStopped(img: FS.Image, s: System, es: seq<Event>, t: nat)
    requires FS.WellFormed(img) && Invariant(img, s) && AllPossible(es)
    requires t < 3 && s.stacks[t] != [] && Ticks(es) < Distance(s, t)
    ensures var s' := Run(img, s, es);
      s'.stacks[t] == s.stacks[t] && s'.parked[t] == s.parked[t] && Distance(s', t) == Distance(s, t) - Ticks(es)
    decreases |es|
  {
    hide FS.WellFormed, StacksOk;
    if es != [] {
      StepKeepsInvariant(img, s, es[0]);
      StoppedUntouched(img, s, es[0], t);
      RunningAfter(img, s, es[0]);
      WhileStopped(img, Step(img, s, es[0]).0, es[1..], t);
    }
  }

  lemma TickPreempts(img: FS.Image, s: System, esp: int, ebp: int)
    requires FS.WellFormed(img) && Invariant(img, s)
    ensures var s1 := Step(img, s, Tick(esp, ebp)).0;
      && Invariant(img, s1) && s1.stacks[s.running] == s.stacks[s.running]
      && s1.parked[s.running] == Some(Context(KernelStack(Top(s).pid), esp, ebp))
      && Distance(s1, s.running) == 2
  {
    StepKeepsInvariant(img, s, Tick(esp, ebp));
  }

  lemma TickResumes(img: FS.Image, s: System, esp: int, ebp: int, t: nat)
    requires FS.WellFormed(img) && Invariant(img, s)
    requires t < 3 && Distance(s, t) == 1 && s.stacks[t] != []
    ensures var (s', effect) := Step(img, s, Tick(esp, ebp));
      s'.running == t && s'.stacks[t] == s.stacks[t] && effect == Rescheduled(s.parked[t])
  {
  }

  /** When terminal t is preempted with registers (esp, ebp) and the next tick but one returns to it,
      the scheduler restores exactly those registers, on the kernel stack of the process that was
      preempted, and that terminal's processes are as they were. Between the two ticks there is any
      interleaving of other terminals' calls holding one more tick. */
  lemma ContextSwitchSound(img: FS.Image, s: System, esp: int, ebp: int, es: seq<Event>, esp': int, ebp': int)
    requires FS.WellFormed(img) && Invariant(img, s) && AllPossible(es) && Ticks(es) == 1
    ensures var t := s.running;
      var s1 := Step(img, s, Tick(esp, ebp)).0;
      Invariant(img, s1)
      && var back := Step(img, Run(img, s1, es), Tick(esp', ebp'));
      && back.1 == Rescheduled(Some(Context(KernelStack(Top(s).pid), esp, ebp)))
      && back.0.running == t && back.0.stacks[t] == s.stacks[t]
  {
    hide FS.WellFormed, StacksOk;
    var t := s.running;
    TickPreempts(img, s, esp, ebp);
    var s1 := Step(img, s, Tick(esp, ebp)).0;
    WhileStopped(img, s1, es, t);
    TickResumes(img, Run(img, s1, es), esp', ebp', t);
  }

  /** A tick resumes a terminal from registers saved on the kernel stack of its top process, never
      from its initial, unsaved ones; a terminal not yet started gets a base shell, whose pid no
      process had. */
  lemma NeverResumesUnsaved(img: FS.Image, s: System, esp: int, ebp: int)
    requires FS.WellFormed(img) && Invariant(img, s)
    ensures var (s', effect) := Step(img, s, Tick(esp, ebp));
      Shape(s')
      && if s.stacks[s'.running] != [] then
           effect.Rescheduled? && effect.from.Some? && effect.from.value.stack == KernelStack(Top(s').pid)
         else
           && effect.Started? && effect.pid !in LivePids(s) && effect.pid < MAX_PID
           && Top(s') == Shell(effect.pid, FRESH_TABLE)
  {
    hide FS.WellFormed, StackOk, StackShape, Injective, LivePids;
    var next := (s.running + 1) % 3;
    TickKeeps(img, s, esp, ebp);
    if s.stacks[next] == [] {
      TickStartsShell(s, esp, ebp);
      FreePidExists(s);
    } else {
      assert ParkedOk(s.stacks[next], s.parked[next]);
    }
  }

  lemma TickStartsShell(s: System, esp: int, ebp: int)
    requires Shape(s) && s.stacks[(s.running + 1) % 3] == []
    ensures TickStep(s, esp, ebp).1 == Started(LowestFree(s))
    ensures var s' := TickStep(s, esp, ebp).0; Shape(s') && Top(s') == Shell(LowestFree(s), FRESH_TABLE)
  {
    var next := (s.running + 1) % 3;
    var saved := s.(parked := s.parked[s.running := Some(Context(KernelStack(Top(s).pid), esp, ebp))], running := next);
    assert WithStack(saved, next, []).stacks == s.stacks;
  }

  // ---- Bracketing ----

  /** Along the run, terminal t's stack never gets shallower than depth. */
  ghost predicate StaysAbove(img: FS.Image, s: System, es: seq<Event>, t: nat, depth: nat)
    requires FS.WellFormed(img) && Invariant(img, s) && AllPossible(es) && t < 3
    decreases |es|
  {
    if es == [] then depth <= |s.stacks[t]|
    else
      StepKeepsInvariant(img, s, es[0]);
      depth <= |s.stacks[t]| && StaysAbove(img, Step(img, s, es[0]).0, es[1..], t, depth)
  }

  lemma {:induction false} BelowUntouched(img: FS.Image, s: System, es: seq<Event>, t: nat, depth: nat)
    requires FS.WellFormed(img) && Invariant(img, s) && AllPossible(es) && t < 3
    requires depth > 0 && StaysAbove(img, s, es, t, depth + 1)
    ensures var before, after := s.stacks[t], Run(img, s, es).stacks[t];
      && depth < |after| && after[..depth] == before[..depth]
      && after[depth].pid == before[depth].pid
      && before[depth].Program? && after[depth].Program? && after[depth].saved == before[depth].saved
    decreases |es|
  {
    assert StackShape(s.stacks[t]);
    if es != [] {
      StepKeepsInvariant(img, s, es[0]);
      var s1 := Step(img, s, es[0]).0;
      BelowUntouched(img, s1, es[1..], t, depth);
      KeptBelow(img, s, es[0], t, depth);
    }
  }

  lemma KeptBelow(img: FS.Image, s: System, e: Event, t: nat, depth: nat)
    requires FS.WellFormed(img) && Invariant(img, s) && Possible(e) && t < 3
    requires 0 < depth < |s.stacks[t]| && depth < |Step(img, s, e).0.stacks[t]|
    ensures var before, after := s.stacks[t], Step(img, s, e).0.stacks[t];
      && after[..depth] == before[..depth] && after[depth].pid == before[depth].pid
      && before[depth].Program? && after[depth].Program? && after[depth].saved == before[depth].saved
  {
    hide FS.WellFormed, StacksOk;
    assert StackShape(s.stacks[t]);
    forall i | 0 <= i < depth ensures Step(img, s, e).0.stacks[t][i] == s.stacks[t][i] {
      OthersUntouched(img, s, e, t, i);
    }
  }

  lemma ExecutePushes(img: FS.Image, s: System, name: seq<byte>, junk: seq<byte>, esp: int, ebp: int)
    requires FS.WellFormed(img) && Invariant(img, s) && |junk| == HEADER
    requires Step(img, s, Execute(name, junk, esp, ebp)).1.Started?
    ensures var s1 := Step(img, s, Execute(name, junk, esp, ebp)).0; var stack := s.stacks[s.running];
      && Invariant(img, s1) && s1.stacks[s.running] == stack + [Top(s1)] && s1.running == s.running
      && Top(s1).Program? && Top(s1).saved == Context(KernelStack(Top(s).pid), esp, ebp)
  {
    StepKeepsInvariant(img, s, Execute(name, junk, esp, ebp));
  }

  lemma HaltPops(img: FS.Image, s: System, status: byte)
    requires FS.WellFormed(img) && Invariant(img, s) && |s.stacks[s.running]| > 1
    ensures var (s', effect) := Step(img, s, Halt(status)); var stack := s.stacks[s.running];
      && s'.running == s.running && s'.stacks[s.running] == stack[..|stack| - 1]
      && stack[|stack| - 1].Program? && effect == Resumed(stack[|stack| - 1].saved, status)
  {
  }

  /** A program executed with registers (esp, ebp) saved returns, when it halts, to exactly those
      registers on its parent's kernel stack, with the terminal's processes as they were when the
      parent executed it: whatever happened in between on this terminal above the program, on the
      other terminals, and at the timer. */
  lemma ExecuteHaltBracket(img: FS.Image, s: System, name: seq<byte>, junk: seq<byte>, esp: int, ebp: int,
                           es: seq<Event>, status: byte)
    requires FS.WellFormed(img) && Invariant(img, s) && AllPossible(es) && |junk| == HEADER
    requires Step(img, s, Execute(name, junk, esp, ebp)).1.Started?
    requires var s1 := Step(img, s, Execute(name, junk, esp, ebp)).0;
      var t, depth := s.running, |s.stacks[s.running]|;
      Invariant(img, s1) && StaysAbove(img, s1, es, t, depth + 1)
      && Run(img, s1, es).running == t && |Run(img, s1, es).stacks[t]| == depth + 1
    ensures var s1 := Step(img, s, Execute(name, junk, esp, ebp)).0;
      var done := Step(img, Run(img, s1, es), Halt(status));
      && done.1 == Resumed(Context(KernelStack(Top(s).pid), esp, ebp), status)
      && done.0.running == s.running && done.0.stacks[s.running] == s.stacks[s.running]
  {
    hide FS.WellFormed, StacksOk, StackShape, Step;
    var s1 := Step(img, s, Execute(name, junk, esp, ebp)).0;
    ExecutePushes(img, s, name, junk, esp, ebp);
    BelowUntouched(img, s1, es, s.running, |s.stacks[s.running]|);
    HaltPops(img, Run(img, s1, es), status);
  }
}
