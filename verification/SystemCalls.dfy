/** What each call and each tick does to the running process and its descriptors, in plain terms
    (student-distrib/syscall.c, scheduler.c, file_system.c). */
module SystemCalls {
  import opened Bytes
  import opened Processes
  import opened ProcessRuns
  import opened Descriptors
  import FS = FileSystem

  // ---- Starting processes ----

  /** execute starts a program unless six processes live, three programs run above base shells, or the
      file check fails; then it returns -1 and changes nothing. */
  lemma ExecuteFailsExactly(img: FS.Image, s: System, name: seq<byte>, junk: seq<byte>, esp: int, ebp: int)
    requires FS.WellFormed(img) && Invariant(img, s) && |junk| == HEADER
    ensures var (s', effect) := Step(img, s, Execute(name, junk, esp, ebp));
      var processes := |s.stacks[0]| + |s.stacks[1]| + |s.stacks[2]|;
      var shells := |set t | 0 <= t < 3 && s.stacks[t] != []|;
      if processes >= 6 || processes - shells >= 3 || !Passes(img, name, junk) then s' == s && effect == Returned(-1)
      else effect.Started?
  {
    hide FS.WellFormed, Passes, StacksOk, LowestFree;
    StartedCount(s);
  }

  /** A process is started by an execute that does not fail, by the halt of a base shell, and by a tick to
      a terminal without processes; by nothing else. */
  lemma StartsExactly(img: FS.Image, s: System, e: Event)
    requires FS.WellFormed(img) && Invariant(img, s) && Possible(e)
    ensures Step(img, s, e).1.Started? <==>
      || (e.Execute? && Step(img, s, e).1 != Returned(-1))
      || (e.Halt? && |s.stacks[s.running]| == 1)
      || (e.Tick? && s.stacks[if s.running == 2 then 0 else s.running + 1] == [])
  {
    hide FS.WellFormed, Passes, StacksOk, LowestFree, FS.Lookup, ReadBytes, AfterRead;
  }

  /** Whatever started it, a new process is the running one, and it has two open descriptors: 0 and 1,
      both on the terminal. A shell is alone on its terminal, a program on top of the stack that was
      there. */
  lemma NewProcess(img: FS.Image, s: System, e: Event)
    requires FS.WellFormed(img) && Invariant(img, s) && Possible(e) && Step(img, s, e).1.Started?
    ensures var (s', effect) := Step(img, s, e);
      && Shape(s') && Top(s').pid == effect.pid && |Top(s').fds| == 8
      && Top(s').fds[0] == Top(s').fds[1] == Some(OpenFile(TerminalOps, 0, 0))
      && (forall fd :: 2 <= fd < 8 ==> Top(s').fds[fd] == None)
      && s'.running == (if !e.Tick? then s.running else if s.running == 2 then 0 else s.running + 1)
      && s'.stacks[s'.running] == (if e.Execute? then s.stacks[s.running] else []) + [Top(s')]
      && (Top(s').Shell? <==> !e.Execute?)
  {
    hide FS.WellFormed, StacksOk, Passes, LowestFree;
    StepKeepsInvariant(img, s, e);
    RunningAfter(img, s, e);
    if e.Execute? {
      ExecutePushes(img, s, e.name, e.junk, e.esp, e.ebp);
    }
  }

  // ---- Names and files ----

  /** Entry k is the first scanned one of its name. */
  lemma FirstNamed(img: FS.Image, name: seq<byte>, k: nat)
    requires FS.WellFormed(img) && k < |img.inodes| && CString(img.dentries[k].name) == name
    requires forall j :: 0 <= j < k ==> CString(img.dentries[j].name) != name
    ensures FS.Lookup(img, name) == Some(img.dentries[k])
    ensures k < |img.dentries| && img.dentries[k].kind <= 2 && img.dentries[k].inode < |img.inodes|
  {
    hide FS.WellFormed, FS.LookupFrom, CString;
    FS.LookupFindsNames(img, 0, name);
    FS.EntryUsable(img, k);
  }

  /** What execute's file check looks at: the first four bytes of the first scanned entry of that name. It
      fails without such an entry; an empty file leaves the four bytes that the buffer held. */
  lemma PassesMeans(img: FS.Image, name: seq<byte>, junk: seq<byte>, k: nat)
    requires FS.WellFormed(img) && |junk| == HEADER && k <= |img.inodes|
    requires forall j :: 0 <= j < k ==> CString(img.dentries[j].name) != name
    requires k < |img.inodes| ==> CString(img.dentries[k].name) == name
    ensures k == |img.inodes| ==> !Passes(img, name, junk)
    ensures k < |img.inodes| ==> img.dentries[k].inode < |img.inodes|
    ensures k < |img.inodes| ==>
      var v := FS.View(img, img.dentries[k].inode);
      Passes(img, name, junk) <==>
        if v == [] then [0x7f, 0x45, 0x4c, 0x46] <= junk else [0x7f, 0x45, 0x4c, 0x46] <= v
  {
    hide FS.WellFormed, FS.LookupFrom, FS.View, CString;
    FS.LookupFindsNames(img, 0, name);
    if k < |img.inodes| {
      FirstNamed(img, name, k);
      var v := FS.View(img, img.dentries[k].inode);
      HeaderPasses(v, junk);
      MagicAhead(v);
    }
  }

  lemma MagicAhead(v: seq<byte>)
    ensures ELF_MAGIC <= FS.Slice(v, 0, HEADER) <==> ELF_MAGIC <= v
  {
    if |v| >= 4 {
      assert FS.Slice(v, 0, HEADER)[..4] == v[..4];
    }
  }

  // ---- Opening, closing, reading ----

  /** open gives the descriptor the driver of the entry's type, its inode and position 0. */
  lemma OpenInstalls(img: FS.Image, s: System, name: seq<byte>, k: nat)
    requires FS.WellFormed(img) && Invariant(img, s) && name != []
    requires k < |img.inodes| && CString(img.dentries[k].name) == name
    requires forall j :: 0 <= j < k ==> CString(img.dentries[j].name) != name
    requires exists fd :: 2 <= fd < |Top(s).fds| && Top(s).fds[fd] == None
    ensures var (s', effect) := Step(img, s, Open(name)); var entry := img.dentries[k];
      && Shape(s') && effect.Returned? && 2 <= effect.value < |Top(s').fds|
      && s'.running == s.running && |s'.stacks[s.running]| == |s.stacks[s.running]|
      && var file := Top(s').fds[effect.value];
      && (entry.kind == 0 ==> file == Some(OpenFile(RtcOps, entry.inode, 0)))
      && (entry.kind == 1 ==> file == Some(OpenFile(DirOps, entry.inode, 0)))
      && (entry.kind == 2 ==> file == Some(OpenFile(FileOps, entry.inode, 0)))
      && entry.kind <= 2 && entry.inode < |img.inodes|
  {
    hide FS.WellFormed, FS.Lookup, StacksOk, StackShape, CString;
    FirstNamed(img, name, k);
    OpenKeeps(img, s, name);
    TopTableOk(img, s);
  }

  /** close frees an open descriptor from 2 on, and nothing else; any other is refused. */
  lemma CloseFrees(img: FS.Image, s: System, fd: int)
    requires FS.WellFormed(img) && Invariant(img, s)
    ensures var (s', effect) := Step(img, s, Close(fd));
      && Shape(s') && |Top(s).fds| == |Top(s').fds| == 8
      && if 2 <= fd < 8 && Top(s).fds[fd] != None then
           effect == Returned(0) && Top(s').fds[fd] == None
           && forall other :: 0 <= other < 8 && other != fd ==> Top(s').fds[other] == Top(s).fds[other]
         else effect == Returned(-1) && s' == s
  {
    hide FS.WellFormed, StacksOk, StackShape;
    CloseKeeps(img, s, fd);
    TopTableOk(img, s);
  }

  /** read refuses a descriptor that is not open; on the clock and the terminal it returns what the device
      returns and moves nothing. */
  lemma ReadRefuses(img: FS.Image, s: System, fd: int, nbytes: int, device: int)
    requires FS.WellFormed(img) && Invariant(img, s) && -0x8000_0000 <= nbytes < 0x8000_0000
    ensures var (s', effect) := Step(img, s, Read(fd, nbytes, device));
      && |Top(s).fds| == 8
      && if !(0 <= fd < 8) || Top(s).fds[fd] == None then effect == Returned(-1) && s' == s
         else if Top(s).fds[fd].value.ops in {RtcOps, TerminalOps} then effect == Returned(device) && s' == s
         else effect.Delivered?
  {
    hide FS.WellFormed, StacksOk, StackShape, ReadBytes;
    TopTableOk(img, s);
    var stack := s.stacks[s.running];
    assert 0 <= fd < 8 ==> Top(s).fds[fd := Top(s).fds[fd]] == Top(s).fds;
    assert stack[|stack| - 1 := Top(s).(fds := Top(s).fds)] == stack;
    assert SetTopTable(s, Top(s).fds) == s;
  }

  lemma SliceEnds(v: seq<byte>, pos: nat, n: nat)
    requires pos <= |v| && n > 0
    ensures FS.Slice(v, pos, n) == [] <==> pos == |v|
  {
  }

  /** A process that keeps a regular file open and reads it from the start until a read of some bytes
      delivers none has been delivered the whole flat file, whatever ran in between. */
  lemma ReadUntilEmpty(img: FS.Image, s: System, es: seq<Event>, t: nat, i: nat, f: int, inode: nat,
                       nbytes: int, device: int)
    requires FS.WellFormed(img) && Invariant(img, s) && AllPossible(es) && t < 3 && i < |s.stacks[t]|
    requires 0 <= f < |s.stacks[t][i].fds| && s.stacks[t][i].fds[f] == Some(OpenFile(FileOps, inode, 0))
    requires inode < |img.inodes| && KeepsOpen(img, s, es, t, i, f)
    requires nbytes != 0 && -0x8000_0000 <= nbytes < 0x8000_0000
    requires var end := Run(img, s, es);
      Calls(end, t, i) && Step(img, end, Read(f, nbytes, device)).1 == Delivered([])
    ensures DeliveredTo(img, s, es, t, i, f) == FS.View(img, inode)
  {
    hide FS.WellFormed, StacksOk, StackShape, KeepsOpen, DeliveredTo, Run, FS.View, FS.Slice;
    StreamIsFile(img, s, es, t, i, f, inode, 0);
    TopTableOk(img, Run(img, s, es));
    var v, data := FS.View(img, inode), DeliveredTo(img, s, es, t, i, f);
    SliceEnds(v, |data|, FS.UnsignedLength(nbytes));
    assert v[0..|v|] == v;
  }

  /** open of a regular file, and reads of it until one delivers nothing: the calling process has been
      delivered that file. */
  lemma OpenedFileDelivered(img: FS.Image, s: System, name: seq<byte>, k: nat, es: seq<Event>,
                            nbytes: int, device: int)
    requires FS.WellFormed(img) && Invariant(img, s) && name != []
    requires k < |img.inodes| && CString(img.dentries[k].name) == name && img.dentries[k].kind == 2
    requires forall j :: 0 <= j < k ==> CString(img.dentries[j].name) != name
    requires exists fd :: 2 <= fd < |Top(s).fds| && Top(s).fds[fd] == None
    requires var (s', effect) := Step(img, s, Open(name)); var t := s.running; var i := |s.stacks[t]| - 1;
      && effect.Returned? && Invariant(img, s') && AllPossible(es)
      && KeepsOpen(img, s', es, t, i, effect.value) && nbytes != 0 && -0x8000_0000 <= nbytes < 0x8000_0000
      && var end := Run(img, s', es);
         Calls(end, t, i) && Step(img, end, Read(effect.value, nbytes, device)).1 == Delivered([])
    ensures img.dentries[k].inode < |img.inodes|
    ensures var (s', effect) := Step(img, s, Open(name)); var t := s.running;
      DeliveredTo(img, s', es, t, |s.stacks[t]| - 1, effect.value) == FS.View(img, img.dentries[k].inode)
  {
    hide FS.WellFormed, StacksOk, StackShape, KeepsOpen, DeliveredTo, Run, FS.View, Step, CString, Calls, AllPossible;
    OpenInstalls(img, s, name, k);
    FS.EntryUsable(img, k);
    var (s', effect) := Step(img, s, Open(name));
    ReadUntilEmpty(img, s', es, s.running, |s.stacks[s.running]| - 1, effect.value, img.dentries[k].inode,
                   nbytes, device);
  }

  // ---- Listing a directory ----

  /** Descriptor f of process i of terminal t is a directory, at entry pos. */
  ghost predicate Listing(s: System, t: nat, i: nat, f: int, pos: nat) {
    && |s.stacks| == 3 && t < 3 && i < |s.stacks[t]| && 0 <= f < |s.stacks[t][i].fds|
    && s.stacks[t][i].fds[f].Some?
    && s.stacks[t][i].fds[f].value.ops == DirOps && s.stacks[t][i].fds[f].value.position == pos
  }

  /** What one step's read of that descriptor delivers, if it makes one. */
  ghost function ListedBy(img: FS.Image, s: System, e: Event, t: nat, i: nat, f: int): seq<seq<byte>>
    requires FS.WellFormed(img) && Invariant(img, s) && Possible(e) && t < 3
  {
    var effect := Step(img, s, e).1;
    if Calls(s, t, i) && e.Read? && e.fd == f && effect.Delivered? then [effect.data] else []
  }

  /** ... and what the reads of a run deliver, read by read. */
  ghost function ListedTo(img: FS.Image, s: System, es: seq<Event>, t: nat, i: nat, f: int): seq<seq<byte>>
    requires FS.WellFormed(img) && Invariant(img, s) && AllPossible(es) && t < 3
    decreases |es|
  {
    if es == [] then []
    else
      StepKeepsInvariant(img, s, es[0]);
      ListedBy(img, s, es[0], t, i, f) + ListedTo(img, Step(img, s, es[0]).0, es[1..], t, i, f)
  }

  lemma ListUnfolds(img: FS.Image, s: System, es: seq<Event>, t: nat, i: nat, f: int)
    requires FS.WellFormed(img) && Invariant(img, s) && AllPossible(es) && t < 3 && es != []
    ensures Possible(es[0]) && AllPossible(es[1..]) && Invariant(img, Step(img, s, es[0]).0)
    ensures ListedTo(img, s, es, t, i, f)
         == ListedBy(img, s, es[0], t, i, f) + ListedTo(img, Step(img, s, es[0]).0, es[1..], t, i, f)
  {
    hide FS.WellFormed, Invariant, ListedBy, Step;
    StepKeepsInvariant(img, s, es[0]);
  }

  /** One step delivers at most the name of the entry at hand, and then moves on to the next. */
  lemma StepLists(img: FS.Image, s: System, e: Event, t: nat, i: nat, f: int, pos: nat)
    requires FS.WellFormed(img) && Invariant(img, s) && Possible(e) && Listing(s, t, i, f, pos)
    requires Calls(s, t, i) ==> !e.Halt? && e != Close(f)
    ensures |img.inodes| < |img.dentries|
    ensures var names := ListedBy(img, s, e, t, i, f); var end := pos > |img.inodes|;
      && (names == [] || names == [if end then [] else CString(img.dentries[pos].name)])
      && Listing(Step(img, s, e).0, t, i, f, if names == [] || end then pos else pos + 1)
  {
    hide StacksOk, StackShape, Passes, LowestFree, FS.Lookup, FS.View, CString;
    if Calls(s, t, i) {
      TopTableOk(img, s);
      match e
      case Open(_) =>
      case Read(fd, nbytes, device) =>
      case Close(_) =>
      case Execute(_, _, _, _) =>
      case Tick(_, _) =>
      case Display(_) =>
    } else {
      OthersUntouched(img, s, e, t, i);
    }
  }

  lemma {:induction false} NamesListed(img: FS.Image, s: System, es: seq<Event>, t: nat, i: nat, f: int,
                                       pos: nat, j: nat)
    requires FS.WellFormed(img) && Invariant(img, s) && AllPossible(es) && Listing(s, t, i, f, pos) && t < 3
    requires KeepsOpen(img, s, es, t, i, f) && j < |ListedTo(img, s, es, t, i, f)|
    ensures |img.inodes| < |img.dentries|
    ensures ListedTo(img, s, es, t, i, f)[j] ==
      if pos + j <= |img.inodes| then CString(img.dentries[pos + j].name) else []
    decreases |es|
  {
    hide *;
    DirectorySized(img);
    if es == [] {
      ListedNothing(img, s, t, i, f);
    } else {
      ListUnfolds(img, s, es, t, i, f);
      StreamUnfolds(img, s, es, t, i, f);
      StepLists(img, s, es[0], t, i, f, pos);
      var s1, names := Step(img, s, es[0]).0, ListedBy(img, s, es[0], t, i, f);
      var rest := ListedTo(img, s1, es[1..], t, i, f);
      if j >= |names| {
        var next := if names == [] || pos > |img.inodes| then pos else pos + 1;
        NamesListed(img, s1, es[1..], t, i, f, next, j - |names|);
        assert (names + rest)[j] == rest[j - |names|];
      } else {
        assert (names + rest)[j] == names[j];
      }
    }
  }

  /** Reads of an open directory deliver the entries' names in order, one a read and starting where the
      descriptor stands, whatever runs in between; past the last entry they deliver nothing. */
  lemma DirectoryListsNames(img: FS.Image, s: System, es: seq<Event>, t: nat, i: nat, f: int, pos: nat, j: nat)
    requires FS.WellFormed(img) && Invariant(img, s) && AllPossible(es) && t < 3 && i < |s.stacks[t]|
    requires 0 <= f < |s.stacks[t][i].fds| && s.stacks[t][i].fds[f].Some?
    requires s.stacks[t][i].fds[f].value.ops == DirOps && s.stacks[t][i].fds[f].value.position == pos
    requires KeepsOpen(img, s, es, t, i, f) && j < |ListedTo(img, s, es, t, i, f)|
    ensures |img.inodes| < |img.dentries|
    ensures ListedTo(img, s, es, t, i, f)[j] ==
      if pos + j <= |img.inodes| then CString(img.dentries[pos + j].name) else []
  {
    hide FS.WellFormed, StacksOk, StackShape, ListedTo, KeepsOpen, CString;
    NamesListed(img, s, es, t, i, f, pos, j);
  }

  lemma ListedNothing(img: FS.Image, s: System, t: nat, i: nat, f: int)
    requires FS.WellFormed(img) && Invariant(img, s) && t < 3
    ensures AllPossible([]) && ListedTo(img, s, [], t, i, f) == []
  {
  }

  lemma DirectorySized(img: FS.Image)
    requires FS.WellFormed(img)
    ensures |img.inodes| < |img.dentries|
  {
  }
}
