/** Descriptor tables over whole runs: who sees which file, and how far it has been read
    (student-distrib/syscall.c, file_system.c). */
module Descriptors {
  import opened Bytes
  import opened Processes
  import opened ProcessRuns
  import FS = FileSystem

  /** The name is empty, or no scanned entry carries it, or descriptors 2 to 7 are all in use. */
  ghost predicate CannotOpen(img: FS.Image, fds: Table, name: seq<byte>)
    requires FS.WellFormed(img) && |fds| == MAX_FD
  {
    || name == []
    || (forall i :: 0 <= i < |img.inodes| ==> CString(img.dentries[i].name) != name)
    || (forall fd :: 2 <= fd < MAX_FD ==> fds[fd].Some?)
  }

  /** open fails in exactly those cases, and then changes nothing. */
  lemma OpenFailsExactly(img: FS.Image, s: System, name: seq<byte>)
    requires FS.WellFormed(img) && Invariant(img, s)
    ensures OpenStep(img, s, name).1 == Returned(-1) <==> CannotOpen(img, Top(s).fds, name)
    ensures CannotOpen(img, Top(s).fds, name) ==> OpenStep(img, s, name).0 == s
  {
    hide FS.WellFormed, StacksOk;
    FS.LookupFindsNames(img, 0, name);
    var fds := Top(s).fds;
    var fd := FreeFrom(fds, 2);
    assert fd < MAX_FD ==> fds[fd].None?;
  }

  /** Otherwise it takes the lowest free descriptor of the running process, at position 0, and leaves
      the others alone. */
  lemma OpenTakesLowest(img: FS.Image, s: System, name: seq<byte>)
    requires FS.WellFormed(img) && Invariant(img, s) && !CannotOpen(img, Top(s).fds, name)
    ensures var (s', effect) := OpenStep(img, s, name); var before := Top(s).fds;
      && Shape(s') && effect.Returned? && 2 <= effect.value < MAX_FD
      && before[effect.value].None? && (forall fd :: 2 <= fd < effect.value ==> before[fd].Some?)
      && var after := Top(s').fds;
      && |after| == MAX_FD && after[effect.value].Some? && after[effect.value].value.position == 0
      && (forall fd :: 0 <= fd < MAX_FD && fd != effect.value ==> after[fd] == before[fd])
  {
    hide FS.WellFormed, StacksOk, CannotOpen;
    OpenFailsExactly(img, s, name);
  }

  /** Every live process has its standard input and output open on the terminal. */
  lemma StandardDescriptorsOpen(img: FS.Image, s: System, t: nat, i: nat)
    requires Invariant(img, s) && t < 3 && i < |s.stacks[t]|
    ensures var fds := s.stacks[t][i].fds;
      fds[0] == fds[1] == Some(OpenFile(TerminalOps, 0, 0))
      && forall f :: 2 <= f < MAX_FD && fds[f].Some? ==> !fds[f].value.ops.TerminalOps?
  {
    StackAt(img, s, t);
    assert ProcessOk(img, s.stacks[t], i);
    var fds := s.stacks[t][i].fds;
    assert fds[0] == fds[..2][0] && fds[1] == fds[..2][1];
  }

  /** Is process i of terminal t the one that makes the next call? */
  ghost predicate Calls(s: System, t: nat, i: nat)
    requires Shape(s) && t < 3
  {
    s.running == t && |s.stacks[t]| - 1 == i
  }

  /** Along the run, process i of terminal t neither halts nor closes descriptor f. */
  ghost predicate KeepsOpen(img: FS.Image, s: System, es: seq<Event>, t: nat, i: nat, f: int)
    requires FS.WellFormed(img) && Invariant(img, s) && AllPossible(es) && t < 3
    decreases |es|
  {
    if es == [] then true
    else
      StepKeepsInvariant(img, s, es[0]);
      && (Calls(s, t, i) ==> !es[0].Halt? && es[0] != Close(f))
      && KeepsOpen(img, Step(img, s, es[0]).0, es[1..], t, i, f)
  }

  /** The bytes one step delivers to descriptor f of process i of terminal t. */
  ghost function DeliveredBy(img: FS.Image, s: System, e: Event, t: nat, i: nat, f: int): seq<byte>
    requires FS.WellFormed(img) && Invariant(img, s) && Possible(e) && t < 3
  {
    var effect := Step(img, s, e).1;
    if Calls(s, t, i) && e.Read? && e.fd == f && effect.Delivered? then effect.data else []
  }

  /** ... and those a whole run delivers to it. */
  ghost function DeliveredTo(img: FS.Image, s: System, es: seq<Event>, t: nat, i: nat, f: int): seq<byte>
    requires FS.WellFormed(img) && Invariant(img, s) && AllPossible(es) && t < 3
    decreases |es|
  {
    if es == [] then []
    else
      StepKeepsInvariant(img, s, es[0]);
      DeliveredBy(img, s, es[0], t, i, f) + DeliveredTo(img, Step(img, s, es[0]).0, es[1..], t, i, f)
  }

  /** Descriptor f of process i of terminal t is a regular file, read up to position pos. */
  ghost predicate Reading(img: FS.Image, s: System, t: nat, i: nat, f: int, inode: nat, pos: nat)
    requires FS.WellFormed(img)
  {
    && |s.stacks| == 3 && t < 3 && i < |s.stacks[t]| && 0 <= f < |s.stacks[t][i].fds|
    && s.stacks[t][i].fds[f] == Some(OpenFile(FileOps, inode, pos))
    && inode < |img.inodes| && pos <= img.inodes[inode].length
  }

  /** The sizes of the reads that a run makes on that descriptor. */
  ghost function SizesRead(img: FS.Image, s: System, es: seq<Event>, t: nat, i: nat, f: int): seq<nat>
    requires FS.WellFormed(img) && Invariant(img, s) && AllPossible(es) && t < 3
    decreases |es|
  {
    if es == [] then []
    else
      StepKeepsInvariant(img, s, es[0]);
      SizesBy(s, es[0], t, i, f) + SizesRead(img, Step(img, s, es[0]).0, es[1..], t, i, f)
  }

  ghost function SizesBy(s: System, e: Event, t: nat, i: nat, f: int): seq<nat>
    requires Shape(s) && Possible(e) && t < 3
  {
    if Calls(s, t, i) && e.Read? && e.fd == f then [FS.UnsignedLength(e.nbytes)] else []
  }

  lemma StepReads(img: FS.Image, s: System, e: Event, t: nat, i: nat, f: int, inode: nat, pos: nat)
    requires FS.WellFormed(img) && Invariant(img, s) && Possible(e)
    requires Reading(img, s, t, i, f, inode, pos)
    requires Calls(s, t, i) ==> !e.Halt? && e != Close(f)
    ensures var data := DeliveredBy(img, s, e, t, i, f);
      && pos + |data| <= img.inodes[inode].length && data == FS.View(img, inode)[pos..pos + |data|]
      && Reading(img, Step(img, s, e).0, t, i, f, inode, pos + |data|)
  {
    hide FS.WellFormed, StacksOk, StackShape, Passes, LowestFree, FS.Lookup, FS.View;
    if Calls(s, t, i) {
      TopTableOk(img, s);
      match e
      case Open(_) =>
      case Read(fd, nbytes, device) =>
      case Close(_) =>
      case Execute(_, _, _, _) =>
      case Tick(_, _) =>
      case Display(_) =>
    } else {
      OthersUntouched(img, s, e, t, i);
    }
  }

  lemma StepDelivers(img: FS.Image, s: System, e: Event, t: nat, i: nat, f: int, inode: nat, pos: nat)
    requires FS.WellFormed(img) && Invariant(img, s) && Possible(e) && Reading(img, s, t, i, f, inode, pos)
    ensures DeliveredBy(img, s, e, t, i, f) == FS.Reads(FS.View(img, inode), pos, SizesBy(s, e, t, i, f))
  {
    hide FS.WellFormed, StacksOk, StackShape, FS.Reads, FS.Slice;
    if SizesBy(s, e, t, i, f) == [] {
      NoReads(FS.View(img, inode), pos);
    } else {
      TopTableOk(img, s);
      assert Top(s) == s.stacks[t][i];
      OneRead(FS.View(img, inode), pos, FS.UnsignedLength(e.nbytes));
    }
  }

  lemma StreamNothing(img: FS.Image, s: System, t: nat, i: nat, f: int)
    requires FS.WellFormed(img) && Invariant(img, s) && t < 3
    ensures AllPossible([]) && Run(img, s, []) == s
    ensures DeliveredTo(img, s, [], t, i, f) == [] && SizesRead(img, s, [], t, i, f) == []
  {
  }

  lemma StreamUnfolds(img: FS.Image, s: System, es: seq<Event>, t: nat, i: nat, f: int)
    requires FS.WellFormed(img) && Invariant(img, s) && AllPossible(es) && t < 3 && es != []
    ensures Possible(es[0]) && AllPossible(es[1..]) && Shape(s)
    ensures var s1 := Step(img, s, es[0]).0;
      && Invariant(img, s1) && Run(img, s, es) == Run(img, s1, es[1..])
      && DeliveredTo(img, s, es, t, i, f)
         == DeliveredBy(img, s, es[0], t, i, f) + DeliveredTo(img, s1, es[1..], t, i, f)
      && SizesRead(img, s, es, t, i, f) == SizesBy(s, es[0], t, i, f) + SizesRead(img, s1, es[1..], t, i, f)
      && (KeepsOpen(img, s, es, t, i, f) ==>
            (Calls(s, t, i) ==> !es[0].Halt? && es[0] != Close(f)) && KeepsOpen(img, s1, es[1..], t, i, f))
  {
    hide FS.WellFormed, StacksOk, StackShape, Calls, DeliveredBy, SizesBy, Step;
    StepKeepsInvariant(img, s, es[0]);
  }

  /** A process reads its file as if it ran alone: whatever the interleaving, the bytes delivered to
      its descriptor are the file's own bytes from where it stood, in order, and its position has
      moved by exactly their number. */
  lemma {:induction false} StreamIsFile(img: FS.Image, s: System, es: seq<Event>, t: nat, i: nat, f: int,
                                        inode: nat, pos: nat)
    requires FS.WellFormed(img) && Invariant(img, s) && AllPossible(es)
    requires Reading(img, s, t, i, f, inode, pos) && KeepsOpen(img, s, es, t, i, f)
    ensures var data := DeliveredTo(img, s, es, t, i, f);
      && pos + |data| <= img.inodes[inode].length && data == FS.View(img, inode)[pos..pos + |data|]
      && Reading(img, Run(img, s, es), t, i, f, inode, pos + |data|)
    decreases |es|
  {
    hide *;
    ReadingMeans(img, s, t, i, f, inode, pos);
    if es == [] {
      StreamNothing(img, s, t, i, f);
    } else {
      StreamUnfolds(img, s, es, t, i, f);
      var s1 := Step(img, s, es[0]).0;
      StepReads(img, s, es[0], t, i, f, inode, pos);
      var first := |DeliveredBy(img, s, es[0], t, i, f)|;
      StreamIsFile(img, s1, es[1..], t, i, f, inode, pos + first);
      FS.Adjacent(FS.View(img, inode), pos, pos + first, pos + first + |DeliveredTo(img, s1, es[1..], t, i, f)|);
    }
  }

  lemma NoReads(v: seq<byte>, pos: nat)
    ensures FS.Reads(v, pos, []) == []
  {
  }

  lemma OneRead(v: seq<byte>, pos: nat, n: nat)
    ensures FS.Reads(v, pos, [n]) == FS.Slice(v, pos, n)
  {
    hide FS.Slice;
    assert [n][1..] == [];
    NoReads(v, pos + |FS.Slice(v, pos, n)|);
  }

  lemma {:induction false} ReadsJoin(v: seq<byte>, pos: nat, a: seq<nat>, b: seq<nat>)
    ensures FS.Reads(v, pos, a + b) == FS.Reads(v, pos, a) + FS.Reads(v, pos + |FS.Reads(v, pos, a)|, b)
    decreases |a|
  {
    hide FS.Slice;
    if a == [] {
      assert [] + b == b;
    } else {
      assert (a + b)[1..] == a[1..] + b;
      ReadsJoin(v, pos + |FS.Slice(v, pos, a[0])|, a[1..], b);
    }
  }

  /** Under any interleaving, a process gets from its descriptor what reads of those sizes deliver to a
      reader that has the file to itself. */
  lemma {:induction false} StreamIsReads(img: FS.Image, s: System, es: seq<Event>, t: nat, i: nat, f: int,
                                         inode: nat, pos: nat)
    requires FS.WellFormed(img) && Invariant(img, s) && AllPossible(es)
    requires Reading(img, s, t, i, f, inode, pos) && KeepsOpen(img, s, es, t, i, f)
    ensures t < 3 && inode < |img.inodes|
    ensures DeliveredTo(img, s, es, t, i, f) == FS.Reads(FS.View(img, inode), pos, SizesRead(img, s, es, t, i, f))
    decreases |es|
  {
    hide *;
    ReadingMeans(img, s, t, i, f, inode, pos);
    if es == [] {
      StreamNothing(img, s, t, i, f);
      NoReads(FS.View(img, inode), pos);
    } else {
      StreamUnfolds(img, s, es, t, i, f);
      var s1 := Step(img, s, es[0]).0;
      StepReads(img, s, es[0], t, i, f, inode, pos);
      StepDelivers(img, s, es[0], t, i, f, inode, pos);
      var first := DeliveredBy(img, s, es[0], t, i, f);
      StreamIsReads(img, s1, es[1..], t, i, f, inode, pos + |first|);
      ReadsJoin(FS.View(img, inode), pos, SizesBy(s, es[0], t, i, f), SizesRead(img, s1, es[1..], t, i, f));
    }
  }

  /** So a program that reads its file from the start until a read of positive size delivers nothing has
      been delivered the whole file, whatever ran in between. */
  lemma StreamDeliversFile(img: FS.Image, s: System, es: seq<Event>, t: nat, i: nat, f: int, inode: nat,
                           sizes: seq<nat>, last: nat)
    requires FS.WellFormed(img) && Invariant(img, s) && AllPossible(es)
    requires Reading(img, s, t, i, f, inode, 0) && KeepsOpen(img, s, es, t, i, f)
    requires SizesRead(img, s, es, t, i, f) == sizes + [last] && last > 0
    requires FS.Slice(FS.View(img, inode), |FS.Reads(FS.View(img, inode), 0, sizes)|, last) == []
    ensures DeliveredTo(img, s, es, t, i, f) == FS.View(img, inode)
  {
    hide *;
    StreamIsReads(img, s, es, t, i, f, inode, 0);
    FS.ReadsUntilEmptyDeliverAll(FS.View(img, inode), sizes, last);
  }

  lemma ReadingMeans(img: FS.Image, s: System, t: nat, i: nat, f: int, inode: nat, pos: nat)
    requires FS.WellFormed(img) && Reading(img, s, t, i, f, inode, pos)
    ensures inode < |img.inodes| && pos <= img.inodes[inode].length && t < 3
  {
  }
}
