/** The typed keys of each terminal (student-distrib/keyboard.c) and the part of terminal_read that
    takes keys already typed (student-distrib/terminal.c). */
module Keyboard {
  import opened Bytes
  import FileSystem
  import Memory

  const SIZE := 128

  /** A buffer of NULs, as boot and memset leave it. */
  function Blank(): (s: seq<byte>)
    ensures |s| == SIZE && forall i :: 0 <= i < SIZE ==> s[i] == NUL
  {
    seq(SIZE, _ => NUL)
  }

  /** One keyboard buffer and how many of its bytes are keys. */
  datatype Line = Line(mem: seq<byte>, count: int) {
    predicate Valid() {
      |mem| == SIZE && 0 <= count < SIZE
    }

    /** The keys typed and not yet read, oldest first. */
    function Pending(): (p: seq<byte>)
      requires Valid()
    {
      mem[..count]
    }

    /** A newline typed after 127 other keys: it is stored past the counted ones. */
    predicate Closed()
      requires Valid()
    {
      count == SIZE - 1 && mem[SIZE - 1] == NEWLINE
    }

    /** The keys typed and not yet read, with such a newline. */
    function Waiting(): (w: seq<byte>)
      requires Valid()
    {
      Pending() + if Closed() then [NEWLINE] else []
    }
  }

  predicate EndsLine(c: byte) {
    c == NEWLINE || c == NUL
  }

  // ---- what the key operations leave in a buffer

  function Appended(l: Line, c: byte): Line
    requires |l.mem| == SIZE
  {
    if l.count >= SIZE - 1 then
      if c == NEWLINE then Line(l.mem[SIZE - 1 := c], l.count) else l
    else
      var at := if l.count < 0 then 1 else l.count;
      Line(l.mem[at := c], at + 1)
  }

  function Removed(l: Line): Line
    requires |l.mem| == SIZE
  {
    var count := Min(l.count, SIZE);
    if count <= 0 then Line(l.mem, count) else Line(l.mem[count - 1 := NUL], count - 1)
  }

  function Dropped(l: Line, n: int): Line
    requires |l.mem| == SIZE && l.count <= SIZE
  {
    if n <= 0 then Line(Blank(), 0)
    else if n >= l.count then l
    else Line(l.mem[l.count - n..l.count] + l.mem[n..], n)
  }

  /** Where the copy of terminal_read stops: at the first line end, after nbytes or at the last key. */
  function Stop(p: seq<byte>, nbytes: nat): (k: nat)
    ensures k <= |p| && k <= nbytes
    ensures forall i :: 0 <= i < k ==> !EndsLine(p[i])
    ensures k < |p| && k < nbytes ==> EndsLine(p[k])
  {
    if p == [] || nbytes == 0 || EndsLine(p[0]) then 0 else 1 + Stop(p[1..], nbytes - 1)
  }

  /** The bytes terminal_read delivers: always one more than the index it stopped at. */
  function Taken(l: Line, nbytes: nat): seq<byte>
    requires l.Valid()
  {
    l.mem[..Stop(l.Pending(), nbytes) + 1]
  }

  function Left(l: Line, nbytes: nat): (r: Line)
    requires l.Valid()
    ensures r.Valid()
  {
    Dropped(l, l.count - (Stop(l.Pending(), nbytes) + 1))
  }

  /** The read stops inside the typed keys: at a line end among them, or because nbytes ran out. */
  predicate StopsInside(l: Line, nbytes: nat)
    requires l.Valid()
  {
    Stop(l.Pending(), nbytes) < l.count
  }

  // ---- what the operations mean for the pending keys

  /** A key joins the end while fewer than 127 are pending; after that it is not kept. */
  lemma AppendKeeps(l: Line, c: byte)
    requires l.Valid()
    ensures Appended(l, c).Valid()
    ensures Appended(l, c).Pending() == if |l.Pending()| < 127 then l.Pending() + [c] else l.Pending()
  {
  }

  lemma RemoveTakesLast(l: Line)
    requires l.Valid()
    ensures Removed(l).Valid()
    ensures var p := l.Pending(); Removed(l).Pending() == if p == [] then [] else p[..|p| - 1]
  {
  }

  /** Typing a key and erasing it again leaves the pending keys as they were, while there is room. */
  lemma RemoveUndoesAppend(l: Line, c: byte)
    requires l.Valid() && l.count < SIZE - 1
    ensures Removed(Appended(l, c)).Valid() && Removed(Appended(l, c)).Pending() == l.Pending()
  {
    AppendKeeps(l, c);
    RemoveTakesLast(Appended(l, c));
  }

  lemma DropKeepsLatest(l: Line, n: int)
    requires l.Valid()
    ensures Dropped(l, n).Valid()
    ensures var p := l.Pending(); Dropped(l, n).Pending() == p[|p| - Max(0, Min(n, |p|))..]
  {
  }

  lemma InsideSplits(l: Line, k: nat)
    requires l.Valid() && k < l.count
    ensures l.mem[..k + 1] == l.Pending()[..k + 1]
    ensures Dropped(l, l.count - (k + 1)).Valid() && Dropped(l, l.count - (k + 1)).Pending() == l.Pending()[k + 1..]
  {
    hide Dropped;
    var n := l.count - (k + 1);
    assert Max(0, Min(n, l.count)) == n;
    DropKeepsLatest(l, n);
    TakeTwice(l.mem, k + 1, l.count);
  }

  lemma TakeTwice(s: seq<byte>, i: nat, j: nat)
    requires i <= j <= |s|
    ensures s[..j][..i] == s[..i]
  {
  }

  lemma AllSplits(l: Line)
    requires l.Valid()
    ensures l.mem[..l.count + 1] == l.Pending() + [l.mem[l.count]]
    ensures Dropped(l, -1).Valid() && Dropped(l, -1).Pending() == []
  {
  }

  /** A read loses, repeats or invents nothing exactly when it stops inside the typed keys; otherwise
      it also delivers the byte after them. */
  lemma ReadSplits(l: Line, nbytes: nat)
    requires l.Valid()
    ensures Taken(l, nbytes) + Left(l, nbytes).Pending() == l.Pending() <==> StopsInside(l, nbytes)
    ensures !StopsInside(l, nbytes) ==>
      Taken(l, nbytes) == l.Pending() + [l.mem[l.count]] && Left(l, nbytes).Pending() == []
  {
    hide Dropped, Stop;
    var k, p := Stop(l.Pending(), nbytes), l.Pending();
    if k < l.count {
      InsideSplits(l, k);
      CutIn(p, k + 1);
    } else {
      AllSplits(l);
      assert |Taken(l, nbytes)| > |p|;
    }
  }

  /** A read takes exactly what waits up to its end: a newline past the counted keys with all of them,
      or else it has to stop inside them. */
  predicate ReadsWaiting(l: Line, nbytes: nat)
    requires l.Valid()
  {
    if l.Closed() then Stop(l.Pending(), nbytes) == SIZE - 1 else StopsInside(l, nbytes)
  }

  /** What a caller can check beforehand: a read stops inside the typed keys exactly when it asks for
      fewer bytes than there are keys or a line end is among them; it reaches a newline stored past them
      exactly when it asks for as many and there is none. */
  lemma StopsInsideExactly(l: Line, nbytes: nat)
    requires l.Valid()
    ensures var ends := exists i :: 0 <= i < l.count && EndsLine(l.Pending()[i]);
      && (StopsInside(l, nbytes) <==> nbytes < l.count || ends)
      && (ReadsWaiting(l, nbytes) <==> if l.Closed() then nbytes >= l.count && !ends else nbytes < l.count || ends)
  {
    var p, k := l.Pending(), Stop(l.Pending(), nbytes);
    hide Stop;
    if k < l.count && k < nbytes {
      assert EndsLine(p[k]);
    }
  }

  lemma ReadTakesWaiting(l: Line, nbytes: nat)
    requires l.Valid()
    ensures Taken(l, nbytes) + Left(l, nbytes).Waiting() == l.Waiting() <==> ReadsWaiting(l, nbytes)
    ensures !ReadsWaiting(l, nbytes) ==>
      |Taken(l, nbytes)| + |Left(l, nbytes).Waiting()| == |l.Waiting()| + if l.Closed() then -1 else 1
  {
    hide Dropped, Stop;
    var k, p := Stop(l.Pending(), nbytes), l.Pending();
    if k < l.count {
      InsideSplits(l, k);
      CutIn(p, k + 1);
      assert Left(l, nbytes).Waiting() == p[k + 1..];
    } else {
      AllSplits(l);
      assert Left(l, nbytes).Waiting() == [];
    }
  }

  /** The bytes terminal_read stores in the caller's buffer, the NUL after them included, are more than
      nbytes exactly when nbytes - 1 keys without a line end are pending. */
  lemma WritesPastBuffer(p: seq<byte>, nbytes: nat)
    ensures Stop(p, nbytes) + 2 > nbytes
       <==> |p| >= nbytes - 1 && forall i :: 0 <= i < nbytes - 1 ==> !EndsLine(p[i])
  {
    var k := Stop(p, nbytes);
    if k + 2 <= nbytes && |p| >= nbytes - 1 {
      assert EndsLine(p[k]);
    }
  }

  lemma CutIn(s: seq<byte>, n: nat)
    requires n <= |s|
    ensures s[..n] + s[n..] == s
  {
  }

  lemma {:induction false} StopFinds(s: seq<byte>, rest: seq<byte>, nbytes: nat)
    requires NEWLINE !in s && NUL !in s
    ensures Stop(s + [NEWLINE] + rest, nbytes) == Min(nbytes, |s|)
  {
    var p := s + [NEWLINE] + rest;
    if s != [] && nbytes > 0 {
      StopFinds(s[1..], rest, nbytes - 1);
      assert p[0] == s[0] && p[0] in s;
      assert p[1..] == s[1..] + [NEWLINE] + rest;
    }
  }

  /** With a complete line waiting, a read delivers that line and leaves the rest exactly when nbytes
      covers the line without its newline. */
  lemma ReadTakesLine(l: Line, s: seq<byte>, rest: seq<byte>, nbytes: nat)
    requires l.Valid() && l.Pending() == s + [NEWLINE] + rest
    requires NEWLINE !in s && NUL !in s
    ensures StopsInside(l, nbytes)
    ensures Taken(l, nbytes) == s + [NEWLINE] && Left(l, nbytes).Pending() == rest <==> nbytes >= |s|
  {
    hide Stop, Taken, Left, Dropped, StopsInside, Line.Pending;
    StopFinds(s, rest, nbytes);
    var p, k := l.Pending(), Min(nbytes, |s|);
    LineAhead(l, s, rest, k);
    StoppedAt(l, nbytes, k);
    InsideSplits(l, k);
    CutLine(s, rest, k);
  }

  lemma LineAhead(l: Line, s: seq<byte>, rest: seq<byte>, k: nat)
    requires l.Valid() && l.Pending() == s + [NEWLINE] + rest && k <= |s|
    ensures k < l.count
  {
  }

  lemma StoppedAt(l: Line, nbytes: nat, k: nat)
    requires l.Valid() && Stop(l.Pending(), nbytes) == k < l.count
    ensures StopsInside(l, nbytes) && k < |l.mem| && Taken(l, nbytes) == l.mem[..k + 1]
    ensures Left(l, nbytes) == Dropped(l, l.count - (k + 1))
  {
  }

  lemma CutLine(s: seq<byte>, rest: seq<byte>, k: nat)
    requires k <= |s|
    ensures var p := s + [NEWLINE] + rest; p[..k + 1] == s + [NEWLINE] && p[k + 1..] == rest <==> k == |s|
  {
    if k == |s| {
      FirstPart(s + [NEWLINE], rest);
    }
  }

  lemma FirstPart(a: seq<byte>, b: seq<byte>)
    ensures (a + b)[..|a|] == a && (a + b)[|a|..] == b
  {
  }

  /** A newline typed after 127 other keys is not counted, yet the next long enough read delivers it. */
  lemma FullLineEnds(l: Line, nbytes: nat)
    requires l.Valid() && l.count == SIZE - 1 && nbytes >= SIZE - 1
    requires NEWLINE !in l.Pending() && NUL !in l.Pending()
    ensures var full := Appended(l, NEWLINE);
      && full.Valid() && Taken(full, nbytes) == l.Pending() + [NEWLINE] && Left(full, nbytes).Pending() == []
  {
    var full := Appended(l, NEWLINE);
    AppendKeeps(l, NEWLINE);
    var p := l.Pending();
    forall i | 0 <= i < |p| ensures !EndsLine(p[i]) {
      assert p[i] in p;
    }
    ReadSplits(full, nbytes);
  }

  // ---- the three terminals

  datatype Desk = Desk(lines: seq<Line>, current: nat, process: nat) {
    predicate Valid() {
      |lines| == 3 && current < 3 && process < 3 && forall t :: 0 <= t < 3 ==> lines[t].Valid()
    }
  }

  datatype Event =
    | Key(c: byte)
    | Erase            // backspace
    | Wipe             // control-L
    | Show(t: nat)     // set_kb_buffer, then switch_terminal
    | Schedule(t: nat) // process_terminal changes
    | Read(nbytes: nat)

  predicate Allowed(e: Event) {
    (e.Show? ==> e.t < 3) && (e.Schedule? ==> e.t < 3) && (e.Read? ==> e.nbytes < 0x1_0000_0000)
  }

  /** Whether a read is answered at once. */
  predicate Answered(d: Desk)
    requires d.Valid()
  {
    d.lines[d.current].count > 0 && d.process == d.current
  }

  function Step(d: Desk, e: Event): (r: Desk)
    requires d.Valid() && Allowed(e)
    ensures r.Valid()
  {
    var l := d.lines[d.current];
    match e
    case Key(c) => d.(lines := d.lines[d.current := Appended(l, c)])
    case Erase => d.(lines := d.lines[d.current := Removed(l)])
    case Wipe => d.(lines := d.lines[d.current := l.(count := 0)])
    case Show(t) => d.(current := t)
    case Schedule(t) => d.(process := t)
    case Read(nbytes) => if Answered(d) then d.(lines := d.lines[d.current := Left(l, nbytes)]) else d
  }

  ghost predicate AllAllowed(es: seq<Event>) {
    forall i :: 0 <= i < |es| ==> Allowed(es[i])
  }

  function Run(d: Desk, es: seq<Event>): (r: Desk)
    requires d.Valid() && AllAllowed(es)
    ensures r.Valid()
    decreases es
  {
    if es == [] then d else Run(Step(d, es[0]), es[1..])
  }

  /** What one event delivers to the programs of terminal t. */
  function Delivery(d: Desk, e: Event, t: nat): seq<byte>
    requires d.Valid()
  {
    if e.Read? && Answered(d) && d.current == t then Taken(d.lines[t], e.nbytes) else []
  }

  function Delivered(d: Desk, es: seq<Event>, t: nat): seq<byte>
    requires d.Valid() && AllAllowed(es)
    decreases es
  {
    if es == [] then [] else Delivery(d, es[0], t) + Delivered(Step(d, es[0]), es[1..], t)
  }

  /** The text typed at t, as its user edits it: a key that append_key accepts is added at the end, a
      backspace takes back the last key not yet read, control-L all of them; nothing else edits it. */
  function Edit(d: Desk, e: Event, t: nat, text: seq<byte>): seq<byte>
    requires d.Valid() && t < 3
  {
    var w := d.lines[t].Waiting();
    if d.current != t then text
    else if e.Key? && Accepts(d.lines[t], e.c) then text + [e.c]
    else if e.Erase? && w != [] && text != [] then text[..|text| - 1]
    else if e.Wipe? && |w| <= |text| then text[..|text| - |w|]
    else text
  }

  /** The keys for which append_key returns 1. */
  predicate Accepts(l: Line, c: byte) {
    l.count < SIZE - 1 || c == NEWLINE
  }

  function Typed(d: Desk, es: seq<Event>, t: nat, text: seq<byte>): seq<byte>
    requires d.Valid() && AllAllowed(es) && t < 3
    decreases es
  {
    if es == [] then text else Typed(Step(d, es[0]), es[1..], t, Edit(d, es[0], t, text))
  }

  /** An answered read at t that delivers a byte nobody typed. */
  predicate Strays(d: Desk, e: Event, t: nat)
    requires d.Valid() && t < 3
  {
    && e.Read? && Answered(d) && d.current == t
    && !d.lines[t].Closed() && !ReadsWaiting(d.lines[t], e.nbytes)
  }

  /** A step that mistreats a newline stored past the counted keys: a backspace or a read that stops
      inside them loses it, a second one is accepted but not kept, and one that a backspace has lost
      comes back when the line is full again. */
  predicate Mistreats(d: Desk, e: Event, t: nat)
    requires d.Valid() && t < 3
  {
    var l := d.lines[t];
    && d.current == t
    && match e
       case Key(c) => (l.Closed() && c == NEWLINE) || (l.count == SIZE - 2 && l.mem[SIZE - 1] == NEWLINE)
       case Erase => l.Closed()
       case Read(nbytes) => Answered(d) && l.Closed() && !ReadsWaiting(l, nbytes)
       case _ => false
  }

  function StrayBytes(d: Desk, es: seq<Event>, t: nat): nat
    requires d.Valid() && AllAllowed(es) && t < 3
    decreases es
  {
    if es == [] then 0 else (if Strays(d, es[0], t) then 1 else 0) + StrayBytes(Step(d, es[0]), es[1..], t)
  }

  predicate MistreatsNone(d: Desk, es: seq<Event>, t: nat)
    requires d.Valid() && AllAllowed(es) && t < 3
    decreases es
  {
    es == [] || (!Mistreats(d, es[0], t) && MistreatsNone(Step(d, es[0]), es[1..], t))
  }

  /** No event at one terminal touches what is pending at another. */
  lemma OthersKeep(d: Desk, e: Event, t: nat)
    requires d.Valid() && Allowed(e) && t < 3 && t != d.current
    ensures Step(d, e).lines[t] == d.lines[t] && Delivery(d, e, t) == []
  {
  }

  /** Only the terminal that runs and is shown is answered: a read delivers bytes to it alone, and when
      another terminal is shown it takes nobody's keys. */
  lemma ReadersRun(d: Desk, nbytes: nat, t: nat)
    requires d.Valid() && nbytes < 0x1_0000_0000 && t < 3
    ensures Delivery(d, Read(nbytes), t) != [] ==>
      d.process == t && d.current == t && d.lines[t].count > 0
    ensures d.process == d.current == t && d.lines[t].count > 0 ==>
      |Delivery(d, Read(nbytes), t)| > 0 && |Delivery(d, Read(nbytes), t)| <= d.lines[t].count + 1
    ensures d.process != d.current ==> Step(d, Read(nbytes)) == d
  {
  }

  lemma OnlyReadsDeliver(d: Desk, e: Event, t: nat)
    requires d.Valid() && Allowed(e) && t < 3 && Delivery(d, e, t) != []
    ensures e.Read? && d.process == d.current == t && d.lines[t].count > 0
  {
  }

  lemma StepSwitches(d: Desk, e: Event)
    requires d.Valid() && Allowed(e)
    ensures Step(d, e).current == if e.Show? then e.t else d.current
    ensures Step(d, e).process == if e.Schedule? then e.t else d.process
    ensures e.Show? || e.Schedule? ==> Step(d, e).lines == d.lines
  {
  }

  /** After any run, the keys go to the terminal shown last (event i), or else the first one ... */
  lemma {:induction false} ShownIsLastAsked(d: Desk, es: seq<Event>, i: nat)
    requires d.Valid() && AllAllowed(es) && i <= |es| && (i < |es| ==> es[i].Show?)
    requires forall j :: 0 <= j < |es| && es[j].Show? ==> j <= i < |es|
    ensures Run(d, es).current == if i < |es| then es[i].t else d.current
    decreases es
  {
    hide Step;
    if es != [] {
      StepSwitches(d, es[0]);
      var next := Step(d, es[0]);
      if i == 0 || i == |es| {
        ShownIsLastAsked(next, es[1..], |es| - 1);
      } else {
        ShownIsLastAsked(next, es[1..], i - 1);
      }
    }
  }

  /** ... and the reads come from the terminal scheduled last. */
  lemma {:induction false} RunsLastScheduled(d: Desk, es: seq<Event>, i: nat)
    requires d.Valid() && AllAllowed(es) && i <= |es| && (i < |es| ==> es[i].Schedule?)
    requires forall j :: 0 <= j < |es| && es[j].Schedule? ==> j <= i < |es|
    ensures Run(d, es).process == if i < |es| then es[i].t else d.process
    decreases es
  {
    hide Step;
    if es != [] {
      StepSwitches(d, es[0]);
      var next := Step(d, es[0]);
      if i == 0 || i == |es| {
        RunsLastScheduled(next, es[1..], |es| - 1);
      } else {
        RunsLastScheduled(next, es[1..], i - 1);
      }
    }
  }

  /** A read at the end of a run, made while the terminal that runs is not shown, takes no terminal's keys
      and delivers nothing. */
  lemma HiddenReadWaits(d: Desk, es: seq<Event>, nbytes: nat, t: nat)
    requires d.Valid() && AllAllowed(es) && nbytes < 0x1_0000_0000 && t < 3
    requires Run(d, es).process != Run(d, es).current
    ensures AllAllowed(es + [Read(nbytes)]) && Run(d, es + [Read(nbytes)]) == Run(d, es)
    ensures Delivered(d, es + [Read(nbytes)], t) == Delivered(d, es, t)
  {
    var end := Run(d, es);
    OneRead(end, nbytes, t);
    ReadersRun(end, nbytes, t);
    hide *;
    RunsOn(d, es, [Read(nbytes)], t, []);
    assert Delivered(d, es, t) + [] == Delivered(d, es, t);
  }

  lemma OneRead(d: Desk, nbytes: nat, t: nat)
    requires d.Valid() && nbytes < 0x1_0000_0000 && t < 3
    ensures AllAllowed([Read(nbytes)]) && Run(d, [Read(nbytes)]) == Step(d, Read(nbytes))
    ensures Delivered(d, [Read(nbytes)], t) == Delivery(d, Read(nbytes), t)
  {
    hide Step, Delivery;
    assert [Read(nbytes)][1..] == [];
    KeysNone(Step(d, Read(nbytes)), t, []);
    assert Delivery(d, Read(nbytes), t) + [] == Delivery(d, Read(nbytes), t);
  }

  lemma AppendWaits(l: Line, c: byte)
    requires l.Valid()
    ensures Appended(l, c).Waiting() ==
      if l.count == SIZE - 2 && l.mem[SIZE - 1] == NEWLINE then l.Waiting() + [c, NEWLINE]
      else if Accepts(l, c) && !l.Closed() then l.Waiting() + [c]
      else l.Waiting()
  {
  }

  lemma RemoveWaits(l: Line)
    requires l.Valid()
    ensures var w, n := l.Waiting(), if l.Closed() then 2 else if l.count == 0 then 0 else 1;
      n <= |w| && Removed(l).Waiting() == w[..|w| - n]
  {
  }

  lemma KeyKeepsText(l: Line, c: byte, got: seq<byte>)
    requires l.Valid()
    ensures var w, w' := got + l.Waiting(), got + Appended(l, c).Waiting();
      w' == (if Accepts(l, c) then w + [c] else w)
      <==> !(l.Closed() && c == NEWLINE) && !(l.count == SIZE - 2 && l.mem[SIZE - 1] == NEWLINE)
  {
    hide Appended, Line.Waiting;
    AppendWaits(l, c);
    assert got + (l.Waiting() + [c]) == got + l.Waiting() + [c];
  }

  lemma EraseKeepsText(l: Line, got: seq<byte>)
    requires l.Valid()
    ensures var w, w' := got + l.Waiting(), got + Removed(l).Waiting();
      w' == (if l.Waiting() == [] then w else w[..|w| - 1]) <==> !l.Closed()
  {
    hide Removed, Line.Waiting;
    WaitsNothing(l);
    RemoveWaits(l);
    var w := l.Waiting();
    if w != [] && !l.Closed() {
      assert (got + w)[..|got + w| - 1] == got + w[..|w| - 1];
    }
  }

  lemma WipeKeepsText(l: Line, got: seq<byte>)
    requires l.Valid()
    ensures var w := got + l.Waiting(); got + l.(count := 0).Waiting() == w[..|w| - |l.Waiting()|]
  {
    hide Line.Waiting;
    WaitsNothing(l.(count := 0));
    assert got + [] == got;
  }

  lemma ReadKeepsText(l: Line, nbytes: nat, got: seq<byte>)
    requires l.Valid()
    ensures got + Taken(l, nbytes) + Left(l, nbytes).Waiting() == got + l.Waiting() <==> ReadsWaiting(l, nbytes)
  {
    hide *;
    ReadTakesWaiting(l, nbytes);
    var taken, left := Taken(l, nbytes), Left(l, nbytes).Waiting();
    assert got + taken + left == got + (taken + left);
  }

  /** With delivered and waiting keys equal to the text before a step, they still are after it exactly
      when it neither delivers a stray byte nor mistreats a newline. */
  lemma StepKeepsText(d: Desk, e: Event, t: nat, got: seq<byte>, text: seq<byte>)
    requires d.Valid() && Allowed(e) && t < 3
    requires got + d.lines[t].Waiting() == text
    ensures got + Delivery(d, e, t) + Step(d, e).lines[t].Waiting() == Edit(d, e, t, text)
       <==> !Strays(d, e, t) && !Mistreats(d, e, t)
  {
    var l := d.lines[t];
    hide Appended, Removed, Line.Waiting, Taken, Left, ReadsWaiting;
    assert got + [] == got;
    if d.current != t {
      OthersKeep(d, e, t);
    } else {
      match e
      case Key(c) => KeyKeepsText(l, c, got);
      case Erase =>
        EraseKeepsText(l, got);
        WaitsNothing(l);
      case Wipe => WipeKeepsText(l, got);
      case Show(_) =>
      case Schedule(_) =>
      case Read(nbytes) => ReadKeepsText(l, nbytes, got);
    }
  }

  lemma WaitsNothing(l: Line)
    requires l.Valid()
    ensures l.Waiting() == [] <==> l.count == 0
  {
  }

  lemma StepGrows(d: Desk, e: Event, t: nat, text: seq<byte>)
    requires d.Valid() && Allowed(e) && t < 3 && !Mistreats(d, e, t)
    requires |text| >= |d.lines[t].Waiting()|
    ensures var next := Step(d, e).lines[t].Waiting();
      && |Edit(d, e, t, text)| >= |next|
      && |Delivery(d, e, t)| + |next| - |Edit(d, e, t, text)|
         == |d.lines[t].Waiting()| - |text| + if Strays(d, e, t) then 1 else 0
  {
    var l := d.lines[t];
    hide Appended, Removed, Dropped, Stop, Line.Waiting, Taken, Left;
    if d.current != t {
      OthersKeep(d, e, t);
    } else {
      match e
      case Key(c) => AppendWaits(l, c);
      case Erase =>
        RemoveWaits(l);
        WaitsNothing(l);
      case Wipe => WaitsNothing(l.(count := 0));
      case Show(_) =>
      case Schedule(_) =>
      case Read(nbytes) =>
        if Answered(d) { ReadTakesWaiting(l, nbytes); }
    }
  }

  lemma RunUnfolds(d: Desk, es: seq<Event>, t: nat, text: seq<byte>)
    requires d.Valid() && AllAllowed(es) && t < 3 && es != []
    ensures Allowed(es[0]) && AllAllowed(es[1..])
    ensures var next := Step(d, es[0]);
      && Run(d, es) == Run(next, es[1..])
      && Delivered(d, es, t) == Delivery(d, es[0], t) + Delivered(next, es[1..], t)
      && Typed(d, es, t, text) == Typed(next, es[1..], t, Edit(d, es[0], t, text))
      && StrayBytes(d, es, t) == (if Strays(d, es[0], t) then 1 else 0) + StrayBytes(next, es[1..], t)
      && (MistreatsNone(d, es, t) <==> !Mistreats(d, es[0], t) && MistreatsNone(next, es[1..], t))
  {
    hide Step, Edit, Delivery, Strays, Mistreats;
  }

  lemma Regroup(a: seq<byte>, b: seq<byte>, c: seq<byte>, p: seq<byte>)
    ensures a + b + (c + p) == a + (b + c + p)
  {
  }

  lemma {:induction false} RunKeepsText(d: Desk, es: seq<Event>, t: nat, got: seq<byte>, text: seq<byte>)
    requires d.Valid() && AllAllowed(es) && t < 3
    requires got + d.lines[t].Waiting() == text && StrayBytes(d, es, t) == 0 && MistreatsNone(d, es, t)
    ensures Typed(d, es, t, text) == got + (Delivered(d, es, t) + Run(d, es).lines[t].Waiting())
    decreases es
  {
    if es == [] {
      assert [] + d.lines[t].Waiting() == d.lines[t].Waiting();
    } else {
      RunUnfolds(d, es, t, text);
      hide *;
      var e, next, first := es[0], Step(d, es[0]), Delivery(d, es[0], t);
      StepKeepsText(d, e, t, got, text);
      RunKeepsText(next, es[1..], t, got + first, Edit(d, e, t, text));
      Regroup(got, first, Delivered(next, es[1..], t), Run(d, es).lines[t].Waiting());
    }
  }

  lemma {:induction false} RunGrows(d: Desk, es: seq<Event>, t: nat, text: seq<byte>)
    requires d.Valid() && AllAllowed(es) && t < 3 && MistreatsNone(d, es, t)
    requires |text| >= |d.lines[t].Waiting()|
    ensures |Delivered(d, es, t)| + |Run(d, es).lines[t].Waiting()| - |Typed(d, es, t, text)|
         == |d.lines[t].Waiting()| - |text| + StrayBytes(d, es, t)
    decreases es
  {
    if es != [] {
      RunUnfolds(d, es, t, text);
      hide *;
      StepGrows(d, es[0], t, text);
      RunGrows(Step(d, es[0]), es[1..], t, Edit(d, es[0], t, text));
    }
  }

  /** What was delivered at t by the end of a run, followed by what waits there, is the text typed there. */
  ghost predicate Arrived(d: Desk, es: seq<Event>, t: nat)
    requires d.Valid() && AllAllowed(es) && t < 3
  {
    Delivered(d, es, t) + Run(d, es).lines[t].Waiting() == Typed(d, es, t, d.lines[t].Waiting())
  }

  /** Over every run that mistreats no newline: what was delivered at a terminal followed by what still
      waits there is the text typed there, exactly when no read there delivered a stray byte. */
  lemma TypedKeysArrive(d: Desk, es: seq<Event>, t: nat)
    requires d.Valid() && AllAllowed(es) && t < 3 && MistreatsNone(d, es, t)
    ensures Arrived(d, es, t) <==> StrayBytes(d, es, t) == 0
  {
    hide Line.Waiting, Run, Delivered, Typed, StrayBytes, MistreatsNone, AllAllowed;
    var w := d.lines[t].Waiting();
    RunGrows(d, es, t, w);
    if StrayBytes(d, es, t) == 0 {
      NothingBefore(w);
      RunKeepsText(d, es, t, [], w);
      NothingBefore(Delivered(d, es, t) + Run(d, es).lines[t].Waiting());
    }
  }

  lemma NothingBefore(s: seq<byte>)
    ensures [] + s == s
  {
  }

  /** The same in the middle of a run, for keys delivered and typed before it. */
  ghost predicate ArrivedAfter(d: Desk, es: seq<Event>, i: nat, t: nat, got: seq<byte>, text: seq<byte>)
    requires d.Valid() && AllAllowed(es) && t < 3 && i <= |es|
  {
    got + (Delivered(d, es[..i], t) + Run(d, es[..i]).lines[t].Waiting()) == Typed(d, es[..i], t, text)
  }

  lemma ArrivedStep(d: Desk, es: seq<Event>, i: nat, t: nat, got: seq<byte>, text: seq<byte>)
    requires d.Valid() && AllAllowed(es) && t < 3 && i < |es|
    ensures Allowed(es[0]) && AllAllowed(es[1..])
    ensures ArrivedAfter(d, es, i + 1, t, got, text)
       <==> ArrivedAfter(Step(d, es[0]), es[1..], i, t, got + Delivery(d, es[0], t), Edit(d, es[0], t, text))
  {
    var part := es[..i + 1];
    assert part[0] == es[0] && part[1..] == es[1..][..i];
    RunUnfolds(d, part, t, text);
    Regroup(got, Delivery(d, es[0], t), Delivered(Step(d, es[0]), part[1..], t),
            Run(d, part).lines[t].Waiting());
  }

  lemma ArrivedAtOnce(d: Desk, es: seq<Event>, t: nat, got: seq<byte>, text: seq<byte>)
    requires d.Valid() && AllAllowed(es) && t < 3
    ensures ArrivedAfter(d, es, 0, t, got, text) <==> got + d.lines[t].Waiting() == text
  {
    assert es[..0] == [] && [] + d.lines[t].Waiting() == d.lines[t].Waiting();
  }

  lemma {:induction false} ArrivesOn(d: Desk, es: seq<Event>, t: nat, got: seq<byte>, text: seq<byte>)
    requires d.Valid() && AllAllowed(es) && t < 3 && got + d.lines[t].Waiting() == text
    ensures (forall i :: 0 <= i <= |es| ==> ArrivedAfter(d, es, i, t, got, text))
       <==> StrayBytes(d, es, t) == 0 && MistreatsNone(d, es, t)
    decreases es
  {
    ArrivedAtOnce(d, es, t, got, text);
    if es != [] {
      RunUnfolds(d, es, t, text);
      hide *;
      var e, next, rest := es[0], Step(d, es[0]), es[1..];
      var got', text' := got + Delivery(d, e, t), Edit(d, e, t, text);
      StepKeepsText(d, e, t, got, text);
      forall i: nat | i < |es|
        ensures ArrivedAfter(d, es, i + 1, t, got, text) <==> ArrivedAfter(next, rest, i, t, got', text')
      {
        ArrivedStep(d, es, i, t, got, text);
      }
      ArrivedAtOnce(next, rest, t, got', text');
      assert ArrivedAfter(d, es, 1, t, got, text) <==> ArrivedAfter(next, rest, 0, t, got', text');
      if got' + next.lines[t].Waiting() == text' {
        ArrivesOn(next, rest, t, got', text');
        assert forall i :: 0 < i <= |es| ==>
          (ArrivedAfter(d, es, i, t, got, text) <==> ArrivedAfter(next, rest, i - 1, t, got', text'));
        assert forall i :: 0 <= i <= |rest| ==>
          (ArrivedAfter(d, es, i + 1, t, got, text) <==> ArrivedAfter(next, rest, i, t, got', text'));
      }
    }
  }

  /** Over every run: the keys arrive at every point of it exactly when no read delivers a stray byte and
      no step mistreats a newline stored past the counted keys. */
  lemma TypedKeysArriveThroughout(d: Desk, es: seq<Event>, t: nat)
    requires d.Valid() && AllAllowed(es) && t < 3
    ensures (forall i :: 0 <= i <= |es| ==> Arrived(d, es[..i], t))
       <==> StrayBytes(d, es, t) == 0 && MistreatsNone(d, es, t)
  {
    hide Line.Waiting, Run, Delivered, Typed, StrayBytes, MistreatsNone;
    var w := d.lines[t].Waiting();
    NothingBefore(w);
    ArrivesOn(d, es, t, [], w);
    forall i | 0 <= i <= |es| ensures Arrived(d, es[..i], t) <==> ArrivedAfter(d, es, i, t, [], w) {
      NothingBefore(Delivered(d, es[..i], t) + Run(d, es[..i]).lines[t].Waiting());
    }
  }

  // ---- runs from boot in which keys do not arrive

  function Boot(): (d: Desk)
    ensures d.Valid()
  {
    Desk(seq(3, _ => Line(Blank(), 0)), 0, 0)
  }

  function Keys(s: seq<byte>): (es: seq<Event>)
    ensures AllAllowed(es) && |es| == |s|
  {
    seq(|s|, i requires 0 <= i < |s| => Key(s[i]))
  }

  /** A key and a read that asks for more: the program gets the key and a NUL nobody typed. */
  lemma StrayByteDelivered(c: byte, nbytes: nat)
    requires !EndsLine(c) && 1 < nbytes < 0x1_0000_0000
    ensures var es := [Key(c), Read(nbytes)];
      && AllAllowed(es) && Delivered(Boot(), es, 0) == [c, NUL] && Typed(Boot(), es, 0, []) == [c]
      && StrayBytes(Boot(), es, 0) == 1 && MistreatsNone(Boot(), es, 0) && !Arrived(Boot(), es, 0)
  {
    var d, es := Boot(), [Key(c), Read(nbytes)];
    assert es[1..] == [Read(nbytes)] && [Read(nbytes)][1..] == [];
    RunUnfolds(d, es, 0, []);
    var d1 := Step(d, Key(c));
    var l := d1.lines[0];
    assert l == Line(Blank()[0 := c], 1) && l.Pending() == [c];
    assert Stop([c], nbytes) == 1;
    assert Taken(l, nbytes) == [c, NUL];
    assert d1.lines[0].Waiting() == [c] && Edit(d, Key(c), 0, []) == [] + [c];
    RunUnfolds(d1, [Read(nbytes)], 0, [c]);
    TypedKeysArrive(d, es, 0);
    assert d.lines[0].Waiting() == [];
  }

  lemma {:induction false} RunsOn(d: Desk, a: seq<Event>, b: seq<Event>, t: nat, text: seq<byte>)
    requires d.Valid() && AllAllowed(a) && AllAllowed(b) && t < 3
    ensures AllAllowed(a + b)
    ensures Run(d, a + b) == Run(Run(d, a), b)
    ensures Delivered(d, a + b, t) == Delivered(d, a, t) + Delivered(Run(d, a), b, t)
    ensures Typed(d, a + b, t, text) == Typed(Run(d, a), b, t, Typed(d, a, t, text))
    decreases a
  {
    if a == [] {
      assert a + b == b;
      assert [] + Delivered(d, b, t) == Delivered(d, b, t);
    } else {
      var e, rest := a[0], a[1..];
      assert (a + b)[0] == e && (a + b)[1..] == rest + b;
      RunUnfolds(d, a, t, text);
      hide *;
      var next := Step(d, e);
      RunsOn(next, rest, b, t, Edit(d, e, t, text));
      RunUnfolds(d, a + b, t, text);
      Joined(Delivery(d, e, t), Delivered(next, rest, t), Delivered(Run(next, rest), b, t));
    }
  }

  lemma Joined(a: seq<byte>, b: seq<byte>, c: seq<byte>)
    ensures a + (b + c) == a + b + c
  {
  }

  lemma KeysFirst(s: seq<byte>)
    requires s != []
    ensures Keys(s)[0] == Key(s[0]) && Keys(s)[1..] == Keys(s[1..])
  {
  }

  lemma KeyFills(d: Desk, c: byte, text: seq<byte>)
    requires d.Valid() && d.lines[d.current].count < SIZE - 1
    ensures var next := Step(d, Key(c));
      var was, now := d.lines[d.current], next.lines[d.current];
      && next.current == d.current && now.count == was.count + 1
      && now.Pending() == was.Pending() + [c] && now.mem[SIZE - 1] == was.mem[SIZE - 1]
    ensures Edit(d, Key(c), d.current, text) == text + [c] && Delivery(d, Key(c), d.current) == []
  {
    AppendKeeps(d.lines[d.current], c);
  }

  lemma KeysNone(d: Desk, t: nat, text: seq<byte>)
    requires d.Valid() && t < 3
    ensures Keys([]) == [] && Run(d, []) == d && Typed(d, [], t, text) == text && Delivered(d, [], t) == []
  {
  }

  lemma {:induction false} KeysFill(d: Desk, s: seq<byte>, text: seq<byte>)
    requires d.Valid() && d.lines[d.current].count + |s| < SIZE
    ensures var end := Run(d, Keys(s));
      var was, now := d.lines[d.current], end.lines[d.current];
      && end.current == d.current && now.count == was.count + |s|
      && now.Pending() == was.Pending() + s && now.mem[SIZE - 1] == was.mem[SIZE - 1]
    ensures Typed(d, Keys(s), d.current, text) == text + s && Delivered(d, Keys(s), d.current) == []
    decreases |s|
  {
    hide Run, Typed, Delivered, Edit, Delivery, Step, Keys;
    var t, p := d.current, d.lines[d.current].Pending();
    KeysNone(d, t, text);
    if s == [] {
      assert text + s == text && p + s == p;
    } else {
      var rest, next := s[1..], Step(d, Key(s[0]));
      KeysFirst(s);
      RunUnfolds(d, Keys(s), t, text);
      KeyFills(d, s[0], text);
      KeysFill(next, rest, text + [s[0]]);
      assert p + [s[0]] + rest == p + s && text + [s[0]] + rest == text + s;
      assert [] + Delivered(next, Keys(rest), t) == Delivered(next, Keys(rest), t);
    }
  }

  /** 127 keys, a newline and a backspace: the backspace takes back the newline typed last, and the key
      before it is lost as well. */
  lemma NewlineErased(s: seq<byte>)
    requires |s| == SIZE - 1
    ensures var es := Keys(s) + [Key(NEWLINE), Erase];
      && AllAllowed(es) && Typed(Boot(), es, 0, []) == s && Delivered(Boot(), es, 0) == []
      && Run(Boot(), es).lines[0].Waiting() == s[..SIZE - 2]
  {
    var d, a, b := Boot(), Keys(s), [Key(NEWLINE), Erase];
    assert d.lines[0].Pending() == [] && [] + s == s;
    KeysFill(d, s, []);
    RunsOn(d, a, b, 0, []);
    var full := Run(d, a);
    assert b[1..] == [Erase] && [Erase][1..] == [];
    hide Run, Typed, Delivered;
    FullErased(full, s);
  }

  lemma FullErased(full: Desk, s: seq<byte>)
    requires full.Valid() && full.current == 0 && |s| == SIZE - 1
    requires full.lines[0].count == SIZE - 1 && full.lines[0].Pending() == s && full.lines[0].mem[SIZE - 1] == NUL
    ensures var b := [Key(NEWLINE), Erase];
      && AllAllowed(b) && Typed(full, b, 0, s) == s && Delivered(full, b, 0) == []
      && Run(full, b).lines[0].Waiting() == s[..SIZE - 2]
  {
    var b := [Key(NEWLINE), Erase];
    assert b[1..] == [Erase] && [Erase][1..] == [];
    var closed := Step(full, Key(NEWLINE));
    RunUnfolds(full, b, 0, s);
    RunUnfolds(closed, [Erase], 0, s + [NEWLINE]);
    var l := closed.lines[0];
    assert l.Closed() && l.Pending() == s;
    RemoveWaits(l);
    assert l.Waiting() == s + [NEWLINE] && (s + [NEWLINE])[..SIZE - 2] == s[..SIZE - 2];
    assert (s + [NEWLINE])[..SIZE - 1] == s;
  }

  // ---- the buffers of the kernel

  /** The first i bytes are those that stood d higher; the rest are untouched. */
  ghost predicate ShiftedBy(was: seq<byte>, now: seq<byte>, d: nat, i: nat) {
    d + i <= |was| && now == was[d..d + i] + was[i..]
  }

  lemma DroppedIs(l: Line, n: int)
    requires |l.mem| == SIZE && l.count <= SIZE
    ensures Dropped(l, n) == if n <= 0 then Line(Blank(), 0)
                             else if n >= l.count then l
                             else Line(l.mem[l.count - n..l.count] + l.mem[n..], n)
  {
  }

  lemma ShiftStarts(was: seq<byte>, d: nat)
    requires d <= |was|
    ensures ShiftedBy(was, was, d, 0)
  {
  }

  lemma ShiftMore(was: seq<byte>, now: seq<byte>, d: nat, i: nat)
    requires ShiftedBy(was, now, d, i) && d + i < |was|
    ensures |now| == |was| && ShiftedBy(was, now[i := now[i + d]], d, i + 1)
  {
    assert now[i + d] == was[i + d];
  }

  lemma ShiftEnds(was: seq<byte>, now: seq<byte>, d: nat, n: nat)
    requires ShiftedBy(was, now, d, n)
    ensures d + n <= |was| && now == was[d..d + n] + was[n..]
  {
  }

  lemma TailIs(was: seq<byte>, now: seq<byte>, k: nat)
    requires 0 < k < |was| == |now| && now == was[k - 1 := now[k - 1]][k := NUL]
    ensures now[k..] == [NUL] + was[k + 1..]
  {
  }

  /** An unsigned word, read back as the int it was stored from. */
  function SignedCount(n: nat): int {
    if n < 0x8000_0000 then n else n - 0x1_0000_0000
  }

  class Keyboard {
    const terminalBuffers: seq<array<byte>>
    var kbBuffer: array<byte> // one of terminalBuffers
    var kbBufCount: int
    var kbBufLen: seq<nat>    // the counts of the terminals not shown, as unsigned words
    var currentTerminal: nat
    var processTerminal: nat

    ghost predicate Wired()
      reads this
    {
      && |terminalBuffers| == 3 && |kbBufLen| == 3 && currentTerminal < 3 && processTerminal < 3
      && (forall t :: 0 <= t < 3 ==> kbBufLen[t] < 0x1_0000_0000)
      && (forall t :: 0 <= t < 3 ==> terminalBuffers[t].Length == SIZE)
      && (forall t, u :: 0 <= t < u < 3 ==> terminalBuffers[t] != terminalBuffers[u])
      && kbBuffer == terminalBuffers[currentTerminal]
    }

    ghost function LineOf(t: nat): Line
      requires Wired() && t < 3
      reads this, terminalBuffers
    {
      Line(terminalBuffers[t][..], if t == currentTerminal then kbBufCount else SignedCount(kbBufLen[t]))
    }

    ghost function View(): (d: Desk)
      requires Wired()
      reads this, terminalBuffers
      ensures |d.lines| == 3 && forall t :: 0 <= t < 3 ==> d.lines[t] == LineOf(t)
    {
      Desk([LineOf(0), LineOf(1), LineOf(2)], currentTerminal, processTerminal)
    }

    ghost predicate Valid()
      reads this, terminalBuffers
    {
      Wired() && View().Valid()
    }

    constructor ()
      ensures Valid() && fresh(terminalBuffers)
      ensures View() == Boot()
    {
      var b0 := new byte[SIZE](_ => NUL);
      var b1 := new byte[SIZE](_ => NUL);
      var b2 := new byte[SIZE](_ => NUL);
      terminalBuffers, kbBuffer := [b0, b1, b2], b0;
      kbBufCount, kbBufLen := 0, [0, 0, 0];
      currentTerminal, processTerminal := 0, 0;
      new;
      assert b0[..] == b1[..] == b2[..] == Blank();
    }

    method AppendKey(c: byte) returns (r: int)
      requires Wired()
      modifies `kbBufCount, kbBuffer
      ensures Wired() && LineOf(currentTerminal) == Appended(old(LineOf(currentTerminal)), c)
      ensures r == if old(kbBufCount) >= SIZE - 1 && c != NEWLINE then 0 else 1
      ensures old(Valid()) ==> Valid() && View() == Step(old(View()), Key(c))
    {
      if kbBufCount >= SIZE - 1 {
        if c == NEWLINE {
          kbBuffer[SIZE - 1] := c;
          return 1;
        }
        return 0;
      }
      if kbBufCount < 0 {
        kbBufCount := 1;
      }
      kbBuffer[kbBufCount] := c;
      kbBufCount := kbBufCount + 1;
      return 1;
    }

    method RemoveKey() returns (r: byte)
      requires Wired()
      modifies `kbBufCount, kbBuffer
      ensures Wired() && LineOf(currentTerminal) == Removed(old(LineOf(currentTerminal)))
      ensures r == if old(kbBufCount) <= 0 then NUL else old(kbBuffer[Min(kbBufCount, SIZE) - 1])
      ensures old(Valid()) ==> Valid() && View() == Step(old(View()), Erase)
    {
      if kbBufCount >= SIZE {
        kbBufCount := SIZE;
      }
      if kbBufCount <= 0 {
        return NUL;
      }
      kbBufCount := kbBufCount - 1;
      r := kbBuffer[kbBufCount];
      kbBuffer[kbBufCount] := NUL;
    }

    /** The keyboard handler's control-L. */
    method Clear()
      requires Valid()
      modifies `kbBufCount
      ensures Valid() && View() == Step(old(View()), Wipe)
    {
      kbBufCount := 0;
    }

    method WipeBuffer()
      requires Wired()
      modifies kbBuffer
      ensures kbBuffer[..] == Blank()
    {
      Memory.MemSet(kbBuffer, 0, 0, SIZE);
    }

    /** The copy of set_kb_buf_count: the n bytes below index `count` go to the front. */
    method ShiftDown(n: nat, count: nat)
      requires Wired() && n <= count <= SIZE
      modifies kbBuffer
      ensures kbBuffer[..] == old(kbBuffer[count - n..count]) + old(kbBuffer[n..])
    {
      hide ShiftedBy;
      ghost var was := kbBuffer[..];
      var difference := count - n;
      ShiftStarts(was, difference);
      for i := 0 to n
        invariant ShiftedBy(was, kbBuffer[..], difference, i)
      {
        ShiftMore(was, kbBuffer[..], difference, i);
        kbBuffer[i] := kbBuffer[i + difference];
      }
      ShiftEnds(was, kbBuffer[..], difference, n);
      assert was[difference..count] == old(kbBuffer[count - n..count]) && was[n..] == old(kbBuffer[n..]);
    }

    method SetKbBufCount(n: int)
      requires Wired() && kbBufCount <= SIZE
      modifies `kbBufCount, kbBuffer
      ensures Wired() && LineOf(currentTerminal) == Dropped(old(LineOf(currentTerminal)), n)
      ensures forall t :: 0 <= t < 3 && t != currentTerminal ==> LineOf(t) == old(LineOf(t))
    {
      DroppedIs(LineOf(currentTerminal), n);
      hide Dropped, Blank;
      if n <= 0 {
        kbBufCount := 0;
        WipeBuffer();
        return;
      }
      if n >= kbBufCount {
        return;
      }
      ShiftDown(n, kbBufCount);
      kbBufCount := n;
    }

    /** Saves the count of the terminal shown and brings in the buffer and count of another. */
    method SetKbBuffer(terminal: int) returns (r: int)
      requires Wired() && -0x8000_0000 <= kbBufCount < 0x8000_0000
      modifies `kbBuffer, `kbBufCount, `kbBufLen
      ensures r == if 0 <= terminal < 3 then 0 else -1
      ensures r == -1 ==> unchanged(this)
      ensures r == 0 ==>
        && kbBuffer == terminalBuffers[terminal]
        && kbBufLen == old(kbBufLen)[currentTerminal := FileSystem.UnsignedLength(old(kbBufCount))]
        && SignedCount(kbBufLen[currentTerminal]) == old(kbBufCount)
        && kbBufCount == Min(SignedCount(kbBufLen[terminal]), SIZE)
    {
      if terminal > 2 || terminal < 0 {
        return -1;
      }
      kbBufLen := kbBufLen[currentTerminal := FileSystem.UnsignedLength(kbBufCount)];
      kbBuffer := terminalBuffers[terminal];
      kbBufCount := SignedCount(kbBufLen[terminal]);
      if kbBufCount > SIZE {
        kbBufCount := SIZE;
      }
      return 0;
    }

    /** The function keys: set_kb_buffer, then the assignment of current_terminal in switch_terminal.
        What is pending at each terminal stays as it was. */
    method ShowTerminal(terminal: nat)
      requires Valid() && terminal < 3
      modifies `kbBuffer, `kbBufCount, `kbBufLen, `currentTerminal
      ensures Valid() && View() == Step(old(View()), Show(terminal)) && View().lines == old(View().lines)
      ensures currentTerminal == terminal && kbBuffer == terminalBuffers[terminal]
    {
      if terminal == currentTerminal {
        return;
      }
      ghost var was := View();
      var _ := SetKbBuffer(terminal);
      currentTerminal := terminal;
      assert forall t :: 0 <= t < 3 ==> LineOf(t) == was.lines[t];
    }

    method ScheduleTerminal(terminal: nat)
      requires Valid() && terminal < 3
      modifies `processTerminal
      ensures Valid() && View() == Step(old(View()), Schedule(terminal)) && processTerminal == terminal
    {
      processTerminal := terminal;
    }

    /** The scan of terminal_read: up to a line end, the last key or nbytes. */
    static method ScanLine(kbBuf: array<byte>, kbCount: int, nbytes: nat) returns (bytesRead: nat)
      requires 0 <= kbCount < kbBuf.Length
      ensures bytesRead == Stop(kbBuf[..kbCount], nbytes)
    {
      ghost var p := kbBuf[..kbCount];
      bytesRead := 0;
      while bytesRead < nbytes && bytesRead < kbCount
        invariant bytesRead <= Stop(p, nbytes)
      {
        if kbBuf[bytesRead] == NEWLINE || kbBuf[bytesRead] == NUL {
          break;
        }
        bytesRead := bytesRead + 1;
      }
    }

    /** The copy of terminal_read: the keys up to there, and one byte more. */
    static method CopyOut(kbBuf: array<byte>, kbCount: int, b: array<byte>, nbytes: nat) returns (bytesRead: nat)
      requires kbBuf != b && 0 <= kbCount < kbBuf.Length
      requires Stop(kbBuf[..kbCount], nbytes) + 2 <= b.Length
      modifies b
      ensures bytesRead == Stop(kbBuf[..kbCount], nbytes) + 1
      ensures b[..] == kbBuf[..bytesRead] + [NUL] + old(b[bytesRead + 1..])
    {
      hide *;
      bytesRead := ScanLine(kbBuf, kbCount, nbytes);
      if b[bytesRead] != NEWLINE {
        b[bytesRead] := NEWLINE;
      }
      bytesRead := bytesRead + 1;
      b[bytesRead] := NUL;
      TailIs(old(b[..]), b[..], bytesRead);
      Memory.MemCpyAcross(b, kbBuf, bytesRead);
    }

    /** terminal_read up to its waiting loop: None when it has to wait for a key. The caller's buffer
        gets the bytes delivered, a NUL after them, and nothing more. */
    method TerminalRead(fd: int, b: array<byte>, nbytes: int) returns (r: Option<int>)
      requires Valid() && b !in terminalBuffers
      requires -0x8000_0000 <= nbytes < 0x8000_0000
      requires fd == 0 && Answered(View()) ==>
        Stop(View().lines[currentTerminal].Pending(), FileSystem.UnsignedLength(nbytes)) + 2 <= b.Length
      modifies `kbBufCount, kbBuffer, b
      ensures Valid()
      ensures fd != 0 ==> r == Some(-1)
      ensures fd == 0 ==> (r == None <==> !Answered(old(View())))
      ensures fd == 0 ==> (r.Some? <==> old(kbBufCount) > 0 && old(processTerminal) == old(currentTerminal))
      ensures r == None || r == Some(-1) ==> View() == old(View()) && b[..] == old(b[..])
      ensures fd == 0 && r != None ==>
        var n := FileSystem.UnsignedLength(nbytes);
        var taken := Taken(old(View()).lines[currentTerminal], n);
        && r == Some(|taken|) && b[..] == taken + [NUL] + old(b[|taken| + 1..])
        && View() == Step(old(View()), Read(n))
    {
      hide Dropped, Stop;
      if fd != 0 {
        return Some(-1);
      }
      if !(kbBufCount > 0 && processTerminal == currentTerminal) {
        return None;
      }
      ghost var was := View();
      var bytesRead := CopyOut(kbBuffer, kbBufCount, b, FileSystem.UnsignedLength(nbytes));
      assert kbBuffer[..kbBufCount] == was.lines[currentTerminal].Pending();
      SetKbBufCount(kbBufCount - bytesRead);
      ghost var left := Left(was.lines[currentTerminal], FileSystem.UnsignedLength(nbytes));
      assert View().lines == was.lines[currentTerminal := left];
      return Some(bytesRead);
    }

    /** A read, into a buffer that is large enough. */
    method ServeRead(nbytes: nat, t: nat) returns (got: seq<byte>)
      requires Valid() && Allowed(Read(nbytes)) && t < 3
      modifies `kbBufCount, kbBuffer
      ensures Valid() && View() == Step(old(View()), Read(nbytes)) && got == Delivery(old(View()), Read(nbytes), t)
    {
      hide Dropped, Stop, Left;
      got := [];
      var b := new byte[SIZE + 2];
      var r := TerminalRead(0, b, if nbytes < 0x8000_0000 then nbytes else nbytes - 0x1_0000_0000);
      if r.Some? && currentTerminal == t {
        got := b[..r.value];
      }
    }

    /** One event, and what it delivers to the programs of terminal t. */
    method Serve(e: Event, t: nat) returns (got: seq<byte>)
      requires Valid() && Allowed(e) && t < 3
      modifies `kbBuffer, `kbBufCount, `kbBufLen, `currentTerminal, `processTerminal, terminalBuffers
      ensures Valid() && View() == Step(old(View()), e) && got == Delivery(old(View()), e, t)
    {
      hide Appended, Removed, Dropped, Stop, Taken, Left;
      got := [];
      match e
      case Key(c) => var _ := AppendKey(c);
      case Erase => var _ := RemoveKey();
      case Wipe => Clear();
      case Show(u) => ShowTerminal(u);
      case Schedule(u) => ScheduleTerminal(u);
      case Read(nbytes) => got := ServeRead(nbytes, t);
    }

    /** Any run of these operations is a run of the model, so TypedKeysArrive is about them. */
    method Drive(es: seq<Event>, t: nat) returns (got: seq<byte>)
      requires Valid() && AllAllowed(es) && t < 3
      modifies `kbBuffer, `kbBufCount, `kbBufLen, `currentTerminal, `processTerminal, terminalBuffers
      ensures Valid() && View() == Run(old(View()), es) && got == Delivered(old(View()), es, t)
    {
      hide Step, Delivery, View;
      ghost var was := View();
      got := [];
      for i := 0 to |es|
        invariant Valid() && Run(was, es) == Run(View(), es[i..])
        invariant Delivered(was, es, t) == got + Delivered(View(), es[i..], t)
      {
        RunUnfolds(View(), es[i..], t, []);
        var more := Serve(es[i], t);
        got := got + more;
      }
    }
  }
}
