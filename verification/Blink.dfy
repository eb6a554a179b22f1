/** Blinking characters: nodes with a countdown and a status, their timer ticks, and what that means
    over whole runs of add, remove, sync and tick (fish/blink.S). */
module Blink {
  import opened Bytes

  const LOCATIONS := 2000
  const POOL := 2000
  const SCREEN := 4096

  datatype Node = Node(
    location: word, onChar: byte, offChar: byte, onLength: word, offLength: word, countdown: word, status: word)

  /** The list, newest node first, and the video memory it draws in. */
  datatype Blinker = Blinker(list: seq<Node>, screen: seq<byte>)

  datatype Event =
    | Add(node: Node)
    | Remove(location: word)
    | Sync(from: word, to: word)
    | Tick

  // ---- One node's timer ----

  /** A word as the signed comparison reads it. */
  function Signed(w: word): int {
    if w < 0x8000 then w else w - 0x1_0000
  }

  function Decremented(w: word): word {
    if w == 0 then 0xFFFF else w - 1
  }

  predicate IsOn(n: Node) {
    n.status % 2 == 1
  }

  predicate Toggles(n: Node) {
    Signed(Decremented(n.countdown)) <= 0
  }

  function Flipped(status: word): word {
    if status % 2 == 1 then status - 1 else status + 1
  }

  function TickNode(n: Node): Node {
    if Toggles(n) then n.(countdown := if IsOn(n) then n.offLength else n.onLength, status := Flipped(n.status))
    else n.(countdown := Decremented(n.countdown))
  }

  function Shown(n: Node): byte {
    if IsOn(n) then n.onChar else n.offChar
  }

  function NodeAfter(n: Node, ticks: nat): Node {
    if ticks == 0 then n else TickNode(NodeAfter(n, ticks - 1))
  }

  /** A node as add leaves it. */
  function Fresh(n: Node): Node {
    n.(status := 1, countdown := n.onLength)
  }

  /** How many ticks a length stands for: lengths that are zero or negative as signed words, other
      than the most negative one, run out at the first tick. */
  function Period(length: word): nat {
    if 1 <= length <= 0x8000 then length else 1
  }

  /** The countdown `m` ticks into a phase. */
  function CountAt(length: word, m: nat): word
    requires m < Period(length)
  {
    if m == 0 then length else length - m
  }

  /** A fresh node `k` ticks on, from its lengths alone. */
  function Phase(n: Node, k: nat): Node {
    var on, off := Period(n.onLength), Period(n.offLength);
    var m := k % (on + off);
    if m < on then n.(status := 1, countdown := CountAt(n.onLength, m))
    else n.(status := 0, countdown := CountAt(n.offLength, m - on))
  }

  lemma NextMod(k: nat, d: nat)
    requires d > 0
    ensures (k + 1) % d == if k % d + 1 == d then 0 else k % d + 1
  {
    var q, m := k / d, k % d;
    if m + 1 == d {
      assert k + 1 == q * d + d == (q + 1) * d;
      ModOf(k + 1, q + 1, d, 0);
    } else {
      ModOf(k + 1, q, d, m + 1);
    }
  }

  lemma PhaseStep(n: Node, k: nat)
    ensures TickNode(Phase(n, k)) == Phase(n, k + 1)
  {
    NextMod(k, Period(n.onLength) + Period(n.offLength));
  }

  /** A node is on for Period(onLength) ticks, then off for Period(offLength), for ever. */
  lemma {:induction false} BlinksOnSchedule(n: Node, k: nat)
    ensures NodeAfter(Fresh(n), k) == Phase(n, k)
    ensures var on := if 1 <= n.onLength <= 0x8000 then n.onLength else 1;
      var off := if 1 <= n.offLength <= 0x8000 then n.offLength else 1;
      NodeAfter(Fresh(n), k).status == if k % (on + off) < on then 1 else 0
  {
    if k == 0 {
      ModOf(0, 0, Period(n.onLength) + Period(n.offLength), 0);
    } else {
      BlinksOnSchedule(n, k - 1);
      PhaseStep(n, k - 1);
    }
  }

  // ---- The list ----

  ghost predicate Ok(b: Blinker) {
    && |b.list| <= POOL && |b.screen| == SCREEN
    && forall i :: 0 <= i < |b.list| ==> 0 < b.list[i].location < LOCATIONS
  }

  function Poke(screen: seq<byte>, location: nat, c: byte): (s: seq<byte>)
    requires |screen| == SCREEN && location < LOCATIONS
    ensures |s| == SCREEN
  {
    screen[2 * location := c]
  }

  /** The newest node at a location. */
  function IndexOf(list: seq<Node>, location: word): (i: nat)
    ensures i <= |list| && (i < |list| ==> list[i].location == location)
    ensures forall j :: 0 <= j < i ==> list[j].location != location
  {
    if list == [] || list[0].location == location then 0 else 1 + IndexOf(list[1..], location)
  }

  function TickList(list: seq<Node>): (r: seq<Node>)
    ensures |r| == |list| && forall i :: 0 <= i < |list| ==> r[i] == TickNode(list[i])
  {
    if list == [] then [] else [TickNode(list[0])] + TickList(list[1..])
  }

  /** Drawing the nodes that toggle, in list order. */
  function TickScreen(list: seq<Node>, screen: seq<byte>): (s: seq<byte>)
    requires |screen| == SCREEN && forall i :: 0 <= i < |list| ==> list[i].location < LOCATIONS
    ensures |s| == SCREEN
  {
    if list == [] then screen
    else
      var n := list[0];
      TickScreen(list[1..], if Toggles(n) then Poke(screen, n.location, Shown(TickNode(n))) else screen)
  }

  function Synced(n: Node, source: Node): Node {
    n.(onLength := source.onLength, offLength := source.offLength,
       countdown := source.countdown, status := source.status)
  }

  predicate Succeeds(b: Blinker, e: Event) {
    match e
    case Add(node) => node.location < LOCATIONS && |b.list| < POOL
    case Remove(location) => IndexOf(b.list, location) < |b.list|
    case Sync(from, to) => IndexOf(b.list, from) < |b.list| && IndexOf(b.list, to) < |b.list|
    case Tick => true
  }

  /** One call; a call that fails changes nothing. Sync draws the off character, whatever the status. */
  ghost function Step(b: Blinker, e: Event): (r: Blinker)
    requires Ok(b) && Possible(b, e)
    ensures Ok(r)
  {
    if !Succeeds(b, e) then b
    else match e
      case Add(node) => Blinker([Fresh(node)] + b.list, Poke(b.screen, node.location, node.onChar))
      case Remove(location) =>
        var i := IndexOf(b.list, location);
        b.(list := b.list[..i] + b.list[i + 1..])
      case Sync(from, to) =>
        var i := IndexOf(b.list, to);
        var n := b.list[i];
        Blinker(b.list[i := Synced(n, b.list[IndexOf(b.list, from)])], Poke(b.screen, n.location, n.offChar))
      case Tick => Blinker(TickList(b.list), TickScreen(b.list, b.screen))
  }

  lemma IndexIs(list: seq<Node>, location: word, i: nat)
    requires i <= |list| && (i < |list| ==> list[i].location == location)
    requires forall j :: 0 <= j < i ==> list[j].location != location
    ensures IndexOf(list, location) == i
  {
  }

  /** add fails off the screen or on a full pool, remove and sync when a location they name holds no node;
      a call that fails changes nothing. */
  lemma FailsExactly(b: Blinker, e: Event)
    requires Ok(b)
    ensures Succeeds(b, e) <==>
      match e
      case Add(node) => node.location < 2000 && |b.list| < 2000
      case Remove(location) => exists i :: 0 <= i < |b.list| && b.list[i].location == location
      case Sync(from, to) =>
        && (exists i :: 0 <= i < |b.list| && b.list[i].location == from)
        && (exists j :: 0 <= j < |b.list| && b.list[j].location == to)
      case Tick => true
    ensures !Succeeds(b, e) ==> Step(b, e) == b
  {
  }

  /** A new node goes in front, on and with its countdown full, and its on character is drawn. */
  lemma AddPutsInFront(b: Blinker, node: Node)
    requires Ok(b) && 0 < node.location < 2000 && |b.list| < 2000
    ensures var after := Step(b, Add(node)); var n := node.location;
      && after.list == [node.(status := 1, countdown := node.onLength)] + b.list
      && after.screen == b.screen[2 * n := node.onChar]
  {
  }

  /** A sync leaves the target its place and its characters, and takes the rest from the source; no other
      node changes, and one character is drawn. i and j are the newest nodes at the two locations. */
  lemma SyncKeepsCharacters(b: Blinker, from: word, to: word, i: nat, j: nat)
    requires Ok(b) && i < |b.list| && b.list[i].location == from && j < |b.list| && b.list[j].location == to
    requires (forall k :: 0 <= k < i ==> b.list[k].location != from)
    requires (forall k :: 0 <= k < j ==> b.list[k].location != to)
    ensures var after := Step(b, Sync(from, to)); var source, was := b.list[i], b.list[j];
      && |after.list| == |b.list| && (forall k :: 0 <= k < |b.list| && k != j ==> after.list[k] == b.list[k])
      && after.list[j] == Node(was.location, was.onChar, was.offChar, source.onLength, source.offLength,
                               source.countdown, source.status)
      && after.screen == b.screen[2 * to := was.offChar]
  {
    IndexIs(b.list, from, i);
    IndexIs(b.list, to, j);
  }

  /** remove takes out the newest node at the location, and draws nothing. */
  lemma RemoveTakesNewest(b: Blinker, location: word, i: nat)
    requires Ok(b) && i < |b.list| && b.list[i].location == location
    requires forall k :: 0 <= k < i ==> b.list[k].location != location
    ensures Step(b, Remove(location)) == Blinker(b.list[..i] + b.list[i + 1..], b.screen)
  {
    IndexIs(b.list, location, i);
  }

  /** Location 0 marks a free pool slot, so a node with it must not be accepted. */
  predicate Possible(b: Blinker, e: Event) {
    e.Add? && Succeeds(b, e) ==> e.node.location != 0
  }

  ghost predicate AllPossible(b: Blinker, es: seq<Event>)
    requires Ok(b)
    decreases |es|
  {
    es == [] || (Possible(b, es[0]) && AllPossible(Step(b, es[0]), es[1..]))
  }

  ghost function Run(b: Blinker, es: seq<Event>): (r: Blinker)
    requires Ok(b) && AllPossible(b, es)
    ensures Ok(r)
    decreases |es|
  {
    if es == [] then b else Run(Step(b, es[0]), es[1..])
  }

  lemma {:induction false} RunThen(b: Blinker, es: seq<Event>, e: Event)
    requires Ok(b) && AllPossible(b, es) && Possible(Run(b, es), e)
    ensures AllPossible(b, es + [e]) && Run(b, es + [e]) == Step(Run(b, es), e)
    decreases |es|
  {
    hide Step, Ok;
    if es == [] {
      assert (es + [e])[1..] == [] && (es + [e])[0] == e;
    } else {
      assert (es + [e])[1..] == es[1..] + [e] && (es + [e])[0] == es[0];
      RunThen(Step(b, es[0]), es[1..], e);
    }
  }

  lemma {:induction false} RunSplits(b: Blinker, es: seq<Event>, more: seq<Event>)
    requires Ok(b)
    ensures AllPossible(b, es + more) <==> AllPossible(b, es) && AllPossible(Run(b, es), more)
    ensures AllPossible(b, es + more) ==> Run(b, es + more) == Run(Run(b, es), more)
    decreases |es|
  {
    hide Step, Ok, Possible;
    if es == [] {
      assert es + more == more;
    } else {
      assert (es + more)[0] == es[0] && (es + more)[1..] == es[1..] + more;
      if Possible(b, es[0]) {
        RunSplits(Step(b, es[0]), es[1..], more);
      }
    }
  }

  /** k timer ticks. */
  function Ticking(k: nat): (es: seq<Event>)
    ensures |es| == k && forall i :: 0 <= i < k ==> es[i] == Tick
  {
    seq(k, _ => Tick)
  }

  lemma {:induction false} TickingIs(b: Blinker, k: nat)
    requires Ok(b)
    ensures AllPossible(b, Ticking(k)) && Ticks(Ticking(k)) == k
    decreases k
  {
    hide Step, Ok;
    if k > 0 {
      assert Ticking(k)[1..] == Ticking(k - 1) && Ticking(k)[0] == Tick;
      TickingIs(Step(b, Tick), k - 1);
    }
  }

  lemma {:induction false} TicksJoin(a: seq<Event>, b: seq<Event>)
    ensures Ticks(a + b) == Ticks(a) + Ticks(b)
  {
    if a == [] {
      assert a + b == b;
    } else {
      assert (a + b)[1..] == a[1..] + b;
      TicksJoin(a[1..], b);
    }
  }

  function Ticks(es: seq<Event>): nat {
    if es == [] then 0 else (if es[0].Tick? then 1 else 0) + Ticks(es[1..])
  }

  // ---- Timing over runs ----

  /** No call of the run adds, removes or re-times a node at this location. */
  predicate LeavesAlone(e: Event, location: word) {
    match e
    case Add(node) => node.location != location
    case Remove(l) => l != location
    case Sync(_, to) => to != location
    case Tick => true
  }

  predicate AllLeaveAlone(es: seq<Event>, location: word) {
    forall e :: e in es ==> LeavesAlone(e, location)
  }

  function NodeAt(list: seq<Node>, location: word): Option<Node> {
    var i := IndexOf(list, location);
    if i < |list| then Some(list[i]) else None
  }

  lemma RemovedIndex(list: seq<Node>, location: word, r: nat)
    requires r < |list| && list[r].location != location
    ensures var i := IndexOf(list, location);
      IndexOf(list[..r] + list[r + 1..], location) == if r < i then i - 1 else i
  {
    var i, rest := IndexOf(list, location), list[..r] + list[r + 1..];
    IndexIs(rest, location, if r < i then i - 1 else i);
  }

  lemma SyncedIndex(list: seq<Node>, location: word, i: nat, n: Node)
    requires i < |list| && n.location == list[i].location
    ensures IndexOf(list[i := n], location) == IndexOf(list, location)
  {
    IndexIs(list[i := n], location, IndexOf(list, location));
  }

  lemma AddNodeAt(b: Blinker, node: Node, location: word)
    requires Ok(b) && Possible(b, Add(node)) && node.location != location && Succeeds(b, Add(node))
    ensures NodeAt(Step(b, Add(node)).list, location) == NodeAt(b.list, location)
  {
    hide Ok, TickScreen, TickList, IndexOf;
    IndexIs(Step(b, Add(node)).list, location, IndexOf(b.list, location) + 1);
  }

  lemma RemoveNodeAt(b: Blinker, l: word, location: word)
    requires Ok(b) && l != location && Succeeds(b, Remove(l))
    ensures NodeAt(Step(b, Remove(l)).list, location) == NodeAt(b.list, location)
  {
    hide Ok, TickScreen, TickList, IndexOf;
    RemovedIndex(b.list, location, IndexOf(b.list, l));
  }

  lemma SyncNodeAt(b: Blinker, from: word, to: word, location: word)
    requires Ok(b) && to != location && Succeeds(b, Sync(from, to))
    ensures NodeAt(Step(b, Sync(from, to)).list, location) == NodeAt(b.list, location)
  {
    hide Ok, TickScreen, TickList, IndexOf;
    var i := IndexOf(b.list, to);
    SyncedIndex(b.list, location, i, Synced(b.list[i], b.list[IndexOf(b.list, from)]));
  }

  lemma TickNodeAt(list: seq<Node>, location: word)
    ensures NodeAt(TickList(list), location) ==
      match NodeAt(list, location)
      case Some(n) => Some(TickNode(n))
      case None => None
  {
    hide TickList, TickNode, IndexOf;
    forall j | 0 <= j < |list| ensures TickList(list)[j].location == list[j].location { KeepsLocation(list[j]); }
    IndexIs(TickList(list), location, IndexOf(list, location));
  }

  lemma StepNodeAt(b: Blinker, e: Event, location: word)
    requires Ok(b) && Possible(b, e) && LeavesAlone(e, location)
    ensures NodeAt(Step(b, e).list, location) ==
      match NodeAt(b.list, location)
      case Some(n) => Some(if e.Tick? then TickNode(n) else n)
      case None => None
  {
    hide Ok, TickScreen, TickList, IndexOf, TickNode, NodeAt;
    if Succeeds(b, e) {
      match e
      case Add(node) => AddNodeAt(b, node, location);
      case Remove(l) => RemoveNodeAt(b, l, location);
      case Sync(from, to) => SyncNodeAt(b, from, to, location);
      case Tick => TickNodeAt(b.list, location);
    }
  }

  lemma KeepsLocation(n: Node)
    ensures TickNode(n).location == n.location
  {
  }

  /** A tick moves a node's countdown and status only. */
  lemma TickKeepsCharacters(n: Node)
    ensures var m := TickNode(n);
      m == Node(n.location, n.onChar, n.offChar, n.onLength, n.offLength, m.countdown, m.status)
  {
  }

  /** The newest node at a location that a run leaves alone has just ticked on. */
  lemma {:induction false} RunNodeAt(b: Blinker, es: seq<Event>, location: word, n: Node)
    requires Ok(b) && AllPossible(b, es) && AllLeaveAlone(es, location)
    requires NodeAt(b.list, location) == Some(n)
    ensures NodeAt(Run(b, es).list, location) == Some(NodeAfter(n, Ticks(es)))
    decreases |es|
  {
    if es != [] {
      StepNodeAt(b, es[0], location);
      var n1 := if es[0].Tick? then TickNode(n) else n;
      RunNodeAt(Step(b, es[0]), es[1..], location, n1);
      NodeAfterShift(n, Ticks(es[1..]));
    }
  }

  lemma {:induction false} RunNoNode(b: Blinker, es: seq<Event>, location: word)
    requires Ok(b) && AllPossible(b, es) && AllLeaveAlone(es, location) && NodeAt(b.list, location).None?
    ensures NodeAt(Run(b, es).list, location).None?
    decreases |es|
  {
    hide Step, Ok, NodeAt, LeavesAlone;
    if es != [] {
      StepNodeAt(b, es[0], location);
      RunNoNode(Step(b, es[0]), es[1..], location);
    }
  }

  lemma {:induction false} NodeAfterShift(n: Node, k: nat)
    ensures NodeAfter(TickNode(n), k) == NodeAfter(n, k + 1)
  {
    if k > 0 { NodeAfterShift(n, k - 1); }
  }

  /** Two nodes blink in step. */
  predicate InStep(a: Node, b: Node) {
    a.onLength == b.onLength && a.offLength == b.offLength && a.countdown == b.countdown && a.status == b.status
  }

  lemma {:induction false} InStepForever(a: Node, b: Node, k: nat)
    requires InStep(a, b)
    ensures InStep(NodeAfter(a, k), NodeAfter(b, k))
  {
    if k > 0 { InStepForever(a, b, k - 1); }
  }

  /** After a sync, the two nodes blink in step for as long as nothing re-times, removes or covers
      either of them, however many ticks pass and whatever happens elsewhere. */
  lemma SyncKeepsInStep(b: Blinker, from: word, to: word, es: seq<Event>)
    requires Ok(b) && Succeeds(b, Sync(from, to))
    requires AllPossible(Step(b, Sync(from, to)), es) && AllLeaveAlone(es, from) && AllLeaveAlone(es, to)
    ensures var end := Run(Step(b, Sync(from, to)), es).list;
      && NodeAt(end, from).Some? && NodeAt(end, to).Some?
      && InStep(NodeAt(end, from).value, NodeAt(end, to).value)
  {
    var b1 := Step(b, Sync(from, to));
    var i, j := IndexOf(b.list, from), IndexOf(b.list, to);
    IndexIs(b1.list, from, i);
    IndexIs(b1.list, to, j);
    RunNodeAt(b1, es, from, b1.list[i]);
    RunNodeAt(b1, es, to, b1.list[j]);
    InStepForever(b1.list[i], b1.list[j], Ticks(es));
  }

  // ---- The display ----

  ghost predicate Alone(list: seq<Node>, i: nat)
    requires i < |list|
  {
    forall j :: 0 <= j < |list| && j != i ==> list[j].location != list[i].location
  }

  lemma AloneWithout(list: seq<Node>, i: nat, r: nat)
    requires i < |list| && r < |list| && r != i && Alone(list, i)
    ensures var i' := if r < i then i - 1 else i; var rest := list[..r] + list[r + 1..];
      i' < |rest| && rest[i'] == list[i] && Alone(rest, i')
  {
  }

  /** The node at index i is the only one at its location, and its cell shows its status. */
  ghost predicate Displays(b: Blinker, i: nat) {
    && Ok(b) && i < |b.list|
    && Alone(b.list, i)
    && b.screen[2 * b.list[i].location] == Shown(b.list[i])
  }

  lemma {:induction false} TickScreenElsewhere(list: seq<Node>, screen: seq<byte>, location: nat)
    requires |screen| == SCREEN && location < LOCATIONS
    requires forall i :: 0 <= i < |list| ==> list[i].location < LOCATIONS && list[i].location != location
    ensures TickScreen(list, screen)[2 * location] == screen[2 * location]
  {
    if list != [] {
      var n := list[0];
      var next := if Toggles(n) then Poke(screen, n.location, Shown(TickNode(n))) else screen;
      TickScreenElsewhere(list[1..], next, location);
    }
  }

  lemma {:induction false} TickScreenShows(list: seq<Node>, screen: seq<byte>, i: nat)
    requires |screen| == SCREEN && i < |list|
    requires forall j :: 0 <= j < |list| ==> list[j].location < LOCATIONS
    requires Alone(list, i)
    requires screen[2 * list[i].location] == Shown(list[i])
    ensures TickScreen(list, screen)[2 * list[i].location] == Shown(TickNode(list[i]))
  {
    var n := list[0];
    var next := if Toggles(n) then Poke(screen, n.location, Shown(TickNode(n))) else screen;
    if i == 0 {
      TickScreenElsewhere(list[1..], next, n.location);
    } else {
      TickScreenShows(list[1..], next, i - 1);
    }
  }

  lemma AddDisplays(b: Blinker, node: Node, i: nat)
    requires Displays(b, i) && Possible(b, Add(node)) && node.location != b.list[i].location && Succeeds(b, Add(node))
    ensures Displays(Step(b, Add(node)), i + 1) && Step(b, Add(node)).list[i + 1] == b.list[i]
  {
    hide Shown;
  }

  lemma RemoveDisplays(b: Blinker, l: word, i: nat)
    requires Displays(b, i) && l != b.list[i].location && Succeeds(b, Remove(l))
    ensures var i' := if IndexOf(b.list, l) < i then i - 1 else i;
      Displays(Step(b, Remove(l)), i') && Step(b, Remove(l)).list[i'] == b.list[i]
  {
    hide Shown;
    AloneWithout(b.list, i, IndexOf(b.list, l));
  }

  lemma SyncDisplays(b: Blinker, from: word, to: word, i: nat)
    requires Displays(b, i) && to != b.list[i].location && Succeeds(b, Sync(from, to))
    ensures Displays(Step(b, Sync(from, to)), i) && Step(b, Sync(from, to)).list[i] == b.list[i]
  {
    hide Shown;
  }

  lemma TickDisplays(b: Blinker, i: nat)
    requires Displays(b, i)
    ensures Displays(Step(b, Tick), i) && Step(b, Tick).list[i] == TickNode(b.list[i])
  {
    hide TickList, TickScreen, TickNode, Shown;
    TickScreenShows(b.list, b.screen, i);
    forall j | 0 <= j < |b.list| ensures TickList(b.list)[j].location == b.list[j].location {
      KeepsLocation(b.list[j]);
    }
  }

  /** Where the node has gone. */
  lemma StepDisplays(b: Blinker, e: Event, i: nat) returns (i': nat)
    requires Displays(b, i) && Possible(b, e) && LeavesAlone(e, b.list[i].location)
    ensures Displays(Step(b, e), i') && Step(b, e).list[i'] == if e.Tick? then TickNode(b.list[i]) else b.list[i]
  {
    i' := i;
    if Succeeds(b, e) {
      hide Step, Succeeds, TickNode, Displays;
      match e
      case Add(node) =>
        AddDisplays(b, node, i);
        i' := i + 1;
      case Remove(l) =>
        RemoveDisplays(b, l, i);
        if IndexOf(b.list, l) < i { i' := i - 1; }
      case Sync(from, to) => SyncDisplays(b, from, to, i);
      case Tick => TickDisplays(b, i);
    }
  }

  lemma {:induction false} RunDisplays(b: Blinker, es: seq<Event>, i: nat) returns (i': nat)
    requires Displays(b, i) && AllPossible(b, es) && AllLeaveAlone(es, b.list[i].location)
    ensures Displays(Run(b, es), i') && Run(b, es).list[i'] == NodeAfter(b.list[i], Ticks(es))
    decreases |es|
  {
    hide TickScreen, TickList, Step, Ok;
    i' := i;
    if es != [] {
      i' := StepDisplays(b, es[0], i);
      NodeAfterShift(b.list[i], Ticks(es[1..]));
      i' := RunDisplays(Step(b, es[0]), es[1..], i');
    }
  }

  /** A character added where none was, and left alone since, shows its on character exactly while its
      tick count is in the on part of its period. A length that is zero or negative as a signed word,
      other than the most negative one, counts as 1. */
  lemma CellFollowsSchedule(b: Blinker, node: Node, es: seq<Event>)
    requires Ok(b) && node.location != 0 && Succeeds(b, Add(node)) && NodeAt(b.list, node.location).None?
    requires AllPossible(Step(b, Add(node)), es) && AllLeaveAlone(es, node.location)
    ensures var on := if 1 <= node.onLength <= 0x8000 then node.onLength else 1;
      var off := if 1 <= node.offLength <= 0x8000 then node.offLength else 1;
      Run(Step(b, Add(node)), es).screen[2 * node.location]
      == if Ticks(es) % (on + off) < on then node.onChar else node.offChar
  {
    var b1 := Step(b, Add(node));
    assert forall j :: 0 < j < |b1.list| ==> b1.list[j] == b.list[j - 1];
    assert Displays(b1, 0);
    var i := RunDisplays(b1, es, 0);
    BlinksOnSchedule(node, Ticks(es));
  }

  /** A character added in the middle of a run that otherwise leaves its location alone: its node and its
      cell at the end of the run, and after k more ticks. */
  lemma AddedAmong(b: Blinker, before: seq<Event>, node: Node, after: seq<Event>, k: nat)
    requires Ok(b) && AllPossible(b, before + ([Add(node)] + after))
    requires AllLeaveAlone(before, node.location) && AllLeaveAlone(after, node.location)
    requires AllPossible(b, before) && |Run(b, before).list| < POOL
    requires 0 < node.location < LOCATIONS && NodeAt(b.list, node.location).None?
    ensures var end := Run(b, before + ([Add(node)] + after));
      && NodeAt(end.list, node.location) == Some(NodeAfter(Fresh(node), Ticks(after)))
      && AllPossible(end, Ticking(k))
      && var on := if 1 <= node.onLength <= 0x8000 then node.onLength else 1;
      var off := if 1 <= node.offLength <= 0x8000 then node.offLength else 1;
      Run(end, Ticking(k)).screen[2 * node.location]
      == if (Ticks(after) + k) % (on + off) < on then node.onChar else node.offChar
  {
    hide Ok, Step, NodeAfter, AllLeaveAlone, NodeAt, Succeeds;
    RunSplits(b, before, [Add(node)] + after);
    var b1 := Run(b, before);
    RunNoNode(b, before, node.location);
    RunFirst(b1, Add(node), after);
    var b2 := Step(b1, Add(node));
    AddedNode(b1, node);
    RunNodeAt(b2, after, node.location, Fresh(node));
    var end := Run(b2, after);
    TickingIs(end, k);
    RunSplits(b2, after, Ticking(k));
    TicksJoin(after, Ticking(k));
    LeftAloneLonger(after, k, node.location);
    CellFollowsSchedule(b1, node, after + Ticking(k));
  }

  lemma RunFirst(b: Blinker, e: Event, rest: seq<Event>)
    requires Ok(b) && AllPossible(b, [e] + rest)
    ensures Possible(b, e) && AllPossible(Step(b, e), rest) && Run(b, [e] + rest) == Run(Step(b, e), rest)
  {
    hide Ok, Step, Possible;
    assert ([e] + rest)[0] == e && ([e] + rest)[1..] == rest;
  }

  lemma AddedNode(b: Blinker, node: Node)
    requires Ok(b) && 0 < node.location < LOCATIONS && |b.list| < POOL
    ensures Succeeds(b, Add(node)) && NodeAt(Step(b, Add(node)).list, node.location) == Some(Fresh(node))
  {
  }

  lemma LeftAloneLonger(es: seq<Event>, k: nat, location: word)
    requires AllLeaveAlone(es, location)
    ensures AllLeaveAlone(es + Ticking(k), location)
  {
  }
}
