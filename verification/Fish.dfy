/** The fish program's two parts together: the adds of two frames, made to the blink list
    (fish/fish.c, fish/blink.S). */
module Fish {
  import opened Bytes
  import opened TextLines
  import Blink
  import opened BlinkList
  import FS = FileSystem
  import opened Frames

  const LENGTH: word := 15

  /** The node that add_frames asks for. */
  function NodeOf(a: Add): Blink.Node {
    Blink.Node(a.location, a.onChar, a.offChar, LENGTH, LENGTH, 0, 0)
  }

  function NodesOf(adds: seq<Add>): (nodes: seq<Blink.Node>)
    ensures |nodes| == |adds| && forall i :: 0 <= i < |adds| ==> nodes[i] == NodeOf(adds[i])
  {
    seq(|adds|, i requires 0 <= i < |adds| => NodeOf(adds[i]))
  }

  function Requests(nodes: seq<Blink.Node>): (es: seq<Blink.Event>)
    ensures |es| == |nodes| && forall i :: 0 <= i < |nodes| ==> es[i] == Blink.Add(nodes[i])
  {
    seq(|nodes|, i requires 0 <= i < |nodes| => Blink.Add(nodes[i]))
  }

  predicate Filled(l0: seq<seq<byte>>, l1: seq<seq<byte>>, row: nat, col: nat) {
    Cell(l0, row, col) != SPACE || Cell(l1, row, col) != SPACE
  }

  function Rows(l0: seq<seq<byte>>, l1: seq<seq<byte>>): nat {
    Max(|l0|, |l1|)
  }

  /** What two frames ask for, in row-major order. */
  function Wanted(l0: seq<seq<byte>>, l1: seq<seq<byte>>): seq<Blink.Node> {
    NodesOf(FrameAdds(l0, l1, Rows(l0, l1)))
  }

  /** What the filled cells before this one ask for. */
  function Earlier(l0: seq<seq<byte>>, l1: seq<seq<byte>>, row: nat, col: nat): seq<Blink.Node> {
    NodesOf(FrameAdds(l0, l1, row) + RowAdds(l0, l1, row, col))
  }

  /** If this cell is filled and its number wraps around to location 0, then the nodes there were at the
      start and the earlier filled cells with a location from 1 to 1999 number 2000. */
  predicate CellRefused(l0: seq<seq<byte>>, l1: seq<seq<byte>>, start: nat, row: nat, col: nat) {
    Filled(l0, l1, row, col) && Location(row, col) == 0 ==> start + Usable(Earlier(l0, l1, row, col)) >= Blink.POOL
  }

  ghost predicate WrapsRefused(l0: seq<seq<byte>>, l1: seq<seq<byte>>, start: nat) {
    forall row: nat, col: nat :: CellRefused(l0, l1, start, row, col)
  }

  // ---- Counting along the rows ----

  lemma NodesJoin(a: seq<Add>, b: seq<Add>)
    ensures NodesOf(a + b) == NodesOf(a) + NodesOf(b)
  {
  }

  lemma {:induction false} UsableJoin(a: seq<Blink.Node>, b: seq<Blink.Node>)
    ensures Usable(a + b) == Usable(a) + Usable(b)
    decreases |b|
  {
    if b == [] {
      assert a + b == a;
    } else {
      var n := |b| - 1;
      assert (a + b)[..|a + b| - 1] == a + b[..n] && (a + b)[|a + b| - 1] == b[n];
      UsableJoin(a, b[..n]);
    }
  }

  lemma {:induction false} RefusesJoin(start: nat, a: seq<Blink.Node>, b: seq<Blink.Node>)
    ensures RefusesZeros(start, a + b) <==> RefusesZeros(start, a) && RefusesZeros(start + Usable(a), b)
    decreases |b|
  {
    hide *;
    if b == [] {
      assert a + b == a;
      RefusesNothing(start + Usable(a));
    } else {
      var n := |b| - 1;
      assert (a + b)[..|a + b| - 1] == a + b[..n] && (a + b)[|a + b| - 1] == b[n];
      RefusesJoin(start, a, b[..n]);
      RefusesLast(start, a + b);
      RefusesLast(start + Usable(a), b);
      UsableJoin(a, b[..n]);
    }
  }

  /** The request of one cell. */
  lemma CellRefuses(l0: seq<seq<byte>>, l1: seq<seq<byte>>, start: nat, row: nat, col: nat)
    ensures var before := Earlier(l0, l1, row, col);
      RefusesZeros(start + Usable(before), NodesOf(CellAdds(l0, l1, row, col)))
      <==> CellRefused(l0, l1, start, row, col)
  {
    hide Earlier, Location, RefusesZeros, Usable, Cell;
    var full, nodes := start + Usable(Earlier(l0, l1, row, col)), NodesOf(CellAdds(l0, l1, row, col));
    RefusesNothing(full);
    if nodes != [] {
      RefusesLast(full, nodes);
      assert nodes[..0] == [] && nodes[0].location == Location(row, col);
    }
  }

  ghost predicate RowRefused(l0: seq<seq<byte>>, l1: seq<seq<byte>>, start: nat, row: nat, n: nat) {
    forall col: nat :: col < n ==> CellRefused(l0, l1, start, row, col)
  }

  lemma RowOneMore(l0: seq<seq<byte>>, l1: seq<seq<byte>>, start: nat, row: nat, n: nat)
    ensures RowRefused(l0, l1, start, row, 0) && RowAdds(l0, l1, row, 0) == []
    ensures RowAdds(l0, l1, row, n + 1) == RowAdds(l0, l1, row, n) + CellAdds(l0, l1, row, n)
    ensures RowRefused(l0, l1, start, row, n + 1)
       <==> RowRefused(l0, l1, start, row, n) && CellRefused(l0, l1, start, row, n)
  {
    hide CellRefused, CellAdds;
  }

  lemma EarlierIs(l0: seq<seq<byte>>, l1: seq<seq<byte>>, row: nat, col: nat)
    ensures Earlier(l0, l1, row, col) == NodesOf(FrameAdds(l0, l1, row)) + NodesOf(RowAdds(l0, l1, row, col))
  {
    NodesJoin(FrameAdds(l0, l1, row), RowAdds(l0, l1, row, col));
  }

  lemma {:induction false} RowRefuses(l0: seq<seq<byte>>, l1: seq<seq<byte>>, start: nat, row: nat, n: nat)
    ensures RefusesZeros(start + Usable(NodesOf(FrameAdds(l0, l1, row))), NodesOf(RowAdds(l0, l1, row, n)))
       <==> RowRefused(l0, l1, start, row, n)
  {
    hide *;
    var base := NodesOf(FrameAdds(l0, l1, row));
    if n == 0 {
      RowOneMore(l0, l1, start, row, 0);
      RefusesNothing(start + Usable(base));
    } else {
      var before, cell := NodesOf(RowAdds(l0, l1, row, n - 1)), NodesOf(CellAdds(l0, l1, row, n - 1));
      RowRefuses(l0, l1, start, row, n - 1);
      RowOneMore(l0, l1, start, row, n - 1);
      NodesJoin(RowAdds(l0, l1, row, n - 1), CellAdds(l0, l1, row, n - 1));
      RefusesJoin(start + Usable(base), before, cell);
      EarlierIs(l0, l1, row, n - 1);
      UsableJoin(base, before);
      CellRefuses(l0, l1, start, row, n - 1);
    }
  }

  ghost predicate FrameRefused(l0: seq<seq<byte>>, l1: seq<seq<byte>>, start: nat, n: nat) {
    forall row: nat :: row < n ==> RowRefused(l0, l1, start, row, Width(l0, l1, row))
  }

  lemma FrameOneMore(l0: seq<seq<byte>>, l1: seq<seq<byte>>, start: nat, n: nat)
    ensures FrameRefused(l0, l1, start, 0) && FrameAdds(l0, l1, 0) == []
    ensures FrameAdds(l0, l1, n + 1) == FrameAdds(l0, l1, n) + RowAdds(l0, l1, n, Width(l0, l1, n))
    ensures FrameRefused(l0, l1, start, n + 1)
       <==> FrameRefused(l0, l1, start, n) && RowRefused(l0, l1, start, n, Width(l0, l1, n))
  {
    hide RowRefused, RowAdds, Width;
  }

  lemma {:induction false} FrameRefuses(l0: seq<seq<byte>>, l1: seq<seq<byte>>, start: nat, n: nat)
    ensures RefusesZeros(start, NodesOf(FrameAdds(l0, l1, n))) <==> FrameRefused(l0, l1, start, n)
  {
    hide *;
    if n == 0 {
      FrameOneMore(l0, l1, start, 0);
      RefusesNothing(start);
    } else {
      var w := Width(l0, l1, n - 1);
      FrameRefuses(l0, l1, start, n - 1);
      FrameOneMore(l0, l1, start, n - 1);
      RowRefuses(l0, l1, start, n - 1, w);
      NodesJoin(FrameAdds(l0, l1, n - 1), RowAdds(l0, l1, n - 1, w));
      RefusesJoin(start, NodesOf(FrameAdds(l0, l1, n - 1)), NodesOf(RowAdds(l0, l1, n - 1, w)));
    }
  }

  /** The requests of two frames meet a full pool whenever they are for location 0, exactly when every
      filled cell that wraps does. */
  lemma WantedRefused(l0: seq<seq<byte>>, l1: seq<seq<byte>>, start: nat)
    ensures RefusesZeros(start, Wanted(l0, l1)) <==> WrapsRefused(l0, l1, start)
  {
    var n := Rows(l0, l1);
    FrameRefuses(l0, l1, start, n);
    hide FrameAdds, RowAdds, CellRefused;
    forall row: nat, col: nat | row >= n || col >= Width(l0, l1, row)
      ensures CellRefused(l0, l1, start, row, col)
    {
      OutsideRefused(l0, l1, start, row, col);
    }
    if FrameRefused(l0, l1, start, n) {
      forall row: nat, col: nat ensures CellRefused(l0, l1, start, row, col) {
        assert row < n ==> RowRefused(l0, l1, start, row, Width(l0, l1, row));
      }
    }
  }

  lemma OutsideRefused(l0: seq<seq<byte>>, l1: seq<seq<byte>>, start: nat, row: nat, col: nat)
    requires row >= Rows(l0, l1) || col >= Width(l0, l1, row)
    ensures CellRefused(l0, l1, start, row, col)
  {
    hide Earlier;
    assert !Filled(l0, l1, row, col);
  }

  /** Adding two frames to a list in order leaves a list in order exactly when every filled cell that
      wraps to location 0 meets a full pool. */
  lemma FramesKeepList(l0: seq<seq<byte>>, l1: seq<seq<byte>>, pool: seq<Slot>, head: int, slots: seq<nat>)
    requires Lists(pool, head, slots)
    ensures |pool| == Blink.POOL
    ensures var (pool', head') := AddedAll(pool, head, Wanted(l0, l1));
      (exists s :: Lists(pool', head', s)) <==> WrapsRefused(l0, l1, |slots|)
  {
    hide *;
    AddsKeepOrder(pool, head, slots, Wanted(l0, l1));
    WantedRefused(l0, l1, |slots|);
  }

  // ---- What the frames look like ----

  /** These adds come from cells further right in this row, or in rows further down. */
  ghost predicate ComeLater(l0: seq<seq<byte>>, l1: seq<seq<byte>>, row: nat, col: nat, adds: seq<Add>) {
    forall a :: a in adds ==>
      exists r: nat, c: nat :: (r > row || (r == row && c > col)) && FromCell(l0, l1, r, c, a)
  }

  lemma LaterCell(l0: seq<seq<byte>>, l1: seq<seq<byte>>, row: nat, col: nat, adds: seq<Add>, n: nat)
    requires ComeLater(l0, l1, row, col, adds) && n > col
    ensures ComeLater(l0, l1, row, col, adds + CellAdds(l0, l1, row, n))
  {
    hide Location, Cell;
    var cell := CellAdds(l0, l1, row, n);
    forall a | a in adds + cell
      ensures exists r: nat, c: nat :: (r > row || (r == row && c > col)) && FromCell(l0, l1, r, c, a)
    {
      if a in cell {
        assert FromCell(l0, l1, row, n, a);
      }
    }
  }

  lemma LaterRow(l0: seq<seq<byte>>, l1: seq<seq<byte>>, row: nat, col: nat, adds: seq<Add>, r: nat, n: nat)
    requires ComeLater(l0, l1, row, col, adds) && r > row
    ensures ComeLater(l0, l1, row, col, adds + RowAdds(l0, l1, r, n))
  {
    hide RowAdds, FromCell;
    var more := RowAdds(l0, l1, r, n);
    forall a | a in adds + more
      ensures exists r': nat, c: nat :: (r' > row || (r' == row && c > col)) && FromCell(l0, l1, r', c, a)
    {
      if a in more {
        RowAddsExactly(l0, l1, r, n, a);
        var c: nat :| FromCell(l0, l1, r, c, a);
      }
    }
  }

  lemma LaterNone(l0: seq<seq<byte>>, l1: seq<seq<byte>>, row: nat, col: nat)
    ensures ComeLater(l0, l1, row, col, [])
  {
  }

  lemma Regrouped(a: seq<Add>, b: seq<Add>, c: seq<Add>, d: seq<Add>)
    ensures a + b + c + d == a + b + (c + d) == a + (b + (c + d)) == a + (b + c + d)
    ensures a + [] == a
  {
  }

  /** The adds of a row, around one of its cells. */
  lemma {:induction false} RowSplits(l0: seq<seq<byte>>, l1: seq<seq<byte>>, row: nat, col: nat, n: nat)
      returns (after: seq<Add>)
    requires col < n
    ensures RowAdds(l0, l1, row, n) == RowAdds(l0, l1, row, col) + CellAdds(l0, l1, row, col) + after
    ensures ComeLater(l0, l1, row, col, after)
  {
    hide *;
    var before, own := RowAdds(l0, l1, row, col), CellAdds(l0, l1, row, col);
    RowOneMore(l0, l1, 0, row, n - 1);
    if n == col + 1 {
      after := [];
      LaterNone(l0, l1, row, col);
      Regrouped(before + own, [], [], []);
    } else {
      var rest := RowSplits(l0, l1, row, col, n - 1);
      var last := CellAdds(l0, l1, row, n - 1);
      after := rest + last;
      LaterCell(l0, l1, row, col, rest, n - 1);
      Regrouped(before, own, rest, last);
    }
  }

  /** ... and those of the whole frames. */
  lemma {:induction false} FrameSplits(l0: seq<seq<byte>>, l1: seq<seq<byte>>, row: nat, col: nat, n: nat)
      returns (after: seq<Add>)
    requires row < n && col < Width(l0, l1, row)
    ensures FrameAdds(l0, l1, n) ==
      FrameAdds(l0, l1, row) + RowAdds(l0, l1, row, col) + CellAdds(l0, l1, row, col) + after
    ensures ComeLater(l0, l1, row, col, after)
  {
    hide *;
    var before, inRow, own := FrameAdds(l0, l1, row), RowAdds(l0, l1, row, col), CellAdds(l0, l1, row, col);
    FrameOneMore(l0, l1, 0, n - 1);
    if n == row + 1 {
      after := RowSplits(l0, l1, row, col, Width(l0, l1, row));
      Regrouped(before, inRow, own, after);
    } else {
      var rest := FrameSplits(l0, l1, row, col, n - 1);
      var last := RowAdds(l0, l1, n - 1, Width(l0, l1, n - 1));
      after := rest + last;
      LaterRow(l0, l1, row, col, rest, n - 1, Width(l0, l1, n - 1));
      Regrouped(before + inRow, own, rest, last);
    }
  }

  /** No other filled cell has this one's location. */
  ghost predicate OwnsLocation(l0: seq<seq<byte>>, l1: seq<seq<byte>>, row: nat, col: nat) {
    forall r: nat, c: nat :: Filled(l0, l1, r, c) && Location(r, c) == Location(row, col) ==> r == row && c == col
  }

  lemma EarlierElsewhere(l0: seq<seq<byte>>, l1: seq<seq<byte>>, row: nat, col: nat)
    requires OwnsLocation(l0, l1, row, col)
    ensures forall a :: a in FrameAdds(l0, l1, row) + RowAdds(l0, l1, row, col) ==> a.location != Location(row, col)
  {
    hide FrameAdds, RowAdds, Location;
    forall a | a in FrameAdds(l0, l1, row) + RowAdds(l0, l1, row, col) ensures a.location != Location(row, col) {
      if a in FrameAdds(l0, l1, row) {
        FrameAddsExactly(l0, l1, row, a);
        var r: nat, c: nat :| r < row && FromCell(l0, l1, r, c, a);
        assert Filled(l0, l1, r, c);
      } else {
        RowAddsExactly(l0, l1, row, col, a);
        var c: nat :| c < col && FromCell(l0, l1, row, c, a);
        assert Filled(l0, l1, row, c);
      }
    }
  }

  lemma LaterElsewhere(l0: seq<seq<byte>>, l1: seq<seq<byte>>, row: nat, col: nat, adds: seq<Add>)
    requires OwnsLocation(l0, l1, row, col) && ComeLater(l0, l1, row, col, adds)
    ensures forall a :: a in adds ==> a.location != Location(row, col)
  {
    hide Location;
    forall a | a in adds ensures a.location != Location(row, col) {
      var r: nat, c: nat :| (r > row || (r == row && c > col)) && FromCell(l0, l1, r, c, a);
      assert Filled(l0, l1, r, c);
    }
  }

  lemma FilledInside(l0: seq<seq<byte>>, l1: seq<seq<byte>>, row: nat, col: nat)
    requires Filled(l0, l1, row, col)
    ensures row < Rows(l0, l1) && col < Width(l0, l1, row)
    ensures CellAdds(l0, l1, row, col) == [Add(Location(row, col), Cell(l0, row, col), Cell(l1, row, col))]
  {
  }

  lemma RequestsJoin(a: seq<Blink.Node>, b: seq<Blink.Node>)
    ensures Requests(a + b) == Requests(a) + Requests(b)
  {
  }

  lemma RequestsElsewhere(adds: seq<Add>, location: word)
    requires forall a :: a in adds ==> a.location != location
    ensures Blink.AllLeaveAlone(Requests(NodesOf(adds)), location) && Blink.Ticks(Requests(NodesOf(adds))) == 0
  {
    var es := Requests(NodesOf(adds));
    forall e | e in es ensures Blink.LeavesAlone(e, location) {
      var i :| 0 <= i < |es| && es[i] == e;
      assert adds[i] in adds;
    }
    NoTicks(NodesOf(adds));
  }

  lemma {:induction false} NoTicks(nodes: seq<Blink.Node>)
    ensures Blink.Ticks(Requests(nodes)) == 0
  {
    if nodes != [] {
      assert Requests(nodes)[1..] == Requests(nodes[1..]) && Requests(nodes)[0] == Blink.Add(nodes[0]);
      NoTicks(nodes[1..]);
    }
  }

  /** Requests that leave the list in order, all served. */
  lemma {:induction false} AllServed(b: Blink.Blinker, nodes: seq<Blink.Node>, n: nat)
    requires Blink.Ok(b) && n <= |nodes| && RefusesZeros(|b.list|, nodes[..n])
    ensures Blink.AllPossible(b, Requests(nodes)[..n])
    ensures |Blink.Run(b, Requests(nodes)[..n]).list| == Min(Blink.POOL, |b.list| + Usable(nodes[..n]))
  {
    if n == 0 {
      assert nodes[..0] == [] && Requests(nodes)[..0] == [];
    } else {
      hide RefusesZeros, Usable, Blink.Run, Blink.AllPossible, Blink.Ok;
      RefusesOneMore(|b.list|, nodes, n - 1);
      AllServed(b, nodes, n - 1);
      ServedMore(b, nodes, n - 1);
    }
  }

  lemma WholeServed(b: Blink.Blinker, nodes: seq<Blink.Node>)
    requires Blink.Ok(b) && RefusesZeros(|b.list|, nodes)
    ensures Blink.AllPossible(b, Requests(nodes))
    ensures |Blink.Run(b, Requests(nodes)).list| == Min(Blink.POOL, |b.list| + Usable(nodes))
  {
    assert nodes[..|nodes|] == nodes && Requests(nodes)[..|nodes|] == Requests(nodes);
    AllServed(b, nodes, |nodes|);
  }

  lemma WantedAround(l0: seq<seq<byte>>, l1: seq<seq<byte>>, row: nat, col: nat, own: Add, after: seq<Add>)
    requires FrameAdds(l0, l1, Rows(l0, l1)) == FrameAdds(l0, l1, row) + RowAdds(l0, l1, row, col) + [own] + after
    ensures Wanted(l0, l1) == Earlier(l0, l1, row, col) + ([NodeOf(own)] + NodesOf(after))
    ensures Requests(Wanted(l0, l1))
         == Requests(Earlier(l0, l1, row, col)) + ([Blink.Add(NodeOf(own))] + Requests(NodesOf(after)))
  {
    hide FrameAdds, RowAdds, NodeOf;
    var before := FrameAdds(l0, l1, row) + RowAdds(l0, l1, row, col);
    NodesJoin(before, [own] + after);
    NodesJoin([own], after);
    assert before + [own] + after == before + ([own] + after);
    assert NodesOf([own]) == [NodeOf(own)] && Requests([NodeOf(own)]) == [Blink.Add(NodeOf(own))];
    RequestsJoin(NodesOf(before), [NodeOf(own)] + NodesOf(after));
    RequestsJoin([NodeOf(own)], NodesOf(after));
  }

  /** What becomes of a filled cell with a location on the screen to itself, free before, and room in the
      pool when its turn comes: the node there has the two frames' characters and blinks with period 30,
      frame 0's character first. */
  lemma CellStands(b: Blink.Blinker, l0: seq<seq<byte>>, l1: seq<seq<byte>>, row: nat, col: nat, k: nat)
    requires Blink.Ok(b) && WrapsRefused(l0, l1, |b.list|)
    requires Filled(l0, l1, row, col) && OwnsLocation(l0, l1, row, col)
    requires 1 <= Location(row, col) < Blink.LOCATIONS && Blink.NodeAt(b.list, Location(row, col)).None?
    requires |b.list| + Usable(Earlier(l0, l1, row, col)) < Blink.POOL
    ensures Blink.AllPossible(b, Requests(Wanted(l0, l1)))
    ensures var end := Blink.Run(b, Requests(Wanted(l0, l1))); var loc := Location(row, col);
      var c0, c1 := Cell(l0, row, col), Cell(l1, row, col);
      && Blink.NodeAt(end.list, loc) == Some(Blink.Node(loc, c0, c1, 15, 15, 15, 1))
      && Blink.AllPossible(end, Blink.Ticking(k))
      && Blink.Run(end, Blink.Ticking(k)).screen[2 * loc] == if k % 30 < 15 then c0 else c1
  {
    hide *;
    var loc, first := Location(row, col), Earlier(l0, l1, row, col);
    var node := NodeOf(Add(loc, Cell(l0, row, col), Cell(l1, row, col)));
    var rest := WantedSplits(l0, l1, row, col);
    WantedRefused(l0, l1, |b.list|);
    RefusesJoin(|b.list|, first, [node] + rest);
    WholeServed(b, first);
    WholeServed(b, Wanted(l0, l1));
    RoomMeans(|b.list|, Usable(first));
    AskedNode(Add(loc, Cell(l0, row, col), Cell(l1, row, col)));
    Blink.AddedAmong(b, Requests(first), node, Requests(rest), k);
  }

  /** A filled cell with a location on the screen to itself that no node of the list has, and room in the
      pool when its turn comes. */
  ghost predicate Stands(l0: seq<seq<byte>>, l1: seq<seq<byte>>, row: nat, col: nat, list: seq<Blink.Node>) {
    && (Cell(l0, row, col) != SPACE || Cell(l1, row, col) != SPACE) && OwnsLocation(l0, l1, row, col)
    && 1 <= Location(row, col) < Blink.LOCATIONS && (forall n :: n in list ==> n.location != Location(row, col))
    && |list| + Usable(Earlier(l0, l1, row, col)) < Blink.POOL
  }

  lemma StandsShown(b: Blink.Blinker, l0: seq<seq<byte>>, l1: seq<seq<byte>>, row: nat, col: nat)
    requires Blink.Ok(b) && WrapsRefused(l0, l1, |b.list|) && Stands(l0, l1, row, col, b.list)
    requires Blink.AllPossible(b, Requests(Wanted(l0, l1)))
    ensures var end := Blink.Run(b, Requests(Wanted(l0, l1)));
      var loc, c0, c1 := (row * 80 + col + 40) % 0x1_0000, Cell(l0, row, col), Cell(l1, row, col);
      && loc < Blink.LOCATIONS && |end.screen| == Blink.SCREEN
      && Blink.NodeAt(end.list, loc) == Some(Blink.Node(loc, c0, c1, 15, 15, 15, 1))
      && end.screen[2 * loc] == c0
      && forall k: nat :: Blink.AllPossible(end, Blink.Ticking(k))
           && Blink.Run(end, Blink.Ticking(k)).screen[2 * loc] == if k % 30 < 15 then c0 else c1
  {
    hide *;
    var end, loc := Blink.Run(b, Requests(Wanted(l0, l1))), Location(row, col);
    StandsMeans(l0, l1, row, col, b.list);
    TicksNothing(end);
    forall k: nat
      ensures
        && Blink.AllPossible(end, Blink.Ticking(k)) && |Blink.Run(end, Blink.Ticking(k)).screen| == 4096
        && Blink.Run(end, Blink.Ticking(k)).screen[2 * loc]
           == if k % 30 < 15 then Cell(l0, row, col) else Cell(l1, row, col)
    {
      CellStands(b, l0, l1, row, col, k);
      ScreenSized(Blink.Run(end, Blink.Ticking(k)));
    }
    CellStands(b, l0, l1, row, col, 0);
  }

  lemma ScreenSized(b: Blink.Blinker)
    requires Blink.Ok(b)
    ensures |b.screen| == 4096
  {
  }

  lemma TicksNothing(b: Blink.Blinker)
    requires Blink.Ok(b)
    ensures |b.screen| == 4096 == Blink.SCREEN
    ensures Blink.AllPossible(b, Blink.Ticking(0)) && Blink.Run(b, Blink.Ticking(0)) == b
  {
  }

  lemma StandsMeans(l0: seq<seq<byte>>, l1: seq<seq<byte>>, row: nat, col: nat, list: seq<Blink.Node>)
    requires Stands(l0, l1, row, col, list)
    ensures Filled(l0, l1, row, col) && OwnsLocation(l0, l1, row, col)
    ensures Location(row, col) == (row * 80 + col + 40) % 0x1_0000 && 1 <= Location(row, col) < 2000 == Blink.LOCATIONS
    ensures Blink.NodeAt(list, Location(row, col)).None?
    ensures |list| + Usable(Earlier(l0, l1, row, col)) < Blink.POOL
  {
    hide OwnsLocation, Earlier;
    NoneThere(list, Location(row, col));
  }

  lemma NoneThere(list: seq<Blink.Node>, location: word)
    requires forall n :: n in list ==> n.location != location
    ensures Blink.NodeAt(list, location).None?
  {
  }

  lemma RoomMeans(start: nat, more: nat)
    ensures start + more < Blink.POOL ==> Min(Blink.POOL, start + more) < Blink.POOL
  {
  }

  lemma AskedNode(a: Add)
    ensures NodeOf(a) == Blink.Node(a.location, a.onChar, a.offChar, 15, 15, 0, 0)
    ensures Blink.NodeAfter(Blink.Fresh(NodeOf(a)), 0) == Blink.Node(a.location, a.onChar, a.offChar, 15, 15, 15, 1)
  {
  }

  /** All that the frames ask for: the earlier cells, this one, and others elsewhere. */
  lemma WantedSplits(l0: seq<seq<byte>>, l1: seq<seq<byte>>, row: nat, col: nat) returns (rest: seq<Blink.Node>)
    requires Filled(l0, l1, row, col) && OwnsLocation(l0, l1, row, col)
    ensures var loc := Location(row, col); var first := Earlier(l0, l1, row, col);
      var node := NodeOf(Add(loc, Cell(l0, row, col), Cell(l1, row, col)));
      && Wanted(l0, l1) == first + ([node] + rest)
      && Requests(Wanted(l0, l1)) == Requests(first) + ([Blink.Add(node)] + Requests(rest))
      && Blink.AllLeaveAlone(Requests(first), loc)
      && Blink.AllLeaveAlone(Requests(rest), loc) && Blink.Ticks(Requests(rest)) == 0
  {
    hide *;
    FilledInside(l0, l1, row, col);
    var after := FrameSplits(l0, l1, row, col, Rows(l0, l1));
    rest := NodesOf(after);
    LaterElsewhere(l0, l1, row, col, after);
    EarlierElsewhere(l0, l1, row, col);
    WantedAround(l0, l1, row, col, Add(Location(row, col), Cell(l0, row, col), Cell(l1, row, col)), after);
    EarlierRequests(l0, l1, row, col);
    RequestsElsewhere(FrameAdds(l0, l1, row) + RowAdds(l0, l1, row, col), Location(row, col));
    RequestsElsewhere(after, Location(row, col));
  }

  lemma EarlierRequests(l0: seq<seq<byte>>, l1: seq<seq<byte>>, row: nat, col: nat)
    ensures Earlier(l0, l1, row, col) == NodesOf(FrameAdds(l0, l1, row) + RowAdds(l0, l1, row, col))
  {
  }

  // ---- Frames that wrap ----

  const MARK: byte := 120

  function Blank(n: nat): (line: seq<byte>)
    ensures |line| == n && forall i :: 0 <= i < n ==> line[i] == SPACE
  {
    seq(n, _ => SPACE)
  }

  function Full(n: nat): (line: seq<byte>)
    ensures |line| == n && forall i :: 0 <= i < n ==> line[i] == MARK
  {
    seq(n, _ => MARK)
  }

  function EmptyLines(n: nat): (lines: seq<seq<byte>>)
    ensures |lines| == n && forall i :: 0 <= i < n ==> lines[i] == []
  {
    seq(n, _ => [])
  }

  lemma WrapsAt()
    ensures Location(818, 56) == 0
  {
  }

  lemma BlankBefore(l0: seq<seq<byte>>, l1: seq<seq<byte>>, row: nat, col: nat)
    requires forall r: nat, c: nat :: r < row || (r == row && c < col) ==> !Filled(l0, l1, r, c)
    ensures Earlier(l0, l1, row, col) == []
  {
    var before, here := FrameAdds(l0, l1, row), RowAdds(l0, l1, row, col);
    if before != [] {
      FrameAddsExactly(l0, l1, row, before[0]);
      var r: nat, c: nat :| r < row && FromCell(l0, l1, r, c, before[0]);
      assert Filled(l0, l1, r, c);
    }
    if here != [] {
      RowAddsExactly(l0, l1, row, col, here[0]);
      var c: nat :| c < col && FromCell(l0, l1, row, c, here[0]);
      assert Filled(l0, l1, row, c);
    }
  }

  /** One character in row 818, column 56 of an otherwise blank frame: added to an empty list, it leaves
      a pool that holds no list. */
  lemma FramesBreakList(pool: seq<Slot>)
    requires Lists(pool, NULL, [])
    ensures |pool| == Blink.POOL
    ensures var v0 := Unlines(EmptyLines(818) + [Blank(56) + [MARK]]);
      var (pool', head') := AddedAll(pool, NULL, Wanted(Lines(v0), Lines([])));
      forall s :: !Lists(pool', head', s)
  {
    var l0 := EmptyLines(818) + [Blank(56) + [MARK]];
    assert l0[818] == Blank(56) + [MARK];
    UnlinesLines(l0);
    LoneMark(l0);
    assert Lines([]) == [];
    hide *;
    FramesKeepList(l0, [], pool, NULL, []);
  }

  lemma LoneMark(l0: seq<seq<byte>>)
    requires |l0| == 819 && l0[818] == Blank(56) + [MARK] && forall i :: 0 <= i < 818 ==> l0[i] == []
    ensures !WrapsRefused(l0, [], 0)
  {
    hide FrameAdds, RowAdds, Earlier, Location;
    BlankBefore(l0, [], 818, 56);
    WrapsAt();
    RefusesNothing(0);
    assert Filled(l0, [], 818, 56);
    assert !CellRefused(l0, [], 0, 818, 56);
  }

  /** The same character after a first line of 1960 and a second of 40: the pool is full when its turn
      comes, and the list stays in order. */
  lemma FramesFillFirst(pool: seq<Slot>)
    requires Lists(pool, NULL, [])
    ensures |pool| == Blink.POOL
    ensures var v0 := Unlines([Full(1960), Full(40)] + EmptyLines(816) + [Blank(56) + [MARK]]);
      var (pool', head') := AddedAll(pool, NULL, Wanted(Lines(v0), Lines([])));
      exists s :: Lists(pool', head', s)
  {
    var l0 := [Full(1960), Full(40)] + EmptyLines(816) + [Blank(56) + [MARK]];
    assert l0[0] == Full(1960) && l0[1] == Full(40);
    UnlinesLines(l0);
    FilledFirst(l0);
    assert Lines([]) == [];
    hide *;
    FramesKeepList(l0, [], pool, NULL, []);
  }

  lemma FilledFirst(l0: seq<seq<byte>>)
    requires |l0| >= 2 && l0[0] == Full(1960) && l0[1] == Full(40)
    ensures WrapsRefused(l0, [], 0)
  {
    hide FrameAdds, RowAdds, Usable, Earlier;
    TwoLinesFill(l0);
    forall row: nat, col: nat ensures CellRefused(l0, [], 0, row, col) {
      if row >= 2 {
        FrameGrows(l0, [], 2, row);
        EarlierIs(l0, [], row, col);
        UsableJoin(NodesOf(FrameAdds(l0, [], row)), NodesOf(RowAdds(l0, [], row, col)));
      }
    }
  }

  lemma TwoLinesFill(l0: seq<seq<byte>>)
    requires |l0| >= 2 && l0[0] == Full(|l0[0]|) && l0[1] == Full(|l0[1]|)
    requires |l0[0]| + OFFSET <= Blink.LOCATIONS && COLS + |l0[1]| + OFFSET <= Blink.LOCATIONS
    ensures Usable(NodesOf(FrameAdds(l0, [], 2))) == |l0[0]| + |l0[1]|
  {
    hide *;
    LineFills(l0, 0);
    LineFills(l0, 1);
    RowCounts(l0, [], 0);
    RowCounts(l0, [], 1);
    FrameOneMore(l0, [], 0, 0);
    RefusesNothing(0);
    assert NodesOf([]) == [];
  }

  /** Each filled cell on the screen takes a slot. */
  lemma LineFills(l0: seq<seq<byte>>, row: nat)
    requires row < |l0| && l0[row] == Full(|l0[row]|) && row * COLS + |l0[row]| + OFFSET <= Blink.LOCATIONS
    ensures Width(l0, [], row) == |l0[row]|
    ensures Usable(NodesOf(RowAdds(l0, [], row, Width(l0, [], row)))) == |l0[row]|
  {
    forall col: nat | col < |l0[row]|
      ensures Filled(l0, [], row, col) && 1 <= Location(row, col) < Blink.LOCATIONS
    {
    }
    RowFills(l0, [], row, |l0[row]|);
  }

  lemma {:induction false} RowFills(l0: seq<seq<byte>>, l1: seq<seq<byte>>, row: nat, n: nat)
    requires forall col: nat :: col < n ==>
      Filled(l0, l1, row, col) && 1 <= Location(row, col) < Blink.LOCATIONS
    ensures Usable(NodesOf(RowAdds(l0, l1, row, n))) == n
  {
    hide *;
    RowOneMore(l0, l1, 0, row, 0);
    RefusesNothing(0);
    if n > 0 {
      var before, cell := RowAdds(l0, l1, row, n - 1), CellAdds(l0, l1, row, n - 1);
      RowFills(l0, l1, row, n - 1);
      RowOneMore(l0, l1, 0, row, n - 1);
      CellFills(l0, l1, row, n - 1);
      NodesJoin(before, cell);
      UsableJoin(NodesOf(before), NodesOf(cell));
    }
  }

  lemma CellFills(l0: seq<seq<byte>>, l1: seq<seq<byte>>, row: nat, col: nat)
    requires Filled(l0, l1, row, col) && 1 <= Location(row, col) < Blink.LOCATIONS
    ensures Usable(NodesOf(CellAdds(l0, l1, row, col))) == 1
  {
    var nodes := NodesOf(CellAdds(l0, l1, row, col));
    assert |nodes| == 1 && nodes[..0] == [] && nodes[0].location == Location(row, col);
  }

  lemma RowCounts(l0: seq<seq<byte>>, l1: seq<seq<byte>>, n: nat)
    ensures Usable(NodesOf(FrameAdds(l0, l1, n + 1)))
         == Usable(NodesOf(FrameAdds(l0, l1, n))) + Usable(NodesOf(RowAdds(l0, l1, n, Width(l0, l1, n))))
  {
    hide *;
    var before, row := FrameAdds(l0, l1, n), RowAdds(l0, l1, n, Width(l0, l1, n));
    FrameOneMore(l0, l1, 0, n);
    NodesJoin(before, row);
    UsableJoin(NodesOf(before), NodesOf(row));
  }

  lemma {:induction false} FrameGrows(l0: seq<seq<byte>>, l1: seq<seq<byte>>, m: nat, n: nat)
    requires m <= n
    ensures Usable(NodesOf(FrameAdds(l0, l1, m))) <= Usable(NodesOf(FrameAdds(l0, l1, n)))
    decreases n
  {
    hide *;
    if m < n {
      FrameGrows(l0, l1, m, n - 1);
      RowCounts(l0, l1, n - 1);
    }
  }

  // ---- The program ----

  /** add_frames with its requests served, whatever the frames. */
  method ShowFrames(list: BlinkList, file0: Option<FS.Descriptor>, file1: Option<FS.Descriptor>)
    returns (halted: bool)
    requires list.Valid()
    requires file0.Some? ==> file0.value.Valid() && file0.value.position == 0
    requires file1.Some? ==> file1.value.Valid() && file1.value.position == 0
    requires file0.Some? && file1.Some? ==> file0.value != file1.value
    modifies list, list.pool, list.vmem
    modifies if file0.Some? then {file0.value} else {}, if file1.Some? then {file1.value} else {}
    ensures halted <==> file0.None? || file1.None?
    ensures halted ==> list.Valid() && list.Now() == old(list.Now())
    ensures !halted ==>
      var l0, l1 := Lines(old(file0.value.Contents())), Lines(old(file1.value.Contents()));
      && (list.pool[..], list.head) == AddedAll(old(list.pool[..]), old(list.head), Wanted(l0, l1))
      && ((exists s :: Lists(list.pool[..], list.head, s)) <==> WrapsRefused(l0, l1, |old(list.Now()).list|))
      && (WrapsRefused(l0, l1, |old(list.Now()).list|) ==>
            && list.Valid() && Blink.AllPossible(old(list.Now()), Requests(Wanted(l0, l1)))
            && list.Now() == Blink.Run(old(list.Now()), Requests(Wanted(l0, l1))))
    ensures !halted ==>
      var l0, l1 := Lines(old(file0.value.Contents())), Lines(old(file1.value.Contents()));
      WrapsRefused(l0, l1, |old(list.Now()).list|) ==>
        forall row: nat, col: nat :: Stands(l0, l1, row, col, old(list.Now()).list) ==>
          var loc, c0, c1 := (row * 80 + col + 40) % 0x1_0000, Cell(l0, row, col), Cell(l1, row, col);
          && Blink.NodeAt(list.Now().list, loc) == Some(Blink.Node(loc, c0, c1, 15, 15, 15, 1))
          && list.vmem[2 * loc] == c0
          && forall k: nat :: Blink.AllPossible(list.Now(), Blink.Ticking(k))
               && Blink.Run(list.Now(), Blink.Ticking(k)).screen[2 * loc] == if k % 30 < 15 then c0 else c1
  {
    hide FS.WellFormed, FS.View, FrameAdds, WrapsRefused, RefusesZeros, Lines, AddedAll, Follows, Distinct, InUse;
    var adds;
    halted, adds := AddFrames(file0, file1);
    if !halted {
      ghost var l0, l1 := Lines(file0.value.Contents()), Lines(file1.value.Contents());
      ghost var start := |list.Now().list|;
      FramesKeepList(l0, l1, list.pool[..], list.head, list.slots);
      WantedRefused(l0, l1, start);
      ghost var b := list.Now();
      ServeAll(list, NodesOf(adds));
      if WrapsRefused(l0, l1, start) {
        forall row: nat, col: nat | Stands(l0, l1, row, col, b.list)
          ensures var loc, c0, c1 := (row * 80 + col + 40) % 0x1_0000, Cell(l0, row, col), Cell(l1, row, col);
            && loc < Blink.LOCATIONS && list.vmem.Length == Blink.SCREEN
            && Blink.NodeAt(list.Now().list, loc) == Some(Blink.Node(loc, c0, c1, 15, 15, 15, 1))
            && list.vmem[2 * loc] == c0
            && forall k: nat :: Blink.AllPossible(list.Now(), Blink.Ticking(k))
                 && Blink.Run(list.Now(), Blink.Ticking(k)).screen[2 * loc] == if k % 30 < 15 then c0 else c1
        {
          StandsShown(b, l0, l1, row, col);
        }
      }
    }
  }

  ghost predicate Holds(list: BlinkList, b: Blink.Blinker)
    reads list, list.pool, list.vmem
  {
    list.Valid() && list.Now() == b
  }

  lemma HeldIs(list: BlinkList, b: Blink.Blinker)
    ensures Holds(list, b) <==> list.Valid() && list.Now() == b
  {
  }

  method ServeOne(list: BlinkList, node: Blink.Node, ghost b: Blink.Blinker)
    requires list.Wired()
    modifies list, list.pool, list.vmem
    ensures list.Wired() && (list.pool[..], list.head) == Added(old(list.pool[..]), old(list.head), node)
    ensures old(Holds(list, b)) && Blink.Ok(b) && Blink.Possible(b, Blink.Add(node)) ==>
      Holds(list, Blink.Step(b, Blink.Add(node)))
  {
    hide Added, Follows, Distinct, InUse, Blink.Step, Blink.Ok;
    var _ := list.Add(node);
  }

  /** The requests, one after the other. */
  method ServeAll(list: BlinkList, nodes: seq<Blink.Node>)
    requires list.Valid()
    modifies list, list.pool, list.vmem
    ensures (list.pool[..], list.head) == AddedAll(old(list.pool[..]), old(list.head), nodes)
    ensures RefusesZeros(|old(list.Now()).list|, nodes) ==>
      && list.Valid() && Blink.AllPossible(old(list.Now()), Requests(nodes))
      && list.Now() == Blink.Run(old(list.Now()), Requests(nodes))
  {
    hide AddedAll, Added, RefusesZeros, Usable, Follows, Distinct, InUse, NodeOf, Holds;
    hide Blink.Run, Blink.AllPossible, Blink.Step, Blink.Ok, Blink.Possible;
    ghost var b, es, pool, head := list.Now(), Requests(nodes), list.pool[..], list.head;
    ServedNothing(b, pool, head);
    assert nodes[..0] == [] && es[..0] == [];
    HeldIs(list, b);
    for n := 0 to |nodes|
      invariant list.Wired() && (list.pool[..], list.head) == AddedAll(pool, head, nodes[..n])
      invariant RefusesZeros(|b.list|, nodes[..n]) ==>
        && Blink.AllPossible(b, es[..n]) && Holds(list, Blink.Run(b, es[..n]))
        && |Blink.Run(b, es[..n]).list| == Min(Blink.POOL, |b.list| + Usable(nodes[..n]))
    {
      AddedMore(pool, head, nodes, n);
      RefusesOneMore(|b.list|, nodes, n);
      if RefusesZeros(|b.list|, nodes[..n + 1]) {
        ServedMore(b, nodes, n);
      }
      ServeOne(list, nodes[n], if RefusesZeros(|b.list|, nodes[..n]) then Blink.Run(b, es[..n]) else b);
    }
    assert nodes[..|nodes|] == nodes && es[..|nodes|] == es;
    HeldIs(list, if RefusesZeros(|b.list|, nodes) then Blink.Run(b, es) else b);
  }

  lemma ServedNothing(b: Blink.Blinker, pool: seq<Slot>, head: int)
    requires Blink.Ok(b) && |pool| == Blink.POOL
    ensures AddedAll(pool, head, []) == (pool, head) && RefusesZeros(|b.list|, [])
    ensures Blink.AllPossible(b, []) && Blink.Run(b, []) == b && Usable([]) == 0 && |b.list| <= Blink.POOL
  {
  }
  lemma AddedMore(pool: seq<Slot>, head: int, nodes: seq<Blink.Node>, n: nat)
    requires |pool| == Blink.POOL && n < |nodes|
    ensures var (before, first) := AddedAll(pool, head, nodes[..n]);
      AddedAll(pool, head, nodes[..n + 1]) == Added(before, first, nodes[n])
  {
    assert nodes[..n + 1][..n] == nodes[..n] && nodes[..n + 1][n] == nodes[n];
    AddedLast(pool, head, nodes[..n + 1]);
  }

  /** One request more, of a sequence that leaves the list in order. */
  lemma ServedMore(b: Blink.Blinker, nodes: seq<Blink.Node>, n: nat)
    requires Blink.Ok(b) && n < |nodes| && RefusesZeros(|b.list|, nodes[..n + 1])
    requires Blink.AllPossible(b, Requests(nodes)[..n])
    requires |Blink.Run(b, Requests(nodes)[..n]).list| == Min(Blink.POOL, |b.list| + Usable(nodes[..n]))
    ensures var es := Requests(nodes); var now := Blink.Run(b, es[..n]);
      && Blink.Possible(now, Blink.Add(nodes[n])) && Blink.AllPossible(b, es[..n + 1])
      && Blink.Run(b, es[..n + 1]) == Blink.Step(now, Blink.Add(nodes[n]))
      && |Blink.Run(b, es[..n + 1]).list| == Min(Blink.POOL, |b.list| + Usable(nodes[..n + 1]))
  {
    var es, e := Requests(nodes), Blink.Add(nodes[n]);
    var now := Blink.Run(b, es[..n]);
    assert es[..n + 1] == es[..n] + [e];
    RefusesOneMore(|b.list|, nodes, n);
    hide RefusesZeros, Usable, Blink.Run, Blink.AllPossible, Blink.Ok;
    Blink.RunThen(b, es[..n], e);
    AddLength(now, nodes[n]);
  }

  lemma AddLength(b: Blink.Blinker, node: Blink.Node)
    requires Blink.Ok(b) && Blink.Possible(b, Blink.Add(node))
    ensures |b.list| <= Blink.POOL
    ensures |Blink.Step(b, Blink.Add(node)).list|
         == Min(Blink.POOL, |b.list| + if 1 <= node.location < Blink.LOCATIONS then 1 else 0)
  {
  }
}
