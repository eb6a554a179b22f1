/** The two-frame merge of the fish program: two text files are read side by side, and every cell that
    either of them fills is added to the blink list (fish/fish.c). */
module Frames {
  import opened Bytes
  import opened TextLines
  import FS = FileSystem

  const COLS := 80
  const OFFSET := 40
  const ZERO: byte := 48 // '0', the start value of c0 and c1

  /** One add request; the location is an unsigned short. */
  datatype Add = Add(location: word, onChar: byte, offChar: byte)

  // ---- What the merge means ----

  function LineAt(lines: seq<seq<byte>>, row: nat): seq<byte> {
    if row < |lines| then lines[row] else []
  }

  /** A frame's cell: short lines and short files are padded with spaces. */
  function Cell(lines: seq<seq<byte>>, row: nat, col: nat): byte {
    if col < |LineAt(lines, row)| then LineAt(lines, row)[col] else SPACE
  }

  function Location(row: nat, col: nat): word {
    (row * COLS + col + OFFSET) % 0x1_0000
  }

  function CellAdds(l0: seq<seq<byte>>, l1: seq<seq<byte>>, row: nat, col: nat): seq<Add> {
    var c0, c1 := Cell(l0, row, col), Cell(l1, row, col);
    if c0 != SPACE || c1 != SPACE then [Add(Location(row, col), c0, c1)] else []
  }

  /** The adds of the first n columns of a row, left to right. */
  function RowAdds(l0: seq<seq<byte>>, l1: seq<seq<byte>>, row: nat, n: nat): seq<Add> {
    if n == 0 then [] else RowAdds(l0, l1, row, n - 1) + CellAdds(l0, l1, row, n - 1)
  }

  function Width(l0: seq<seq<byte>>, l1: seq<seq<byte>>, row: nat): nat {
    Max(|LineAt(l0, row)|, |LineAt(l1, row)|)
  }

  /** The adds of the first n rows, top to bottom. */
  function FrameAdds(l0: seq<seq<byte>>, l1: seq<seq<byte>>, n: nat): seq<Add> {
    if n == 0 then [] else FrameAdds(l0, l1, n - 1) + RowAdds(l0, l1, n - 1, Width(l0, l1, n - 1))
  }

  lemma {:induction false} RowAddsBeyond(l0: seq<seq<byte>>, l1: seq<seq<byte>>, row: nat, n: nat)
    requires Width(l0, l1, row) <= n
    ensures RowAdds(l0, l1, row, n) == RowAdds(l0, l1, row, Width(l0, l1, row))
    decreases n
  {
    if Width(l0, l1, row) < n {
      RowAddsBeyond(l0, l1, row, n - 1);
    }
  }

  lemma {:induction false} FrameAddsBeyond(l0: seq<seq<byte>>, l1: seq<seq<byte>>, n: nat)
    requires Max(|l0|, |l1|) <= n
    ensures FrameAdds(l0, l1, n) == FrameAdds(l0, l1, Max(|l0|, |l1|))
    decreases n
  {
    if Max(|l0|, |l1|) < n {
      FrameAddsBeyond(l0, l1, n - 1);
      assert Width(l0, l1, n - 1) == 0;
    }
  }

  /** The add `a` belongs to this cell, which one of the frames fills. */
  predicate FromCell(l0: seq<seq<byte>>, l1: seq<seq<byte>>, row: nat, col: nat, a: Add) {
    && (Cell(l0, row, col) != SPACE || Cell(l1, row, col) != SPACE)
    && a == Add(Location(row, col), Cell(l0, row, col), Cell(l1, row, col))
  }

  /** In plain numbers: rows are 80 columns apart and start at 40, in 16 bits, and what a frame does not
      reach is a space. */
  lemma FromCellMeans(l0: seq<seq<byte>>, l1: seq<seq<byte>>, row: nat, col: nat, a: Add)
    ensures FromCell(l0, l1, row, col, a) <==>
      && a.location == (row * 80 + col + 40) % 0x1_0000
      && a.onChar == (if row < |l0| && col < |l0[row]| then l0[row][col] else 32)
      && a.offChar == (if row < |l1| && col < |l1[row]| then l1[row][col] else 32)
      && (a.onChar != 32 || a.offChar != 32)
  {
  }

  lemma {:induction false} RowAddsExactly(l0: seq<seq<byte>>, l1: seq<seq<byte>>, row: nat, n: nat, a: Add)
    ensures a in RowAdds(l0, l1, row, n) <==> exists col: nat :: col < n && FromCell(l0, l1, row, col, a)
  {
    if n > 0 {
      RowAddsExactly(l0, l1, row, n - 1, a);
      assert a in RowAdds(l0, l1, row, n) <==> a in RowAdds(l0, l1, row, n - 1) || FromCell(l0, l1, row, n - 1, a);
    }
  }

  lemma FilledWithin(l0: seq<seq<byte>>, l1: seq<seq<byte>>, row: nat, col: nat, a: Add)
    requires FromCell(l0, l1, row, col, a)
    ensures col < Width(l0, l1, row)
  {
  }

  /** One row's adds. */
  lemma WholeRowExactly(l0: seq<seq<byte>>, l1: seq<seq<byte>>, row: nat, a: Add)
    ensures a in RowAdds(l0, l1, row, Width(l0, l1, row)) <==> exists col: nat :: FromCell(l0, l1, row, col, a)
  {
    RowAddsExactly(l0, l1, row, Width(l0, l1, row), a);
    hide *;
    if col: nat :| FromCell(l0, l1, row, col, a) {
      FilledWithin(l0, l1, row, col, a);
    }
  }

  lemma FrameAddsMore(l0: seq<seq<byte>>, l1: seq<seq<byte>>, row: nat, a: Add)
    ensures a !in FrameAdds(l0, l1, 0)
    ensures a in FrameAdds(l0, l1, row + 1)
       <==> a in FrameAdds(l0, l1, row) || a in RowAdds(l0, l1, row, Width(l0, l1, row))
  {
    hide RowAdds, Width;
  }

  /** An add is requested exactly for the cells that some frame fills, with that frame's characters. */
  lemma {:induction false} FrameAddsExactly(l0: seq<seq<byte>>, l1: seq<seq<byte>>, n: nat, a: Add)
    ensures a in FrameAdds(l0, l1, n) <==> exists row: nat, col: nat :: row < n && FromCell(l0, l1, row, col, a)
  {
    hide *;
    FrameAddsMore(l0, l1, if n == 0 then 0 else n - 1, a);
    if n > 0 {
      var row := n - 1;
      FrameAddsExactly(l0, l1, row, a);
      WholeRowExactly(l0, l1, row, a);
      if a in FrameAdds(l0, l1, row) {
        var r: nat, col: nat :| r < row && FromCell(l0, l1, r, col, a);
        assert r < n;
      }
      if r: nat, col: nat :| r < n && FromCell(l0, l1, r, col, a) {
        assert r < row || r == row;
      }
    }
  }

  // ---- Reading one frame ----

  /** The frame at the start of a row. */
  ghost predicate AtRow(v: seq<byte>, row: nat, pos: nat, c: byte, eof: bool) {
    && pos <= |v|
    && if eof then c == NEWLINE && |Lines(v)| <= row
       else c != NEWLINE && row <= |Lines(v)| && Lines(v[pos..]) == Lines(v)[row..]
  }

  /** The frame after the first col columns of a row: within its line, or done with it. */
  ghost predicate InRow(v: seq<byte>, row: nat, col: nat, pos: nat, c: byte, eof: bool) {
    && pos <= |v|
    && if c == NEWLINE then
         |LineAt(Lines(v), row)| <= col
         && if eof then |Lines(v)| <= row else row < |Lines(v)| && Lines(v[pos..]) == Lines(v)[row + 1..]
       else
         !eof && if row < |Lines(v)| then
             col <= |Lines(v)[row]| && Lines(v[pos..]) == [Lines(v)[row][col..]] + Lines(v)[row + 1..]
           else row == |Lines(v)| && col == 0 && pos == |v|
  }

  lemma RowStarts(v: seq<byte>, row: nat, pos: nat, c: byte, eof: bool)
    requires AtRow(v, row, pos, c, eof)
    ensures InRow(v, row, 0, pos, c, eof)
  {
    if !eof && row < |Lines(v)| {
      assert Lines(v)[row..] == [Lines(v)[row]] + Lines(v)[row + 1..];
    }
  }

  /** The first byte of what a line still holds. */
  lemma NextByte(w: seq<byte>, line: seq<byte>, rest: seq<seq<byte>>)
    requires w != [] && w[|w| - 1] == NEWLINE && Lines(w) == [line] + rest
    ensures w[0] == NEWLINE ==> line == [] && Lines(w[1..]) == rest
    ensures w[0] != NEWLINE ==> line != [] && line[0] == w[0] && |w| > 1 && Lines(w[1..]) == [line[1..]] + rest
  {
    hide Lines;
    EndsInNewline(w);
    var n := LineLength(w);
    LinesOf(w);
    assert line == ([w[..n]] + Lines(w[n + 1..]))[0] && rest == ([w[..n]] + Lines(w[n + 1..]))[1..];
    if n > 0 {
      var w1 := w[1..];
      LineLengthAfter(w, 1);
      LinesOf(w1);
      assert w1[..n - 1] == line[1..] && w1[n..] == w[n + 1..];
    }
  }

  lemma LinesOf(w: seq<byte>)
    requires LineLength(w) < |w|
    ensures Lines(w) == [w[..LineLength(w)]] + Lines(w[LineLength(w) + 1..])
  {
  }

  /** What the next byte of a frame, if there is one, makes of its row. */
  lemma NextInRow(v: seq<byte>, row: nat, col: nat, pos: nat, c: byte)
    requires InRow(v, row, col, pos, c, false) && c != NEWLINE && (v != [] ==> v[|v| - 1] == NEWLINE)
    ensures pos == |v| ==> InRow(v, row, col + 1, pos, NEWLINE, true) && LineAt(Lines(v), row) == []
    ensures pos < |v| ==>
      && InRow(v, row, col + 1, pos + 1, v[pos], false)
      && if v[pos] == NEWLINE then |LineAt(Lines(v), row)| <= col
         else col < |LineAt(Lines(v), row)| && v[pos] == LineAt(Lines(v), row)[col]
  {
    assert Lines([]) == [];
    hide Lines;
    if row < |Lines(v)| {
      var line, rest := Lines(v)[row], Lines(v)[row + 1..];
      assert v[pos..] != [];
      NextByte(v[pos..], line[col..], rest);
      assert v[pos..][1..] == v[pos + 1..];
      if v[pos] != NEWLINE {
        assert line[col..][1..] == line[col + 1..];
      }
    }
  }

  /** One column of one frame: reads on unless its line has ended. */
  method Column(fd: FS.Descriptor, c: byte, eof: bool, ghost row: nat, ghost col: nat) returns (c': byte, eof': bool)
    requires fd.Valid() && InRow(fd.Contents(), row, col, fd.position, c, eof)
    modifies fd
    ensures fd.Valid() && old(fd.position) <= fd.position
    ensures c == NEWLINE ==> c' == NEWLINE && eof' == eof && fd.position == old(fd.position)
    ensures c != NEWLINE ==> fd.position > old(fd.position) || (c' == NEWLINE && eof')
    ensures InRow(fd.Contents(), row, col + 1, fd.position, c', eof')
    ensures c' == NEWLINE ==> |LineAt(Lines(fd.Contents()), row)| <= col
    ensures c' != NEWLINE ==> col < |LineAt(Lines(fd.Contents()), row)| && c' == LineAt(Lines(fd.Contents()), row)[col]
  {
    hide FS.WellFormed, FS.View, Lines;
    c', eof' := c, eof;
    if c != NEWLINE {
      var buf := new byte[1](_ => c);
      ghost var v, pos := fd.Contents(), fd.position;
      NextInRow(v, row, col, pos, c);
      assert InRow(v, row, col, pos, c, eof) ==> !eof;
      var numBytes := fd.Read(buf, 0, 1);
      c' := buf[0];
      assert numBytes > 0 ==> buf[..][0] == v[pos];
      if numBytes == 0 {
        c', eof' := NEWLINE, true;
      }
    }
  }

  /** One row of both frames: columns until both lines have ended. */
  method Row(fd0: FS.Descriptor, fd1: FS.Descriptor, ch0: byte, ch1: byte, e0: bool, e1: bool, row: nat)
    returns (eof0: bool, eof1: bool, adds: seq<Add>)
    requires fd0 != fd1 && fd0.Valid() && fd1.Valid()
    requires AtRow(fd0.Contents(), row, fd0.position, ch0, e0) && AtRow(fd1.Contents(), row, fd1.position, ch1, e1)
    modifies fd0, fd1
    ensures fd0.Valid() && fd1.Valid() && old(fd0.position) <= fd0.position && old(fd1.position) <= fd1.position
    ensures e0 ==> eof0 && fd0.position == old(fd0.position)
    ensures e1 ==> eof1 && fd1.position == old(fd1.position)
    ensures !e0 ==> eof0 || fd0.position > old(fd0.position)
    ensures !e1 ==> eof1 || fd1.position > old(fd1.position)
    ensures AtRow(fd0.Contents(), row + 1, fd0.position, if eof0 then NEWLINE else ZERO, eof0)
    ensures AtRow(fd1.Contents(), row + 1, fd1.position, if eof1 then NEWLINE else ZERO, eof1)
    ensures var l0, l1 := Lines(fd0.Contents()), Lines(fd1.Contents());
      adds == RowAdds(l0, l1, row, Width(l0, l1, row))
  {
    hide FS.WellFormed, FS.View, Lines, InRow;
    ghost var v0, v1 := fd0.Contents(), fd1.Contents();
    RowStarts(v0, row, fd0.position, ch0, e0);
    RowStarts(v1, row, fd1.position, ch1, e1);
    var c0, c1 := ch0, ch1;
    eof0, eof1, adds := e0, e1, [];
    var col := 0;
    while true
      invariant 0 <= col && fd0.Valid() && fd1.Valid() && fd0.Contents() == v0 && fd1.Contents() == v1
      invariant InRow(v0, row, col, fd0.position, c0, eof0) && InRow(v1, row, col, fd1.position, c1, eof1)
      invariant old(fd0.position) <= fd0.position && old(fd1.position) <= fd1.position
      invariant e0 ==> eof0 && c0 == NEWLINE && fd0.position == old(fd0.position)
      invariant e1 ==> eof1 && c1 == NEWLINE && fd1.position == old(fd1.position)
      invariant !e0 && c0 == NEWLINE ==> eof0 || fd0.position > old(fd0.position)
      invariant !e1 && c1 == NEWLINE ==> eof1 || fd1.position > old(fd1.position)
      invariant adds == RowAdds(Lines(v0), Lines(v1), row, col)
      decreases |v0| - fd0.position + |v1| - fd1.position
              + (if c0 == NEWLINE then 0 else 1) + (if c1 == NEWLINE then 0 else 1)
    {
      c0, eof0 := Column(fd0, c0, eof0, row, col);
      c1, eof1 := Column(fd1, c1, eof1, row, col);
      if c0 == NEWLINE && c1 == NEWLINE {
        RowAddsBeyond(Lines(v0), Lines(v1), row, col);
        RowEnds(v0, row, col + 1, fd0.position, eof0);
        RowEnds(v1, row, col + 1, fd1.position, eof1);
        break;
      }
      if (c0 != SPACE && c0 != NEWLINE) || (c1 != SPACE && c1 != NEWLINE) {
        var onChar, offChar := if c0 == NEWLINE then SPACE else c0, if c1 == NEWLINE then SPACE else c1;
        adds := adds + [Add(Location(row, col), onChar, offChar)];
      }
      col := col + 1;
    }
  }

  lemma RowEnds(v: seq<byte>, row: nat, col: nat, pos: nat, eof: bool)
    requires InRow(v, row, col, pos, NEWLINE, eof)
    ensures AtRow(v, row + 1, pos, if eof then NEWLINE else ZERO, eof)
  {
  }

  /** The row loop of add_frames. */
  method Merge(fd0: FS.Descriptor, fd1: FS.Descriptor) returns (adds: seq<Add>)
    requires fd0 != fd1 && fd0.Valid() && fd1.Valid() && fd0.position == 0 && fd1.position == 0
    modifies fd0, fd1
    ensures fd0.Valid() && fd1.Valid()
    ensures var l0, l1 := Lines(fd0.Contents()), Lines(fd1.Contents()); adds == FrameAdds(l0, l1, Max(|l0|, |l1|))
  {
    hide FS.WellFormed, FS.View, Lines, FrameAdds, AtRow;
    ghost var v0, v1 := fd0.Contents(), fd1.Contents();
    FramesStart(v0, v1);
    var c0: byte, c1: byte, eof0, eof1 := ZERO, ZERO, false, false;
    var row := 0;
    adds := [];
    while !eof0 || !eof1
      invariant 0 <= row && fd0.Valid() && fd1.Valid() && fd0.Contents() == v0 && fd1.Contents() == v1
      invariant AtRow(v0, row, fd0.position, c0, eof0) && AtRow(v1, row, fd1.position, c1, eof1)
      invariant adds == FrameAdds(Lines(v0), Lines(v1), row)
      decreases |v0| - fd0.position + |v1| - fd1.position + (if eof0 then 0 else 1) + (if eof1 then 0 else 1)
    {
      var more;
      eof0, eof1, more := Row(fd0, fd1, c0, c1, eof0, eof1, row);
      adds := adds + more;
      c0 := if eof0 then NEWLINE else ZERO;
      c1 := if eof1 then NEWLINE else ZERO;
      row := row + 1;
      FramesNext(v0, v1, row);
    }
    FramesEnd(v0, v1, row, fd0.position, fd1.position, c0, c1);
  }

  /** add_frames: it terminates, and requests exactly the adds of the two padded frames, in row-major
      order. A file that does not open halts the program before anything is added. */
  method AddFrames(file0: Option<FS.Descriptor>, file1: Option<FS.Descriptor>) returns (halted: bool, adds: seq<Add>)
    requires file0.Some? ==> file0.value.Valid() && file0.value.position == 0
    requires file1.Some? ==> file1.value.Valid() && file1.value.position == 0
    requires file0.Some? && file1.Some? ==> file0.value != file1.value
    modifies if file0.Some? then {file0.value} else {}, if file1.Some? then {file1.value} else {}
    ensures halted <==> file0.None? || file1.None?
    ensures halted ==> adds == []
    ensures !halted ==> file0.value.Valid() && file1.value.Valid()
    ensures !halted ==> var l0, l1 := Lines(file0.value.Contents()), Lines(file1.value.Contents());
      adds == FrameAdds(l0, l1, Max(|l0|, |l1|))
  {
    if file0.None? || file1.None? {
      return true, [];
    }
    adds := Merge(file0.value, file1.value);
    halted := false;
  }

  lemma FramesEnd(v0: seq<byte>, v1: seq<byte>, row: nat, pos0: nat, pos1: nat, c0: byte, c1: byte)
    requires AtRow(v0, row, pos0, c0, true) && AtRow(v1, row, pos1, c1, true)
    ensures var l0, l1 := Lines(v0), Lines(v1); FrameAdds(l0, l1, row) == FrameAdds(l0, l1, Max(|l0|, |l1|))
  {
    FrameAddsBeyond(Lines(v0), Lines(v1), row);
  }

  lemma FramesStart(v0: seq<byte>, v1: seq<byte>)
    ensures AtRow(v0, 0, 0, ZERO, false) && AtRow(v1, 0, 0, ZERO, false) && FrameAdds(Lines(v0), Lines(v1), 0) == []
  {
    assert v0[0..] == v0 && v1[0..] == v1;
  }

  lemma FramesNext(v0: seq<byte>, v1: seq<byte>, n: nat)
    requires n > 0
    ensures var l0, l1 := Lines(v0), Lines(v1);
      FrameAdds(l0, l1, n) == FrameAdds(l0, l1, n - 1) + RowAdds(l0, l1, n - 1, Width(l0, l1, n - 1))
  {
  }
}
