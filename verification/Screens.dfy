/** One 80x25 text screen: what printing a character means for it, and how that agrees with laying out
    the whole text at once (student-distrib/terminal.c). */
module Screens {
  import opened Bytes

  const COLS := 80
  const ROWS := 25
  const ATTRIB: byte := 0x7B
  const ROW_BYTES := 160 // a character and its attribute per cell
  const VIDEO_SIZE := 4000

  /** The bytes of video memory, the cursor, and the length at which each row was left. */
  datatype Screen = Screen(cells: seq<byte>, x: int, y: int, lengths: seq<int>)

  /** A row can be left up to four columns past the edge, by a tab. */
  ghost predicate Sized(s: Screen) {
    && |s.cells| == VIDEO_SIZE && |s.lengths| == ROWS
    && forall i :: 0 <= i < ROWS ==> 0 <= s.lengths[i] < COLS + 5
  }

  ghost predicate Ok(s: Screen) {
    Sized(s) && 0 <= s.x < COLS && 0 <= s.y < ROWS
  }

  // ---- Printing ----

  function RowBytes(row: seq<byte>): (b: seq<byte>)
    ensures |b| == ROW_BYTES
  {
    seq(ROW_BYTES, i requires 0 <= i < ROW_BYTES =>
      if i % 2 == 1 then ATTRIB else if i / 2 < |row| then row[i / 2] else SPACE)
  }

  function Blanks(n: nat): (b: seq<byte>)
    ensures |b| == ROW_BYTES * n
  {
    if n == 0 then [] else RowBytes([]) + Blanks(n - 1)
  }

  ghost function Cleared(s: Screen): Screen {
    s.(cells := Blanks(ROWS), x := 0, y := 0)
  }

  ghost function PutCell(s: Screen, c: byte): (r: Screen)
    requires Ok(s)
    ensures Ok(r)
  {
    var at := 2 * (COLS * s.y + s.x);
    s.(cells := s.cells[at := c][at + 1 := ATTRIB])
  }

  /** Leaving row y at column x for the next row, which may be one below the screen. */
  ghost function LeaveRow(s: Screen, x: int): Screen
    requires Ok(s)
  {
    s.(lengths := s.lengths[s.y := x], x := 0, y := s.y + 1)
  }

  /** Every row up by one, with a blank bottom row. */
  ghost function ScrollUp(s: Screen): Screen
    requires |s.cells| == VIDEO_SIZE && |s.lengths| == ROWS
  {
    Screen(s.cells[ROW_BYTES..] + RowBytes([]), 0, ROWS - 1, s.lengths[1..] + s.lengths[ROWS - 1..])
  }

  ghost function Settle(s: Screen): Screen
    requires |s.cells| == VIDEO_SIZE && |s.lengths| == ROWS
  {
    if s.y >= ROWS then ScrollUp(s) else s
  }

  predicate EndsRow(c: byte) {
    c == NEWLINE || c == RETURN
  }

  function Width(c: byte): nat {
    if c == TAB then 5 else 1
  }

  /** A character put on the screen, before the screen makes room for the next. */
  ghost function Drawn(s: Screen, c: byte): (r: Screen)
    requires Ok(s)
    ensures Sized(r) && 0 <= r.x < COLS && 0 <= r.y <= ROWS && (r.y == ROWS ==> r.x == 0)
  {
    if EndsRow(c) then LeaveRow(s, s.x)
    else
      var put, x := if c == TAB then s else PutCell(s, c), s.x + Width(c);
      if x >= COLS then LeaveRow(put, x) else put.(x := x)
  }

  ghost function PrintOn(s: Screen, c: byte): (r: Screen)
    requires Ok(s) && c != BACKSPACE
    ensures Ok(r)
  {
    Settle(Drawn(s, c))
  }

  ghost function PrintAll(s: Screen, text: seq<byte>): (r: Screen)
    requires Ok(s) && BACKSPACE !in text
    ensures Ok(r)
  {
    if text == [] then s else PrintOn(PrintAll(s, text[..|text| - 1]), text[|text| - 1])
  }

  // ---- Going back ----

  /** Removing the character before the cursor; from the start of a row, going to where the row above
      was left. */
  ghost function BackspaceOn(s: Screen): (r: Screen)
    requires Ok(s)
    ensures Sized(r)
  {
    if s.x > 0 then BlankCell(s.(x := s.x - 1))
    else
      var cut := s.(lengths := s.lengths[s.y := 0]);
      if s.y == 0 then cut else BlankCell(cut.(x := cut.lengths[s.y - 1], y := s.y - 1))
  }

  ghost function BlankCell(s: Screen): (r: Screen)
    requires Sized(s) && 0 <= s.x && 0 <= s.y && COLS * s.y + s.x < COLS * ROWS
    ensures Sized(r)
  {
    var at := 2 * (COLS * s.y + s.x);
    s.(cells := s.cells[at := SPACE][at + 1 := ATTRIB])
  }

  /** Backspace keeps the cursor on the screen exactly when it does not go up to a row that was left
      at the right edge. */
  lemma BackspaceKeepsOk(s: Screen)
    requires Ok(s)
    ensures Ok(BackspaceOn(s)) <==> s.x > 0 || s.y == 0 || s.lengths[s.y - 1] < COLS
  {
  }

  /** Characters of one cell each. */
  ghost predicate Plain(text: seq<byte>) {
    BACKSPACE !in text && TAB !in text && NEWLINE !in text && RETURN !in text
  }

  lemma {:induction false} PlainRow(s: Screen, text: seq<byte>)
    requires Ok(s) && Plain(text) && |text| <= COLS && s.x == 0 && s.y == 0
    ensures var r := PrintAll(s, text);
      if |text| < COLS then r.x == |text| && r.y == 0 else r.x == 0 && r.y == 1 && r.lengths[0] == COLS
    decreases |text|
  {
    if text != [] {
      var n := |text| - 1;
      PlainRow(s, text[..n]);
      assert text[n] in text;
    }
  }

  /** Eighty characters fill the first row of a cleared screen; a backspace then goes back up to column
      80, which is off the screen. */
  lemma BackspaceLeavesScreen(s: Screen, text: seq<byte>)
    requires Ok(s) && Plain(text) && |text| == COLS
    ensures Ok(Cleared(s)) && BackspaceOn(PrintAll(Cleared(s), text)).x == COLS
    ensures !Ok(BackspaceOn(PrintAll(Cleared(s), text)))
  {
    assert |Blanks(ROWS)| == VIDEO_SIZE;
    PlainRow(Cleared(s), text);
  }

  /** A backspace leaves a trace on the display unless the cursor is home on a row already cut: so one
      printed by a terminal that is not shown disturbs the terminal that is. */
  lemma BackspaceIdleExactly(s: Screen)
    requires Ok(s)
    ensures BackspaceOn(s) == s <==> s.x == 0 && s.y == 0 && s.lengths[0] == 0
  {
    if s.x == 0 && s.y == 0 {
      assert BackspaceOn(s).lengths[0] == 0;
    }
  }

  /** Backspace undoes an ordinary character that did not fill its row: the cursor is back and the
      cell is blank again. */
  lemma BackspaceUndoesPrint(s: Screen, c: byte)
    requires Ok(s) && !EndsRow(c) && c != TAB && c != BACKSPACE && s.x + 1 < COLS
    ensures BackspaceOn(PrintOn(s, c)) == BlankCell(s)
  {
  }

  /** Where the cursor goes: a line end starts the next row, a tab takes five columns, anything else one;
      a full row is left at once, and the bottom row scrolls. */
  lemma PrintMoves(s: Screen, c: byte)
    requires Ok(s) && c != 8
    ensures var r, x := PrintOn(s, c), s.x + if c == 9 then 5 else 1;
      if c == 10 || c == 13 || x >= 80 then r.x == 0 && r.y == if s.y < 24 then s.y + 1 else 24
      else r.x == x && r.y == s.y
  {
    hide RowBytes;
  }

  /** A backspace takes back a line end: the cursor is where it was, one row further up if the screen has
      scrolled. */
  lemma BackspaceUndoesLineEnd(s: Screen, c: byte)
    requires Ok(s) && (c == 10 || c == 13)
    ensures var r := BackspaceOn(PrintOn(s, c));
      r.x == s.x && r.y == if s.y < 24 then s.y else 23
  {
    hide RowBytes;
  }

  // ---- The layout of a whole text ----

  /** The cells a character takes in a row. */
  function Glyph(c: byte): seq<byte> {
    if EndsRow(c) then [] else if c == TAB then [SPACE, SPACE, SPACE, SPACE, SPACE] else [c]
  }

  /** How many characters the first row takes, counting the one that completes it; None if the text
      ends inside the row. `col` columns are already taken. */
  function RowEnd(text: seq<byte>, col: nat): (n: Option<nat>)
    ensures n.Some? ==> 0 < n.value <= |text|
  {
    if text == [] then None
    else if EndsRow(text[0]) || col + Width(text[0]) >= COLS then Some(1)
    else match RowEnd(text[1..], col + Width(text[0]))
         case None => None
         case Some(n) => Some(n + 1)
  }

  function Glyphs(text: seq<byte>): seq<byte> {
    if text == [] then [] else Glyph(text[0]) + Glyphs(text[1..])
  }

  /** One row holding this text, cut at the right edge. */
  function RowOf(text: seq<byte>): seq<byte> {
    Take(Glyphs(text), COLS)
  }

  /** The rows of a text wrapped at 80 columns: a full row wraps at once, so the last row is where the
      next character goes. */
  function Layout(text: seq<byte>): (rows: seq<seq<byte>>)
    ensures rows != []
    decreases |text|
  {
    match RowEnd(text, 0)
    case None => [RowOf(text)]
    case Some(n) => [RowOf(text[..n])] + Layout(text[n..])
  }

  /** The rows a screen has room for. */
  function LastRows(rows: seq<seq<byte>>): (r: seq<seq<byte>>)
    ensures |r| <= ROWS && (rows != [] ==> r != [])
  {
    if |rows| <= ROWS then rows else rows[|rows| - ROWS..]
  }

  /** What one more character does to the rows. */
  function Extend(rows: seq<seq<byte>>, c: byte): (r: seq<seq<byte>>)
    requires rows != []
    ensures r != []
  {
    var n := |rows| - 1;
    var row := Take(rows[n] + Glyph(c), COLS);
    if EndsRow(c) then rows + [[]]
    else if |rows[n]| + Width(c) >= COLS then rows[n := row] + [[]]
    else rows[n := row]
  }

  lemma {:induction false} GlyphsAppend(text: seq<byte>, c: byte)
    ensures Glyphs(text + [c]) == Glyphs(text) + Glyph(c)
  {
    if text != [] {
      assert (text + [c])[1..] == text[1..] + [c];
      GlyphsAppend(text[1..], c);
    }
  }

  /** A text that ends inside its row fills it up to its width. */
  lemma {:induction false} OpenRow(text: seq<byte>, col: nat)
    requires RowEnd(text, col).None? && col < COLS
    ensures col + |Glyphs(text)| < COLS
  {
    if text != [] {
      OpenRow(text[1..], col + Width(text[0]));
    }
  }

  lemma {:induction false} RowEndAppend(text: seq<byte>, c: byte, col: nat)
    requires col < COLS
    ensures RowEnd(text, col).Some? ==> RowEnd(text + [c], col) == RowEnd(text, col)
    ensures RowEnd(text, col).None? ==>
      RowEnd(text + [c], col)
      == if EndsRow(c) || col + |Glyphs(text)| + Width(c) >= COLS then Some(|text| + 1) else None
  {
    if text == [] {
      assert (text + [c])[1..] == [];
    } else {
      assert (text + [c])[1..] == text[1..] + [c];
      if !EndsRow(text[0]) && col + Width(text[0]) < COLS {
        RowEndAppend(text[1..], c, col + Width(text[0]));
      }
    }
  }

  /** Laying out a text grown by one character only touches its last row. */
  lemma {:induction false} LayoutAppend(text: seq<byte>, c: byte)
    ensures Layout(text + [c]) == Extend(Layout(text), c)
    decreases |text|
  {
    var more := text + [c];
    RowEndAppend(text, c, 0);
    match RowEnd(text, 0)
    case None =>
      OpenRow(text, 0);
      GlyphsAppend(text, c);
      if RowEnd(more, 0).Some? {
        assert more[..|text| + 1] == more && more[|text| + 1..] == [];
        assert RowOf([]) == [] && RowOf(text) == Glyphs(text);
        assert Layout([]) == [RowOf([])];
        assert EndsRow(c) ==> Glyphs(text) + Glyph(c) == Glyphs(text);
        assert Layout(more) == [RowOf(more)] + [[]];
      }
    case Some(n) =>
      assert more[..n] == text[..n] && more[n..] == text[n..] + [c];
      LayoutAppend(text[n..], c);
      var first, rest := [RowOf(text[..n])], Layout(text[n..]);
      ExtendSuffix(first, rest, c);
  }

  /** The layout of a text, character by character: a line end and a full row start a new row; a tab puts
      up to five spaces in its row, anything else is put there as it is. */
  lemma LayoutGrows(text: seq<byte>, c: byte)
    ensures Layout([]) == [[]] && Layout(text) != []
    ensures var rows := Layout(text); var n := |rows| - 1; var row := rows[n];
      && |row| < 80
      && Layout(text + [c]) ==
         if c == 10 || c == 13 then rows + [[]]
         else if c == 9 && |row| < 75 then rows[n := row + [32, 32, 32, 32, 32]]
         else if c == 9 then rows[n := (row + [32, 32, 32, 32, 32])[..80]] + [[]]
         else if |row| < 79 then rows[n := row + [c]]
         else rows[n := row + [c]] + [[]]
  {
    LayoutAppend(text, c);
    LayoutRowsFit(text);
    LayoutNothing();
    hide Layout;
    var row := Layout(text)[|Layout(text)| - 1];
    assert c == 9 && |row| == 75 ==> (row + Glyph(c))[..80] == row + Glyph(c);
    assert !EndsRow(c) && c != 9 ==> Take(row + Glyph(c), COLS) == row + [c];
  }

  lemma LastRowsAre(rows: seq<seq<byte>>)
    ensures var r := LastRows(rows);
      |r| == (if |rows| <= 25 then |rows| else 25) && r == rows[|rows| - |r|..]
  {
  }

  lemma LayoutNothing()
    ensures Layout([]) == [[]]
  {
    assert RowOf([]) == [];
  }

  // ---- The screen shows the layout ----

  function Render(rows: seq<seq<byte>>): (b: seq<byte>)
    ensures |b| == ROW_BYTES * |rows|
  {
    if rows == [] then [] else Render(rows[..|rows| - 1]) + RowBytes(rows[|rows| - 1])
  }

  /** The screen shows these rows, blank-padded, and the cursor is in the last of them. */
  ghost predicate Pictures(s: Screen, rows: seq<seq<byte>>) {
    && Ok(s) && 0 < |rows| <= ROWS && s.y == |rows| - 1
    && s.cells == Render(rows) + Blanks(ROWS - |rows|)
  }

  /** The screen shows these rows, blank-padded, with the cursor at the end of the last one. */
  ghost predicate Shows(s: Screen, rows: seq<seq<byte>>) {
    Pictures(s, rows) && s.x == |rows[|rows| - 1]|
  }

  lemma {:induction false} RenderDropFirst(rows: seq<seq<byte>>)
    requires rows != []
    ensures Render(rows)[ROW_BYTES..] == Render(rows[1..])
  {
    var n := |rows| - 1;
    if n > 0 {
      RenderDropFirst(rows[..n]);
      assert rows[..n][1..] == rows[1..][..n - 1];
      assert rows[1..][n - 1] == rows[n];
    }
  }

  lemma RenderAppend(rows: seq<seq<byte>>, row: seq<byte>)
    ensures Render(rows + [row]) == Render(rows) + RowBytes(row)
  {
    assert (rows + [row])[..|rows|] == rows;
  }

  /** Moving to a new row on a screen that shows `rows`. */
  lemma NewRowShows(s: Screen, rows: seq<seq<byte>>, x: int)
    requires Pictures(s, rows) && 0 <= x < COLS + 5
    ensures Shows(Settle(LeaveRow(s, x)), LastRows(rows + [[]]))
  {
    RenderAppend(rows, []);
    if |rows| < ROWS {
      assert RowBytes([]) + Blanks(ROWS - |rows| - 1) == Blanks(ROWS - |rows|);
      assert Render(rows) + RowBytes([]) + Blanks(ROWS - |rows| - 1) == Render(rows) + Blanks(ROWS - |rows|);
    } else {
      RenderDropFirst(rows);
      RenderAppend(rows[1..], []);
      assert (rows + [[]])[1..] == rows[1..] + [[]];
      assert s.cells == Render(rows);
    }
  }

  /** Writing a character where the last row ends makes it the row's next character. */
  lemma PutCellRow(row: seq<byte>, c: byte)
    requires |row| < COLS
    ensures RowBytes(row)[2 * |row| := c][2 * |row| + 1 := ATTRIB] == RowBytes(row + [c])
  {
  }

  /** Trailing spaces in a row cannot be seen. */
  lemma SpacesUnseen(row: seq<byte>, spaces: seq<byte>)
    requires |row| <= COLS && forall i :: 0 <= i < |spaces| ==> spaces[i] == SPACE
    ensures RowBytes(Take(row + spaces, COLS)) == RowBytes(row)
  {
  }

  lemma UpdateMiddle(before: seq<byte>, mid: seq<byte>, after: seq<byte>, at: nat, b: byte)
    requires at < |mid|
    ensures (before + mid + after)[|before| + at := b] == before + mid[at := b] + after
  {
  }

  lemma PutRow(before: seq<byte>, row: seq<byte>, after: seq<byte>, c: byte)
    requires |row| < COLS
    ensures var at := |before| + 2 * |row|;
      (before + RowBytes(row) + after)[at := c][at + 1 := ATTRIB] == before + RowBytes(row + [c]) + after
  {
    hide RowBytes;
    PutCellRow(row, c);
    UpdateMiddle(before, RowBytes(row), after, 2 * |row|, c);
    UpdateMiddle(before, RowBytes(row)[2 * |row| := c], after, 2 * |row| + 1, ATTRIB);
  }

  lemma RenderLast(rows: seq<seq<byte>>, row: seq<byte>)
    requires rows != []
    ensures var n := |rows| - 1; Render(rows[n := row]) == Render(rows[..n]) + RowBytes(row)
  {
    assert rows[|rows| - 1 := row][..|rows| - 1] == rows[..|rows| - 1];
  }

  lemma PutCellShows(s: Screen, rows: seq<seq<byte>>, c: byte)
    requires Shows(s, rows)
    ensures var n := |rows| - 1;
      PutCell(s, c).cells == Render(rows[n := rows[n] + [c]]) + Blanks(ROWS - |rows|)
  {
    hide RowBytes, Blanks, Sized, Render;
    var n := |rows| - 1;
    var row, before, after := rows[n], Render(rows[..n]), Blanks(ROWS - |rows|);
    RenderLast(rows, row);
    assert rows[n := row] == rows;
    RenderLast(rows, row + [c]);
    var at := |before| + 2 * |row|;
    assert at == 2 * (COLS * s.y + s.x);
    assert s.cells == before + RowBytes(row) + after;
    PutRow(before, row, after, c);
    assert PutCell(s, c).cells == s.cells[at := c][at + 1 := ATTRIB];
  }

  lemma LastRowsExtend(rows: seq<seq<byte>>, c: byte)
    requires rows != []
    ensures LastRows(Extend(LastRows(rows), c)) == LastRows(Extend(rows, c))
  {
    if |rows| > ROWS {
      var k := |rows| - ROWS;
      assert rows == rows[..k] + rows[k..];
      ExtendSuffix(rows[..k], rows[k..], c);
      LastRowsSuffix(rows[..k], Extend(rows[k..], c));
    }
  }

  lemma ExtendSuffix(first: seq<seq<byte>>, rest: seq<seq<byte>>, c: byte)
    requires rest != []
    ensures Extend(first + rest, c) == first + Extend(rest, c)
  {
    assert (first + rest)[|first + rest| - 1] == rest[|rest| - 1];
  }

  lemma LastRowsSuffix(first: seq<seq<byte>>, rest: seq<seq<byte>>)
    requires |rest| >= ROWS
    ensures LastRows(first + rest) == LastRows(rest)
  {
  }

  lemma SameRow(rows: seq<seq<byte>>, row: seq<byte>)
    requires rows != [] && RowBytes(row) == RowBytes(rows[|rows| - 1])
    ensures Render(rows[|rows| - 1 := row]) == Render(rows)
  {
    hide RowBytes, Render;
    RenderLast(rows, rows[|rows| - 1]);
    assert rows[|rows| - 1 := rows[|rows| - 1]] == rows;
    RenderLast(rows, row);
  }

  lemma SpacesKeep(rows: seq<seq<byte>>, spaces: seq<byte>)
    requires rows != [] && |rows[|rows| - 1]| <= COLS && forall i :: 0 <= i < |spaces| ==> spaces[i] == SPACE
    ensures var n := |rows| - 1; Render(rows[n := Take(rows[n] + spaces, COLS)]) == Render(rows)
  {
    hide RowBytes, Render, Take;
    var n := |rows| - 1;
    SpacesUnseen(rows[n], spaces);
    SameRow(rows, Take(rows[n] + spaces, COLS));
  }

  /** A character that does not end its row, drawn at the end of the last row. */
  lemma PutShows(s: Screen, rows: seq<seq<byte>>, c: byte)
    requires Shows(s, rows) && !EndsRow(c)
    ensures var n := |rows| - 1;
      Pictures(if c == TAB then s else PutCell(s, c), rows[n := Take(rows[n] + Glyph(c), COLS)])
  {
    hide RowBytes, Blanks, Sized, Render;
    if c == TAB {
      SpacesKeep(rows, Glyph(c));
    } else {
      PutCellShows(s, rows, c);
      assert Take(rows[|rows| - 1] + Glyph(c), COLS) == rows[|rows| - 1] + [c];
    }
  }

  /** Printing one character extends the shown rows by it. */
  lemma PrintShows(s: Screen, rows: seq<seq<byte>>, c: byte)
    requires Shows(s, rows) && c != BACKSPACE
    ensures Shows(PrintOn(s, c), LastRows(Extend(rows, c)))
  {
    hide RowBytes, Blanks, Sized, Render;
    if EndsRow(c) {
      NewRowShows(s, rows, s.x);
    } else {
      var n, put := |rows| - 1, if c == TAB then s else PutCell(s, c);
      PutShows(s, rows, c);
      if s.x + Width(c) >= COLS {
        NewRowShows(put, rows[n := Take(rows[n] + Glyph(c), COLS)], s.x + Width(c));
      }
    }
  }

  lemma {:induction false} RenderAt(rows: seq<seq<byte>>, y: nat, k: nat)
    requires y < |rows| && k < ROW_BYTES
    ensures Render(rows)[ROW_BYTES * y + k] == RowBytes(rows[y])[k]
  {
    hide RowBytes;
    var n := |rows| - 1;
    if y < n {
      RenderAt(rows[..n], y, k);
    }
  }

  lemma {:induction false} BlanksAt(n: nat, y: nat, k: nat)
    requires y < n && k < ROW_BYTES
    ensures Blanks(n)[ROW_BYTES * y + k] == RowBytes([])[k]
  {
    hide RowBytes;
    if y > 0 {
      BlanksAt(n - 1, y - 1, k);
    }
  }

  lemma ByteShown(s: Screen, rows: seq<seq<byte>>, y: nat, k: nat)
    requires Shows(s, rows) && y < ROWS && k < ROW_BYTES
    ensures ROW_BYTES * y + k < |s.cells|
    ensures s.cells[ROW_BYTES * y + k] == RowBytes(if y < |rows| then rows[y] else [])[k]
  {
    hide RowBytes, Render, Blanks;
    if y < |rows| {
      RenderAt(rows, y, k);
    } else {
      BlanksAt(ROWS - |rows|, y - |rows|, k);
    }
  }

  /** What a screen that shows some rows looks like, cell by cell: a character and its attribute, with
      spaces after each row and below the last. */
  lemma CellShown(s: Screen, rows: seq<seq<byte>>, y: nat, x: nat)
    requires Shows(s, rows) && y < 25 && x < 80
    ensures |s.cells| == 4000 && 0 < |rows| <= 25 && s.y == |rows| - 1 && s.x == |rows[|rows| - 1]|
    ensures s.cells[2 * (80 * y + x)] == if y < |rows| && x < |rows[y]| then rows[y][x] else 32
    ensures s.cells[2 * (80 * y + x) + 1] == 0x7B
  {
    hide Render, Blanks;
    ByteShown(s, rows, y, 2 * x);
    ByteShown(s, rows, y, 2 * x + 1);
    assert ROW_BYTES * y + 2 * x == 2 * (80 * y + x);
  }

  /** A backspace takes an ordinary character that did not fill its row off the screen again. */
  lemma BackspaceRestores(s: Screen, rows: seq<seq<byte>>, c: byte)
    requires Shows(s, rows) && c != 8 && c != 9 && c != 10 && c != 13 && s.x + 1 < 80
    ensures Shows(BackspaceOn(PrintOn(s, c)), rows)
  {
    hide RowBytes, Render, Blanks;
    BackspaceUndoesPrint(s, c);
    PutCellShows(s, rows, SPACE);
    var n := |rows| - 1;
    assert forall i :: 0 <= i < |[SPACE]| ==> [SPACE][i] == SPACE;
    SpacesKeep(rows, [SPACE]);
    assert Take(rows[n] + [SPACE], COLS) == rows[n] + [SPACE];
    assert BlankCell(s).cells == PutCell(s, SPACE).cells;
  }

  lemma ClearedShows(s: Screen)
    requires Ok(s)
    ensures Ok(Cleared(s)) && Shows(Cleared(s), LastRows(Layout([])))
  {
    assert RowOf([]) == [];
    RenderAppend([], []);
    assert [] + [[]] == [RowOf([])];
    assert RowBytes([]) + Blanks(ROWS - 1) == Blanks(ROWS);
  }

  /** After any text without backspaces, a cleared screen shows exactly the last 25 rows of the text's
      layout, blank-padded, with the cursor where the layout ends. */
  lemma {:induction false} ClearedScreenShowsLayout(s: Screen, text: seq<byte>)
    requires Ok(s) && BACKSPACE !in text
    ensures Ok(Cleared(s)) && Shows(PrintAll(Cleared(s), text), LastRows(Layout(text)))
    decreases |text|
  {
    hide Layout, LastRows, Shows, Extend, PrintOn;
    if text == [] {
      ClearedShows(s);
    } else {
      var n := |text| - 1;
      assert Ok(PrintAll(Cleared(s), text[..n]));
      ClearedScreenShowsLayout(s, text[..n]);
      PrintShows(PrintAll(Cleared(s), text[..n]), LastRows(Layout(text[..n])), text[n]);
      LastRowsExtend(Layout(text[..n]), text[n]);
      LayoutAppend(text[..n], text[n]);
      assert text[..n] + [text[n]] == text;
    }
  }

  /** Every row of a layout fits the screen, and all but the last were completed: the layout is a wrap
      at 80 columns. */
  lemma {:induction false} LayoutRowsFit(text: seq<byte>)
    ensures forall i :: 0 <= i < |Layout(text)| ==> |Layout(text)[i]| <= COLS
    ensures |Layout(text)[|Layout(text)| - 1]| < COLS
    decreases |text|
  {
    match RowEnd(text, 0)
    case None => OpenRow(text, 0);
    case Some(n) => LayoutRowsFit(text[n..]);
  }
}
