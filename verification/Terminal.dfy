/** Three terminals on one physical display: the shown terminal lives in video memory and the live
    cursor, the others in backing pages and saved cursors (student-distrib/terminal.c). */
module Terminal {
  import opened Bytes
  import opened Screens
  import Memory

  // ---- Three independent screens ----

  datatype Display = Display(screens: seq<Screen>, shown: nat, process: nat)

  datatype Event =
    | Print(c: byte)
    | Erase // the keyboard handler's own backspace()
    | Clear
    | Show(terminal: int)
    | Schedule(terminal: int)

  ghost predicate DisplayOk(d: Display) {
    |d.screens| == 3 && d.shown < 3 && d.process < 3 && Ok(d.screens[0]) && Ok(d.screens[1]) && Ok(d.screens[2])
  }

  /** What the model follows: a backspace must leave the shown cursor on the screen, as a printed one
      always does when the running terminal is the one shown. */
  ghost predicate Tame(d: Display, e: Event)
    requires DisplayOk(d)
  {
    && (e.Schedule? ==> 0 <= e.terminal < 3)
    && (e == Print(BACKSPACE) ==> d.process == d.shown || Ok(BackspaceOn(d.screens[d.shown])))
    && (e.Erase? ==> Ok(BackspaceOn(d.screens[d.shown])))
  }

  /** A printed backspace erases on the shown screen, whatever runs; if that is what runs, its cursor is
      then put back. */
  ghost function Erased(s: Screen, live: bool): (r: Screen)
    requires Ok(s)
    ensures Sized(r)
  {
    if live then BackspaceOn(s).(x := s.x, y := s.y) else BackspaceOn(s)
  }

  ghost function Step(d: Display, e: Event): (r: Display)
    requires DisplayOk(d) && Tame(d, e)
    ensures DisplayOk(r)
  {
    match e
    case Print(c) =>
      if c == BACKSPACE then d.(screens := d.screens[d.shown := Erased(d.screens[d.shown], d.process == d.shown)])
      else d.(screens := d.screens[d.process := PrintOn(d.screens[d.process], c)])
    case Erase => d.(screens := d.screens[d.shown := BackspaceOn(d.screens[d.shown])])
    case Clear =>
      BlanksOk();
      d.(screens := d.screens[d.shown := Cleared(d.screens[d.shown])])
    case Show(t) => if 0 <= t <= 2 then d.(shown := t) else d
    case Schedule(t) => d.(process := t)
  }

  lemma BlanksOk()
    ensures |Blanks(ROWS)| == VIDEO_SIZE
  {
  }

  ghost predicate TameRun(d: Display, es: seq<Event>)
    requires DisplayOk(d)
    decreases |es|, 0
  {
    es == [] || (TameRun(d, es[..|es| - 1]) && Tame(Run(d, es[..|es| - 1]), es[|es| - 1]))
  }

  ghost function Run(d: Display, es: seq<Event>): (r: Display)
    requires DisplayOk(d) && TameRun(d, es)
    ensures DisplayOk(r)
    decreases |es|, 1
  {
    if es == [] then d else Step(Run(d, es[..|es| - 1]), es[|es| - 1])
  }

  /** The characters that a run prints on terminal t. */
  ghost function PrintedOn(d: Display, es: seq<Event>, t: nat): (text: seq<byte>)
    requires DisplayOk(d) && TameRun(d, es)
    ensures BACKSPACE !in text
  {
    if es == [] then []
    else
      var before, e := es[..|es| - 1], es[|es| - 1];
      PrintedOn(d, before, t) + Printed(e, Run(d, before).process == t)
  }

  /** What an event prints on a terminal, if that is the one that runs. */
  function Printed(e: Event, runs: bool): (text: seq<byte>)
    ensures BACKSPACE !in text
  {
    if e.Print? && e.c != BACKSPACE && runs then [e.c] else []
  }

  /** Clearing the display, or erasing on it: what happens to the shown terminal, whatever runs. */
  predicate OnDisplay(e: Event) {
    e.Clear? || e.Erase? || e == Print(BACKSPACE)
  }

  /** The run never clears the display, nor erases on it, while it shows terminal t. */
  ghost predicate LeftAlone(d: Display, es: seq<Event>, t: nat)
    requires DisplayOk(d) && TameRun(d, es)
  {
    es == [] ||
    (LeftAlone(d, es[..|es| - 1], t)
     && (OnDisplay(es[|es| - 1]) ==> Run(d, es[..|es| - 1]).shown != t))
  }

  /** Each terminal's screen depends on nothing but the characters printed on it: not on what is
      shown, on what runs, or on the other terminals, until a clear or a backspace meets it on the
      display. */
  lemma {:induction false} ScreensAreIndependent(d: Display, es: seq<Event>, t: nat)
    requires DisplayOk(d) && TameRun(d, es) && t < 3 && LeftAlone(d, es, t)
    ensures Ok(d.screens[t]) && Run(d, es).screens[t] == PrintAll(d.screens[t], PrintedOn(d, es, t))
  {
    hide Run, TameRun, PrintedOn, LeftAlone, Step, Tame, PrintAll, PrintOn, OnDisplay;
    ScreenAt(d, t);
    if es == [] {
      NothingPrinted(d, t);
    } else {
      var before, e := es[..|es| - 1], es[|es| - 1];
      LastEvent(d, es, t);
      ScreensAreIndependent(d, before, t);
      StepScreen(Run(d, before), e, t);
      PrintAllMore(d.screens[t], PrintedOn(d, before, t), e, Run(d, before).process == t);
    }
  }

  lemma NothingPrinted(d: Display, t: nat)
    requires DisplayOk(d) && t < 3
    ensures Ok(d.screens[t]) && TameRun(d, []) && Run(d, []) == d && PrintedOn(d, [], t) == []
    ensures PrintAll(d.screens[t], []) == d.screens[t]
  {
    ScreenAt(d, t);
  }

  lemma LastEvent(d: Display, es: seq<Event>, t: nat)
    requires DisplayOk(d) && TameRun(d, es) && es != [] && LeftAlone(d, es, t)
    ensures var before, e := es[..|es| - 1], es[|es| - 1];
      && TameRun(d, before) && LeftAlone(d, before, t)
      && var s := Run(d, before);
      && Tame(s, e) && Run(d, es) == Step(s, e) && (OnDisplay(e) ==> s.shown != t)
      && PrintedOn(d, es, t) == PrintedOn(d, before, t) + Printed(e, s.process == t)
  {
    hide Step, Tame, DisplayOk;
  }

  lemma StepScreen(d: Display, e: Event, t: nat)
    requires DisplayOk(d) && Tame(d, e) && t < 3 && (OnDisplay(e) ==> d.shown != t)
    ensures Ok(d.screens[t])
    ensures Step(d, e).screens[t] ==
      if e.Print? && e.c != BACKSPACE && d.process == t then PrintOn(d.screens[t], e.c) else d.screens[t]
  {
    assert t == 0 || t == 1 || t == 2;
  }

  lemma ShowKeeps(d: Display, d': Display, t: int)
    requires DisplayOk(d) && d'.screens == d.screens && d'.process == d.process
    ensures Tame(d, Show(t))
    ensures 0 <= t <= 2 && d'.shown == t ==> DisplayOk(d') && d' == Step(d, Show(t))
    ensures !(0 <= t <= 2) ==> Step(d, Show(t)) == d
  {
  }

  lemma StepShown(d: Display, e: Event)
    requires DisplayOk(d) && Tame(d, e)
    ensures Step(d, e).shown == if e.Show? && 0 <= e.terminal <= 2 then e.terminal else d.shown
    ensures Step(d, e).process == if e.Schedule? then e.terminal else d.process
  {
  }

  /** The terminal shown is the one that the last display switch to a real terminal asked for (event i);
      without one, the one shown at the start. */
  lemma {:induction false} ShownIsLastAsked(d: Display, es: seq<Event>, i: nat)
    requires DisplayOk(d) && TameRun(d, es) && i <= |es|
    requires i < |es| ==> es[i].Show? && 0 <= es[i].terminal <= 2
    requires forall j :: 0 <= j < |es| && es[j].Show? && 0 <= es[j].terminal <= 2 ==> j <= i < |es|
    ensures Run(d, es).shown == if i < |es| then es[i].terminal else d.shown
    decreases |es|
  {
    hide Step, DisplayOk, Tame;
    if es != [] {
      var n := |es| - 1;
      StepShown(Run(d, es[..n]), es[n]);
      if i != n {
        ShownIsLastAsked(d, es[..n], if i < n then i else n);
      }
    }
  }

  /** The terminal that runs is the one scheduled last (event i); before that, the first one. */
  lemma {:induction false} RunsLastScheduled(d: Display, es: seq<Event>, i: nat)
    requires DisplayOk(d) && TameRun(d, es) && i <= |es|
    requires i < |es| ==> es[i].Schedule?
    requires forall j :: 0 <= j < |es| && es[j].Schedule? ==> j <= i < |es|
    ensures Run(d, es).process == if i < |es| then es[i].terminal else d.process
    decreases |es|
  {
    hide Step, DisplayOk, Tame;
    if es != [] {
      var n := |es| - 1;
      StepShown(Run(d, es[..n]), es[n]);
      if i != n {
        RunsLastScheduled(d, es[..n], if i < n then i else n);
      }
    }
  }

  lemma PrintAllMore(s: Screen, text: seq<byte>, e: Event, runs: bool)
    requires Ok(s) && BACKSPACE !in text
    ensures PrintAll(s, text + Printed(e, runs)) ==
      if e.Print? && e.c != BACKSPACE && runs then PrintOn(PrintAll(s, text), e.c) else PrintAll(s, text)
  {
    if Printed(e, runs) == [] {
      assert text + [] == text;
    } else {
      assert (text + [e.c])[..|text|] == text;
    }
  }

  /** After a clear while it is shown, and any interleaving without another and without a backspace
      printed while it is shown, a terminal's screen is the last 25 rows of the layout of what was
      printed on it, wherever it was shown meanwhile. */
  lemma TerminalShowsItsText(d: Display, es: seq<Event>)
    requires DisplayOk(d)
    requires TameRun(Step(d, Clear), es) && LeftAlone(Step(d, Clear), es, d.shown)
    ensures var cleared := Step(d, Clear);
      Shows(Run(cleared, es).screens[d.shown], LastRows(Layout(PrintedOn(cleared, es, d.shown))))
  {
    var cleared := Step(d, Clear);
    assert Ok(d.screens[d.shown]);
    ScreensAreIndependent(cleared, es, d.shown);
    ClearedScreenShowsLayout(d.screens[d.shown], PrintedOn(cleared, es, d.shown));
  }

  /** A backspace printed by a hidden terminal meets the terminal that is shown, and not its own. It
      goes unnoticed exactly at home on a row already cut, and takes the shown cursor off the screen
      exactly when it goes up to a row that was left at the right edge. */
  lemma HiddenBackspace(d: Display)
    requires DisplayOk(d) && d.process != d.shown
    ensures Ok(d.screens[d.shown])
    ensures var s := d.screens[d.shown]; var after := Erased(s, d.process == d.shown);
      && after == BackspaceOn(s) && (after == s <==> s.x == 0 && s.y == 0 && s.lengths[0] == 0)
      && (Tame(d, Print(BACKSPACE)) <==> Ok(after))
      && (Ok(after) <==> s.x > 0 || s.y == 0 || s.lengths[s.y - 1] < COLS)
      && (Ok(after) ==> Step(d, Print(BACKSPACE)).screens == d.screens[d.shown := after])
  {
    hide BackspaceOn, Sized;
    assert d.shown == 0 || d.shown == 1 || d.shown == 2;
    BackspaceIdleExactly(d.screens[d.shown]);
    BackspaceKeepsOk(d.screens[d.shown]);
  }

  /** A backspace printed by the terminal that is shown blanks the cell before its cursor, and leaves the
      cursor where it was. */
  lemma LiveBackspace(d: Display)
    requires DisplayOk(d) && d.process == d.shown
    ensures Tame(d, Print(BACKSPACE)) && Ok(d.screens[d.shown])
    ensures var s, after := d.screens[d.shown], Step(d, Print(BACKSPACE)).screens[d.shown];
      && after.x == s.x && after.y == s.y
      && (s.x > 0 ==> var at := 2 * (80 * s.y + s.x - 1);
           after.cells == s.cells[at := 32][at + 1 := 0x7B] && after.lengths == s.lengths)
  {
    assert d.shown == 0 || d.shown == 1 || d.shown == 2;
  }

  /** Typing an ordinary character at the terminal that runs and is shown, and erasing it again, gives
      back its screen with that cell blank, unless the character filled its row. */
  lemma EraseUndoesPrint(d: Display, c: byte)
    requires DisplayOk(d) && d.process == d.shown && !EndsRow(c) && c != TAB && c != BACKSPACE
    requires d.screens[d.shown].x + 1 < COLS
    ensures Ok(d.screens[d.shown]) && Ok(BlankCell(d.screens[d.shown]))
    ensures TameRun(d, [Print(c), Erase])
    ensures Run(d, [Print(c), Erase]) == d.(screens := d.screens[d.shown := BlankCell(d.screens[d.shown])])
  {
    hide PrintOn, BackspaceOn, BlankCell, Sized;
    var s, es := d.screens[d.shown], [Print(c), Erase];
    ScreenAt(d, d.shown);
    BackspaceUndoesPrint(s, c);
    BlankCellOk(s);
    assert es[..1] == [Print(c)] && [Print(c)][..0] == [];
    RunNothing(d);
    assert Run(d, [Print(c)]) == Step(d, Print(c)) && Step(d, Print(c)).screens[d.shown] == PrintOn(s, c);
    assert Run(d, es) == Step(Step(d, Print(c)), Erase);
  }

  lemma BlankCellOk(s: Screen)
    requires Ok(s)
    ensures Ok(BlankCell(s))
  {
  }

  // ---- One display ----

  const PAGE := 4096

  /** now differs from was only in the screen at base. */
  ghost predicate OnlyScreen(was: seq<byte>, now: seq<byte>, base: nat) {
    |now| == |was| && forall k :: 0 <= k < |was| && !(base <= k < base + VIDEO_SIZE) ==> now[k] == was[k]
  }

  lemma OtherScreenSame(was: seq<byte>, now: seq<byte>, base: nat, other: nat)
    requires OnlyScreen(was, now, base) && other + VIDEO_SIZE <= |was|
    requires other + VIDEO_SIZE <= base || base + VIDEO_SIZE <= other
    ensures now[other..other + VIDEO_SIZE] == was[other..other + VIDEO_SIZE]
  {
  }

  lemma CellPut(was: seq<byte>, now: seq<byte>, base: nat, at: nat, c: byte)
    requires base + VIDEO_SIZE <= |was| && at + 1 < VIDEO_SIZE
    requires now == was[base + at := c][base + at + 1 := ATTRIB]
    ensures OnlyScreen(was, now, base)
    ensures now[base..base + VIDEO_SIZE] == was[base..base + VIDEO_SIZE][at := c][at + 1 := ATTRIB]
  {
  }

  lemma ScreenAt(d: Display, t: int)
    requires DisplayOk(d) && 0 <= t < 3
    ensures Ok(d.screens[t])
  {
  }

  /** A display that differs in one screen. */
  lemma ScreenPut(d: Display, d': Display, t: int, s: Screen)
    requires DisplayOk(d) && 0 <= t < 3 && Ok(s)
    requires |d'.screens| == 3 && d'.shown == d.shown && d'.process == d.process && d'.screens[t] == s
    requires (t != 0 ==> d'.screens[0] == d.screens[0]) && (t != 1 ==> d'.screens[1] == d.screens[1])
      && (t != 2 ==> d'.screens[2] == d.screens[2])
    ensures DisplayOk(d') && d' == d.(screens := d.screens[t := s])
  {
    assert d'.screens == d.screens[t := s];
  }

  ghost predicate AtStart(s: Screen) {
    s.x == s.y == 0 && s.lengths == seq(ROWS, _ => 0)
  }

  lemma StartOk(s: Screen)
    requires |s.cells| == VIDEO_SIZE && s.x == s.y == 0
    requires |s.lengths| == ROWS && forall i :: 0 <= i < ROWS ==> s.lengths[i] == 0
    ensures Ok(s) && AtStart(s)
  {
  }

  class Terminal {
    const vram: array<byte> // video memory, then one page a terminal
    var screenX: int
    var screenY: int
    var xPositions: array<int>
    var terminalXPositions: seq<array<int>>
    var cursorPositions: seq<(int, int)>
    var currentTerminal: int
    var processTerminal: int

    /** The pointers: three row-length arrays, of which the live one is the shown terminal's. */
    ghost predicate Wired()
      reads this
    {
      && vram.Length == 4 * PAGE
      && |terminalXPositions| == 3 && |cursorPositions| == 3
      && terminalXPositions[0] != terminalXPositions[1]
      && terminalXPositions[0] != terminalXPositions[2]
      && terminalXPositions[1] != terminalXPositions[2]
      && (forall t :: 0 <= t < 3 ==> terminalXPositions[t].Length == ROWS)
      && 0 <= currentTerminal < 3 && 0 <= processTerminal < 3
      && xPositions == terminalXPositions[currentTerminal]
    }

    /** Where terminal t's screen is kept. */
    ghost function Base(t: nat): nat
      reads this
    {
      if t == currentTerminal then 0 else (t + 1) * PAGE
    }

    ghost function ScreenOf(t: nat): Screen
      reads this, vram, terminalXPositions
      requires Wired() && t < 3
    {
      var cursor := if t == currentTerminal then (screenX, screenY) else cursorPositions[t];
      Screen(vram[Base(t)..Base(t) + VIDEO_SIZE], cursor.0, cursor.1, terminalXPositions[t][..])
    }

    /** The display as three screens. */
    ghost function Now(): Display
      reads this, vram, terminalXPositions
      requires Wired()
    {
      Display([ScreenOf(0), ScreenOf(1), ScreenOf(2)], currentTerminal, processTerminal)
    }

    ghost predicate Valid()
      reads this, vram, terminalXPositions
    {
      Wired() && DisplayOk(Now())
    }

    /** terminal_init, on static storage: cursors and row lengths are 0, video memory is as it was. */
    constructor (vram: array<byte>)
      requires vram.Length == 4 * PAGE
      ensures Valid() && this.vram == vram && vram[..] == old(vram[..])
      ensures fresh(terminalXPositions) && currentTerminal == processTerminal == 0
      ensures AtStart(ScreenOf(0)) && AtStart(ScreenOf(1)) && AtStart(ScreenOf(2))
    {
      hide Ok, AtStart;
      var x0 := new int[ROWS](_ => 0);
      var x1 := new int[ROWS](_ => 0);
      var x2 := new int[ROWS](_ => 0);
      assert forall i :: 0 <= i < ROWS ==> x0[i] == x1[i] == x2[i] == 0;
      this.vram := vram;
      screenX, screenY := 0, 0;
      xPositions, terminalXPositions := x0, [x0, x1, x2];
      currentTerminal, processTerminal := 0, 0;
      cursorPositions := [(0, 0), (0, 0), (0, 0)];
      new;
      StartOk(ScreenOf(0));
      StartOk(ScreenOf(1));
      StartOk(ScreenOf(2));
    }

    /** The screens of the terminals other than t. */
    ghost predicate OthersAre(t: nat, screens: seq<Screen>)
      reads this, vram, terminalXPositions
      requires Wired() && |screens| == 3
    {
      && (t != 0 ==> ScreenOf(0) == screens[0])
      && (t != 1 ==> ScreenOf(1) == screens[1])
      && (t != 2 ==> ScreenOf(2) == screens[2])
    }

    /** A change confined to terminal t's page, cursor and row lengths leaves the other screens alone. */
    twostate lemma OthersKept(t: nat)
      requires old(Wired()) && Wired() && t < 3
      requires currentTerminal == old(currentTerminal) && terminalXPositions == old(terminalXPositions)
      requires OnlyScreen(old(vram[..]), vram[..], Base(t))
      requires forall u :: 0 <= u < 3 && u != t ==> unchanged(terminalXPositions[u])
      requires forall u :: 0 <= u < 3 && u != t ==> cursorPositions[u] == old(cursorPositions[u])
      requires t != currentTerminal ==> screenX == old(screenX) && screenY == old(screenY)
      ensures OthersAre(t, old([ScreenOf(0), ScreenOf(1), ScreenOf(2)]))
    {
      hide OnlyScreen;
      forall u: nat | u < 3 && u != t ensures ScreenOf(u) == old(ScreenOf(u)) {
        var base := Base(u);
        OtherScreenSame(old(vram[..]), vram[..], Base(t), base);
        assert vram[base..base + VIDEO_SIZE] == vram[..][base..base + VIDEO_SIZE];
        assert old(vram[base..base + VIDEO_SIZE]) == old(vram[..])[base..base + VIDEO_SIZE];
        assert terminalXPositions[u][..] == old(terminalXPositions[u][..]);
      }
    }

    /** One row of scroll: its length and its bytes come from the row below. */
    method MoveRow(xPos: array<int>, vidmem: nat, i: nat)
      requires xPos.Length == ROWS && i + 1 < ROWS && vidmem + VIDEO_SIZE <= vram.Length
      modifies vram, xPos
      ensures xPos[..] == old(xPos[..])[i := old(xPos[i + 1])]
      ensures Memory.Moves(old(vram[..]), vram[..], vidmem + ROW_BYTES * i, vidmem + ROW_BYTES * (i + 1), ROW_BYTES)
    {
      hide Memory.Moves;
      xPos[i] := xPos[i + 1];
      Memory.MemMove(vram, vidmem + COLS * i * 2, vidmem + COLS * (i + 1) * 2, COLS * 2);
    }

    /** The row moves of scroll. */
    method ScrollRows(xPos: array<int>, vidmem: nat)
      requires xPos.Length == ROWS && vidmem + VIDEO_SIZE <= vram.Length
      modifies vram, xPos
      ensures xPos[..] == old(xPos[..])[1..] + old(xPos[..])[ROWS - 1..]
      ensures Scrolled(old(vram[..]), vram[..], vidmem, ROWS - 1)
    {
      hide Scrolled, Memory.Moves;
      ScrolledNone(vram[..], vidmem);
      ghost var was, lengths := vram[..], xPos[..];
      ghost var after := lengths[1..] + lengths[ROWS - 1..];
      ghost var mid, rows := was, lengths;
      assert rows == after[..0] + lengths[0..];
      for i := 0 to ROWS - 1
        invariant rows == xPos[..] && rows == after[..i] + lengths[i..]
        invariant mid == vram[..] && Scrolled(was, mid, vidmem, i)
      {
        ShiftMore(lengths, after, i);
        MoveRow(xPos, vidmem, i);
        ScrolledMore(was, mid, vram[..], vidmem, i);
        mid, rows := vram[..], xPos[..];
      }
      assert after[..ROWS - 1] + lengths[ROWS - 1..] == after;
    }

    /** The blank bottom row of scroll. */
    method BlankBottom(vidmem: nat)
      requires vidmem + VIDEO_SIZE <= vram.Length
      modifies vram
      ensures BottomBlank(old(vram[..]), vram[..], vidmem)
    {
      var r := COLS * (ROWS - 1);
      for i := 0 to COLS
        invariant forall k :: 0 <= k < vram.Length ==>
          vram[k] == if vidmem + 3840 <= k < vidmem + 3840 + 2 * i
                     then RowBytes([])[k - (vidmem + 3840)] else old(vram[k])
      {
        vram[vidmem + (r + i) * 2] := SPACE;
        vram[vidmem + (r + i) * 2 + 1] := ATTRIB;
      }
    }

    /** Every row up by one, and a blank bottom row. */
    method Scroll()
      requires Wired()
      modifies this`screenX, this`screenY, this`cursorPositions, vram, terminalXPositions[processTerminal]
      ensures Wired()
      ensures ScreenOf(processTerminal) == ScrollUp(old(ScreenOf(processTerminal)))
      ensures OthersAre(processTerminal, old([ScreenOf(0), ScreenOf(1), ScreenOf(2)]))
    {
      hide OnlyScreen, Scrolled, BottomBlank, RowBytes;
      var vidmem := if processTerminal == currentTerminal then 0 else (processTerminal + 1) * PAGE;
      ghost var was := vram[..];
      ScrollRows(terminalXPositions[processTerminal], vidmem);
      ghost var mid := vram[..];
      BlankBottom(vidmem);
      ScrolledAll(was, mid, vram[..], vidmem);
      if processTerminal == currentTerminal {
        screenX := 0;
        screenY := ROWS - 1;
      } else {
        cursorPositions := cursorPositions[processTerminal := (0, ROWS - 1)];
      }
      OthersKept(processTerminal);
      assert vram[vidmem..vidmem + VIDEO_SIZE] == vram[..][vidmem..vidmem + VIDEO_SIZE];
    }

    /** print_char on the page, cursor and row lengths it has picked. */
    method DrawAt(vidmem: nat, x: int, y: int, xPos: array<int>, c: byte) returns (sx: int, sy: int)
      requires vidmem + VIDEO_SIZE <= vram.Length && c != BACKSPACE
      requires Ok(Screen(vram[vidmem..vidmem + VIDEO_SIZE], x, y, xPos[..]))
      modifies vram, xPos
      ensures OnlyScreen(old(vram[..]), vram[..], vidmem)
      ensures Screen(vram[vidmem..vidmem + VIDEO_SIZE], sx, sy, xPos[..])
           == Drawn(old(Screen(vram[vidmem..vidmem + VIDEO_SIZE], x, y, xPos[..])), c)
    {
      hide RowBytes;
      sx, sy := x, y;
      ghost var was := vram[..];
      if c == NEWLINE || c == RETURN {
        xPos[sy] := sx;
        sx, sy := 0, sy + 1;
      } else {
        if c == TAB {
          sx := sx + 4;
        } else {
          vram[vidmem + (COLS * sy + sx) * 2] := c;
          vram[vidmem + (COLS * sy + sx) * 2 + 1] := ATTRIB;
          CellPut(was, vram[..], vidmem, 2 * (COLS * sy + sx), c);
        }
        sx := sx + 1;
        if sx >= COLS {
          xPos[sy] := sx;
          sx, sy := 0, sy + 1;
        }
      }
    }

    /** The part of print_char before it scrolls. */
    method Draw(c: byte)
      requires Valid() && c != BACKSPACE
      modifies this`screenX, this`screenY, this`cursorPositions, this`terminalXPositions, vram,
        terminalXPositions[processTerminal]
      ensures Wired() && terminalXPositions == old(terminalXPositions)
      ensures ScreenOf(processTerminal) == Drawn(old(ScreenOf(processTerminal)), c)
      ensures OthersAre(processTerminal, old([ScreenOf(0), ScreenOf(1), ScreenOf(2)]))
    {
      hide Drawn, Sized, OnlyScreen;
      ScreenAt(Now(), processTerminal);
      var vidmem, sx, sy, xPos;
      if processTerminal == currentTerminal || processTerminal < 0 {
        vidmem, sx, sy, xPos := 0, screenX, screenY, xPositions;
      } else {
        vidmem := (processTerminal + 1) * PAGE;
        sx, sy := cursorPositions[processTerminal].0, cursorPositions[processTerminal].1;
        xPos := terminalXPositions[processTerminal];
      }
      sx, sy := DrawAt(vidmem, sx, sy, xPos, c);
      if processTerminal == currentTerminal {
        screenX, screenY := sx, sy;
      } else {
        cursorPositions := cursorPositions[processTerminal := (sx, sy)];
        terminalXPositions := terminalXPositions[processTerminal := xPos];
      }
      OthersKept(processTerminal);
    }

    /** print_char, for any character but a backspace. */
    method PrintOrdinary(c: byte)
      requires Valid() && c != BACKSPACE
      modifies this`screenX, this`screenY, this`cursorPositions, this`terminalXPositions, vram,
        terminalXPositions[processTerminal]
      ensures Valid() && Now() == Step(old(Now()), Print(c))
      ensures terminalXPositions == old(terminalXPositions)
    {
      hide Drawn, Sized;
      ghost var d := Now();
      ScreenAt(d, processTerminal);
      Draw(c);
      var sy := if processTerminal == currentTerminal then screenY else cursorPositions[processTerminal].1;
      if sy >= ROWS {
        Scroll();
      }
      ScreenPut(d, Now(), processTerminal, PrintOn(d.screens[processTerminal], c));
    }

    /** backspace: always on the display, whatever runs. */
    method Backspace()
      requires Valid()
      modifies this`screenX, this`screenY, vram, xPositions
      ensures Wired() && (Tame(old(Now()), Erase) ==> Valid() && Now() == Step(old(Now()), Erase))
      ensures ScreenOf(currentTerminal) == BackspaceOn(old(ScreenOf(currentTerminal)))
      ensures OthersAre(currentTerminal, old([ScreenOf(0), ScreenOf(1), ScreenOf(2)]))
      ensures Valid() <==> old(screenX) > 0 || old(screenY) == 0 || old(xPositions[screenY - 1]) < COLS
    {
      hide BackspaceOn, Sized, OnlyScreen;
      ghost var d, s := Now(), ScreenOf(currentTerminal);
      ScreenAt(d, currentTerminal);
      BackspaceKeepsOk(s);
      screenX, screenY := EraseAt(screenX, screenY, xPositions);
      OthersKept(currentTerminal);
      assert ScreenOf(currentTerminal) == BackspaceOn(s);
      if Ok(BackspaceOn(s)) {
        ScreenPut(d, Now(), currentTerminal, BackspaceOn(s));
      }
    }

    /** backspace on the live cursor and row lengths. */
    method EraseAt(x: int, y: int, xPos: array<int>) returns (sx: int, sy: int)
      requires vram.Length == 4 * PAGE && Ok(Screen(vram[0..VIDEO_SIZE], x, y, xPos[..]))
      modifies vram, xPos
      ensures OnlyScreen(old(vram[..]), vram[..], 0)
      ensures Screen(vram[0..VIDEO_SIZE], sx, sy, xPos[..])
           == BackspaceOn(old(Screen(vram[0..VIDEO_SIZE], x, y, xPos[..])))
    {
      ghost var was := vram[..];
      sx, sy := x - 1, y;
      if sx < 0 {
        xPos[sy] := 0;
        sy := sy - 1;
        if sy < 0 {
          return 0, 0;
        }
        sx := xPos[sy];
      }
      vram[(COLS * sy + sx) * 2] := SPACE;
      vram[(COLS * sy + sx) * 2 + 1] := ATTRIB;
      CellPut(was, vram[..], 0, 2 * (COLS * sy + sx), SPACE);
    }

    /** print_char given a backspace: it erases on the display even when another terminal is running, and
        then the running terminal's cursor is put back where it was: on the display itself, if that is
        what runs. */
    method PrintBackspace()
      requires Valid()
      modifies this`screenX, this`screenY, this`cursorPositions, this`terminalXPositions, vram, xPositions
      ensures Wired() && terminalXPositions == old(terminalXPositions)
      ensures OthersAre(currentTerminal, old([ScreenOf(0), ScreenOf(1), ScreenOf(2)]))
      ensures ScreenOf(currentTerminal) == Erased(old(ScreenOf(currentTerminal)), processTerminal == currentTerminal)
    {
      hide BackspaceOn, DisplayOk, Sized, Tame, Step;
      var live := processTerminal == currentTerminal;
      ghost var cursors := cursorPositions;
      var sx, sy := screenX, screenY;
      if !live {
        sx, sy := cursorPositions[processTerminal].0, cursorPositions[processTerminal].1;
      }
      Backspace();
      if live {
        screenX, screenY := sx, sy;
      } else {
        cursorPositions := cursorPositions[processTerminal := (sx, sy)];
        terminalXPositions := terminalXPositions[processTerminal := terminalXPositions[processTerminal]];
        assert cursorPositions == cursors && terminalXPositions == old(terminalXPositions);
      }
    }

    /** print_char. A backspace erases on the screen shown; it keeps the state in order exactly when that
        leaves the cursor on the screen. */
    method PrintChar(c: byte)
      requires Valid()
      modifies this`screenX, this`screenY, this`cursorPositions, this`terminalXPositions, vram, xPositions,
        terminalXPositions[processTerminal]
      ensures Wired() && terminalXPositions == old(terminalXPositions)
      ensures Valid() <==> Tame(old(Now()), Print(c))
      ensures Valid() ==> Now() == Step(old(Now()), Print(c))
      ensures c == BACKSPACE ==> OthersAre(currentTerminal, old([ScreenOf(0), ScreenOf(1), ScreenOf(2)]))
      ensures c == BACKSPACE ==>
        ScreenOf(currentTerminal) == Erased(old(ScreenOf(currentTerminal)), processTerminal == currentTerminal)
    {
      if c == BACKSPACE {
        hide BackspaceOn, ScreenOf, Erased, Sized;
        ghost var d := Now();
        ScreenAt(d, currentTerminal);
        PrintBackspace();
        ErasedOk(d.screens[currentTerminal], processTerminal == currentTerminal);
        if Ok(Erased(d.screens[currentTerminal], processTerminal == currentTerminal)) {
          ScreenPut(d, Now(), currentTerminal, Erased(d.screens[currentTerminal], processTerminal == currentTerminal));
        }
      } else {
        hide BackspaceOn, ScreenOf, OthersAre, Step, DisplayOk, Now;
        PrintOrdinary(c);
      }
    }

    /** terminal_write: the characters are printed one by one; any descriptor but 1 is refused. */
    method TerminalWrite(fd: int, buf: seq<byte>, nbytes: int) returns (r: int)
      requires Valid() && nbytes <= |buf|
      requires fd == 1 ==> TameRun(Now(), Prints(buf[..Max(nbytes, 0)]))
      modifies this`screenX, this`screenY, this`cursorPositions, this`terminalXPositions, vram, xPositions,
        terminalXPositions[processTerminal]
      ensures Valid() && terminalXPositions == old(terminalXPositions)
      ensures fd != 1 ==> r == -1 && Now() == old(Now())
      ensures fd == 1 ==> r == Max(nbytes, 0) && Now() == Run(old(Now()), Prints(buf[..Max(nbytes, 0)]))
    {
      hide Run, TameRun, Step, DisplayOk, Terminal.ScreenOf;
      if fd != 1 { return -1; }
      ghost var d, n := Now(), Max(nbytes, 0);
      ghost var all := Prints(buf[..n]);
      RunNothing(d);
      NoPrints(all);
      hide *;
      r := 0;
      while r < nbytes
        invariant 0 <= r <= n == |all| && Valid() && terminalXPositions == old(terminalXPositions)
        invariant TameRun(d, all[..r]) && Now() == Run(d, all[..r])
      {
        RunMore(d, all, r);
        PrintChar(buf[r]);
        r := r + 1;
      }
    }

    /** The loop of clear_terminal. */
    method BlankDisplay()
      requires vram.Length == 4 * PAGE
      modifies vram
      ensures OnlyScreen(old(vram[..]), vram[..], 0) && vram[0..VIDEO_SIZE] == Blanks(ROWS)
    {
      for i := 0 to ROWS * COLS
        invariant forall k :: 0 <= k < vram.Length ==>
          vram[k] == if k < 2 * i then (if k % 2 == 1 then ATTRIB else SPACE) else old(vram[k])
      {
        vram[2 * i] := SPACE;
        vram[2 * i + 1] := ATTRIB;
      }
      BlanksAre(vram[0..VIDEO_SIZE]);
    }

    /** clear_terminal: blanks the display, whatever runs. */
    method ClearTerminal()
      requires Valid()
      modifies this`screenX, this`screenY, vram
      ensures Valid() && Now() == Step(old(Now()), Clear)
    {
      hide OnlyScreen, Blanks;
      ghost var d := Now();
      ScreenAt(d, currentTerminal);
      BlankDisplay();
      screenX := 0;
      screenY := 0;
      OthersKept(currentTerminal);
      BlanksOk();
      ScreenPut(d, Now(), currentTerminal, Cleared(d.screens[currentTerminal]));
    }

    /** switch_terminal: shows another terminal; no terminal's screen changes. */
    method SwitchTerminal(terminal: int)
      requires Valid()
      modifies this`screenX, this`screenY, this`cursorPositions, this`xPositions, this`currentTerminal, vram
      ensures Valid() && Now() == Step(old(Now()), Show(terminal))
      ensures terminalXPositions == old(terminalXPositions)
      ensures currentTerminal == if 0 <= terminal <= 2 then terminal else old(currentTerminal)
      ensures currentTerminal == old(currentTerminal) ==> vram[..] == old(vram[..])
      ensures currentTerminal != old(currentTerminal) ==>
        var saved, loaded := (old(currentTerminal) + 1) * PAGE, (terminal + 1) * PAGE;
        && vram[0..VIDEO_SIZE] == old(vram[loaded..loaded + VIDEO_SIZE])
        && vram[saved..saved + VIDEO_SIZE] == old(vram[0..VIDEO_SIZE])
        && (screenX, screenY) == old(cursorPositions)[terminal]
    {
      hide DisplayOk, Step, Tame, Swapped, ScreenOf, OthersAre;
      ghost var d := Now();
      ShowKeeps(d, d, terminal);
      if terminal < 0 || terminal > 2 { return; }
      if terminal == currentTerminal { return; }
      cursorPositions := cursorPositions[currentTerminal := (screenX, screenY)];
      screenX, screenY := cursorPositions[terminal].0, cursorPositions[terminal].1;
      xPositions := terminalXPositions[terminal];
      var currentVidPage, nextVidPage := (currentTerminal + 1) * PAGE, (terminal + 1) * PAGE;
      CopyScreens(currentVidPage, nextVidPage);
      currentTerminal := terminal;
      SwitchedKeepsAll();
      assert Now().screens == d.screens;
      ShowKeeps(d, Now(), terminal);
    }

    twostate lemma SwitchedKeepsAll()
      requires old(Wired()) && Wired() && currentTerminal != old(currentTerminal)
      requires terminalXPositions == old(terminalXPositions)
      requires forall u :: 0 <= u < 3 ==> unchanged(terminalXPositions[u])
      requires cursorPositions == old(cursorPositions[currentTerminal := (screenX, screenY)])
      requires (screenX, screenY) == old(cursorPositions)[currentTerminal]
      requires Swapped(old(vram[..]), vram[..], (old(currentTerminal) + 1) * PAGE, (currentTerminal + 1) * PAGE)
      ensures ScreenOf(0) == old(ScreenOf(0)) && ScreenOf(1) == old(ScreenOf(1)) && ScreenOf(2) == old(ScreenOf(2))
    {
      hide Swapped, ScreenOf;
      SwitchedKeeps(0);
      SwitchedKeeps(1);
      SwitchedKeeps(2);
    }

    /** The two copies of switch_terminal. */
    method CopyScreens(save: nat, load: nat)
      requires vram.Length == 4 * PAGE && save % PAGE == load % PAGE == 0 && save != load
      requires PAGE <= save < 4 * PAGE && PAGE <= load < 4 * PAGE
      modifies vram
      ensures Swapped(old(vram[..]), vram[..], save, load)
      ensures vram[0..VIDEO_SIZE] == old(vram[load..load + VIDEO_SIZE])
      ensures vram[save..save + VIDEO_SIZE] == old(vram[0..VIDEO_SIZE])
    {
      ghost var was := vram[..];
      Memory.MemCpy(vram, save, 0, VIDEO_SIZE);
      ghost var mid := vram[..];
      Memory.MemCpy(vram, 0, load, VIDEO_SIZE);
      SwapDone(was, mid, vram[..], save, load);
    }

    /** Saving the live cursor and screen and loading another terminal's leaves each screen as it was,
        in its new place. */
    twostate lemma SwitchedKeeps(u: nat)
      requires old(Wired()) && Wired() && u < 3 && currentTerminal != old(currentTerminal)
      requires terminalXPositions == old(terminalXPositions) && unchanged(terminalXPositions[u])
      requires cursorPositions == old(cursorPositions[currentTerminal := (screenX, screenY)])
      requires (screenX, screenY) == old(cursorPositions)[currentTerminal]
      requires Swapped(old(vram[..]), vram[..], (old(currentTerminal) + 1) * PAGE, (currentTerminal + 1) * PAGE)
      ensures ScreenOf(u) == old(ScreenOf(u))
    {
      var was, now, to, from := old(vram[..]), vram[..], Base(u), old(Base(u));
      assert now[to..to + VIDEO_SIZE] == was[from..from + VIDEO_SIZE] by {
        if u != currentTerminal && u != old(currentTerminal) {
          SwappedElsewhere(was, now, (old(currentTerminal) + 1) * PAGE, (currentTerminal + 1) * PAGE, u);
        }
      }
      assert vram[to..to + VIDEO_SIZE] == now[to..to + VIDEO_SIZE];
      assert old(vram[from..from + VIDEO_SIZE]) == was[from..from + VIDEO_SIZE];
      assert terminalXPositions[u][..] == old(terminalXPositions[u][..]);
    }

    /** The scheduler, or the keyboard handler, changes whose output comes next. */
    method SetProcessTerminal(terminal: int)
      requires Valid() && 0 <= terminal < 3
      modifies this`processTerminal
      ensures Valid() && Now() == Step(old(Now()), Schedule(terminal)) && processTerminal == terminal
    {
      processTerminal := terminal;
    }
  }

  /** Any interleaving of printing, erasing, clearing, display switches and scheduling is a run of three
      independent screens. */
  method Drive(terminal: Terminal, events: seq<Event>)
    requires terminal.Valid() && TameRun(terminal.Now(), events)
    modifies terminal, terminal.vram, terminal.terminalXPositions
    ensures terminal.Valid() && terminal.Now() == Run(old(terminal.Now()), events)
  {
    hide Step, DisplayOk, Tame, Terminal.ScreenOf;
    ghost var d := terminal.Now();
    ghost var rows := terminal.terminalXPositions;
    for n := 0 to |events|
      invariant terminal.Valid() && TameRun(d, events[..n]) && terminal.terminalXPositions == rows
      invariant terminal.Now() == Run(d, events[..n])
    {
      RunMore(d, events, n);
      TameMeans(terminal.Now(), events[n]);
      match events[n]
      case Print(c) => terminal.PrintChar(c);
      case Erase => terminal.Backspace();
      case Clear => terminal.ClearTerminal();
      case Show(t) => terminal.SwitchTerminal(t);
      case Schedule(t) => terminal.SetProcessTerminal(t);
    }
    assert events[..|events|] == events;
  }

  /** Video memory has been saved to one page and loaded from another. */
  ghost predicate Swapped(was: seq<byte>, now: seq<byte>, save: nat, load: nat) {
    && |was| == |now| == 4 * PAGE && save <= 3 * PAGE && load <= 3 * PAGE
    && now[0..VIDEO_SIZE] == was[load..load + VIDEO_SIZE]
    && now[save..save + VIDEO_SIZE] == was[0..VIDEO_SIZE]
    && forall k :: PAGE <= k < 4 * PAGE && !(save <= k < save + VIDEO_SIZE) ==> now[k] == was[k]
  }

  lemma SwappedElsewhere(was: seq<byte>, now: seq<byte>, save: nat, load: nat, u: nat)
    requires Swapped(was, now, save, load) && u < 3 && save % PAGE == 0 && (u + 1) * PAGE != save
    ensures var p := (u + 1) * PAGE; now[p..p + VIDEO_SIZE] == was[p..p + VIDEO_SIZE]
  {
    var p := (u + 1) * PAGE;
    assert save + VIDEO_SIZE <= p || p + VIDEO_SIZE <= save;
  }

  lemma MovedScreen(was: seq<byte>, now: seq<byte>, dst: nat, src: nat)
    requires Memory.Moves(was, now, dst, src, VIDEO_SIZE)
    ensures OnlyScreen(was, now, dst) && now[dst..dst + VIDEO_SIZE] == was[src..src + VIDEO_SIZE]
  {
  }

  lemma SwapDone(was: seq<byte>, mid: seq<byte>, now: seq<byte>, save: nat, load: nat)
    requires |was| == 4 * PAGE && save % PAGE == load % PAGE == 0 && save != load
    requires PAGE <= save < 4 * PAGE && PAGE <= load < 4 * PAGE
    requires Memory.Moves(was, mid, save, 0, VIDEO_SIZE) && Memory.Moves(mid, now, 0, load, VIDEO_SIZE)
    ensures Swapped(was, now, save, load)
  {
    hide Memory.Moves;
    MovedScreen(was, mid, save, 0);
    MovedScreen(mid, now, 0, load);
    assert save + VIDEO_SIZE <= load || load + VIDEO_SIZE <= save;
    OtherScreenSame(was, mid, save, load);
    OtherScreenSame(mid, now, 0, save);
  }

  lemma BlanksAre(cells: seq<byte>)
    requires |cells| == VIDEO_SIZE
    requires forall k :: 0 <= k < VIDEO_SIZE ==> cells[k] == if k % 2 == 1 then ATTRIB else SPACE
    ensures cells == Blanks(ROWS)
  {
    BlankBytes(ROWS);
    assert |Blanks(ROWS)| == VIDEO_SIZE;
  }

  lemma {:induction false} BlankBytes(n: nat)
    ensures forall k :: 0 <= k < ROW_BYTES * n ==> Blanks(n)[k] == if k % 2 == 1 then ATTRIB else SPACE
  {
    if n > 0 {
      BlankBytes(n - 1);
      forall k | 0 <= k < ROW_BYTES * n ensures Blanks(n)[k] == if k % 2 == 1 then ATTRIB else SPACE {
        if k >= ROW_BYTES {
          assert Blanks(n)[k] == Blanks(n - 1)[k - ROW_BYTES];
        }
      }
    }
  }

  // ---- A whole write ----

  function Prints(text: seq<byte>): (es: seq<Event>)
    ensures |es| == |text| && forall i :: 0 <= i < |text| ==> es[i] == Print(text[i])
  {
    seq(|text|, i requires 0 <= i < |text| => Print(text[i]))
  }

  lemma {:induction false} TamePrefix(d: Display, es: seq<Event>, n: nat)
    requires DisplayOk(d) && TameRun(d, es) && n <= |es|
    ensures TameRun(d, es[..n])
    decreases |es|
  {
    if n == |es| {
      assert es[..n] == es;
    } else {
      TamePrefix(d, es[..|es| - 1], n);
      assert es[..|es| - 1][..n] == es[..n];
    }
  }

  lemma TameMeans(d: Display, e: Event)
    requires DisplayOk(d) && Tame(d, e)
    ensures e.Schedule? ==> 0 <= e.terminal < 3
  {
  }

  lemma RunMore(d: Display, es: seq<Event>, n: nat)
    requires DisplayOk(d) && n < |es| && TameRun(d, es)
    ensures TameRun(d, es[..n]) && TameRun(d, es[..n + 1]) && Tame(Run(d, es[..n]), es[n])
    ensures Run(d, es[..n + 1]) == Step(Run(d, es[..n]), es[n])
  {
    TamePrefix(d, es, n + 1);
    assert es[..n + 1][..n] == es[..n];
  }

  lemma NoPrints(es: seq<Event>)
    ensures es[..0] == [] && es[..|es|] == es
  {
  }

  lemma RunNothing(d: Display)
    requires DisplayOk(d)
    ensures TameRun(d, []) && Run(d, []) == d
  {
  }

  /** Without backspaces, a write goes to the running terminal's screen and nowhere else. */
  lemma {:induction false} WriteIsPrinted(d: Display, text: seq<byte>)
    requires DisplayOk(d) && BACKSPACE !in text
    ensures Ok(d.screens[d.process]) && TameRun(d, Prints(text))
    ensures Run(d, Prints(text)) == d.(screens := d.screens[d.process := PrintAll(d.screens[d.process], text)])
    decreases |text|
  {
    if text != [] {
      var n, s := |text| - 1, d.screens[d.process];
      WriteIsPrinted(d, text[..n]);
      assert Prints(text)[..n] == Prints(text[..n]) && Prints(text)[n] == Print(text[n]);
      var before, after := PrintAll(s, text[..n]), PrintAll(s, text);
      assert d.screens[d.process := before][d.process := after] == d.screens[d.process := after];
    }
  }

  lemma ErasedOk(s: Screen, live: bool)
    requires Ok(s)
    ensures Ok(Erased(s, live)) <==> live || Ok(BackspaceOn(s))
  {
  }

  /** The first i rows of the screen at base have moved up by one. */
  ghost predicate Scrolled(was: seq<byte>, now: seq<byte>, base: nat, i: nat) {
    && i < ROWS && base + VIDEO_SIZE <= |was|
    && now == was[..base] + was[base + ROW_BYTES..base + ROW_BYTES * (i + 1)] + was[base + ROW_BYTES * i..]
  }

  lemma ShiftMore(lengths: seq<int>, after: seq<int>, i: nat)
    requires |lengths| == |after| && i + 1 < |after| && after[i] == lengths[i + 1]
    ensures var now := after[..i] + lengths[i..];
      now[i := now[i + 1]] == after[..i + 1] + lengths[i + 1..]
  {
  }

  lemma ScrolledNone(was: seq<byte>, base: nat)
    requires base + VIDEO_SIZE <= |was|
    ensures Scrolled(was, was, base, 0)
  {
  }

  lemma ScrolledMore(was: seq<byte>, mid: seq<byte>, now: seq<byte>, base: nat, i: nat)
    requires Scrolled(was, mid, base, i) && i + 1 < ROWS
    requires Memory.Moves(mid, now, base + ROW_BYTES * i, base + ROW_BYTES * (i + 1), ROW_BYTES)
    ensures Scrolled(was, now, base, i + 1)
  {
    var d := base + ROW_BYTES * i;
    assert mid[..d] == was[..base] + was[base + ROW_BYTES..d + ROW_BYTES];
    assert mid[d..] == was[d..];
    var next, last := d + ROW_BYTES, d + 2 * ROW_BYTES;
    assert mid[next..last] == mid[d..][ROW_BYTES..2 * ROW_BYTES] == was[next..last];
    assert mid[d + ROW_BYTES..] == mid[d..][ROW_BYTES..] == was[d + ROW_BYTES..];
    assert was[base + ROW_BYTES..next] + was[next..last] == was[base + ROW_BYTES..last];
  }

  /** Only the bottom row of the screen at base has changed, and it is blank. */
  ghost predicate BottomBlank(mid: seq<byte>, now: seq<byte>, base: nat) {
    && |now| == |mid|
    && forall k :: 0 <= k < |mid| ==>
         now[k] == if base + 3840 <= k < base + VIDEO_SIZE then RowBytes([])[k - (base + 3840)] else mid[k]
  }

  lemma ScrolledAll(was: seq<byte>, mid: seq<byte>, now: seq<byte>, base: nat)
    requires Scrolled(was, mid, base, ROWS - 1) && BottomBlank(mid, now, base)
    ensures OnlyScreen(was, now, base)
    ensures now[base..base + VIDEO_SIZE] == was[base..base + VIDEO_SIZE][ROW_BYTES..] + RowBytes([])
  {
  }
}
