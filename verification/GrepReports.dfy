/** What ece391grep reports: the matching lines of a file as they should be printed, the pieces its search
    sees, and when the two reports are the same (syscalls/ece391grep.c). */
module GrepReports {
  import opened Bytes
  import opened TextLines

  // ---- What a search reports ----

  /** Does the pattern occur in the line? */
  ghost predicate Contains(line: seq<byte>, pattern: seq<byte>) {
    exists i :: 0 <= i < |line| && OccursAt(line, pattern, i)
  }

  predicate OccursAt(line: seq<byte>, pattern: seq<byte>, i: nat) {
    i + |pattern| <= |line| && line[i..i + |pattern|] == pattern
  }

  /** The empty pattern matches nothing, since no byte of a line is its terminator. */
  ghost predicate Hits(line: seq<byte>, pattern: seq<byte>) {
    pattern != [] && Contains(line, pattern)
  }

  function Line(fname: seq<byte>, line: seq<byte>): seq<byte> {
    fname + [COLON] + line + [NEWLINE]
  }

  ghost function Printed(fname: seq<byte>, line: seq<byte>, pattern: seq<byte>): seq<byte> {
    if Hits(line, pattern) then Line(fname, line) else []
  }

  /** What is printed for these lines: each one that matches, once, in order. */
  ghost function Report(fname: seq<byte>, lines: seq<seq<byte>>, pattern: seq<byte>): seq<byte> {
    if lines == [] then []
    else Printed(fname, lines[0], pattern) + Report(fname, lines[1..], pattern)
  }

  lemma {:induction false} ReportAppend(fname: seq<byte>, a: seq<seq<byte>>, b: seq<seq<byte>>, pattern: seq<byte>)
    ensures Report(fname, a + b, pattern) == Report(fname, a, pattern) + Report(fname, b, pattern)
  {
    if a == [] {
      assert a + b == b;
    } else {
      assert (a + b)[0] == a[0] && (a + b)[1..] == a[1..] + b;
      ReportAppend(fname, a[1..], b, pattern);
    }
  }

  /** A report, line by line: each line that holds the pattern, if there is one, is printed after the file's
      name and a colon, with a newline; nothing else is. */
  lemma ReportGrows(fname: seq<byte>, lines: seq<seq<byte>>, line: seq<byte>, pattern: seq<byte>)
    ensures Report(fname, [], pattern) == []
    ensures pattern != [] && (exists before, after :: line == before + pattern + after) ==>
      Report(fname, lines + [line], pattern) == Report(fname, lines, pattern) + fname + [58] + line + [10]
    ensures !(pattern != [] && exists before, after :: line == before + pattern + after) ==>
      Report(fname, lines + [line], pattern) == Report(fname, lines, pattern)
  {
    HitsMeans(line, pattern);
    LineMeans(fname, line, pattern);
    hide *;
    var all := Report(fname, lines, pattern);
    ReportAppend(fname, lines, [line], pattern);
    assert all + [] == all && all + (fname + [58] + line + [10]) == all + fname + [58] + line + [10];
  }

  lemma LineMeans(fname: seq<byte>, line: seq<byte>, pattern: seq<byte>)
    ensures Report(fname, [], pattern) == []
    ensures Report(fname, [line], pattern) == if Hits(line, pattern) then fname + [58] + line + [10] else []
  {
    ReportCons(fname, line, [], pattern);
    assert [line] + [] == [line];
  }

  lemma HitsMeans(line: seq<byte>, pattern: seq<byte>)
    ensures Hits(line, pattern) <==> pattern != [] && exists before, after :: line == before + pattern + after
  {
    hide OccursAt;
    if pattern != [] && exists before, after :: line == before + pattern + after {
      var before, after :| line == before + pattern + after;
      OccursAround(before, pattern, after);
      assert OccursAt(line, pattern, |before|);
    }
    if Hits(line, pattern) {
      var i :| 0 <= i < |line| && OccursAt(line, pattern, i);
      OccursSplits(line, pattern, i);
    }
  }

  lemma OccursAround(before: seq<byte>, pattern: seq<byte>, after: seq<byte>)
    ensures OccursAt(before + pattern + after, pattern, |before|)
  {
  }

  lemma OccursSplits(line: seq<byte>, pattern: seq<byte>, i: nat)
    requires OccursAt(line, pattern, i)
    ensures exists before, after :: line == before + pattern + after
  {
    assert line == line[..i] + pattern + line[i + |pattern|..];
  }

  // ---- The pieces of a file ----

  /** The pieces of v that the search sees when the byte after its buffer is a newline it never wrote:
      a partial line at the end of a full buffer then counts as a line, until that byte is overwritten. */
  function StaleSegments(v: seq<byte>): seq<seq<byte>>
    decreases |v|
  {
    if |v| < BUFSIZE then Segments(v)
    else Lines(v[..BUFSIZE]) + if v[BUFSIZE - 1] == NEWLINE then StaleSegments(v[BUFSIZE..]) else Segments(v[BUFSIZE..])
  }

  function Pieces(stale: bool, v: seq<byte>): seq<seq<byte>> {
    if stale then StaleSegments(v) else Segments(v)
  }

  lemma ReportCons(fname: seq<byte>, line: seq<byte>, rest: seq<seq<byte>>, pattern: seq<byte>)
    ensures Report(fname, [line] + rest, pattern) == Printed(fname, line, pattern) + Report(fname, rest, pattern)
  {
    assert ([line] + rest)[0] == line && ([line] + rest)[1..] == rest;
  }

  // ---- When the report is right ----

  ghost predicate AllFit(lines: seq<seq<byte>>) {
    forall i :: 0 <= i < |lines| ==> |lines[i]| <= BUFSIZE
  }

  /** The first full buffer that does not end with a newline ends inside a line. */
  predicate StaleCuts(v: seq<byte>)
    decreases |v|
  {
    |v| > BUFSIZE && if v[BUFSIZE - 1] == NEWLINE then StaleCuts(v[BUFSIZE..]) else v[BUFSIZE] != NEWLINE
  }

  /** No line is cut by the buffer's size, nor, if the byte after the buffer happens to be a newline, by
      that byte. */
  ghost predicate CutsNothing(stale: bool, v: seq<byte>) {
    AllFit(Lines(v)) && (stale ==> !StaleCuts(v))
  }

  ghost predicate EndsWell(v: seq<byte>) {
    v == [] || v[|v| - 1] == NEWLINE
  }

  lemma PrintedNothing(fname: seq<byte>, line: seq<byte>, pattern: seq<byte>)
    requires line == [] || |line| < |pattern|
    ensures Printed(fname, line, pattern) == []
  {
  }

  lemma PrintedItself(fname: seq<byte>, line: seq<byte>)
    requires line != []
    ensures Printed(fname, line, line) == Line(fname, line) != []
  {
    assert OccursAt(line, line, 0);
  }

  lemma FitFirst(first: seq<byte>, rest: seq<seq<byte>>)
    requires AllFit([first] + rest)
    ensures |first| <= BUFSIZE && AllFit(rest)
  {
    assert ([first] + rest)[0] == first;
    assert forall i :: 0 <= i < |rest| ==> ([first] + rest)[i + 1] == rest[i];
  }

  lemma FitAppend(a: seq<seq<byte>>, b: seq<seq<byte>>)
    requires AllFit(a + b)
    ensures AllFit(a) && AllFit(b)
  {
    assert forall i :: 0 <= i < |a| ==> (a + b)[i] == a[i];
    assert forall i :: 0 <= i < |b| ==> (a + b)[|a| + i] == b[i];
  }

  lemma FrontLine(w: seq<byte>, n: nat)
    requires n < |w| && w[n] == NEWLINE && NEWLINE !in w[..n]
    ensures LineLength(w) == n && Lines(w) == [w[..n]] + Lines(w[n + 1..])
  {
    LineLengthIs(w, n);
  }

  lemma WholeLine(w: seq<byte>)
    requires w != [] && NEWLINE !in w
    ensures LineLength(w) == |w| && Lines(w) == [w]
  {
    assert w[..|w|] == w;
    LineLengthIs(w, |w|);
  }

  /** Taking the first n + 1 bytes off v and off its first k. */
  lemma SliceAfter(v: seq<byte>, k: nat, n: nat)
    requires n < k <= |v|
    ensures v[..k][..n] == v[..n] && v[..k][n + 1..] == v[n + 1..][..k - n - 1]
    ensures v[n + 1..][k - n - 1..] == v[k..]
  {
  }

  /** The pieces of a line at the front. */
  lemma FirstPieces(v: seq<byte>, n: nat)
    requires v != [] && EndsWell(v) && n == LineLength(v) <= BUFSIZE
    ensures n < |v| && EndsWell(v[n + 1..])
    ensures Segments(v) == [v[..n]] + (if n == BUFSIZE then [[]] else []) + Segments(v[n + 1..])
  {
    EndsInNewline(v);
    hide *;
    LastAfter(v, n + 1);
    if n == BUFSIZE {
      FullLinePieces(v);
    } else {
      ShortLinePieces(v, n);
      assert [v[..n]] + [] == [v[..n]];
    }
  }

  lemma LastAfter(v: seq<byte>, k: nat)
    requires EndsWell(v) && k <= |v|
    ensures EndsWell(v[k..])
  {
  }

  lemma ShortLinePieces(v: seq<byte>, n: nat)
    requires n == LineLength(v) < BUFSIZE && n < |v|
    ensures Segments(v) == [v[..n]] + Segments(v[n + 1..])
  {
    hide LineLength;
  }

  lemma FullLinePieces(v: seq<byte>)
    requires LineLength(v) == BUFSIZE < |v|
    ensures Segments(v) == [v[..BUFSIZE]] + [[]] + Segments(v[BUFSIZE + 1..])
  {
    assert Segments(v) == [v[..BUFSIZE]] + Segments(v[BUFSIZE..]);
    hide Segments, LineLength;
    NewlineFirst(v[BUFSIZE..]);
    assert v[BUFSIZE..][1..] == v[BUFSIZE + 1..];
    assert [v[..BUFSIZE]] + ([[]] + Segments(v[BUFSIZE + 1..])) == [v[..BUFSIZE]] + [[]] + Segments(v[BUFSIZE + 1..]);
  }

  lemma NewlineFirst(w: seq<byte>)
    requires w != [] && w[0] == NEWLINE
    ensures Segments(w) == [[]] + Segments(w[1..])
  {
    LineLengthIs(w, 0);
  }

  lemma ReportTwo(fname: seq<byte>, first: seq<byte>, rest: seq<seq<byte>>, pattern: seq<byte>)
    ensures Report(fname, [first] + [[]] + rest, pattern) == Report(fname, [first] + rest, pattern)
  {
    ReportCons(fname, first, [[]] + rest, pattern);
    ReportCons(fname, [], rest, pattern);
    ReportCons(fname, first, rest, pattern);
    PrintedNothing(fname, [], pattern);
    assert [first] + [[]] + rest == [first] + ([[]] + rest);
  }

  /** A line of exactly the buffer's size is followed by an empty piece, which never matches. */
  lemma {:induction false} SegmentsReport(v: seq<byte>, fname: seq<byte>, pattern: seq<byte>)
    requires EndsWell(v) && AllFit(Lines(v))
    ensures Report(fname, Segments(v), pattern) == Report(fname, Lines(v), pattern)
    decreases |v|
  {
    if v == [] {
      assert Segments(v) == Lines(v);
    } else {
      var n := LineLength(v);
      FirstLine(v, n);
      hide *;
      var first, rest := v[..n], v[n + 1..];
      FitFirst(first, Lines(rest));
      FirstPieces(v, n);
      SegmentsReport(rest, fname, pattern);
      ReportCons(fname, first, Segments(rest), pattern);
      ReportCons(fname, first, Lines(rest), pattern);
      if n == BUFSIZE {
        ReportTwo(fname, first, Segments(rest), pattern);
      } else {
        assert [first] + [] + Segments(rest) == [first] + Segments(rest);
      }
    }
  }

  lemma {:induction false} LinesSplit(v: seq<byte>, k: nat)
    requires k <= |v| && EndsWell(v[..k])
    ensures Lines(v) == Lines(v[..k]) + Lines(v[k..])
    decreases |v|
  {
    if k == 0 {
      assert v[..0] == [] && v[0..] == v;
    } else {
      EndsInNewline(v[..k]);
      var n := LineLength(v[..k]);
      assert v[..k][n] == v[n];
      hide *;
      SliceAfter(v, k, n);
      LastAfter(v[..k], n + 1);
      FrontLine(v, n);
      FrontLine(v[..k], n);
      LinesSplit(v[n + 1..], k - n - 1);
      Chain([v[..n]], Lines(v[n + 1..][..k - n - 1]), Lines(v[k..]));
    }
  }

  lemma Chain(a: seq<seq<byte>>, b: seq<seq<byte>>, c: seq<seq<byte>>)
    ensures a + (b + c) == a + b + c
  {
  }

  /** The first b bytes of v are some of its lines and a part p of the next, whose rest q follows. */
  ghost predicate Cuts(v: seq<byte>, b: nat, before: seq<seq<byte>>, p: seq<byte>, q: seq<byte>, after: seq<byte>) {
    && b <= |v| && p != [] && |p| <= b && NEWLINE !in q && v[b..] == q + [NEWLINE] + after && EndsWell(after)
    && Lines(v[..b]) == before + [p] && Lines(v) == before + [p + q] + Lines(after)
  }

  lemma CutsFirst(v: seq<byte>, b: nat, n: nat)
    requires 0 < b <= n < |v| && EndsWell(v) && v[n] == NEWLINE && NEWLINE !in v[..n]
    ensures Cuts(v, b, [], v[..b], v[b..n], v[n + 1..])
    ensures forall c :: c in v[..b] + v[b..n] ==> c in v
  {
    hide Lines, LineLength;
    assert v[..n][..b] == v[..b] && v[..n][b..] == v[b..n] && v[..b] + v[b..n] == v[..n];
    FrontLine(v, n);
    WholeLine(v[..b]);
    assert [] + [v[..b]] == [v[..b]] && [] + [v[..n]] == [v[..n]];
    assert v[b..] == v[b..n] + [v[n]] + v[n + 1..];
  }

  lemma CutsLater(v: seq<byte>, b: nat, n: nat, before: seq<seq<byte>>, p: seq<byte>, q: seq<byte>, after: seq<byte>)
    requires n < b <= |v| && v[n] == NEWLINE && NEWLINE !in v[..n]
    requires Cuts(v[n + 1..], b - n - 1, before, p, q, after)
    ensures Cuts(v, b, [v[..n]] + before, p, q, after)
  {
    hide Lines, LineLength;
    SliceAfter(v, b, n);
    FrontLine(v, n);
    FrontLine(v[..b], n);
    Chain([v[..n]], before, [p]);
    Chain([v[..n]], before + [p + q], Lines(after));
    Chain([v[..n]], before, [p + q]);
  }

  lemma {:induction false} CutLine(v: seq<byte>, b: nat)
      returns (before: seq<seq<byte>>, p: seq<byte>, q: seq<byte>, after: seq<byte>)
    requires 0 < b < |v| && EndsWell(v) && v[b - 1] != NEWLINE
    ensures Cuts(v, b, before, p, q, after)
    ensures forall c :: c in p + q ==> c in v
    decreases |v|
  {
    EndsInNewline(v);
    hide LineLength, Cuts;
    var n := LineLength(v);
    if n < b {
      before, p, q, after := CutLine(v[n + 1..], b - n - 1);
      CutsLater(v, b, n, before, p, q, after);
      before := [v[..n]] + before;
    } else {
      CutsFirst(v, b, n);
      before, p, q, after := [], v[..b], v[b..n], v[n + 1..];
    }
  }

  /** The pieces of the block that opens with the rest of a cut line. */
  lemma RestPieces(q: seq<byte>, after: seq<byte>)
    requires NEWLINE !in q && |q| < BUFSIZE
    ensures Segments(q + [NEWLINE] + after) == [q] + Segments(after)
  {
    var w := q + [NEWLINE] + after;
    assert w[..|q|] == q && w[|q| + 1..] == after;
    LineLengthIs(w, |q|);
  }

  lemma ReportFour(fname: seq<byte>, before: seq<seq<byte>>, p: seq<byte>, after: seq<seq<byte>>, pattern: seq<byte>)
    ensures Report(fname, before + [p] + after, pattern)
         == Report(fname, before, pattern) + Printed(fname, p, pattern) + Report(fname, after, pattern)
  {
    assert before + [p] + after == before + ([p] + after);
    ReportAppend(fname, before, [p] + after, pattern);
    ReportCons(fname, p, after, pattern);
  }

  /** How a line cut into p and q at the end of the first buffer is reported. */
  lemma CutReport(v: seq<byte>, fname: seq<byte>, pattern: seq<byte>, before: seq<seq<byte>>, p: seq<byte>,
                  q: seq<byte>, after: seq<byte>)
    requires |v| > BUFSIZE && v[BUFSIZE - 1] != NEWLINE && AllFit(Lines(v)) && Cuts(v, BUFSIZE, before, p, q, after)
    ensures q == [] <==> v[BUFSIZE] == NEWLINE
    ensures Report(fname, StaleSegments(v), pattern)
         == Report(fname, before, pattern) + Printed(fname, p, pattern) + Printed(fname, q, pattern)
            + Report(fname, Lines(after), pattern)
    ensures Report(fname, Lines(v), pattern)
         == Report(fname, before, pattern) + Printed(fname, p + q, pattern) + Report(fname, Lines(after), pattern)
  {
    assert StaleSegments(v) == Lines(v[..BUFSIZE]) + Segments(v[BUFSIZE..]);
    hide StaleSegments, Segments, Lines, LineLength, Report, Printed;
    assert v[BUFSIZE..][0] == v[BUFSIZE];
    FitAppend(before + [p + q], Lines(after));
    assert (before + [p + q])[|before|] == p + q;
    RestPieces(q, after);
    SegmentsReport(after, fname, pattern);
    ReportFour(fname, before, p, [q] + Segments(after), pattern);
    ReportCons(fname, q, Segments(after), pattern);
    ReportFour(fname, before, p + q, Lines(after), pattern);
    Regroup(Report(fname, before, pattern) + Printed(fname, p, pattern), Printed(fname, q, pattern),
            Report(fname, Segments(after), pattern));
  }

  lemma Regroup(a: seq<byte>, b: seq<byte>, c: seq<byte>)
    ensures a + (b + c) == a + b + c
  {
  }

  lemma {:induction false} StaleReport(v: seq<byte>, fname: seq<byte>, pattern: seq<byte>)
    requires EndsWell(v) && AllFit(Lines(v)) && !StaleCuts(v)
    ensures Report(fname, StaleSegments(v), pattern) == Report(fname, Lines(v), pattern)
    decreases |v|
  {
    if |v| < BUFSIZE {
      SegmentsReport(v, fname, pattern);
    } else if v[BUFSIZE - 1] == NEWLINE {
      StaleBlock(v, fname, pattern);
      FitAppend(Lines(v[..BUFSIZE]), Lines(v[BUFSIZE..]));
      StaleReport(v[BUFSIZE..], fname, pattern);
    } else {
      hide StaleSegments, Lines, Report, Cuts, Printed;
      var before, p, q, after := CutLine(v, BUFSIZE);
      CutReport(v, fname, pattern, before, p, q, after);
      PrintedNothing(fname, [], pattern);
      assert p + [] == p;
      assert Report(fname, before, pattern) + Printed(fname, p, pattern) + []
          == Report(fname, before, pattern) + Printed(fname, p, pattern);
    }
  }

  /** A full buffer of whole lines is reported right, and leaves the byte after it as it was. */
  lemma StaleBlock(v: seq<byte>, fname: seq<byte>, pattern: seq<byte>)
    requires |v| >= BUFSIZE && v[BUFSIZE - 1] == NEWLINE
    ensures Lines(v) == Lines(v[..BUFSIZE]) + Lines(v[BUFSIZE..])
    ensures var block := Report(fname, Lines(v[..BUFSIZE]), pattern);
      && Report(fname, StaleSegments(v), pattern) == block + Report(fname, StaleSegments(v[BUFSIZE..]), pattern)
      && Report(fname, Lines(v), pattern) == block + Report(fname, Lines(v[BUFSIZE..]), pattern)
  {
    LinesSplit(v, BUFSIZE);
    ReportAppend(fname, Lines(v[..BUFSIZE]), Lines(v[BUFSIZE..]), pattern);
    ReportAppend(fname, Lines(v[..BUFSIZE]), StaleSegments(v[BUFSIZE..]), pattern);
  }

  /** With nothing cut, the pieces report the lines. */
  lemma WholeLinesReported(stale: bool, v: seq<byte>, fname: seq<byte>, pattern: seq<byte>)
    requires EndsWell(v) && CutsNothing(stale, v)
    ensures Report(fname, Pieces(stale, v), pattern) == Report(fname, Lines(v), pattern)
  {
    if stale {
      StaleReport(v, fname, pattern);
    } else {
      SegmentsReport(v, fname, pattern);
    }
  }

  // ---- When it is not ----

  lemma {:induction false} ReportShort(fname: seq<byte>, lines: seq<seq<byte>>, pattern: seq<byte>)
    requires forall i :: 0 <= i < |lines| ==> |lines[i]| < |pattern|
    ensures Report(fname, lines, pattern) == []
  {
    if lines != [] {
      PrintedNothing(fname, lines[0], pattern);
      ReportShort(fname, lines[1..], pattern);
    }
  }

  lemma {:induction false} ReportHolds(fname: seq<byte>, lines: seq<seq<byte>>, i: nat)
    requires i < |lines| && lines[i] != []
    ensures Report(fname, lines, lines[i]) != []
  {
    if i == 0 {
      PrintedItself(fname, lines[0]);
    } else {
      ReportHolds(fname, lines[1..], i - 1);
    }
  }

  lemma {:induction false} LineFrom(v: seq<byte>, i: nat)
    requires i < |Lines(v)|
    ensures |Lines(v)[i]| <= |v| && forall c :: c in Lines(v)[i] ==> c in v
    decreases |v|
  {
    if i > 0 {
      LineFrom(v[LineLength(v) + 1..], i - 1);
    }
  }

  /** The first piece, and what is cut into the others. */
  lemma FirstSegment(v: seq<byte>) returns (first: seq<byte>, rest: seq<byte>)
    requires Segments(v) != []
    ensures |first| <= BUFSIZE && |rest| < |v| && Segments(v) == [first] + Segments(rest)
  {
    var n := LineLength(v);
    hide LineLength;
    if n >= BUFSIZE {
      first, rest := v[..BUFSIZE], v[BUFSIZE..];
    } else if n == |v| {
      first, rest := v, [];
      assert Segments([]) == [];
    } else {
      first, rest := v[..n], v[n + 1..];
    }
  }

  lemma {:induction false} SegmentsShort(v: seq<byte>, i: nat)
    requires i < |Segments(v)|
    ensures |Segments(v)[i]| <= BUFSIZE
    decreases |v|
  {
    hide *;
    var first, rest := FirstSegment(v);
    if i > 0 {
      SegmentsShort(rest, i - 1);
    }
  }

  lemma {:induction false} StaleShort(v: seq<byte>, i: nat)
    requires i < |StaleSegments(v)|
    ensures |StaleSegments(v)[i]| <= BUFSIZE
    decreases |v|
  {
    if |v| < BUFSIZE {
      SegmentsShort(v, i);
    } else {
      var block := Lines(v[..BUFSIZE]);
      if i < |block| {
        LineFrom(v[..BUFSIZE], i);
      } else if v[BUFSIZE - 1] == NEWLINE {
        StaleShort(v[BUFSIZE..], i - |block|);
      } else {
        SegmentsShort(v[BUFSIZE..], i - |block|);
      }
    }
  }

  /** A line longer than the buffer is not reported when it is itself what is looked for. */
  lemma LongLineMissed(stale: bool, v: seq<byte>, fname: seq<byte>, i: nat)
    requires i < |Lines(v)| && |Lines(v)[i]| > BUFSIZE
    ensures Report(fname, Pieces(stale, v), Lines(v)[i]) == [] != Report(fname, Lines(v), Lines(v)[i])
  {
    var pieces := Pieces(stale, v);
    forall k | 0 <= k < |pieces| ensures |pieces[k]| <= BUFSIZE {
      if stale { StaleShort(v, k); } else { SegmentsShort(v, k); }
    }
    ReportShort(fname, pieces, Lines(v)[i]);
    ReportHolds(fname, Lines(v), i);
  }

  /** Nor is the line that the stale byte cuts. */
  lemma {:induction false} CutLineMissed(v: seq<byte>, fname: seq<byte>) returns (pattern: seq<byte>)
    requires EndsWell(v) && AllFit(Lines(v)) && StaleCuts(v)
    ensures |Report(fname, StaleSegments(v), pattern)| < |Report(fname, Lines(v), pattern)|
    ensures forall c :: c in pattern ==> c in v
    decreases |v|
  {
    if v[BUFSIZE - 1] == NEWLINE {
      hide StaleSegments, Lines, Report, AllFit;
      StaleBlock(v, fname, []);
      LastAfter(v, BUFSIZE);
      FitAppend(Lines(v[..BUFSIZE]), Lines(v[BUFSIZE..]));
      pattern := CutLineMissed(v[BUFSIZE..], fname);
      StaleBlock(v, fname, pattern);
    } else {
      hide StaleSegments, Lines, Report, Printed, AllFit, Cuts;
      var before, p, q, after := CutLine(v, BUFSIZE);
      pattern := p + q;
      CutReport(v, fname, pattern, before, p, q, after);
      PrintedNothing(fname, p, pattern);
      PrintedNothing(fname, q, pattern);
      PrintedItself(fname, pattern);
    }
  }

  /** The report is that of the file's lines, whatever is looked for, exactly when no line is cut: each
      is at most as long as the buffer, and if the byte after the buffer is a newline to start with, the
      first full buffer without a newline at its end does not end inside a line. */
  lemma ReportsLinesExactly(stale: bool, v: seq<byte>, fname: seq<byte>)
    requires EndsWell(v) && NUL !in v
    ensures (forall pattern :: NUL !in pattern ==>
               Report(fname, Pieces(stale, v), pattern) == Report(fname, Lines(v), pattern))
       <==> CutsNothing(stale, v)
  {
    if CutsNothing(stale, v) {
      forall pattern | NUL !in pattern
        ensures Report(fname, Pieces(stale, v), pattern) == Report(fname, Lines(v), pattern)
      {
        WholeLinesReported(stale, v, fname, pattern);
      }
    } else if !AllFit(Lines(v)) {
      var i :| 0 <= i < |Lines(v)| && |Lines(v)[i]| > BUFSIZE;
      LineFrom(v, i);
      LongLineMissed(stale, v, fname, i);
    } else {
      var pattern := CutLineMissed(v, fname);
    }
  }

  // ---- Two files with a lost line ----

  const A: byte := 97
  const B: byte := 98

  function Repeat(c: byte, n: nat): (s: seq<byte>)
    ensures |s| == n && forall i :: 0 <= i < n ==> s[i] == c
  {
    seq(n, _ => c)
  }

  /** One line of 1024 times `a` and a `b`: it contains "ab", and nothing is printed. */
  lemma LongLineLost(fname: seq<byte>)
    ensures var v := Repeat(A, 1024) + [B, NEWLINE];
      && Lines(v) == [Repeat(A, 1024) + [B]] && Hits(Lines(v)[0], [A, B])
      && Report(fname, Pieces(false, v), [A, B]) == []
  {
    var full := Repeat(A, BUFSIZE);
    var v := full + [B, NEWLINE];
    var line := full + [B];
    assert v[..BUFSIZE + 1] == line && v[BUFSIZE + 1 + 1..] == [];
    FrontLine(v, BUFSIZE + 1);
    assert v[..BUFSIZE] == full && v[BUFSIZE..] == [B] + [NEWLINE] + [];
    assert Segments(v) == [full] + Segments(v[BUFSIZE..]);
    RestPieces([B], []);
    assert [line] + [] == [line];
    assert line[BUFSIZE - 1] == A && line[BUFSIZE] == B;
    assert line[BUFSIZE - 1..BUFSIZE + 1] == [A, B];
    assert OccursAt(line, [A, B], BUFSIZE - 1);
    TwoMisses(fname, full, [B]);
  }

  lemma TwoMisses(fname: seq<byte>, first: seq<byte>, second: seq<byte>)
    requires B !in first && A !in second
    ensures Report(fname, [first] + ([second] + Segments([])), [A, B]) == []
  {
    ReportCons(fname, first, [second] + Segments([]), [A, B]);
    ReportCons(fname, second, Segments([]), [A, B]);
    MissesWithout(fname, first, [A, B], 1);
    MissesWithout(fname, second, [A, B], 0);
  }

  lemma MissesWithout(fname: seq<byte>, line: seq<byte>, pattern: seq<byte>, k: nat)
    requires k < |pattern| && pattern[k] !in line
    ensures Printed(fname, line, pattern) == []
  {
    forall i | 0 <= i < |line| && i + |pattern| <= |line| ensures !OccursAt(line, pattern, i) {
      assert line[i..i + |pattern|][k] == line[i + k];
    }
  }

  /** Two short lines, the second across the end of the first buffer: with a newline in the byte after
      the buffer, the line "ab" is searched as "a" and "b". */
  lemma StaleLineLost(fname: seq<byte>)
    ensures var v := Repeat(A, BUFSIZE - 2) + [NEWLINE, A, B, NEWLINE];
      && Lines(v) == [Repeat(A, BUFSIZE - 2), [A, B]] && Hits([A, B], [A, B])
      && Report(fname, Pieces(true, v), [A, B]) == []
  {
    var first := Repeat(A, BUFSIZE - 2);
    var v := first + [NEWLINE, A, B, NEWLINE];
    StaleFile(first);
    assert StaleSegments(v) == Lines(v[..BUFSIZE]) + Segments(v[BUFSIZE..]);
    assert B !in first;
    hide *;
    FrontLine(v, BUFSIZE - 2);
    TwoLines(first);
    RestPieces([B], []);
    var rest := [[B]] + Segments([]);
    assert [first, [A]] + rest == [first] + ([[A]] + rest);
    ReportCons(fname, first, [[A]] + rest, [A, B]);
    MissesWithout(fname, first, [A, B], 1);
    TwoMisses(fname, [A], [B]);
    HitsItself([A, B]);
  }

  lemma HitsItself(pattern: seq<byte>)
    requires pattern != []
    ensures Hits(pattern, pattern)
  {
    assert OccursAt(pattern, pattern, 0);
  }

  lemma StaleFile(first: seq<byte>)
    requires first == Repeat(A, BUFSIZE - 2)
    ensures var v := first + [NEWLINE, A, B, NEWLINE];
      && |v| >= BUFSIZE && v[BUFSIZE - 2] == NEWLINE && v[BUFSIZE - 1] == A && NEWLINE !in first
      && v[..BUFSIZE - 2] == first && v[BUFSIZE - 1..] == [A, B, NEWLINE]
      && v[..BUFSIZE] == first + [NEWLINE, A] && v[BUFSIZE..] == [B] + [NEWLINE] + []
  {
  }

  lemma TwoLines(first: seq<byte>)
    requires first == Repeat(A, BUFSIZE - 2)
    ensures Lines([A, B, NEWLINE]) == [[A, B]]
    ensures Lines(first + [NEWLINE, A]) == [first, [A]]
  {
    var v, w := [A, B, NEWLINE], first + [NEWLINE, A];
    assert v[..2] == [A, B] && v[3..] == [];
    FrontLine(v, 2);
    assert Lines(v) == [[A, B]] + [];
    assert w[..BUFSIZE - 2] == first && w[BUFSIZE - 1..] == [A];
    FrontLine(w, BUFSIZE - 2);
    WholeLine([A]);
  }
}
