/** The streaming line search of ece391grep, which carries partial lines over in its buffer
    (syscalls/ece391grep.c, syscalls/ece391support.c). */
module Grep {
  import opened Bytes
  import opened GrepReports
  import opened TextLines
  import FS = FileSystem

  // ---- The string routines ----

  /** ece391_strncmp on the C string at data[at..], whose value is only compared with zero. */
  method StrNCmp(data: array<byte>, at: nat, s: seq<byte>, n: nat) returns (r: int)
    requires at < data.Length && NUL in data[at..] && NUL in s && n <= |CString(s)|
    ensures r == 0 <==> n == 0 || (n <= |CString(data[at..])| && CString(data[at..])[..n] == CString(s)[..n])
  {
    hide CString;
    if n == 0 { return 0; }
    ghost var line, pattern := CString(data[at..]), CString(s);
    var i, left := 0, n;
    while data[at + i] == s[i]
      invariant 0 <= i && left == n - i && left > 0
      invariant i <= |line| && line[..i] == pattern[..i]
      decreases left
    {
      CStringNonNul(s, i);
      if i < |line| {
        CStringNonNul(data[at..], i);
      }
      assert data[at + i] == data[at..][i];
      left := left - 1;
      if s[i] == NUL || left == 0 {
        return 0;
      }
      i := i + 1;
    }
    CStringNonNul(s, i);
    assert data[at + i] == data[at..][i];
    if i < |line| {
      CStringNonNul(data[at..], i);
      assert n <= |line| ==> line[..n][i] != pattern[..n][i];
    }
    r := data[at + i] as int - s[i] as int;
  }

  /** ece391_strcpy within one buffer, downwards. */
  method StrCpy(data: array<byte>, src: nat)
    requires src < data.Length && NUL in data[src..]
    modifies data
    ensures var n := |CString(old(data[src..]))|;
      && src + n < data.Length
      && data[..n] == CString(old(data[src..])) && data[n] == NUL
      && forall k :: n < k < data.Length ==> data[k] == old(data[k])
  {
    ghost var was := data[..];
    ghost var s := CString(data[src..]);
    assert data[src..] == was[src..];
    var i := 0;
    while data[src + i] != NUL
      invariant 0 <= i <= |s|
      invariant forall k :: 0 <= k < data.Length ==> data[k] == if k < i then s[k] else was[k]
      decreases |s| - i
    {
      assert was[src + i] == was[src..][i];
      data[i] := data[src + i];
      i := i + 1;
    }
    assert was[src + i] == was[src..][i];
    data[i] := data[src + i];
    assert data[..i] == s;
  }

  /** The inner search loop: does the line data[from..to], which a NUL ends, match? */
  method Search(data: array<byte>, from: nat, to: nat, pattern: seq<byte>) returns (found: bool)
    requires from <= to < data.Length && data[to] == NUL && NUL !in data[from..to] && NUL !in pattern
    ensures found <==> Hits(data[from..to], pattern)
  {
    hide OccursAt, CString;
    var s := pattern + [NUL];
    CStringIs(s, |pattern|);
    assert s[..|pattern|] == pattern;
    var sLen := FS.StrLen(s);
    ghost var line := data[from..to];
    var check := from;
    while check < to
      invariant from <= check <= to
      invariant pattern != [] ==> forall i :: 0 <= i < check - from ==> !OccursAt(line, pattern, i)
    {
      assert data[check] == line[check - from] != NUL;
      if s[0] == data[check] {
        SuffixIs(data[..], from, check, to);
        var c := StrNCmp(data, check, s, sLen);
        ghost var i := check - from;
        assert CString(data[check..]) == line[i..];
        OccursMeans(line, pattern, i);
        if c == 0 {
          return true;
        }
      } else if pattern != [] {
        FirstDiffers(line, pattern, check - from);
      }
      check := check + 1;
    }
    found := false;
  }

  lemma OccursMeans(line: seq<byte>, pattern: seq<byte>, i: nat)
    requires i < |line|
    ensures OccursAt(line, pattern, i)
       <==> |pattern| == 0 || (|pattern| <= |line[i..]| && line[i..][..|pattern|] == pattern)
  {
    if i + |pattern| <= |line| {
      assert line[i..][..|pattern|] == line[i..i + |pattern|];
    }
  }

  lemma FirstDiffers(line: seq<byte>, pattern: seq<byte>, i: nat)
    requires i < |line| && pattern != [] && line[i] != pattern[0]
    ensures !OccursAt(line, pattern, i)
  {
    if i + |pattern| <= |line| {
      assert line[i..i + |pattern|][0] == line[i];
    }
  }

  lemma SuffixIs(data: seq<byte>, from: nat, check: nat, to: nat)
    requires from <= check <= to < |data| && data[to] == NUL && NUL !in data[from..to]
    ensures NUL in data[check..] && CString(data[check..]) == data[check..to]
  {
    assert data[check..][to - check] == NUL;
    assert data[check..][..to - check] == data[check..to];
    forall k | check <= k < to ensures data[k] != NUL {
      assert data[k] == data[from..to][k - from];
    }
    CStringIs(data[check..], to - check);
  }

  // ---- One file ----

  /** The pieces still to come when the buffer holds the first |v| or BUFSIZE bytes of v and the search
      has got to index `at` of it. */
  function PiecesFrom(stale: bool, v: seq<byte>, at: nat): seq<seq<byte>>
    requires at <= |v| && at <= BUFSIZE
  {
    if stale && |v| >= BUFSIZE then
      Lines(v[at..BUFSIZE]) + if v[BUFSIZE - 1] == NEWLINE then StaleSegments(v[BUFSIZE..]) else Segments(v[BUFSIZE..])
    else Segments(v[at..])
  }

  /** A line that ends inside the buffer. */
  lemma LineInBuffer(stale: bool, v: seq<byte>, at: nat, end: nat)
    requires at <= end < |v| && end < BUFSIZE && v[end] == NEWLINE && NEWLINE !in v[at..end]
    ensures PiecesFrom(stale, v, at) == [v[at..end]] + PiecesFrom(stale, v, end + 1)
  {
    hide Lines, Segments, StaleSegments;
    if stale && |v| >= BUFSIZE {
      assert v[at..BUFSIZE][..end - at] == v[at..end];
      LineAtFront(v[at..BUFSIZE], end - at);
      assert v[at..BUFSIZE][end - at + 1..] == v[end + 1..BUFSIZE];
    } else {
      assert v[at..][..end - at] == v[at..end];
      LineAtFront(v[at..], end - at);
      assert v[at..][end - at + 1..] == v[end + 1..];
    }
  }

  lemma LineAtFront(w: seq<byte>, n: nat)
    requires n < |w| && n < BUFSIZE && w[n] == NEWLINE && NEWLINE !in w[..n]
    ensures Lines(w) == [w[..n]] + Lines(w[n + 1..]) && Segments(w) == [w[..n]] + Segments(w[n + 1..])
  {
    hide *;
    LineLengthIs(w, n);
    LinesAt(w, n);
    SegmentsAt(w, n);
  }

  lemma LinesAt(w: seq<byte>, n: nat)
    requires n == LineLength(w) < |w|
    ensures Lines(w) == [w[..n]] + Lines(w[n + 1..])
  {
    hide LineLength;
  }

  lemma SegmentsAt(w: seq<byte>, n: nat)
    requires n == LineLength(w) < |w| && n < BUFSIZE
    ensures Segments(w) == [w[..n]] + Segments(w[n + 1..])
  {
    hide LineLength;
  }

  /** A full buffer without a newline from `at` on, which is searched as it stands. */
  lemma CutAtBuffer(stale: bool, v: seq<byte>, at: nat)
    requires at < BUFSIZE <= |v| && NEWLINE !in v[at..BUFSIZE] && (stale || at == 0)
    ensures PiecesFrom(stale, v, at) == [v[at..BUFSIZE]] + Segments(v[BUFSIZE..])
  {
    var w := v[at..BUFSIZE];
    LineLengthIs(w, |w|);
    if stale {
      assert v[BUFSIZE - 1] == w[|w| - 1];
      assert Lines(w) == [w];
    } else {
      assert w == v[..BUFSIZE] && v[at..] == v;
      LineLengthAtLeast(v, BUFSIZE);
    }
  }

  /** A buffer searched to its end, on a line boundary. */
  lemma BufferDone(stale: bool, v: seq<byte>)
    requires v != [] && v[Min(|v|, BUFSIZE) - 1] == NEWLINE
    ensures var last := Min(|v|, BUFSIZE); PiecesFrom(stale, v, last) == Pieces(stale, v[last..])
  {
    if stale && |v| >= BUFSIZE {
      assert Lines(v[BUFSIZE..BUFSIZE]) == [];
    } else if stale {
      assert v[|v|..] == [];
    }
  }

  lemma PiecesStart(stale: bool, v: seq<byte>)
    ensures PiecesFrom(stale, v, 0) == Pieces(stale, v)
  {
    assert v[0..] == v;
  }

  /** What searching the piece v[at..end] leaves to be reported. */
  lemma NextPieces(stale: bool, v: seq<byte>, at: nat, end: nat, fname: seq<byte>, pattern: seq<byte>)
    requires at <= end <= Min(|v|, BUFSIZE) && NEWLINE !in v[at..end]
    requires v != [] ==> at < Min(|v|, BUFSIZE) && v[|v| - 1] == NEWLINE
    requires end < Min(|v|, BUFSIZE) ==> v[end] == NEWLINE
    requires v != [] && end == Min(|v|, BUFSIZE) ==> end == BUFSIZE < |v| && (stale || at == 0)
    ensures var last := Min(|v|, BUFSIZE);
      Report(fname, PiecesFrom(stale, v, at), pattern) == Printed(fname, v[at..end], pattern) +
        if end + 1 < last then Report(fname, PiecesFrom(stale, v, end + 1), pattern)
        else Report(fname, Pieces(stale && end < BUFSIZE, v[last..]), pattern)
  {
    hide Lines, Segments, StaleSegments, Report;
    var last := Min(|v|, BUFSIZE);
    if v == [] {
      NothingLeft(stale, fname, pattern);
    } else if end < last {
      LineInBuffer(stale, v, at, end);
      ReportCons(fname, v[at..end], PiecesFrom(stale, v, end + 1), pattern);
      if end + 1 == last { BufferDone(stale, v); }
    } else {
      CutAtBuffer(stale, v, at);
      ReportCons(fname, v[at..end], Segments(v[BUFSIZE..]), pattern);
    }
  }

  lemma NothingLeft(stale: bool, fname: seq<byte>, pattern: seq<byte>)
    ensures Pieces(stale, []) == PiecesFrom(stale, [], 0) == []
    ensures Printed(fname, [], pattern) == [] == Report(fname, [], pattern)
  {
    PiecesStart(stale, []);
  }

  lemma Grouped(a: seq<byte>, b: seq<byte>, c: seq<byte>)
    ensures a + (b + c) == (a + b) + c
  {
  }

  lemma CarriedPieces(v: seq<byte>, at: nat)
    requires at <= |v| && at <= BUFSIZE
    ensures Pieces(false, v[at..]) == PiecesFrom(false, v, at)
  {
  }

  /** The buffer holds the part of a line that the last round carried over, and nothing more. */
  ghost predicate Carrying(data: seq<byte>, v: seq<byte>, pos: nat, last: nat) {
    && |data| == BUFSIZE + 1 && last <= pos <= |v| && last < BUFSIZE
    && data[..last] == v[pos - last..pos] && NEWLINE !in data[..last]
    && (data[BUFSIZE] == NEWLINE ==> last == 0)
  }

  /** What is to be reported of a file with `last` bytes carried over at position pos. */
  ghost function ToReport(data: seq<byte>, v: seq<byte>, pos: nat, last: nat, fname: seq<byte>, pattern: seq<byte>)
      : seq<byte>
    requires Carrying(data, v, pos, last)
  {
    Report(fname, Pieces(data[BUFSIZE] == NEWLINE, v[pos - last..]), pattern)
  }

  lemma PartCarried(data: seq<byte>, v: seq<byte>, from: nat)
    requires |data| == BUFSIZE + 1 && 0 < from < BUFSIZE <= |v| && data[BUFSIZE] == NUL
    requires data[..BUFSIZE - from] == v[from..BUFSIZE] && NEWLINE !in v[from..BUFSIZE]
    ensures Carrying(data, v, BUFSIZE, BUFSIZE - from)
  {
  }

  lemma NothingCarried(data: seq<byte>, v: seq<byte>, pos: nat)
    requires |data| == BUFSIZE + 1 && pos <= |v|
    ensures Carrying(data, v, pos, 0)
  {
  }

  lemma StillToReport(data: seq<byte>, v: seq<byte>, pos: nat, last: nat, fname: seq<byte>, pattern: seq<byte>)
    requires Carrying(data, v, pos, last)
    ensures ToReport(data, v, pos, last, fname, pattern)
         == Report(fname, Pieces(data[BUFSIZE] == NEWLINE, v[pos - last..]), pattern)
  {
  }

  /** The end of the line that starts at `from`, or the end of what is filled. */
  method LineEnd(data: array<byte>, from: nat, filled: nat) returns (end: nat)
    requires from <= filled < data.Length
    ensures from <= end <= filled && NEWLINE !in data[from..end] && (end < filled ==> data[end] == NEWLINE)
  {
    end := from;
    while end < filled && NEWLINE != data[end]
      invariant from <= end <= filled && NEWLINE !in data[from..end]
    {
      end := end + 1;
    }
  }

  /** The partial line moves to the front of the full buffer. */
  method Carry(data: array<byte>, from: nat)
    requires data.Length == BUFSIZE + 1 && 0 < from < BUFSIZE && NUL !in data[from..BUFSIZE]
    modifies data
    ensures data[..BUFSIZE - from] == old(data[from..BUFSIZE]) && data[BUFSIZE] == NUL
  {
    data[BUFSIZE] := NUL;
    assert data[from..BUFSIZE] == old(data[from..BUFSIZE]);
    SuffixIs(data[..], from, from, BUFSIZE);
    assert data[..][from..] == data[from..];
    StrCpy(data, from);
  }

  /** The line is terminated, searched, and printed if it matches. */
  method SearchLine(data: array<byte>, from: nat, to: nat, fname: seq<byte>, pattern: seq<byte>)
    returns (out: seq<byte>)
    requires from <= to < data.Length && NUL !in data[from..to] && NUL !in pattern
    modifies data
    ensures data[to] == NUL && forall k :: 0 <= k < data.Length && k != to ==> data[k] == old(data[k])
    ensures out == Printed(fname, old(data[from..to]), pattern)
  {
    data[to] := NUL;
    assert data[from..to] == old(data[from..to]);
    out := [];
    var found := Search(data, from, to, pattern);
    if found {
      SuffixIs(data[..], from, from, to);
      assert data[..][from..] == data[from..];
      out := fname + [COLON] + CString(data[from..]) + [NEWLINE];
    }
  }

  /** The lines of the buffer, up to a partial one that is moved to the front to wait for its rest.
      `v` is what the file still holds, buffer included; cnt says whether the last read got anything. */
  method SearchBuffer(data: array<byte>, filled: nat, cnt: nat, fname: seq<byte>, pattern: seq<byte>,
                      ghost v: seq<byte>)
    returns (last: nat, out: seq<byte>)
    requires data.Length == BUFSIZE + 1 && filled == Min(|v|, BUFSIZE) && data[..filled] == v[..filled]
    requires (cnt == 0 <==> v == []) && (v != [] ==> v[|v| - 1] == NEWLINE) && NUL !in v && NUL !in pattern
    modifies data
    ensures Carrying(data[..], v, filled, last)
    ensures out + ToReport(data[..], v, filled, last, fname, pattern)
         == Report(fname, Pieces(old(data[BUFSIZE]) == NEWLINE, v), pattern)
  {
    hide Pieces, PiecesFrom, Printed, Report, ToReport, Carrying;
    ghost var stale := data[BUFSIZE] == NEWLINE;
    ghost var total := Report(fname, Pieces(stale, v), pattern);
    PiecesStart(stale, v);
    assert forall k :: 0 <= k < filled ==> data[k] == data[..filled][k] == v[..filled][k];
    last, out := filled, [];
    var lineStart := 0;
    while true
      invariant last == filled && lineStart <= filled && (v != [] ==> lineStart < filled)
      invariant (forall k :: lineStart <= k < filled ==> data[k] == v[k]) && stale == (data[BUFSIZE] == NEWLINE)
      invariant out + Report(fname, PiecesFrom(stale, v, lineStart), pattern) == total
      decreases filled - lineStart
    {
      var lineEnd := LineEnd(data, lineStart, last);
      ghost var line := v[lineStart..lineEnd];
      assert data[lineStart..lineEnd] == line;
      LastLineEnds(v, lineStart, lineEnd);
      if NEWLINE != data[lineEnd] && 0 != cnt && lineStart != 0 {
        assert lineEnd == BUFSIZE;
        Carry(data, lineStart);
        last := last - lineStart;
        CarriedPieces(v, lineStart);
        PartCarried(data[..], v, lineStart);
        StillToReport(data[..], v, filled, last, fname, pattern);
        break;
      }
      var printed := SearchLine(data, lineStart, lineEnd, fname, pattern);
      NextPieces(stale, v, lineStart, lineEnd, fname, pattern);
      lineStart := lineEnd + 1;
      if lineStart >= last {
        Grouped(out, printed, Report(fname, Pieces(data[BUFSIZE] == NEWLINE, v[filled..]), pattern));
        last, out := 0, out + printed;
        NothingCarried(data[..], v, filled);
        StillToReport(data[..], v, filled, last, fname, pattern);
        break;
      }
      Grouped(out, printed, Report(fname, PiecesFrom(stale, v, lineStart), pattern));
      out := out + printed;
    }
  }

  /** A file that ends in a newline has a partial line in the buffer only when the buffer is full. */
  lemma LastLineEnds(v: seq<byte>, from: nat, end: nat)
    requires from <= end <= Min(|v|, BUFSIZE) && NEWLINE !in v[from..end]
    requires v != [] ==> from < Min(|v|, BUFSIZE) && v[|v| - 1] == NEWLINE
    ensures v != [] && end == Min(|v|, BUFSIZE) ==> end == BUFSIZE < |v|
  {
    if v != [] {
      assert v[from..|v|][|v| - from - 1] == v[|v| - 1];
    }
  }

  /** What the file still holds, the carried-over part of a line included, and what a read gets of it. */
  lemma RestOfFile(v: seq<byte>, pos: nat, last: nat, carried: seq<byte>)
    requires last <= pos <= |v| && last < BUFSIZE && NUL !in v && (v != [] ==> v[|v| - 1] == NEWLINE)
    requires carried == v[pos - last..pos] && NEWLINE !in carried
    ensures var rest := v[pos - last..]; var got := FS.Slice(v, pos, BUFSIZE - last);
      && NUL !in rest && (rest != [] ==> rest[|rest| - 1] == NEWLINE)
      && (got == [] <==> rest == [])
      && last + |got| == Min(|rest|, BUFSIZE) && carried + got == rest[..last + |got|]
  {
    if pos == |v| && last > 0 {
      LastCarried(v, last);
    }
    var start := pos - last;
    var rest, got := v[start..], FS.Slice(v, pos, BUFSIZE - last);
    assert rest != [] ==> rest[|rest| - 1] == v[|v| - 1];
    assert got == v[pos..pos + |got|] && |got| == Min(BUFSIZE - last, |v| - pos);
    assert got == [] <==> rest == [];
    hide *;
    Rejoined(v, start, pos, pos + |got|);
  }

  lemma Rejoined(v: seq<byte>, a: nat, b: nat, c: nat)
    requires a <= b <= c <= |v|
    ensures v[a..b] + v[b..c] == v[a..][..c - a]
    ensures NUL !in v ==> NUL !in v[a..]
  {
  }

  lemma SliceOfRest(v: seq<byte>, start: nat, a: nat, b: nat)
    requires start + b <= |v| && a <= b
    ensures v[start..][a..] == v[start + a..] && v[start..][a..b] == v[start + a..start + b]
  {
  }

  lemma LastCarried(v: seq<byte>, last: nat)
    requires 0 < last <= |v| && v[|v| - 1] == NEWLINE
    ensures NEWLINE in v[|v| - last..|v|]
  {
    assert v[|v| - last..|v|][last - 1] == NEWLINE;
  }

  // "file open failed\n"
  const OPEN_FAILED: seq<byte> := [102, 105, 108, 101, 32, 111, 112, 101, 110, 32, 102, 97, 105, 108, 101, 100, 10]

  /** One round: fill the buffer, and search it. */
  method Round(fd: FS.Descriptor, data: array<byte>, carried: nat, fname: seq<byte>, pattern: seq<byte>)
    returns (cnt: nat, last: nat, found: seq<byte>)
    requires fd.Valid() && NUL !in fd.Contents() && NUL !in pattern
    requires Carrying(data[..], fd.Contents(), fd.position, carried)
    modifies data, fd`position
    ensures fd.Valid() && fd.position == old(fd.position) + cnt
    ensures Carrying(data[..], fd.Contents(), fd.position, last)
    ensures found + ToReport(data[..], fd.Contents(), fd.position, last, fname, pattern)
         == old(ToReport(data[..], fd.Contents(), fd.position, carried, fname, pattern))
    ensures cnt == 0 ==> fd.position == |fd.Contents()| && last == 0
  {
    hide Pieces, Report, FS.WellFormed, FS.View, FS.Slice, ToReport, Carrying;
    ghost var v, pos, was := fd.Contents(), fd.position, data[..];
    ghost var start := pos - carried;
    CarryingMeans(was, v, pos, carried, fname, pattern);
    RestOfFile(v, pos, carried, was[..carried]);
    cnt := fd.Read(data, carried, BUFSIZE - carried);
    var filled := carried + cnt;
    BufferFilled(was, data[..], carried, FS.Slice(v, pos, BUFSIZE - carried), v[start..]);
    last, found := SearchBuffer(data, filled, cnt, fname, pattern, v[start..]);
    CarryingShift(data[..], v, start, filled, last, fname, pattern);
    EmptyRest(v, start);
    assert cnt == 0 ==> last == 0 by { if cnt == 0 { CarryingMeans(data[..], v, pos + cnt, last, fname, pattern); } }
  }

  lemma BufferFilled(was: seq<byte>, now: seq<byte>, carried: nat, got: seq<byte>, rest: seq<byte>)
    requires |was| == BUFSIZE + 1 && carried + |got| <= BUFSIZE && carried + |got| <= |rest|
    requires now == was[..carried] + got + was[carried + |got|..]
    requires was[..carried] + got == rest[..carried + |got|]
    ensures |now| == |was| && now[..carried + |got|] == rest[..carried + |got|] && now[BUFSIZE] == was[BUFSIZE]
  {
  }

  lemma CarryingMeans(data: seq<byte>, v: seq<byte>, pos: nat, last: nat, fname: seq<byte>, pattern: seq<byte>)
    requires Carrying(data, v, pos, last)
    ensures |data| == BUFSIZE + 1 && last <= pos <= |v| && last < BUFSIZE
    ensures data[..last] == v[pos - last..pos] && NEWLINE !in data[..last]
    ensures ToReport(data, v, pos, last, fname, pattern)
         == Report(fname, Pieces(data[BUFSIZE] == NEWLINE, v[pos - last..]), pattern)
  {
  }

  lemma CarryingShift(data: seq<byte>, v: seq<byte>, start: nat, filled: nat, last: nat, fname: seq<byte>,
                      pattern: seq<byte>)
    requires start + filled <= |v| && Carrying(data, v[start..], filled, last)
    ensures Carrying(data, v, start + filled, last)
    ensures ToReport(data, v, start + filled, last, fname, pattern)
         == ToReport(data, v[start..], filled, last, fname, pattern)
  {
    hide Pieces, Report;
    SliceOfRest(v, start, filled - last, filled);
  }

  lemma EmptyRest(v: seq<byte>, start: nat)
    requires start <= |v|
    ensures v[start..] == [] <==> start == |v|
  {
  }

  /** do_one_file: `data` is its uninitialised buffer, `file` the result of the open. It terminates, and
      prints exactly the pieces of the file that match, in order, wherever the chunks fall. */
  method DoOneFile(pattern: seq<byte>, fname: seq<byte>, file: Option<FS.Descriptor>, data: array<byte>)
    returns (ret: int, out: seq<byte>)
    requires data.Length == BUFSIZE + 1 && NUL !in pattern
    requires file.Some? ==> file.value.Valid() && file.value.position == 0 && NUL !in file.value.Contents()
    modifies data, if file.Some? then {file.value} else {}
    ensures file.None? ==> ret == -1 && out == OPEN_FAILED
    ensures file.Some? ==>
      && ret == 0 && file.value.Valid() && file.value.position == |file.value.Contents()|
      && out == Report(fname, Pieces(old(data[BUFSIZE]) == NEWLINE, file.value.Contents()), pattern)
      && (CutsNothing(old(data[BUFSIZE]) == NEWLINE, file.value.Contents()) ==>
            out == Report(fname, Lines(file.value.Contents()), pattern))
  {
    if file.None? {
      return -1, OPEN_FAILED;
    }
    hide Pieces, Report, FS.WellFormed, FS.View, Carrying, ToReport;
    var fd := file.value;
    ghost var v := fd.Contents();
    StartCarrying(data[..], v, fname, pattern);
    out := [];
    var last := 0;
    while true
      invariant fd.Valid() && fd.Contents() == v
      invariant 0 <= last && Carrying(data[..], v, fd.position, last)
      invariant out + ToReport(data[..], v, fd.position, last, fname, pattern)
             == Report(fname, Pieces(old(data[BUFSIZE]) == NEWLINE, v), pattern)
      decreases |v| - fd.position
    {
      var cnt, found;
      cnt, last, found := Round(fd, data, last, fname, pattern);
      Grouped(out, found, ToReport(data[..], v, fd.position, last, fname, pattern));
      out := out + found;
      if cnt == 0 {
        NothingToReport(data[..], v, fname, pattern);
        break;
      }
    }
    if CutsNothing(old(data[BUFSIZE]) == NEWLINE, v) {
      WholeLinesReported(old(data[BUFSIZE]) == NEWLINE, v, fname, pattern);
    }
    ret := 0;
  }

  lemma StartCarrying(data: seq<byte>, v: seq<byte>, fname: seq<byte>, pattern: seq<byte>)
    requires |data| == BUFSIZE + 1
    ensures Carrying(data, v, 0, 0)
    ensures ToReport(data, v, 0, 0, fname, pattern) == Report(fname, Pieces(data[BUFSIZE] == NEWLINE, v), pattern)
  {
    assert v[0..] == v;
  }

  lemma NothingToReport(data: seq<byte>, v: seq<byte>, fname: seq<byte>, pattern: seq<byte>)
    requires Carrying(data, v, |v|, 0)
    ensures ToReport(data, v, |v|, 0, fname, pattern) == []
  {
    NothingLeft(data[BUFSIZE] == NEWLINE, fname, pattern);
  }
}
