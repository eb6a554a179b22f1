/** Lines of a file, and the pieces in which a reader with a 1024-byte buffer sees them. */
module TextLines {
  import opened Bytes

  const BUFSIZE := 1024

  /** How many bytes come before the first newline. */
  function LineLength(v: seq<byte>): (n: nat)
    ensures n <= |v| && NEWLINE !in v[..n]
    ensures n < |v| ==> v[n] == NEWLINE
  {
    if v == [] || v[0] == NEWLINE then 0 else 1 + LineLength(v[1..])
  }

  lemma {:induction false} LineLengthIs(v: seq<byte>, n: nat)
    requires n <= |v| && NEWLINE !in v[..n] && (n < |v| ==> v[n] == NEWLINE)
    ensures LineLength(v) == n
  {
    if n > 0 {
      assert v[0] == v[..n][0] && v[1..][..n - 1] == v[..n][1..];
      LineLengthIs(v[1..], n - 1);
    }
  }

  lemma {:induction false} LineLengthAtLeast(v: seq<byte>, n: nat)
    requires n <= |v| && NEWLINE !in v[..n]
    ensures LineLength(v) >= n
  {
    if n > 0 {
      assert v[0] == v[..n][0] && v[1..][..n - 1] == v[..n][1..];
      LineLengthAtLeast(v[1..], n - 1);
    }
  }

  lemma {:induction false} EndsInNewline(v: seq<byte>)
    requires v != [] && v[|v| - 1] == NEWLINE
    ensures LineLength(v) < |v|
  {
    if v[0] != NEWLINE {
      EndsInNewline(v[1..]);
    }
  }

  /** What follows a line, or part of one. */
  lemma LineLengthAfter(v: seq<byte>, k: nat)
    requires k <= LineLength(v)
    ensures LineLength(v[k..]) == LineLength(v) - k
  {
    var n := LineLength(v);
    assert v[k..][..n - k] == v[..n][k..];
    LineLengthIs(v[k..], n - k);
  }

  /** The lines of v, without their newlines; a last line need not have one. */
  function Lines(v: seq<byte>): seq<seq<byte>>
    decreases |v|
  {
    var n := LineLength(v);
    if |v| == 0 then [] else if n == |v| then [v] else [v[..n]] + Lines(v[n + 1..])
  }

  /** Putting the newlines back. */
  function Unlines(lines: seq<seq<byte>>): seq<byte> {
    if lines == [] then [] else lines[0] + [NEWLINE] + Unlines(lines[1..])
  }

  lemma FirstLine(v: seq<byte>, n: nat)
    requires v != [] && v[|v| - 1] == NEWLINE && n == LineLength(v)
    ensures n < |v| && v == v[..n] + [NEWLINE] + v[n + 1..]
    ensures Lines(v) == [v[..n]] + Lines(v[n + 1..])
  {
    EndsInNewline(v);
    hide LineLength;
    CutAt(v, n);
  }

  lemma CutAt(v: seq<byte>, n: nat)
    requires n < |v|
    ensures v == v[..n] + [v[n]] + v[n + 1..]
  {
  }

  lemma UnlinesFirst(first: seq<byte>, rest: seq<seq<byte>>)
    ensures Unlines([first] + rest) == first + [NEWLINE] + Unlines(rest)
  {
    assert ([first] + rest)[1..] == rest;
  }

  /** The lines of a file that ends in a newline are the file. */
  lemma {:induction false} LinesUnlines(v: seq<byte>)
    requires v == [] || v[|v| - 1] == NEWLINE
    ensures Unlines(Lines(v)) == v
    decreases |v|
  {
    var n := LineLength(v);
    UnlinesNothing();
    hide *;
    if v != [] {
      FirstLine(v, n);
      LinesUnlines(v[n + 1..]);
      UnlinesFirst(v[..n], Lines(v[n + 1..]));
    }
  }

  lemma UnlinesNothing()
    ensures Unlines(Lines([])) == []
  {
  }

  /** And the other way round. */
  lemma {:induction false} UnlinesLines(lines: seq<seq<byte>>)
    requires forall i :: 0 <= i < |lines| ==> NEWLINE !in lines[i]
    ensures Lines(Unlines(lines)) == lines
  {
    if lines != [] {
      var first, rest := lines[0], Unlines(lines[1..]);
      var v := first + [NEWLINE] + rest;
      UnlinesLines(lines[1..]);
      assert v[..|first|] == first && v[|first| + 1..] == rest;
      LineLengthIs(v, |first|);
    }
  }

  /** The lines as a reader sees them that cuts a line after every BUFSIZE bytes without a newline. */
  function Segments(v: seq<byte>): seq<seq<byte>>
    decreases |v|
  {
    var n := LineLength(v);
    if |v| == 0 then []
    else if n >= BUFSIZE then [v[..BUFSIZE]] + Segments(v[BUFSIZE..])
    else if n == |v| then [v]
    else [v[..n]] + Segments(v[n + 1..])
  }

  /** Piece by piece: the first n bytes of v hold no newline, and are followed by one, by the end of v, or by
      more of a line that is already 1024 bytes long. */
  lemma SegmentsMean(v: seq<byte>, n: nat)
    requires n <= |v| && NEWLINE !in v[..n]
    ensures n < |v| && n < 1024 && v[n] == NEWLINE ==> Segments(v) == [v[..n]] + Segments(v[n + 1..])
    ensures 0 < n == |v| < 1024 ==> Segments(v) == [v]
    ensures n == 1024 ==> Segments(v) == [v[..n]] + Segments(v[n..])
  {
    hide *;
    LineLengthAtLeast(v, n);
    if n == |v| || v[n] == NEWLINE {
      LineLengthIs(v, n);
    }
    SegmentsBy(v, LineLength(v));
  }

  lemma SegmentsBy(v: seq<byte>, n: nat)
    requires n == LineLength(v)
    ensures BUFSIZE <= n ==> Segments(v) == [v[..BUFSIZE]] + Segments(v[BUFSIZE..])
    ensures n < |v| && n < BUFSIZE ==> Segments(v) == [v[..n]] + Segments(v[n + 1..])
    ensures 0 < n == |v| < BUFSIZE ==> Segments(v) == [v]
    ensures BUFSIZE == 1024
  {
    if BUFSIZE <= n {
      LongPiece(v);
    } else if n < |v| {
      ShortPiece(v, n);
    } else {
      hide LineLength;
    }
  }

  lemma LongPiece(v: seq<byte>)
    requires BUFSIZE <= LineLength(v)
    ensures Segments(v) == [v[..BUFSIZE]] + Segments(v[BUFSIZE..])
  {
    hide LineLength;
  }

  lemma ShortPiece(v: seq<byte>, n: nat)
    requires n == LineLength(v) < |v| && n < BUFSIZE
    ensures Segments(v) == [v[..n]] + Segments(v[n + 1..])
  {
    hide LineLength;
  }

  lemma LinesBy(v: seq<byte>, n: nat)
    requires n == LineLength(v)
    ensures n < |v| ==> Lines(v) == [v[..n]] + Lines(v[n + 1..])
    ensures 0 < n == |v| ==> Lines(v) == [v]
    ensures v == [] ==> Lines(v) == Segments(v) == []
  {
    hide LineLength;
  }

  ghost predicate AllShort(lines: seq<seq<byte>>) {
    forall i :: 0 <= i < |lines| ==> |lines[i]| < BUFSIZE
  }

  /** The reader sees exactly the lines if and only if every line, with its newline, fits its buffer. */
  lemma {:induction false} SegmentsAreLines(v: seq<byte>)
    requires v == [] || v[|v| - 1] == NEWLINE
    ensures Segments(v) == Lines(v) <==> AllShort(Lines(v))
    decreases |v|
  {
    hide Segments, Lines, LineLength, AllShort;
    var n := LineLength(v);
    LinesBy(v, n);
    SegmentsBy(v, n);
    if v == [] {
      ShortNone();
    } else {
      EndsInNewline(v);
      var first, rest := v[..n], v[n + 1..];
      ShortCons(first, Lines(rest));
      if n >= BUFSIZE {
        SegmentsAtLeast(v);
      } else {
        SegmentsAreLines(rest);
        SameRest(first, Segments(rest), Lines(rest));
      }
    }
  }

  lemma ShortNone()
    ensures AllShort([])
  {
  }

  lemma ShortCons(first: seq<byte>, rest: seq<seq<byte>>)
    ensures AllShort([first] + rest) <==> |first| < BUFSIZE && AllShort(rest)
  {
    if AllShort([first] + rest) {
      assert ([first] + rest)[0] == first;
      assert forall i :: 0 <= i < |rest| ==> rest[i] == ([first] + rest)[i + 1];
    }
  }

  lemma SameRest(first: seq<byte>, a: seq<seq<byte>>, b: seq<seq<byte>>)
    ensures [first] + a == [first] + b <==> a == b
  {
    assert ([first] + a)[1..] == a && ([first] + b)[1..] == b;
  }

  /** Cutting a line makes more pieces than there are lines. */
  lemma {:induction false} SegmentsAtLeast(v: seq<byte>)
    ensures |Segments(v)| >= |Lines(v)|
    ensures BUFSIZE <= LineLength(v) < |v| ==> |Segments(v)| > |Lines(v)|
    decreases |v|
  {
    hide Segments, Lines, LineLength;
    var n := LineLength(v);
    LinesBy(v, n);
    SegmentsBy(v, n);
    if n >= BUFSIZE {
      var w := v[BUFSIZE..];
      SegmentsAtLeast(w);
      LineLengthAfter(v, BUFSIZE);
      LinesBy(w, n - BUFSIZE);
      assert n < |v| ==> w[n - BUFSIZE + 1..] == v[n + 1..];
    } else if n < |v| {
      SegmentsAtLeast(v[n + 1..]);
    }
  }
}
