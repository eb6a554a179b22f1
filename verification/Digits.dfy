/** Number conversion: itoa, strrev and the zero-padded hexadecimal form of printf
    (student-distrib/lib.c). */
module Digits {
  import opened Bytes
  import opened FileSystem

  const UINT32 := 0x1_0000_0000
  const ZERO: byte := 48 // '0'

  /** lookup[d], for the table of digits and capital letters. */
  function DigitChar(d: nat): (c: byte)
    requires d < 36
  {
    if d < 10 then 48 + d else 55 + d
  }

  predicate IsDigit(c: byte, radix: nat) {
    48 <= c < 48 + Min(radix, 10) || 65 <= c < 55 + radix
  }

  function DigitValue(c: byte): int {
    if c <= 57 then c - 48 else c - 55
  }

  /** What a numeral denotes, most significant digit first. */
  function Parse(s: seq<byte>, radix: nat): int {
    if s == [] then 0 else Parse(s[..|s| - 1], radix) * radix + DigitValue(s[|s| - 1])
  }

  ghost predicate IsNumeral(s: seq<byte>, radix: nat) {
    forall i :: 0 <= i < |s| ==> IsDigit(s[i], radix)
  }

  /** The digits of a number, least significant first; none for zero. */
  function Backwards(value: nat, radix: nat): seq<byte>
    requires 2 <= radix <= 36
  {
    if value == 0 then []
    else
      Shrinks(value, radix);
      [DigitChar(value % radix)] + Backwards(value / radix, radix)
  }

  function Reverse(s: seq<byte>): (r: seq<byte>)
    ensures |r| == |s| && forall i :: 0 <= i < |s| ==> r[i] == s[|s| - 1 - i]
  {
    if s == [] then [] else Reverse(s[1..]) + [s[0]]
  }

  function Numeral(value: nat, radix: nat): seq<byte>
    requires 2 <= radix <= 36
  {
    if value == 0 then [ZERO] else Reverse(Backwards(value, radix))
  }

  /** What a numeral denotes, digit by digit: '0' to '9' count 0 to 9 and 'A' to 'Z' 10 to 35, and each digit
      further to the left counts radix times as much. */
  lemma ParseMeans(s: seq<byte>, c: byte, radix: nat)
    requires 48 <= c <= 57 || 65 <= c <= 90
    ensures Parse([], radix) == 0
    ensures Parse(s + [c], radix) == radix * Parse(s, radix) + if c <= 57 then c - 48 else c - 55
  {
    ParseExtend(s, c, radix);
  }

  lemma ParseExtend(s: seq<byte>, c: byte, radix: nat)
    ensures Parse(s + [c], radix) == Parse(s, radix) * radix + DigitValue(c)
  {
    assert (s + [c])[..|s|] == s;
  }

  lemma {:induction false} BackwardsDenotes(value: nat, radix: nat)
    requires 2 <= radix <= 36
    ensures var s := Reverse(Backwards(value, radix));
      Parse(s, radix) == value && IsNumeral(s, radix) && (s != [] ==> s[0] != ZERO)
    decreases value
  {
    if value == 0 {
    } else {
      hide Parse, IsNumeral, Backwards, Reverse;
      BackwardsDenotes(value / radix, radix);
      ReverseExtend(value, radix);
      QuotientIsZero(value, radix);
      NumeralExtends(Reverse(Backwards(value / radix, radix)), value / radix, value % radix, radix);
    }
  }

  lemma NumeralExtends(s: seq<byte>, q: nat, d: nat, radix: nat)
    requires 2 <= radix <= 36 && d < radix
    requires Parse(s, radix) == q && IsNumeral(s, radix) && (s != [] ==> s[0] != ZERO)
    requires s == [] ==> d != 0
    ensures var r := s + [DigitChar(d)];
      Parse(r, radix) == q * radix + d && IsNumeral(r, radix) && r[0] != ZERO
  {
    ParseExtend(s, DigitChar(d), radix);
  }

  lemma ReverseExtend(value: nat, radix: nat)
    requires 2 <= radix <= 36 && value != 0
    ensures Reverse(Backwards(value, radix))
         == Reverse(Backwards(value / radix, radix)) + [DigitChar(value % radix)]
  {
    var rest := Backwards(value / radix, radix);
    var c := DigitChar(value % radix);
    assert ([c] + rest)[1..] == rest && ([c] + rest)[0] == c;
  }

  lemma QuotientIsZero(value: nat, radix: nat)
    requires 2 <= radix <= 36 && value != 0
    ensures Backwards(value / radix, radix) == [] ==> value % radix != 0
    ensures value / radix * radix + value % radix == value
  {
    if Backwards(value / radix, radix) == [] {
      assert value / radix == 0;
      assert value == value / radix * radix + value % radix;
    }
  }

  /** Parsing what itoa leaves gives the number back; it has no leading zero unless it is 0. */
  lemma NumeralDenotes(value: nat, radix: nat)
    requires 2 <= radix <= 36
    ensures var s := Numeral(value, radix);
      && Parse(s, radix) == value && IsNumeral(s, radix)
      && s != [] && (s[0] == ZERO ==> value == 0 && s == [ZERO]) && NUL !in s
  {
    BackwardsDenotes(value, radix);
    if value == 0 {
      assert [ZERO][..0] == [];
    }
  }

  lemma {:induction false} ParsePositive(s: seq<byte>, radix: nat)
    requires 2 <= radix <= 36 && IsNumeral(s, radix)
    ensures Parse(s, radix) >= 0 && (s != [] && s[0] != ZERO ==> Parse(s, radix) > 0)
  {
    if s != [] {
      var n := |s| - 1;
      ParsePositive(s[..n], radix);
      Scale(1, radix, Parse(s[..n], radix));
      assert DigitValue(s[n]) >= 0 && (s[n] != ZERO ==> DigitValue(s[n]) > 0);
      assert n > 0 ==> s[..n][0] == s[0];
    }
  }

  lemma DivBack(p: nat, d: nat, radix: nat)
    requires d < radix
    ensures (p * radix + d) / radix == p && (p * radix + d) % radix == d
  {
    var v := p * radix + d;
    var q, r := v / radix, v % radix;
    assert v == q * radix + r;
    if q < p {
      Larger(q, p, radix);
    } else if p < q {
      Larger(p, q, radix);
    }
  }

  /** There is only one such numeral, so itoa's is the usual one. */
  lemma {:induction false} NumeralIsUnique(s: seq<byte>, radix: nat)
    requires 2 <= radix <= 36 && IsNumeral(s, radix) && s != [] && (s[0] == ZERO ==> s == [ZERO])
    ensures Parse(s, radix) >= 0 && Numeral(Parse(s, radix), radix) == s
  {
    ParsePositive(s, radix);
    if s == [ZERO] {
      assert [ZERO][..0] == [];
    } else {
      BackwardsIs(s, radix);
    }
  }

  lemma {:induction false} BackwardsIs(s: seq<byte>, radix: nat)
    requires 2 <= radix <= 36 && IsNumeral(s, radix) && (s != [] ==> s[0] != ZERO)
    ensures Parse(s, radix) >= 0 && Reverse(Backwards(Parse(s, radix), radix)) == s
  {
    ParsePositive(s, radix);
    if s != [] {
      var n := |s| - 1;
      var p, d := Parse(s[..n], radix), DigitValue(s[n]);
      ParsePositive(s[..n], radix);
      BackwardsIs(s[..n], radix);
      DivBack(p, d, radix);
      assert DigitChar(d) == s[n];
      assert Backwards(Parse(s, radix), radix) == [s[n]] + Backwards(p, radix);
      assert s == s[..n] + [s[n]];
    }
  }

  lemma {:induction false} BackwardsLength(value: nat, radix: nat, n: nat)
    requires 2 <= radix <= 36 && value < Power(radix, n)
    ensures |Backwards(value, radix)| <= n
    decreases n
  {
    if value != 0 {
      assert n > 0;
      var q, p := value / radix, Power(radix, n - 1);
      assert Power(radix, n) == p * radix;
      assert |Backwards(value, radix)| == 1 + |Backwards(q, radix)|;
      hide *;
      DivTimes(value, radix);
      if q >= p {
        Scale(p, q, radix);
      }
      BackwardsLength(q, radix, n - 1);
    }
  }

  lemma DivTimes(value: nat, radix: nat)
    requires radix > 0
    ensures value / radix * radix <= value
  {
    assert value == value / radix * radix + value % radix;
  }

  function Power(b: nat, n: nat): nat {
    if n == 0 then 1 else Power(b, n - 1) * b
  }

  lemma Scale(a: nat, b: nat, d: nat)
    requires a <= b
    ensures a * d <= b * d
  {
    if a < b { Larger(a, b, d); }
  }

  /** Memory with s written at `at`. */
  ghost function Written(mem: seq<byte>, at: nat, s: seq<byte>): (now: seq<byte>)
    requires at + |s| <= |mem|
    ensures |now| == |mem|
  {
    mem[..at] + s + mem[at + |s|..]
  }

  lemma WrittenNothing(mem: seq<byte>, at: nat)
    requires at <= |mem|
    ensures Written(mem, at, []) == mem
  {
  }

  lemma WrittenBack(mem: seq<byte>, at: nat)
    requires at <= |mem|
    ensures at + |CString(mem[at..])| <= |mem| && Written(mem, at, CString(mem[at..])) == mem
  {
  }

  lemma WrittenOne(mem: seq<byte>, at: nat, s: seq<byte>, c: byte)
    requires at + |s| < |mem|
    ensures Written(mem, at, s)[at + |s| := c] == Written(mem, at, s + [c])
  {
  }

  lemma WrittenOver(mem: seq<byte>, at: nat, s: seq<byte>, r: seq<byte>)
    requires at + |s| < |mem| && |r| == |s|
    ensures Written(Written(mem, at, s + [NUL]), at, r) == Written(mem, at, r + [NUL])
  {
  }

  lemma WrittenString(mem: seq<byte>, at: nat, s: seq<byte>)
    requires NUL !in s && at + |s| < |mem|
    ensures var now := Written(mem, at, s + [NUL]);
      CString(now[at..]) == s && NUL in now[at..]
  {
    var now := Written(mem, at, s + [NUL]);
    assert now[at..][..|s|] == s && now[at..][|s|] == NUL;
    CStringIs(now[at..], |s|);
  }

  /** A string with its first and last n bytes exchanged, end for end. */
  ghost function Turned(s: seq<byte>, n: nat): (t: seq<byte>)
    ensures |t| == |s|
  {
    seq(|s|, k requires 0 <= k < |s| => if n <= k < |s| - n then s[k] else s[|s| - 1 - k])
  }

  lemma TurnedStep(mem: seq<byte>, at: nat, s: seq<byte>, n: nat)
    requires 2 * n < |s| - 1 && at + |s| <= |mem|
    ensures var end, now := |s| - 1 - n, Written(mem, at, Turned(s, n));
      now[at + end := now[at + n]][at + n := now[at + end]] == Written(mem, at, Turned(s, n + 1))
  {
  }

  lemma TurnedEnds(s: seq<byte>, n: nat)
    requires 2 * n >= |s| - 1
    ensures Turned(s, n) == Reverse(s) && Turned(s, 0) == s
  {
    hide Reverse;
    forall k | 0 <= k < |s| ensures Turned(s, n)[k] == s[|s| - 1 - k] == Reverse(s)[k] {
    }
  }

  /** The loop of strrev. */
  method Turn(buf: array<byte>, at: nat, length: nat, ghost s: seq<byte>)
    requires at + length <= buf.Length && |s| == length && buf[..] == Written(buf[..], at, s)
    modifies buf
    ensures buf[..] == Written(old(buf[..]), at, Reverse(s))
  {
    hide *;
    ghost var before := buf[..];
    TurnedEnds(s, |s|);
    var beg: int, end: int := 0, length - 1;
    while beg < end
      invariant 0 <= beg <= end + 2 && end == length - 1 - beg
      invariant buf[..] == Written(before, at, Turned(s, beg))
    {
      TurnedStep(before, at, s, beg);
      var tmp := buf[at + end];
      buf[at + end] := buf[at + beg];
      buf[at + beg] := tmp;
      beg, end := beg + 1, end - 1;
    }
    TurnedEnds(s, beg);
  }

  /** strrev: turns the C string at `at` around in place, and touches nothing else. */
  method StrRev(buf: array<byte>, at: nat)
    requires at <= buf.Length && NUL in buf[at..]
    modifies buf
    ensures buf[..] == Written(old(buf[..]), at, Reverse(old(CString(buf[at..]))))
  {
    hide Reverse, Written;
    WrittenBack(buf[..], at);
    var length := StrLen(buf[at..]);
    Turn(buf, at, length, CString(buf[at..]));
  }

  lemma Shrinks(value: nat, radix: nat)
    requires 2 <= radix && value > 0
    ensures value / radix < value
  {
    var q := value / radix;
    assert value == q * radix + value % radix;
    Scale(2, radix, q);
  }

  /** One round of the loop of itoa: the digit of the lowest place, and the rest of the number. */
  method LowestDigit(value: nat, radix: nat) returns (c: byte, rest: nat)
    requires 2 <= radix <= 36 && value > 0
    ensures Backwards(value, radix) == [c] + Backwards(rest, radix) && rest < value
  {
    Shrinks(value, radix);
    c, rest := DigitChar(value % radix), value / radix;
  }

  /** The loop of itoa: the digits, lowest place first. */
  method PlaceDigits(value: nat, buf: array<byte>, at: nat, radix: nat) returns (length: nat)
    requires 2 <= radix <= 36 && at + |Backwards(value, radix)| <= buf.Length
    modifies buf
    ensures length == |Backwards(value, radix)|
    ensures buf[..] == Written(old(buf[..]), at, Backwards(value, radix))
  {
    ghost var before, written: seq<byte> := buf[..], [];
    assert Backwards(0, radix) == [];
    hide *;
    WrittenNothing(before, at);
    var newval: nat := value;
    length := 0;
    while newval > 0
      invariant length == |written| && Backwards(value, radix) == written + Backwards(newval, radix)
      invariant buf[..] == Written(before, at, written)
      decreases newval
    {
      var c, rest := LowestDigit(newval, radix);
      assert written + ([c] + Backwards(rest, radix)) == written + [c] + Backwards(rest, radix);
      WrittenOne(before, at, written, c);
      buf[at + length] := c;
      written, newval, length := written + [c], rest, length + 1;
    }
  }

  /** itoa: the numeral, ended by NUL, at `at`. */
  method Itoa(value: nat, buf: array<byte>, at: nat, radix: nat)
    requires value < UINT32 && 2 <= radix <= 36
    requires at + |Numeral(value, radix)| < buf.Length
    modifies buf
    ensures buf[..] == Written(old(buf[..]), at, Numeral(value, radix) + [NUL])
  {
    if value == 0 {
      buf[at] := ZERO;
      buf[at + 1] := NUL;
      return;
    }
    ghost var before, s := buf[..], Backwards(value, radix);
    assert Numeral(value, radix) == Reverse(s) && |Reverse(s)| == |s|;
    hide *;
    var length := PlaceDigits(value, buf, at, radix);
    WrittenOne(before, at, s, NUL);
    buf[at + length] := NUL;
    BackwardsNonNul(value, radix);
    WrittenString(before, at, s);
    WrittenOver(before, at, s, Reverse(s));
    StrRev(buf, at);
  }

  lemma {:induction false} BackwardsNonNul(value: nat, radix: nat)
    requires 2 <= radix <= 36
    ensures NUL !in Backwards(value, radix)
    decreases value
  {
    if value != 0 {
      BackwardsNonNul(value / radix, radix);
    }
  }

  function Zeros(n: nat): seq<byte> {
    seq(n, _ => ZERO)
  }

  lemma {:induction false} LeadingZeros(n: nat, s: seq<byte>, radix: nat)
    requires radix >= 2 && IsNumeral(s, radix)
    ensures Parse(Zeros(n) + s, radix) == Parse(s, radix) && IsNumeral(Zeros(n) + s, radix)
  {
    var t := Zeros(n) + s;
    if s != [] {
      LeadingZeros(n, s[..|s| - 1], radix);
      assert t[..|t| - 1] == Zeros(n) + s[..|s| - 1];
    } else if n > 0 {
      LeadingZeros(n - 1, s, radix);
      assert t[..n - 1] == Zeros(n - 1) + s;
    }
  }

  lemma HexLength(value: nat)
    requires value < UINT32
    ensures |Numeral(value, 16)| <= 8
  {
    assert Power(16, 4) == 65536;
    assert Power(16, 8) == UINT32;
    BackwardsLength(value, 16, 8);
  }

  /** The padding loop of printf: zeros from `start` up to index 8. */
  method PadWithZeros(conv: array<byte>, start: nat)
    requires start <= 8 <= conv.Length
    modifies conv
    ensures conv[start..] == Zeros(8 - start) + old(conv[8..])
  {
    var i := start;
    ghost var tail := conv[8..];
    while i < 8
      invariant start <= i <= 8 && conv[start..i] == Zeros(i - start) && conv[8..] == tail
    {
      conv[i] := ZERO;
      i := i + 1;
    }
    assert conv[start..] == conv[start..8] + conv[8..];
  }

  /** What %#x puts on the screen: exactly eight hexadecimal digits that denote the value. */
  method PrintAlternateHex(value: nat) returns (shown: seq<byte>)
    requires value < UINT32
    ensures |shown| == 8 && IsNumeral(shown, 16) && Parse(shown, 16) == value
  {
    hide Numeral, CString, Parse, IsNumeral, Zeros;
    HexLength(value);
    NumeralDenotes(value, 16);
    ghost var s := Numeral(value, 16);
    var conv := new byte[64];
    ghost var before := conv[..];
    Itoa(value, conv, 8, 16);
    WrittenString(before, 8, s);
    var start := StrLen(conv[8..]);
    ghost var tail := conv[8..];
    PadWithZeros(conv, start);
    shown := CString(conv[start..]);
    PaddedString(conv[start..], start, s, tail);
    LeadingZeros(8 - start, s, 16);
  }

  lemma PaddedString(mem: seq<byte>, n: nat, s: seq<byte>, tail: seq<byte>)
    requires n == |s| <= 8 && |tail| > n && mem == Zeros(8 - n) + tail
    requires NUL in tail && CString(tail) == s
    ensures CString(mem) == Zeros(8 - n) + s && |CString(mem)| == 8
  {
    assert mem[..8] == Zeros(8 - n) + s;
    CStringIs(mem, 8);
  }
}
