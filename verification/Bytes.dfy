/** Bytes, C strings and the small wrappers the other modules share. */
module Bytes {

  datatype Option<+T> = None | Some(value: T)

  type byte = x: int | 0 <= x < 256

  type word = x: int | 0 <= x < 0x1_0000

  const NUL: byte := 0
  const TAB: byte := 9
  const NEWLINE: byte := 10
  const RETURN: byte := 13
  const BACKSPACE: byte := 8
  const SPACE: byte := 32
  const COLON: byte := 58

  function Min(a: int, b: int): int {
    if a < b then a else b
  }

  function Max(a: int, b: int): int {
    if a < b then b else a
  }

  /** The C string that starts at the front of `mem`: everything before the first NUL. */
  function CString(mem: seq<byte>): (s: seq<byte>)
    ensures |s| <= |mem| && s == mem[..|s|] && NUL !in s
    ensures |s| < |mem| ==> mem[|s|] == NUL
  {
    if mem == [] || mem[0] == NUL then [] else [mem[0]] + CString(mem[1..])
  }

  /** At most the first n bytes. */
  function Take(s: seq<byte>, n: nat): seq<byte> {
    if n <= |s| then s[..n] else s
  }

  lemma TakeIs(s: seq<byte>, n: nat)
    ensures Take(s, n) <= s && |Take(s, n)| == if n <= |s| then n else |s|
  {
  }

  /** A C string is fixed by where its NUL stands. */
  lemma {:induction false} CStringIs(mem: seq<byte>, n: nat)
    requires n <= |mem| && NUL !in mem[..n]
    requires n < |mem| ==> mem[n] == NUL
    ensures CString(mem) == mem[..n]
  {
    if n > 0 {
      assert mem[0] == mem[..n][0] && mem[..n][1..] == mem[1..][..n - 1];
      CStringIs(mem[1..], n - 1);
    }
  }

  /** Nothing before the terminator is NUL. */
  lemma {:induction false} CStringNonNul(mem: seq<byte>, i: nat)
    requires i < |CString(mem)|
    ensures mem[i] == CString(mem)[i] != NUL
  {
    assert CString(mem)[i] in CString(mem);
  }

  /** Products grow by at least one factor. */
  lemma {:induction false} Larger(a: nat, b: nat, d: nat)
    requires a < b
    ensures a * d + d <= b * d
    decreases b
  {
    assert b * d == (b - 1) * d + d;
    if a < b - 1 {
      Larger(a, b - 1, d);
    }
  }

  /** The remainder is the only one that fits. */
  lemma ModOf(k: nat, q: nat, d: nat, r: nat)
    requires k == q * d + r && r < d
    ensures k % d == r
  {
    var q', r' := k / d, k % d;
    assert k == q' * d + r';
    if q < q' {
      Larger(q, q', d);
    } else if q' < q {
      Larger(q', q, d);
    }
  }
}
