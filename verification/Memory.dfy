/** memset, memcpy and memmove as the loops their assembly performs (student-distrib/lib.c). Memory is
    an array whose index 0 is a 4-byte aligned address, so an index is aligned when its address is. */
module Memory {
  import opened Bytes

  /** now is was with its n bytes from src laid over the n bytes from dst, and nothing else changed. */
  ghost predicate Moves(was: seq<byte>, now: seq<byte>, dst: nat, src: nat, n: nat) {
    && dst + n <= |was| && src + n <= |was|
    && now == was[..dst] + was[src..src + n] + was[dst + n..]
  }

  /** The source index of destination index k, when the source lies d above the destination. */
  function Shifted(k: int, d: int): int {
    k + d
  }

  lemma MovesAt(was: seq<byte>, now: seq<byte>, dst: nat, src: nat, n: nat)
    requires Moves(was, now, dst, src, n)
    ensures |now| == |was|
    ensures forall k {:trigger now[k]} :: 0 <= k < |was| ==>
      now[k] == if dst <= k < dst + n then was[Shifted(k, src - dst)] else was[k]
  {
    forall k | 0 <= k < |was| ensures now[k] == if dst <= k < dst + n then was[Shifted(k, src - dst)] else was[k] {
      if dst <= k < dst + n {
        assert now[k] == was[src..src + n][k - dst];
      }
    }
  }

  lemma MovesFrom(was: seq<byte>, now: seq<byte>, dst: nat, src: nat, n: nat)
    requires dst + n <= |was| == |now| && src + n <= |was|
    requires forall k {:trigger now[k]} :: 0 <= k < |was| ==>
      now[k] == if dst <= k < dst + n then was[Shifted(k, src - dst)] else was[k]
    ensures Moves(was, now, dst, src, n)
  {
    var want := was[..dst] + was[src..src + n] + was[dst + n..];
    forall k | 0 <= k < |was| ensures now[k] == want[k] {
      if dst <= k < dst + n {
        assert want[k] == was[src..src + n][k - dst] == was[Shifted(k, src - dst)];
      } else if k < dst {
      } else {
        assert want[k] == was[dst + n..][k - (dst + n)];
      }
    }
  }

  /** The overlap-safe move: forwards when the source is not below the destination, backwards
      otherwise, one byte at a time. */
  method MemMove(mem: array<byte>, dst: nat, src: nat, n: nat)
    requires dst + n <= mem.Length && src + n <= mem.Length
    modifies mem
    ensures Moves(old(mem[..]), mem[..], dst, src, n)
  {
    ghost var was := mem[..];
    var esi: int, edi: int, ecx, step := src, dst, n, 1;
    if esi < edi {
      esi, edi, step := esi + ecx - 1, edi + ecx - 1, -1;
    }
    ghost var done := 0; // bytes moved
    while ecx != 0
      invariant 0 <= ecx && done + ecx == n
      invariant step == 1 ==> dst <= src && edi == dst + done && esi == src + done
      invariant step == -1 ==> src < dst && edi == dst + ecx - 1 && esi == src + ecx - 1
      invariant step == 1 || step == -1
      invariant forall k {:trigger mem[k]} :: 0 <= k < mem.Length ==>
        mem[k] == if dst <= k < dst + n && (if step == 1 then k < edi else edi < k)
                  then was[Shifted(k, src - dst)] else was[k]
      decreases ecx
    {
      mem[edi] := mem[esi];
      esi, edi, ecx, done := esi + step, edi + step, ecx - 1, done + 1;
    }
    MovesFrom(was, mem[..], dst, src, n);
  }

  /** Moving a bytes and then the next b is moving a + b, as long as the first part does not spoil the
      source of the second. */
  lemma MovesThen(was: seq<byte>, mid: seq<byte>, now: seq<byte>, dst: nat, src: nat, a: nat, b: nat)
    requires dst <= src || src + a + b <= dst
    requires Moves(was, mid, dst, src, a) && Moves(mid, now, dst + a, src + a, b)
    ensures Moves(was, now, dst, src, a + b)
  {
    assert dst + a + b <= |was| && src + a + b <= |was|;
    hide Moves;
    MovesAt(was, mid, dst, src, a);
    MovesAt(mid, now, dst + a, src + a, b);
    forall k | dst + a <= k < dst + a + b ensures now[k] == was[Shifted(k, src - dst)] {
      assert now[k] == mid[Shifted(k, src - dst)];
    }
    MovesFrom(was, now, dst, src, a + b);
  }

  lemma MovesNothing(was: seq<byte>, dst: nat, src: nat)
    requires dst <= |was| && src <= |was|
    ensures Moves(was, was, dst, src, 0)
  {
  }

  // ---- memcpy ----

  /** memcpy stores a whole dword when its destination is aligned and as many bytes are left, and
      otherwise one byte: single bytes up to an aligned address, dwords, and the last bytes. */
  function StoreSize(dst: nat, n: nat): (k: nat)
    requires n > 0
    ensures 1 <= k <= n && k <= 4
  {
    if dst % 4 == 0 && n >= 4 then 4 else 1
  }

  /** One store: its k bytes are read before they are written. */
  function Stored(mem: seq<byte>, dst: nat, src: nat, k: nat): (now: seq<byte>)
    requires dst + k <= |mem| && src + k <= |mem|
    ensures |now| == |mem|
  {
    mem[..dst] + mem[src..src + k] + mem[dst + k..]
  }

  lemma StoredAt(mem: seq<byte>, dst: nat, src: nat, k: nat, p: nat)
    requires dst + k <= |mem| && src + k <= |mem| && p < |mem|
    ensures Stored(mem, dst, src, k)[p] == if dst <= p < dst + k then mem[src + (p - dst)] else mem[p]
  {
    MovesAt(mem, Stored(mem, dst, src, k), dst, src, k);
    assert dst <= p < dst + k ==> mem[src..src + k][p - dst] == mem[src + (p - dst)];
  }

  /** The memory memcpy leaves, wherever its destination and source lie. */
  function Copied(mem: seq<byte>, dst: nat, src: nat, n: nat): (now: seq<byte>)
    requires dst + n <= |mem| && src + n <= |mem|
    ensures |now| == |mem|
    decreases n
  {
    if n == 0 then mem
    else
      var k := StoreSize(dst, n);
      Copied(Stored(mem, dst, src, k), dst + k, src + k, n - k)
  }

  lemma CopiedStep(mem: seq<byte>, dst: nat, src: nat, n: nat)
    requires dst + n <= |mem| && src + n <= |mem| && n > 0
    ensures var k := StoreSize(dst, n);
      Copied(mem, dst, src, n) == Copied(Stored(mem, dst, src, k), dst + k, src + k, n - k)
  {
  }

  /** movb. */
  method StoreByte(mem: array<byte>, dst: nat, src: nat)
    requires dst < mem.Length && src < mem.Length
    modifies mem
    ensures mem[..] == Stored(old(mem[..]), dst, src, 1)
  {
    mem[dst] := mem[src];
  }

  lemma FourStores(was: seq<byte>, dst: nat, src: nat)
    requires dst + 4 <= |was| && src + 4 <= |was|
    ensures was[dst := was[src]][dst + 1 := was[src + 1]][dst + 2 := was[src + 2]][dst + 3 := was[src + 3]]
         == Stored(was, dst, src, 4)
  {
  }

  /** movsl: the dword is read whole before it is written. */
  method StoreDword(mem: array<byte>, dst: nat, src: nat)
    requires dst + 4 <= mem.Length && src + 4 <= mem.Length
    modifies mem
    ensures mem[..] == Stored(old(mem[..]), dst, src, 4)
  {
    FourStores(mem[..], dst, src);
    mem[dst], mem[dst + 1], mem[dst + 2], mem[dst + 3] := mem[src], mem[src + 1], mem[src + 2], mem[src + 3];
  }

  lemma CopiesByte(mem: seq<byte>, dst: nat, src: nat, n: nat)
    requires dst + n <= |mem| && src + n <= |mem| && n > 0 && (dst % 4 != 0 || n < 4)
    ensures Copied(mem, dst, src, n) == Copied(Stored(mem, dst, src, 1), dst + 1, src + 1, n - 1)
  {
    hide Copied, Stored;
    CopiedStep(mem, dst, src, n);
  }

  lemma CopiesDword(mem: seq<byte>, dst: nat, src: nat, n: nat)
    requires dst + n <= |mem| && src + n <= |mem| && n >= 4 && dst % 4 == 0
    ensures Copied(mem, dst, src, n) == Copied(Stored(mem, dst, src, 4), dst + 4, src + 4, n - 4)
  {
    hide Copied, Stored;
    CopiedStep(mem, dst, src, n);
  }

  /** The copy that aligns the destination, moves whole dwords, and finishes byte by byte. */
  method MemCpy(mem: array<byte>, dst: nat, src: nat, n: nat)
    requires dst + n <= mem.Length && src + n <= mem.Length
    modifies mem
    ensures mem[..] == Copied(old(mem[..]), dst, src, n)
    ensures CopiesAll(dst, src, n) ==> Moves(old(mem[..]), mem[..], dst, src, n)
  {
    hide Moves, Stored, Copied, StoreSize, CopiesAll;
    ghost var was := mem[..];
    var esi, edi, ecx := src, dst, n;
    while ecx != 0 && edi % 4 != 0
      invariant ecx >= 0 && edi + ecx == dst + n && esi + ecx == src + n
      invariant Copied(mem[..], edi, esi, ecx) == Copied(was, dst, src, n)
    {
      CopiesByte(mem[..], edi, esi, ecx);
      StoreByte(mem, edi, esi);
      esi, edi, ecx := esi + 1, edi + 1, ecx - 1;
    }
    var edx := ecx % 4;
    ecx := ecx / 4;
    while ecx != 0
      invariant ecx >= 0 && 0 <= edx < 4 && edi + 4 * ecx + edx == dst + n && esi + 4 * ecx + edx == src + n
      invariant ecx == 0 || edi % 4 == 0
      invariant Copied(mem[..], edi, esi, 4 * ecx + edx) == Copied(was, dst, src, n)
    {
      CopiesDword(mem[..], edi, esi, 4 * ecx + edx);
      StoreDword(mem, edi, esi);
      esi, edi, ecx := esi + 4, edi + 4, ecx - 1;
    }
    while edx != 0
      invariant 0 <= edx < 4 && edi + edx == dst + n && esi + edx == src + n
      invariant Copied(mem[..], edi, esi, edx) == Copied(was, dst, src, n)
    {
      CopiesByte(mem[..], edi, esi, edx);
      StoreByte(mem, edi, esi);
      esi, edi, edx := esi + 1, edi + 1, edx - 1;
    }
    CopiedNothing(mem[..], edi, esi);
    if CopiesAll(dst, src, n) {
      CopiedMoves(was, dst, src, n);
    }
  }

  /** The first i bytes of one block stand in another, which is otherwise as it was. */
  ghost predicate Across(was: seq<byte>, now: seq<byte>, from: seq<byte>, i: nat) {
    i <= |from| && i <= |was| && now == from[..i] + was[i..]
  }

  lemma AcrossMore(was: seq<byte>, mid: seq<byte>, now: seq<byte>, from: seq<byte>, i: nat, k: nat)
    requires Across(was, mid, from, i) && i + k <= |from| && i + k <= |mid| == |was|
    requires now == mid[..i] + from[i..i + k] + mid[i + k..]
    ensures Across(was, now, from, i + k)
  {
  }

  lemma AcrossAll(was: seq<byte>, now: seq<byte>, from: seq<byte>, n: nat)
    ensures Across(was, was, from, 0)
    ensures Across(was, now, from, n) ==> n <= |from| && n <= |was| && now == from[..n] + was[n..]
  {
  }

  method AcrossByte(dest: array<byte>, src: array<byte>, i: nat, ghost was: seq<byte>)
    requires dest != src && i < dest.Length == |was| && i < src.Length && Across(was, dest[..], src[..], i)
    modifies dest
    ensures Across(was, dest[..], src[..], i + 1)
  {
    hide Across;
    ghost var mid := dest[..];
    dest[i] := src[i];
    AcrossMore(was, mid, dest[..], src[..], i, 1);
  }

  method AcrossDword(dest: array<byte>, src: array<byte>, i: nat, ghost was: seq<byte>)
    requires dest != src && i + 4 <= dest.Length == |was| && i + 4 <= src.Length && Across(was, dest[..], src[..], i)
    modifies dest
    ensures Across(was, dest[..], src[..], i + 4)
  {
    hide Across;
    ghost var mid := dest[..];
    dest[i], dest[i + 1], dest[i + 2], dest[i + 3] := src[i], src[i + 1], src[i + 2], src[i + 3];
    AcrossMore(was, mid, dest[..], src[..], i, 4);
  }

  /** memcpy between two blocks of memory that cannot overlap, wherever the destination starts. */
  method MemCpyAcross(dest: array<byte>, src: array<byte>, n: nat)
    requires dest != src && n <= dest.Length && n <= src.Length
    modifies dest
    ensures dest[..] == src[..n] + old(dest[n..])
  {
    hide Across;
    ghost var was := dest[..];
    AcrossAll(was, was, src[..], 0);
    var edi: nat := *;
    var i, ecx := 0, n;
    while ecx != 0 && edi % 4 != 0
      invariant ecx >= 0 && i + ecx == n && Across(was, dest[..], src[..], i)
    {
      AcrossByte(dest, src, i, was);
      i, edi, ecx := i + 1, edi + 1, ecx - 1;
    }
    var edx := ecx % 4;
    ecx := ecx / 4;
    while ecx != 0
      invariant ecx >= 0 && 0 <= edx < 4 && i + 4 * ecx + edx == n && Across(was, dest[..], src[..], i)
    {
      AcrossDword(dest, src, i, was);
      i, edi, ecx := i + 4, edi + 4, ecx - 1;
    }
    while edx != 0
      invariant 0 <= edx < 4 && i + edx == n && Across(was, dest[..], src[..], i)
    {
      AcrossByte(dest, src, i, was);
      i, edi, edx := i + 1, edi + 1, edx - 1;
    }
    AcrossAll(was, dest[..], src[..], n);
    assert src[..n] == src[..][..n] && was[n..] == old(dest[n..]);
  }

  /** The destination is not inside its source, or one aligned dword is all there is to copy. */
  predicate CopiesAll(dst: nat, src: nat, n: nat) {
    dst <= src || src + n <= dst || (dst % 4 == 0 && n == 4)
  }

  lemma CopiedNothing(mem: seq<byte>, dst: nat, src: nat)
    requires dst <= |mem| && src <= |mem|
    ensures Copied(mem, dst, src, 0) == mem
  {
  }

  lemma StoredMoves(mem: seq<byte>, dst: nat, src: nat, k: nat)
    requires dst + k <= |mem| && src + k <= |mem|
    ensures Moves(mem, Stored(mem, dst, src, k), dst, src, k)
  {
  }

  lemma AlignedDword(dst: nat)
    requires dst % 4 == 0
    ensures StoreSize(dst, 4) == 4
  {
  }

  lemma {:induction false} CopiedMoves(mem: seq<byte>, dst: nat, src: nat, n: nat)
    requires dst + n <= |mem| && src + n <= |mem| && CopiesAll(dst, src, n)
    ensures Moves(mem, Copied(mem, dst, src, n), dst, src, n)
    decreases n
  {
    hide Moves, Stored, Copied, StoreSize;
    CopiedNothing(mem, dst, src);
    if n == 0 {
      MovesNothing(mem, dst, src);
    } else {
      var k := StoreSize(dst, n);
      var mid := Stored(mem, dst, src, k);
      CopiedStep(mem, dst, src, n);
      StoredMoves(mem, dst, src, k);
      if dst <= src || src + n <= dst {
        CopiedMoves(mid, dst + k, src + k, n - k);
        MovesThen(mem, mid, Copied(mid, dst + k, src + k, n - k), dst, src, k, n - k);
      } else {
        AlignedDword(dst);
        CopiedNothing(mid, dst + 4, src + 4);
      }
    }
  }

  lemma {:induction false} CopiedElsewhere(mem: seq<byte>, dst: nat, src: nat, n: nat, p: nat)
    requires dst + n <= |mem| && src + n <= |mem| && p < dst
    ensures Copied(mem, dst, src, n)[p] == mem[p]
    decreases n
  {
    if n != 0 {
      var k := StoreSize(dst, n);
      CopiedElsewhere(Stored(mem, dst, src, k), dst + k, src + k, n - k, p);
    }
  }

  /** A byte whose source lies below the destination arrives: nothing has been stored there before. */
  lemma {:induction false} CopiedFromBelow(mem: seq<byte>, dst: nat, src: nat, n: nat, j: nat)
    requires dst + n <= |mem| && src + n <= |mem| && j < n && src + j < dst
    ensures Copied(mem, dst, src, n)[dst + j] == mem[src + j]
    decreases n
  {
    hide *;
    CopiedStep(mem, dst, src, n);
    var k := StoreSize(dst, n);
    var mid := Stored(mem, dst, src, k);
    if j < k {
      CopiedElsewhere(mid, dst + k, src + k, n - k, dst + j);
      StoredAt(mem, dst, src, k, dst + j);
    } else {
      CopiedFromBelow(mid, dst + k, src + k, n - k, j - k);
      StoredAt(mem, dst, src, k, src + j);
    }
  }

  /** The first byte whose source has been overwritten by the time it is read. */
  function FirstSpoiled(dst: nat, src: nat, n: nat): (j: nat)
    requires src < dst && n > 0
    ensures j >= dst - src
  {
    Max(dst - src, StoreSize(dst, n))
  }

  lemma SpoiledIsCopied(dst: nat, src: nat, n: nat)
    requires !CopiesAll(dst, src, n)
    ensures var j, k := FirstSpoiled(dst, src, n), StoreSize(dst, n);
      k <= j < n && dst <= src + j < dst + k
  {
  }

  lemma CopiedTwice(mem: seq<byte>, dst: nat, src: nat, n: nat, j: nat)
    requires dst + n <= |mem| && src + n <= |mem| && n > 0
    requires StoreSize(dst, n) <= j < n && dst <= src + j < dst + StoreSize(dst, n)
    ensures Copied(mem, dst, src, n)[dst + j] == mem[src + (src + j - dst)]
  {
    hide *;
    CopiedStep(mem, dst, src, n);
    var k := StoreSize(dst, n);
    CopiedFromBelow(Stored(mem, dst, src, k), dst + k, src + k, n - k, j - k);
    StoredAt(mem, dst, src, k, src + j);
  }

  /** It gets the byte that was written there, which came from further down the source. */
  lemma CopiedSpoils(mem: seq<byte>, dst: nat, src: nat, n: nat)
    requires dst + n <= |mem| && src + n <= |mem| && !CopiesAll(dst, src, n)
    ensures FirstSpoiled(dst, src, n) < n
    ensures var j := FirstSpoiled(dst, src, n);
      Copied(mem, dst, src, n)[dst + j] == mem[src + (src + j - dst)]
  {
    hide Copied;
    SpoiledIsCopied(dst, src, n);
    CopiedTwice(mem, dst, src, n, FirstSpoiled(dst, src, n));
  }

  lemma ArrivesAt(was: seq<byte>, now: seq<byte>, dst: nat, src: nat, n: nat, j: nat)
    requires Moves(was, now, dst, src, n) && j < n
    ensures |now| == |was| && now[dst + j] == was[src + j]
  {
    assert was[src..src + n][j] == was[src + j];
  }

  /** A memory that shows the damage: a single mark, on the byte that is taken twice. */
  lemma CopySpoils(size: nat, dst: nat, src: nat, n: nat) returns (mem: seq<byte>)
    requires dst + n <= size && src + n <= size && !CopiesAll(dst, src, n)
    ensures |mem| == size && !Moves(mem, Copied(mem, dst, src, n), dst, src, n)
  {
    var j := FirstSpoiled(dst, src, n);
    mem := seq(size, _ => 0);
    CopiedSpoils(mem, dst, src, n);
    mem := mem[src + (src + j - dst) := 1];
    CopiedSpoils(mem, dst, src, n);
    hide Copied, Moves;
    if Moves(mem, Copied(mem, dst, src, n), dst, src, n) {
      ArrivesAt(mem, Copied(mem, dst, src, n), dst, src, n, j);
    }
  }

  /** memcpy copies whatever the memory holds exactly when the destination is not inside its source,
      or one aligned dword is all there is to copy. */
  lemma CopiesExactly(size: nat, dst: nat, src: nat, n: nat)
    requires dst + n <= size && src + n <= size
    ensures (forall mem: seq<byte> :: |mem| == size ==> Moves(mem, Copied(mem, dst, src, n), dst, src, n))
       <==> dst <= src || src + n <= dst || (dst % 4 == 0 && n == 4)
  {
    if CopiesAll(dst, src, n) {
      forall mem: seq<byte> | |mem| == size ensures Moves(mem, Copied(mem, dst, src, n), dst, src, n) {
        CopiedMoves(mem, dst, src, n);
      }
    } else {
      var mem := CopySpoils(size, dst, src, n);
    }
  }

  /** What it leaves when the destination lies inside its source, by at least one store's length: the
      first bytes of the source, over and over. */
  lemma {:induction false} CopiedRepeats(mem: seq<byte>, dst: nat, src: nat, n: nat, j: nat)
    requires src < dst && dst + n <= |mem| && j < n && (dst - src >= 4 || n < 4)
    ensures Copied(mem, dst, src, n)[dst + j] == mem[src + Wrapped(j, dst - src)]
    decreases n
  {
    hide *;
    var d, k := dst - src, StoreSize(dst, n);
    StoreFits(dst, n, d);
    CopiedStep(mem, dst, src, n);
    var mid := Stored(mem, dst, src, k);
    if j < k {
      CopiedElsewhere(mid, dst + k, src + k, n - k, dst + j);
      StoredAt(mem, dst, src, k, dst + j);
      WrappedStep(j, 0, d);
    } else {
      CopiedRepeats(mid, dst + k, src + k, n - k, j - k);
      WrappedStep(j - k, k, d);
      StoredAt(mem, dst, src, k, src + k + Wrapped(j - k, d));
    }
  }

  lemma StoreFits(dst: nat, n: nat, d: nat)
    requires n > 0 && d > 0 && (d >= 4 || n < 4)
    ensures StoreSize(dst, n) <= d
  {
  }

  function Wrapped(j: nat, d: nat): (r: nat)
    requires d > 0
    ensures r < d
  {
    j % d
  }

  lemma WrappedStep(j: nat, k: nat, d: nat)
    requires 0 < d && k <= d
    ensures var r := Wrapped(j, d) + k; Wrapped(j + k, d) == if r < d then r else r - d
    ensures j < d ==> Wrapped(j, d) == j
  {
    var q, r := j / d, j % d;
    if r + k < d {
      ModOf(j + k, q, d, r + k);
    } else {
      assert (q + 1) * d == q * d + d;
      ModOf(j + k, q + 1, d, r + k - d);
    }
    if j < d {
      ModOf(j, 0, d, j);
    }
  }

  /** The low byte of a 32-bit argument, and the dword that repeats it. */
  function LowByte(c: int): byte {
    c % 256
  }

  function Repeated(b: byte): nat {
    b * 0x100_0000 + b * 0x1_0000 + b * 0x100 + b
  }

  function ByteOf(eax: nat, i: nat): byte
    requires i < 4
  {
    if i == 0 then eax % 0x100 else if i == 1 then eax / 0x100 % 0x100
    else if i == 2 then eax / 0x1_0000 % 0x100 else eax / 0x100_0000 % 0x100
  }

  lemma RepeatedBytes(b: byte, i: nat)
    requires i < 4
    ensures ByteOf(Repeated(b), i) == b
  {
    var eax := Repeated(b);
    if i == 0 {
      assert eax == (b * 0x1_0000 + b * 0x100 + b) * 0x100 + b;
    } else if i == 1 {
      assert eax / 0x100 == (b * 0x100 + b) * 0x100 + b;
    } else if i == 2 {
      assert eax / 0x1_0000 == b * 0x100 + b;
    } else {
      assert eax / 0x100_0000 == b;
    }
  }

  /** stosl. */
  method FillDword(mem: array<byte>, dst: nat, eax: nat)
    requires dst + 4 <= mem.Length
    modifies mem
    ensures forall k :: 0 <= k < mem.Length ==>
      mem[k] == if dst <= k < dst + 4 then ByteOf(eax, k - dst) else old(mem[k])
  {
    mem[dst], mem[dst + 1] := ByteOf(eax, 0), ByteOf(eax, 1);
    mem[dst + 2], mem[dst + 3] := ByteOf(eax, 2), ByteOf(eax, 3);
  }

  /** memset: the same split, storing the byte repeated as dwords. */
  method MemSet(mem: array<byte>, dst: nat, c: int, n: nat)
    requires dst + n <= mem.Length
    modifies mem
    ensures forall k :: 0 <= k < mem.Length ==> mem[k] == if dst <= k < dst + n then c % 256 else old(mem[k])
  {
    hide Repeated, ByteOf;
    var eax := Repeated(LowByte(c));
    forall i: nat | i < 4 ensures ByteOf(eax, i) == LowByte(c) { RepeatedBytes(LowByte(c), i); }
    var edi, ecx := dst, n;
    while ecx != 0 && edi % 4 != 0
      invariant 0 <= ecx <= n && edi == dst + n - ecx
      invariant forall k :: 0 <= k < mem.Length ==> mem[k] == if dst <= k < edi then LowByte(c) else old(mem[k])
    {
      mem[edi] := ByteOf(eax, 0);
      edi, ecx := edi + 1, ecx - 1;
    }
    var edx := ecx % 4;
    ecx := ecx / 4;
    while ecx != 0
      invariant 0 <= ecx && 0 <= edx && edi == dst + n - 4 * ecx - edx && dst <= edi
      invariant forall k :: 0 <= k < mem.Length ==> mem[k] == if dst <= k < edi then LowByte(c) else old(mem[k])
    {
      FillDword(mem, edi, eax);
      edi, ecx := edi + 4, ecx - 1;
    }
    while edx != 0
      invariant 0 <= edx && edi == dst + n - edx && dst <= edi
      invariant forall k :: 0 <= k < mem.Length ==> mem[k] == if dst <= k < edi then LowByte(c) else old(mem[k])
    {
      mem[edi] := ByteOf(eax, 0);
      edi, edx := edi + 1, edx - 1;
    }
  }
}
