/** The read-only block file system: directory lookup and block-walking reads
    (student-distrib/file_system.c). */
module FileSystem {
  import opened Bytes

  const FILE_NAME_LENGTH := 32
  const DATA_BLOCKS_MAX_NUM := 1023
  const BOOT_BLOCK_DIR_ENTRY_SIZE := 63
  const DATA_BLOCK_SIZE := 4096

  datatype Inode = Inode(length: nat, blocks: seq<nat>)
  datatype Dentry = Dentry(name: seq<byte>, kind: nat, inode: nat)
  datatype Image = Image(dentries: seq<Dentry>, inodes: seq<Inode>, data: seq<seq<byte>>)

  ghost predicate WellFormedInode(img: Image, node: Inode) {
    && |node.blocks| == DATA_BLOCKS_MAX_NUM
    && node.length <= DATA_BLOCKS_MAX_NUM * DATA_BLOCK_SIZE
    && forall k :: 0 <= k < DATA_BLOCKS_MAX_NUM && k * DATA_BLOCK_SIZE < node.length ==> node.blocks[k] < |img.data|
  }

  ghost predicate WellFormedDentry(img: Image, entry: Dentry) {
    |entry.name| == FILE_NAME_LENGTH && NUL in entry.name && entry.kind <= 2 && entry.inode < |img.inodes|
  }

  /** What file_sys_init takes for granted about the image it is handed. */
  ghost predicate WellFormed(img: Image) {
    && |img.dentries| == BOOT_BLOCK_DIR_ENTRY_SIZE
    && |img.inodes| < BOOT_BLOCK_DIR_ENTRY_SIZE
    && (forall d :: d in img.dentries ==> |d.name| == FILE_NAME_LENGTH && NUL in d.name)
    && (forall i :: 0 <= i < |img.inodes| ==> WellFormedDentry(img, img.dentries[i]))
    && (forall i :: 0 <= i < |img.inodes| ==> WellFormedInode(img, img.inodes[i]))
    && (forall b :: 0 <= b < |img.data| ==> |img.data[b]| == DATA_BLOCK_SIZE)
  }

  // ---- The flat file a reader observes ----

  /** The byte at position p of a file, as readers see it: the stored byte, except that the file's
      last byte always reads as a newline. */
  ghost function ViewByte(img: Image, inode: nat, p: nat): byte
    requires WellFormed(img) && inode < |img.inodes| && p < img.inodes[inode].length
  {
    var node := img.inodes[inode];
    if p == node.length - 1 then NEWLINE
    else
      assert WellFormedInode(img, node);
      assert p / DATA_BLOCK_SIZE * DATA_BLOCK_SIZE < node.length;
      img.data[node.blocks[p / DATA_BLOCK_SIZE]][p % DATA_BLOCK_SIZE]
  }

  ghost function View(img: Image, inode: nat): (v: seq<byte>)
    requires WellFormed(img) && inode < |img.inodes|
    ensures |v| == img.inodes[inode].length
    ensures |v| > 0 ==> v[|v| - 1] == NEWLINE
  {
    var n := img.inodes[inode].length;
    seq(n, p requires 0 <= p < n => ViewByte(img, inode, p))
  }

  /** What one read of n bytes at offset pos delivers from the flat file v. */
  function Slice(v: seq<byte>, pos: nat, n: nat): (s: seq<byte>) {
    if |v| <= pos then [] else v[pos..Min(pos + n, |v|)]
  }

  /** Byte `pos` of block `index` of a file is byte index * 4096 + pos of the flat file. */
  lemma ViewAt(img: Image, inode: nat, index: nat, pos: nat)
    requires WellFormed(img) && inode < |img.inodes| && pos < DATA_BLOCK_SIZE
    requires index * DATA_BLOCK_SIZE + pos < img.inodes[inode].length
    ensures var node := img.inodes[inode]; var p := index * DATA_BLOCK_SIZE + pos;
      && |node.blocks| == DATA_BLOCKS_MAX_NUM && index < DATA_BLOCKS_MAX_NUM && node.blocks[index] < |img.data|
      && |img.data[node.blocks[index]]| == DATA_BLOCK_SIZE
      && View(img, inode)[p] == if p == node.length - 1 then NEWLINE else img.data[node.blocks[index]][pos]
  {
    var p := index * DATA_BLOCK_SIZE + pos;
    assert p / DATA_BLOCK_SIZE == index && p % DATA_BLOCK_SIZE == pos;
    assert WellFormedInode(img, img.inodes[inode]);
  }

  /** A cursor at byte p of a file: its block, the index of the next one, and a position in the block. */
  ghost predicate Cursor(img: Image, inode: nat, blockIndex: nat, block: nat, pos: nat, p: nat)
    requires WellFormed(img) && inode < |img.inodes|
  {
    var node := img.inodes[inode];
    && 1 <= blockIndex <= |node.blocks| && block == node.blocks[blockIndex - 1] < |img.data|
    && pos < DATA_BLOCK_SIZE && p == (blockIndex - 1) * DATA_BLOCK_SIZE + pos < node.length
  }

  lemma CursorAt(img: Image, inode: nat, index: nat, pos: nat, p: nat)
    requires WellFormed(img) && inode < |img.inodes| && pos < DATA_BLOCK_SIZE
    requires p == index * DATA_BLOCK_SIZE + pos < img.inodes[inode].length
    ensures var node := img.inodes[inode];
      index < |node.blocks| && Cursor(img, inode, index + 1, node.blocks[index], pos, p)
  {
    ViewAt(img, inode, index, pos);
  }

  lemma CursorByte(img: Image, inode: nat, blockIndex: nat, block: nat, pos: nat, p: nat)
    requires WellFormed(img) && inode < |img.inodes| && Cursor(img, inode, blockIndex, block, pos, p)
    ensures block < |img.data| && pos < DATA_BLOCK_SIZE == |img.data[block]| && p < img.inodes[inode].length
    ensures View(img, inode)[p] == if p == img.inodes[inode].length - 1 then NEWLINE else img.data[block][pos]
  {
    hide View, WellFormed;
    ViewAt(img, inode, blockIndex - 1, pos);
  }

  lemma CursorOn(img: Image, inode: nat, blockIndex: nat, block: nat, pos: nat, p: nat)
    requires WellFormed(img) && inode < |img.inodes| && Cursor(img, inode, blockIndex, block, pos, p)
    requires p + 1 < img.inodes[inode].length
    ensures if pos + 1 < DATA_BLOCK_SIZE then Cursor(img, inode, blockIndex, block, pos + 1, p + 1)
            else blockIndex < |img.inodes[inode].blocks|
                 && Cursor(img, inode, blockIndex + 1, img.inodes[inode].blocks[blockIndex], 0, p + 1)
  {
    hide View, WellFormed;
    if pos + 1 == DATA_BLOCK_SIZE {
      CursorAt(img, inode, blockIndex, 0, p + 1);
    }
  }

  /** The first n bytes from `offset` on stand in the buffer, which is otherwise as it was. */
  ghost predicate Written(was: seq<byte>, now: seq<byte>, v: seq<byte>, offset: nat, at: nat, n: nat) {
    at + n <= |was| && offset + n <= |v| && now == was[..at] + v[offset..offset + n] + was[at + n..]
  }

  lemma WrittenMore(was: seq<byte>, now: seq<byte>, v: seq<byte>, offset: nat, at: nat, n: nat)
    requires Written(was, now, v, offset, at, n) && at + n < |was| && offset + n < |v|
    ensures |now| == |was| && Written(was, now[at + n := v[offset + n]], v, offset, at, n + 1)
  {
    assert v[offset..offset + n + 1] == v[offset..offset + n] + [v[offset + n]];
  }

  lemma WrittenNothing(was: seq<byte>, v: seq<byte>, offset: nat, at: nat)
    requires at <= |was| && offset <= |v|
    ensures Written(was, was, v, offset, at, 0)
  {
  }

  lemma WrittenSlice(was: seq<byte>, now: seq<byte>, v: seq<byte>, offset: nat, length: nat, at: nat, n: nat)
    requires Written(was, now, v, offset, at, n) && n <= length && (n == length || offset + n == |v|) && offset < |v|
    ensures n == |Slice(v, offset, length)| && now == was[..at] + Slice(v, offset, length) + was[at + n..]
  {
  }

  lemma SliceLength(v: seq<byte>, pos: nat, n: nat)
    requires pos <= |v|
    ensures |Slice(v, pos, n)| == Min(n, |v| - pos)
  {
  }

  lemma NothingRead(was: seq<byte>, v: seq<byte>, offset: nat, length: nat, at: nat)
    requires |v| <= offset && at + |Slice(v, offset, length)| <= |was|
    ensures Slice(v, offset, length) == [] && was == was[..at] + [] + was[at + 0..]
  {
  }

  /** One byte of the copy; the last byte of the file is then replaced by a newline. */
  method CopyByte(img: Image, inode: nat, buf: array<byte>, k: nat, block: nat, pos: nat, p: nat) returns (last: bool)
    requires WellFormed(img) && inode < |img.inodes| && k < buf.Length && p < img.inodes[inode].length
    requires block < |img.data| && pos < |img.data[block]|
    requires View(img, inode)[p] == if p == img.inodes[inode].length - 1 then NEWLINE else img.data[block][pos]
    modifies buf
    ensures last <==> p + 1 == img.inodes[inode].length
    ensures buf[..] == old(buf[..])[k := View(img, inode)[p]]
  {
    hide WellFormed, View;
    ghost var was := buf[..];
    buf[k] := img.data[block][pos];
    last := p + 1 >= img.inodes[inode].length;
    if last {
      buf[k] := NEWLINE;
      assert buf[..] == was[k := NEWLINE];
    }
  }

  /** The copy loop over 4 KB blocks writes exactly the requested slice of the flat file and
      touches nothing else of the buffer. */
  method ReadData(img: Image, inode: nat, offset: nat, buf: array<byte>, at: nat, length: nat) returns (count: nat)
    requires WellFormed(img) && inode < |img.inodes|
    requires at + |Slice(View(img, inode), offset, length)| <= buf.Length
    modifies buf
    ensures count == |Slice(View(img, inode), offset, length)|
    ensures buf[..] == old(buf[..at]) + Slice(View(img, inode), offset, length) + old(buf[at + count..])
  {
    hide View, ViewByte, WellFormed, Written, Slice, Cursor;
    ghost var v, was := View(img, inode), buf[..];
    count := 0;
    var node := img.inodes[inode];
    if node.length <= offset {
      NothingRead(was, v, offset, length, at);
      return;
    }
    SliceLength(v, offset, length);
    var blockIndex := offset / DATA_BLOCK_SIZE;
    var currentPos := offset % DATA_BLOCK_SIZE;
    CursorAt(img, inode, blockIndex, currentPos, offset);
    var block := node.blocks[blockIndex];
    blockIndex := blockIndex + 1;
    WrittenNothing(was, v, offset, at);
    var i := 0;
    while i < length
      invariant 0 <= i <= length && count == i && 0 <= blockIndex && 0 <= currentPos
      invariant offset + i < node.length && Cursor(img, inode, blockIndex, block, currentPos, offset + i)
      invariant Written(was, buf[..], v, offset, at, i)
      decreases length - i
    {
      CursorByte(img, inode, blockIndex, block, currentPos, offset + i);
      WrittenMore(was, buf[..], v, offset, at, i);
      var last := CopyByte(img, inode, buf, at + i, block, currentPos, offset + i);
      currentPos := currentPos + 1;
      count := count + 1;
      if last {
        break;
      }
      CursorOn(img, inode, blockIndex, block, currentPos - 1, offset + i);
      if currentPos >= DATA_BLOCK_SIZE {
        currentPos := 0;
        block := node.blocks[blockIndex];
        blockIndex := blockIndex + 1;
      }
      i := i + 1;
    }
    WrittenSlice(was, buf[..], v, offset, length, at, count);
  }

  /** A signed byte count, read as the unsigned length that read_data takes. */
  function UnsignedLength(nbytes: int): (n: nat)
    requires -0x8000_0000 <= nbytes < 0x8000_0000
    ensures n < 0x1_0000_0000 && (n - nbytes) % 0x1_0000_0000 == 0
  {
    if nbytes < 0 then nbytes + 0x1_0000_0000 else nbytes
  }

  /** An open regular file: the inode and position of one descriptor, read by file_read. */
  class Descriptor {
    const img: Image
    const inode: nat
    var position: nat

    ghost predicate Valid()
      reads this
    {
      WellFormed(img) && inode < |img.inodes| && position <= img.inodes[inode].length
    }

    ghost function Contents(): seq<byte>
      reads this
      requires Valid()
    {
      View(img, inode)
    }

    constructor (img: Image, inode: nat)
      requires WellFormed(img) && inode < |img.inodes|
      ensures Valid() && position == 0 && this.img == img && this.inode == inode
    {
      this.img := img;
      this.inode := inode;
      position := 0;
    }

    method Read(buf: array<byte>, at: nat, nbytes: int) returns (count: nat)
      requires Valid() && -0x8000_0000 <= nbytes < 0x8000_0000
      requires at + |Slice(Contents(), position, UnsignedLength(nbytes))| <= buf.Length
      modifies this`position, buf
      ensures Valid() && count == |Slice(Contents(), old(position), UnsignedLength(nbytes))|
      ensures var data := Slice(Contents(), old(position), UnsignedLength(nbytes));
        buf[..] == old(buf[..at]) + data + old(buf[at + count..])
      ensures position == old(position) + count
    {
      count := ReadData(img, inode, position, buf, at, UnsignedLength(nbytes));
      position := position + count;
    }
  }

  // ---- Chunk independence ----

  /** The concatenation of successive reads of the given sizes, starting at pos. */
  function Reads(v: seq<byte>, pos: nat, sizes: seq<nat>): seq<byte>
    decreases |sizes|
  {
    if sizes == [] then []
    else
      var s := Slice(v, pos, sizes[0]);
      s + Reads(v, pos + |s|, sizes[1..])
  }

  function Sum(sizes: seq<nat>): nat {
    if sizes == [] then 0 else sizes[0] + Sum(sizes[1..])
  }

  lemma SliceIs(v: seq<byte>, pos: nat, n: nat, next: nat)
    requires pos <= |v| && next == Min(pos + n, |v|)
    ensures Slice(v, pos, n) == v[pos..next]
  {
  }

  lemma FirstRead(v: seq<byte>, pos: nat, sizes: seq<nat>, next: nat)
    requires pos <= |v| && sizes != [] && next == Min(pos + sizes[0], |v|)
    ensures Reads(v, pos, sizes) == v[pos..next] + Reads(v, next, sizes[1..])
  {
    hide Slice;
    SliceIs(v, pos, sizes[0], next);
  }

  lemma SumFirst(sizes: seq<nat>)
    requires sizes != []
    ensures Sum(sizes) == sizes[0] + Sum(sizes[1..])
  {
  }

  lemma ReadsNothing(v: seq<byte>, pos: nat)
    requires pos <= |v|
    ensures Reads(v, pos, []) == [] == v[pos..pos] && Sum([]) == 0
  {
  }

  /** Where the chunk boundaries fall does not matter: only the total requested does. */
  lemma {:induction false} ReadsAreChunkIndependent(v: seq<byte>, pos: nat, sizes: seq<nat>)
    requires pos <= |v|
    ensures Reads(v, pos, sizes) == v[pos..Min(pos + Sum(sizes), |v|)]
    decreases |sizes|
  {
    hide Reads, Sum, Slice;
    if sizes == [] {
      ReadsNothing(v, pos);
    } else {
      var next := Min(pos + sizes[0], |v|);
      FirstRead(v, pos, sizes, next);
      SumFirst(sizes);
      ReadsAreChunkIndependent(v, next, sizes[1..]);
      Adjacent(v, pos, next, Min(next + Sum(sizes[1..]), |v|));
    }
  }

  lemma Adjacent(v: seq<byte>, a: nat, b: nat, c: nat)
    requires a <= b <= c <= |v|
    ensures v[a..b] + v[b..c] == v[a..c]
  {
  }

  /** Any sequence of positive-size reads from the start whose last one delivers nothing has
      delivered the whole file. */
  lemma ReadsUntilEmptyDeliverAll(v: seq<byte>, sizes: seq<nat>, last: nat)
    requires last > 0
    requires Slice(v, |Reads(v, 0, sizes)|, last) == []
    ensures Reads(v, 0, sizes + [last]) == Reads(v, 0, sizes) == v
  {
    ReadsAreChunkIndependent(v, 0, sizes);
    ReadsAreChunkIndependent(v, 0, sizes + [last]);
    SumAppend(sizes, last);
  }

  lemma {:induction false} SumAppend(sizes: seq<nat>, last: nat)
    ensures Sum(sizes + [last]) == Sum(sizes) + last
  {
    if sizes != [] {
      assert (sizes + [last])[1..] == sizes[1..] + [last];
      SumAppend(sizes[1..], last);
    }
  }

  // ---- Directory lookup ----

  /** Two strings that agree up to index i, and what they hold there. */
  lemma TakesDiffer(c1: seq<byte>, c2: seq<byte>, n: nat, i: nat)
    requires i < n && i <= |c1| && i <= |c2| && c1[..i] == c2[..i]
    requires i < |c1| && i < |c2| ==> c1[i] != c2[i]
    ensures Take(c1, n) == Take(c2, n) <==> i == |c1| == |c2|
  {
    if i < |c1| && i < |c2| {
      assert Take(c1, n)[i] != Take(c2, n)[i];
    } else if i == |c1| == |c2| {
      assert c1[..i] == c1 && c2[..i] == c2;
    } else {
      assert |Take(c1, n)| != |Take(c2, n)|;
    }
  }

  /** The lib.c strncmp, whose value the callers here only compare with zero. */
  method StrNCmp(s1: seq<byte>, s2: seq<byte>, n: nat) returns (r: int)
    requires NUL in s1 || n <= |s1|
    requires NUL in s2 || n <= |s2|
    ensures r == 0 <==> Take(CString(s1), n) == Take(CString(s2), n)
  {
    ghost var c1, c2 := CString(s1), CString(s2);
    assert |c1| == |s1| ==> n <= |s1|;
    assert |c2| == |s2| ==> n <= |s2|;
    for i := 0 to n
      invariant i <= |c1| && i <= |c2| && c1[..i] == c2[..i]
    {
      if i < |c1| { CStringNonNul(s1, i); }
      if i < |c2| { CStringNonNul(s2, i); }
      if s1[i] != s2[i] || s1[i] == NUL {
        TakesDiffer(c1, c2, n, i);
        hide *;
        r := s1[i] as int - s2[i] as int;
        return;
      }
    }
    return 0;
  }

  /** The first entry, among as many entries as there are inodes, that carries this name. */
  ghost function LookupFrom(img: Image, i: nat, name: seq<byte>): Option<Dentry>
    requires WellFormed(img) && i <= |img.inodes|
    decreases |img.inodes| - i
  {
    if i == |img.inodes| then None
    else if CString(img.dentries[i].name) == name then Some(img.dentries[i])
    else LookupFrom(img, i + 1, name)
  }

  ghost function Lookup(img: Image, name: seq<byte>): Option<Dentry>
    requires WellFormed(img)
  {
    LookupFrom(img, 0, name)
  }

  lemma EntryUsable(img: Image, i: nat)
    requires WellFormed(img) && i < |img.inodes|
    ensures i < |img.dentries| && img.dentries[i].kind <= 2 && img.dentries[i].inode < |img.inodes|
  {
    assert WellFormedDentry(img, img.dentries[i]);
  }

  lemma {:induction false} LookupFails(img: Image, i: nat, name: seq<byte>)
    requires WellFormed(img) && i <= |img.inodes|
    ensures LookupFrom(img, i, name).None? <==>
      forall k :: i <= k < |img.inodes| ==> CString(img.dentries[k].name) != name
    decreases |img.inodes| - i
  {
    hide WellFormed, CString;
    if i < |img.inodes| {
      EntryUsable(img, i);
      LookupFails(img, i + 1, name);
      assert LookupFrom(img, i, name).None? ==> CString(img.dentries[i].name) != name;
    }
  }

  lemma {:induction false} LookupUsable(img: Image, i: nat, name: seq<byte>)
    requires WellFormed(img) && i <= |img.inodes|
    ensures var r := LookupFrom(img, i, name);
      r.Some? ==> CString(r.value.name) == name && r.value.kind <= 2 && r.value.inode < |img.inodes|
    decreases |img.inodes| - i
  {
    hide WellFormed, CString;
    if i < |img.inodes| {
      EntryUsable(img, i);
      LookupUsable(img, i + 1, name);
    }
  }

  lemma {:induction false} LookupFirst(img: Image, i: nat, name: seq<byte>)
    requires WellFormed(img) && i <= |img.inodes|
    ensures var r := LookupFrom(img, i, name);
      r.Some? ==> exists k :: i <= k < |img.inodes| && r.value == img.dentries[k]
                    && CString(img.dentries[k].name) == name
                    && forall j :: i <= j < k ==> CString(img.dentries[j].name) != name
    decreases |img.inodes| - i
  {
    hide WellFormed, CString;
    if i < |img.inodes| {
      EntryUsable(img, i);
      if CString(img.dentries[i].name) == name {
        assert LookupFrom(img, i, name).value == img.dentries[i];
      } else {
        LookupFirst(img, i + 1, name);
      }
    }
  }

  /** A lookup fails exactly on the names that no scanned entry carries, and otherwise finds the first
      entry that does; that entry is usable: it has a known type and a real inode. */
  lemma LookupFindsNames(img: Image, i: nat, name: seq<byte>)
    requires WellFormed(img) && i <= |img.inodes|
    ensures LookupFrom(img, i, name).None? <==>
      forall k :: i <= k < |img.inodes| ==> CString(img.dentries[k].name) != name
    ensures var r := LookupFrom(img, i, name);
      r.Some? ==> CString(r.value.name) == name && r.value.kind <= 2 && r.value.inode < |img.inodes|
    ensures var r := LookupFrom(img, i, name);
      r.Some? ==> exists k :: i <= k < |img.inodes| && r.value == img.dentries[k]
                    && CString(img.dentries[k].name) == name
                    && forall j :: i <= j < k ==> CString(img.dentries[j].name) != name
  {
    hide WellFormed, CString, LookupFrom;
    LookupFails(img, i, name);
    LookupUsable(img, i, name);
    LookupFirst(img, i, name);
  }

  /** read_dentry_by_name: `fname` is the memory at the name pointer, up to and including its NUL. */
  method ReadDentryByName(img: Image, fname: seq<byte>) returns (r: Option<Dentry>)
    requires WellFormed(img) && NUL in fname
    ensures r == Lookup(img, CString(fname))
  {
    ghost var name := CString(fname);
    var length := StrLen(fname);
    if length > FILE_NAME_LENGTH {
      LookupFindsNames(img, 0, name);
      return None;
    }
    for i := 0 to |img.inodes|
      invariant Lookup(img, name) == LookupFrom(img, i, name)
    {
      assert WellFormedDentry(img, img.dentries[i]);
      var c := StrNCmp(fname, img.dentries[i].name, FILE_NAME_LENGTH);
      if c == 0 {
        return Some(img.dentries[i]);
      }
    }
    return None;
  }

  method StrLen(s: seq<byte>) returns (length: nat)
    requires NUL in s
    ensures length == |CString(s)|
  {
    length := 0;
    while s[length] != NUL
      invariant length <= |CString(s)| < |s|
      decreases |s| - length
    {
      length := length + 1;
    }
    if length < |CString(s)| { CStringNonNul(s, length); }
  }
}
