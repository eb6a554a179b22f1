/** ece391cat's copy loop (syscalls/ece391cat.c). */
module Cat {
  import opened Bytes
  import FS = FileSystem

  /** What one read leaves at the front of the buffer. */
  lemma Chunk(v: seq<byte>, pos: nat, n: nat, before: seq<byte>, after: seq<byte>)
    requires pos <= |v| && n > 0 && |FS.Slice(v, pos, n)| <= |before|
    requires after == before[..0] + FS.Slice(v, pos, n) + before[|FS.Slice(v, pos, n)|..]
    ensures var cnt := |FS.Slice(v, pos, n)|;
      && cnt <= n && pos + cnt <= |v| && (cnt == 0 ==> pos == |v|)
      && v[..pos] + after[..cnt] == v[..pos + cnt]
  {
  }

  lemma SliceFits(v: seq<byte>, pos: nat, n: nat)
    ensures |FS.Slice(v, pos, n)| <= n
  {
  }

  /** One read of the loop. */
  method ReadChunk(fd: FS.Descriptor, buf: array<byte>) returns (cnt: nat)
    requires fd.Valid() && buf.Length == 1024
    modifies fd, buf
    ensures fd.Valid() && fd.Contents() == old(fd.Contents())
    ensures var v := fd.Contents();
      && fd.position == old(fd.position) + cnt <= |v| && cnt <= 1024 && (cnt == 0 ==> fd.position == |v|)
      && v[..old(fd.position)] + buf[..cnt] == v[..fd.position]
  {
    ghost var v, pos, before := fd.Contents(), fd.position, buf[..];
    assert FS.UnsignedLength(1024) == 1024 && pos <= |v|;
    hide *;
    SliceFits(v, pos, 1024);
    cnt := fd.Read(buf, 0, 1024);
    Chunk(v, pos, 1024, before, buf[..]);
  }

  /** The loop terminates, and has written the whole file. */
  method Copy(fd: FS.Descriptor) returns (out: seq<byte>)
    requires fd.Valid() && fd.position == 0
    modifies fd
    ensures fd.Valid() && out == fd.Contents() && fd.position == |fd.Contents()|
  {
    hide *;
    ghost var v := fd.Contents();
    var buf := new byte[1024](_ => 0);
    out := [];
    var cnt: nat := ReadChunk(fd, buf);
    while cnt != 0
      invariant fd.Valid() && fd.Contents() == v && cnt <= fd.position <= |v| && cnt <= 1024
      invariant out == v[..fd.position - cnt] && out + buf[..cnt] == v[..fd.position]
      invariant cnt == 0 ==> fd.position == |v|
      decreases |v| - fd.position, cnt
    {
      out := out + buf[..cnt];
      cnt := ReadChunk(fd, buf);
    }
  }
}
