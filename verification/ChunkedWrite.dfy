/** Writing a byte range into fixed-size chunks: the arithmetic the controller and the node cache share. */
module ChunkedWrite {
  import opened Bytes
  import FlatFile

  /** The last chunk a write touches, (off + len - 1) / cs; the division truncates -1 toward zero. */
  function LastChunk(cs: nat, off: nat, len: nat): int
    requires cs > 0
  {
    if off + len == 0 then (if cs == 1 then -1 else 0) else ChunkIndex(cs, off + len - 1)
  }

  predicate Touches(cs: nat, off: nat, len: nat, i: nat)
    requires cs > 0
  {
    ChunkIndex(cs, off) <= i <= LastChunk(cs, off, len)
  }

  function ExpectedLen(cs: nat, size: nat, i: nat): int {
    if Start(cs, i) + cs > size then size - Start(cs, i) else cs
  }

  /** Zero-extend `was` to the expected length, then copy the write's slice over it. */
  function WrittenChunk(cs: nat, was: seq<Byte>, size: nat, off: nat, data: seq<Byte>, i: nat): (r: seq<Byte>)
    requires cs > 0 && off + |data| <= size
    requires Touches(cs, off, |data|, i)
  {
    WriteSlice(cs, off, data, i);
    var buf := FlatFile.Extend(was, ExpectedLen(cs, size, i));
    var writeStart, writeEnd := Max(off - Start(cs, i), 0), Min(off + |data| - Start(cs, i), cs);
    var dataStart, dataEnd := Max(Start(cs, i) - off, 0), Min(Start(cs, i) + cs - off, |data|);
    buf[..writeStart] + data[dataStart..dataEnd] + buf[writeEnd..]
  }

  lemma WriteSlice(cs: nat, off: nat, data: seq<Byte>, i: nat)
    requires cs > 0
    requires Touches(cs, off, |data|, i)
    ensures Start(cs, i) < off + |data| || (off == 0 && data == [] && i == 0)
    ensures off < Start(cs, i) + cs
    ensures 0 <= Max(Start(cs, i) - off, 0) <= Min(Start(cs, i) + cs - off, |data|)
    ensures 0 <= Max(off - Start(cs, i), 0) <= Min(off + |data| - Start(cs, i), cs)
    ensures Min(Start(cs, i) + cs - off, |data|) - Max(Start(cs, i) - off, 0) ==
            Min(off + |data| - Start(cs, i), cs) - Max(off - Start(cs, i), 0)
    ensures forall size: nat :: off + |data| <= size ==>
              0 <= Min(off + |data| - Start(cs, i), cs) <= ExpectedLen(cs, size, i)
  {
    IndexUnique(cs, i, off);
    if off + |data| >= 1 {
      IndexUnique(cs, i, off + |data| - 1);
    }
  }

  /** Where a touched chunk ends up: its length, and each of its bytes. */
  lemma WrittenChunkBytes(cs: nat, was: seq<Byte>, size: nat, off: nat, data: seq<Byte>, i: nat, b: nat)
    requires cs > 0 && off + |data| <= size && b < cs
    requires Touches(cs, off, |data|, i)
    requires |was| <= ExpectedLen(cs, size, i)
    ensures |WrittenChunk(cs, was, size, off, data, i)| == ExpectedLen(cs, size, i)
    ensures At(WrittenChunk(cs, was, size, off, data, i), b) ==
            if off <= Start(cs, i) + b < off + |data| then data[Start(cs, i) + b - off] else At(was, b)
  {
    hide Start, ChunkIndex;
    WriteSlice(cs, off, data, i);
  }

  lemma WrittenChunkLength(cs: nat, was: seq<Byte>, size: nat, off: nat, data: seq<Byte>, i: nat)
    requires cs > 0 && off + |data| <= size
    requires Touches(cs, off, |data|, i)
    ensures |WrittenChunk(cs, was, size, off, data, i)| == Max(|was|, ExpectedLen(cs, size, i))
  {
    hide Start, ChunkIndex;
    WriteSlice(cs, off, data, i);
  }

  /** A chunk that is not touched holds no byte of the write. */
  lemma UntouchedBytes(cs: nat, off: nat, len: nat, i: nat, b: nat)
    requires cs > 0 && b < cs && !Touches(cs, off, len, i)
    ensures !(off <= Start(cs, i) + b < off + len)
  {
    hide Start, ChunkIndex;
    IndexUnique(cs, i, off);
    if off + len > 0 {
      IndexUnique(cs, i, off + len - 1);
    }
  }

  lemma FirstTouched(cs: nat, off: nat, len: nat)
    requires cs > 0 && len > 0
    ensures Touches(cs, off, len, ChunkIndex(cs, off))
  {
    IndexBounds(cs, off);
    IndexUnique(cs, ChunkIndex(cs, off), off + len - 1);
  }
}
