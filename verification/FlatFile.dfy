/** The reference a file's storage is measured against: one flat array of bytes. */
module FlatFile {
  import opened Bytes

  /** `f` grown with zero bytes to length `n`, or `f` itself when it is long enough. */
  function Extend(f: seq<Byte>, n: nat): (r: seq<Byte>)
    ensures |r| == Max(|f|, n)
    ensures forall p :: 0 <= p < |r| ==> r[p] == At(f, p)
  {
    if n <= |f| then f else f + Zeros(n - |f|)
  }

  /** Overlay `data` at `off`; a gap before `off` reads zero. */
  function Write(f: seq<Byte>, off: nat, data: seq<Byte>): (r: seq<Byte>)
    ensures |r| == Max(|f|, off + |data|)
    ensures forall p :: 0 <= p < |r| ==>
              r[p] == if off <= p < off + |data| then data[p - off] else At(f, p)
  {
    var g := Extend(f, off + |data|);
    g[..off] + data + g[off + |data|..]
  }

  /** Cut to `n` bytes, or zero-extend to `n` bytes. */
  function Truncate(f: seq<Byte>, n: nat): (r: seq<Byte>)
    ensures |r| == n
    ensures forall p :: 0 <= p < n ==> r[p] == At(f, p)
  {
    if n <= |f| then f[..n] else Extend(f, n)
  }

  /** Zero the bytes of [off, off+len); unless `keepSize`, the file grows to hold the hole. */
  function Punch(f: seq<Byte>, off: nat, len: nat, keepSize: bool): (r: seq<Byte>)
    ensures |r| == if keepSize then |f| else Max(|f|, off + len)
    ensures forall p :: 0 <= p < |r| ==> r[p] == if off <= p < off + len then 0 else At(f, p)
  {
    var g := if keepSize then f else Extend(f, off + len);
    var e := Min(off + len, |g|);
    if e <= off then g else g[..off] + Zeros(e - off) + g[e..]
  }

  /** At most `len` bytes from `off`; `len <= 0` reads to the end. */
  function Read(f: seq<Byte>, off: nat, len: int): (r: seq<Byte>)
    ensures off >= |f| ==> r == []
    ensures off < |f| ==> r == f[off..if len <= 0 || off + len > |f| then |f| else off + len]
  {
    if off >= |f| then [] else
    f[off..if len <= 0 || off + len > |f| then |f| else off + len]
  }

  /** A write changes the bytes it covers and no others. */
  lemma Overlaid(file: seq<Byte>, off: nat, data: seq<Byte>, a: nat, b: nat)
    requires off + |data| <= |file| && a <= b <= |file|
    ensures |Write(file, off, data)| == |file| && Write(file, off, data)[off..off + |data|] == data
    ensures b <= off || off + |data| <= a ==> Write(file, off, data)[a..b] == file[a..b]
  {
  }
}
