/** Bytes, byte strings and the chunk arithmetic the storage modules share. */
module Bytes {

  type Byte = b: int | 0 <= b < 256

  function Zeros(n: nat): (z: seq<Byte>)
    ensures |z| == n
    ensures forall k :: 0 <= k < n ==> z[k] == 0
  {
    seq(n, _ => 0)
  }

  /** The byte at `p`, reading zero outside `s`: how holes and short chunks read. */
  function At(s: seq<Byte>, p: int): Byte {
    if 0 <= p < |s| then s[p] else 0
  }

  /** The bytes [a, b) of `s`, zero where `s` has none. */
  function Window(s: seq<Byte>, a: nat, b: nat): (r: seq<Byte>)
    requires a <= b
    ensures |r| == b - a
    ensures forall k :: 0 <= k < |r| ==> r[k] == At(s, a + k)
  {
    seq<Byte>(b - a, k requires k >= 0 => At(s, a + k))
  }

  /** A slice of a slice is a slice. */
  lemma SubSlice<T>(s: seq<T>, a: nat, b: nat, c: nat, d: nat)
    requires a <= c <= d <= b <= |s|
    ensures s[a..b][c - a..d - a] == s[c..d]
  {
    var inner := s[a..b][c - a..d - a];
    forall k | 0 <= k < d - c
      ensures inner[k] == s[c..d][k]
    {
      assert inner[k] == s[a..b][c - a + k] == s[c + k];
    }
  }

  function Min(a: int, b: int): int {
    if a < b then a else b
  }

  function Max(a: int, b: int): int {
    if a < b then b else a
  }

  // ----- chunk arithmetic -----
  //
  // Files are cut into chunks of a fixed size cs. Start(cs, i) is i * cs (StartIsProduct) and ChunkIndex(cs, p) is
  // p / cs (IndexIsQuotient); they are defined by repeated addition and subtraction so that the proofs about chunks
  // stay inside linear arithmetic.

  /** The offset of chunk `i`. */
  function Start(cs: nat, i: nat): nat {
    if i == 0 then 0 else Start(cs, i - 1) + cs
  }

  /** The chunk holding position `p`. */
  function ChunkIndex(cs: nat, p: nat): nat
    requires cs > 0
  {
    if p < cs then 0 else 1 + ChunkIndex(cs, p - cs)
  }

  lemma {:induction false} StartIsProduct(cs: nat, i: nat)
    ensures Start(cs, i) == i * cs
  {
    if i > 0 {
      StartIsProduct(cs, i - 1);
    }
  }

  lemma {:induction false} StartMonotone(cs: nat, i: nat, j: nat)
    ensures i <= j ==> Start(cs, i) <= Start(cs, j)
    ensures i < j ==> Start(cs, i) + cs <= Start(cs, j)
    decreases j
  {
    if i < j {
      StartMonotone(cs, i, j - 1);
    }
  }

  /** Every position lies in exactly one chunk, the one ChunkIndex names. */
  lemma {:induction false} IndexBounds(cs: nat, p: nat)
    requires cs > 0
    ensures Start(cs, ChunkIndex(cs, p)) <= p < Start(cs, ChunkIndex(cs, p)) + cs
  {
    if p >= cs {
      IndexBounds(cs, p - cs);
    }
  }

  lemma IndexUnique(cs: nat, i: nat, p: nat)
    requires cs > 0
    ensures ChunkIndex(cs, p) == i <==> Start(cs, i) <= p < Start(cs, i) + cs
    ensures ChunkIndex(cs, p) <= i <==> p < Start(cs, i) + cs
    ensures i <= ChunkIndex(cs, p) <==> Start(cs, i) <= p
  {
    IndexBounds(cs, p);
    StartMonotone(cs, i, ChunkIndex(cs, p));
    StartMonotone(cs, ChunkIndex(cs, p), i);
  }

  lemma IndexIsQuotient(cs: nat, p: nat)
    requires cs > 0
    ensures ChunkIndex(cs, p) == p / cs
  {
    IndexBounds(cs, p);
    StartIsProduct(cs, ChunkIndex(cs, p));
    QuotientUnique(cs, p, ChunkIndex(cs, p));
  }

  lemma QuotientUnique(cs: int, x: int, i: int)
    requires cs > 0 && i * cs <= x < i * cs + cs
    ensures x / cs == i
  {
    var q := x / cs;
    assert q * cs <= x < q * cs + cs;
    ProductStep(cs, i, q);
    ProductStep(cs, q, i);
  }

  lemma ProductStep(cs: int, i: int, j: int)
    requires cs > 0
    ensures i < j ==> i * cs + cs <= j * cs
  {
    if i < j {
      assert (i + 1) * cs <= j * cs;
    }
  }

  /** The number of chunks that hold `size` bytes: (size + cs - 1) / cs. */
  function NumChunks(cs: nat, size: nat): nat
    requires cs > 0
  {
    ChunkIndex(cs, size + cs - 1)
  }

  lemma NumChunksBounds(cs: nat, size: nat, i: nat)
    requires cs > 0
    ensures i < NumChunks(cs, size) <==> Start(cs, i) < size
    ensures size > 0 ==> NumChunks(cs, size) >= 1
    ensures size <= Start(cs, NumChunks(cs, size))
  {
    IndexUnique(cs, i, size + cs - 1);
    IndexUnique(cs, 0, size + cs - 1);
    IndexBounds(cs, size + cs - 1);
    IndexUnique(cs, i + 1, size + cs - 1);
  }

  lemma RangeChunks(cs: nat, off: nat, end: nat)
    requires cs > 0 && off < end
    ensures ChunkIndex(cs, off) <= ChunkIndex(cs, end - 1)
  {
    IndexBounds(cs, off);
    IndexUnique(cs, ChunkIndex(cs, off), end - 1);
  }

  /** Where chunk `i` and its successor start, seen from a range that reaches into chunk `i`. */
  lemma ChunkBetween(cs: nat, off: nat, end: nat, i: nat)
    requires cs > 0 && off < end && ChunkIndex(cs, off) <= i <= ChunkIndex(cs, end - 1)
    ensures Start(cs, i) < end && off < Start(cs, i) + cs
    ensures i == ChunkIndex(cs, off) ==> Start(cs, i) <= off
    ensures i > ChunkIndex(cs, off) ==> Start(cs, i) > off
    ensures i < ChunkIndex(cs, end - 1) ==> Start(cs, i + 1) == Start(cs, i) + cs < end
    ensures i == ChunkIndex(cs, end - 1) ==> end <= Start(cs, i) + cs
  {
    IndexUnique(cs, i, off);
    IndexUnique(cs, i, end - 1);
    IndexUnique(cs, i + 1, end - 1);
  }
}
