/** Fixed-width little-endian numbers. */
module LittleEndian {
  import opened Bytes
  import opened BigEndian

  /** The low `w` bytes of `n`, least significant first. */
  function Put(n: nat, w: nat): (s: seq<Byte>)
    ensures |s| == w
  {
    if w == 0 then [] else [n % 256] + Put(n / 256, w - 1)
  }

  function Get(s: seq<Byte>): (n: nat)
    ensures n < Pow256(|s|)
  {
    if s == [] then 0 else s[0] + 256 * Get(s[1..])
  }

  lemma {:induction false} GetPut(n: nat, w: nat)
    requires n < Pow256(w)
    ensures Get(Put(n, w)) == n
    decreases w
  {
    if w > 0 {
      GetPut(n / 256, w - 1);
      assert Put(n, w)[1..] == Put(n / 256, w - 1);
    }
  }

  lemma {:induction false} PutZero(w: nat)
    ensures Put(0, w) == Zeros(w)
  {
    if w > 0 {
      PutZero(w - 1);
    }
  }

  lemma {:induction false} GetZeros(w: nat)
    ensures Get(Zeros(w)) == 0
  {
    if w > 0 {
      assert Zeros(w)[1..] == Zeros(w - 1);
      GetZeros(w - 1);
    }
  }
}
