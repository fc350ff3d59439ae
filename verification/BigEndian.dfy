/** Fixed-width big-endian numbers. */
module BigEndian {
  import opened Bytes

  function Pow256(w: nat): (p: nat)
    ensures p > 0
  {
    if w == 0 then 1 else 256 * Pow256(w - 1)
  }

  /** The low `w` bytes of `n`, most significant first. */
  function Encoded(n: nat, w: nat): (s: seq<Byte>)
    ensures |s| == w
    decreases w
  {
    if w == 0 then [] else Encoded(n / 256, w - 1) + [n % 256]
  }

  function Decoded(s: seq<Byte>): (n: nat)
    ensures n < Pow256(|s|)
  {
    if s == [] then 0 else 256 * Decoded(s[..|s| - 1]) + s[|s| - 1]
  }

  lemma {:induction false} DecodedEncoded(n: nat, w: nat)
    requires n < Pow256(w)
    ensures Decoded(Encoded(n, w)) == n
    decreases w
  {
    if w > 0 {
      DecodedEncoded(n / 256, w - 1);
      assert Encoded(n, w)[..w - 1] == Encoded(n / 256, w - 1);
    }
  }

  lemma {:induction false} EncodedDecoded(s: seq<Byte>)
    ensures Encoded(Decoded(s), |s|) == s
  {
    if s != [] {
      EncodedDecoded(s[..|s| - 1]);
      assert Decoded(s) / 256 == Decoded(s[..|s| - 1]) && Decoded(s) % 256 == s[|s| - 1];
    }
  }

  lemma Widths()
    ensures Pow256(2) == 0x1_0000 && Pow256(4) == 0x1_0000_0000 && Pow256(8) == 0x1_0000_0000_0000_0000
  {
    assert Pow256(2) == 0x1_0000;
    assert Pow256(4) == 256 * 256 * Pow256(2);
    assert Pow256(6) == 256 * 256 * Pow256(4);
  }
}
