/** Octets, and the big-endian reading of octet strings shared by the varint codec,
    the 16-bit identifiers and the nonce counter. */
module Bytes {
  type byte = b: int | 0 <= b < 256
  type bytes = seq<byte>

  datatype Option<+T> = None | Some(value: T)

  function Pow256(n: nat): (p: nat)
    ensures p >= 1
  {
    if n == 0 then 1 else 256 * Pow256(n - 1)
  }

  lemma Assoc(a: bytes, b: bytes, c: bytes)
    ensures a + (b + c) == (a + b) + c
  {
  }

  /** The low `n` octets of `v`, most significant first. */
  function ToBE(n: nat, v: nat): (s: bytes)
    ensures |s| == n
  {
    if n == 0 then [] else ToBE(n - 1, v / 256) + [v % 256]
  }

  function FromBE(s: bytes): nat {
    if s == [] then 0 else FromBE(s[..|s| - 1]) * 256 + s[|s| - 1]
  }

  lemma {:induction false} FromToBE(n: nat, v: nat)
    requires v < Pow256(n)
    ensures FromBE(ToBE(n, v)) == v
  {
    if n > 0 {
      FromToBE(n - 1, v / 256);
      assert ToBE(n, v)[..n - 1] == ToBE(n - 1, v / 256);
    }
  }

  lemma {:induction false} ToFromBE(s: bytes)
    ensures FromBE(s) < Pow256(|s|)
    ensures ToBE(|s|, FromBE(s)) == s
  {
    if s != [] {
      ToFromBE(s[..|s| - 1]);
      assert s == s[..|s| - 1] + [s[|s| - 1]];
    }
  }

  lemma Widen(top: int, p: int, v: int, b: byte)
    requires top * p <= v < (top + 1) * p
    ensures top * (256 * p) <= v * 256 + b < (top + 1) * (256 * p)
  {
    assert top * (256 * p) == (top * p) * 256;
    assert (top + 1) * (256 * p) == ((top + 1) * p) * 256;
  }

  /** The leading octet fixes the value to within one multiple of its weight. */
  lemma {:induction false} LeadingOctet(s: bytes)
    requires s != []
    ensures s[0] * Pow256(|s| - 1) <= FromBE(s) < (s[0] + 1) * Pow256(|s| - 1)
  {
    var init := s[..|s| - 1];
    if |s| > 1 {
      LeadingOctet(init);
      var p, top: int := Pow256(|s| - 2), s[0];
      assert init[0] == top;
      Widen(top, p, FromBE(init), s[|s| - 1]);
    } else {
      assert init == [];
    }
  }
}
