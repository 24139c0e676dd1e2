/** Variable-length integers, section 16 of RFC 9000. */
module Varint {
  import opened Bytes

  const MAX_VARINT: nat := 0x3FFF_FFFF_FFFF_FFFF

  /** What an encoding of `n` octets adds to the value: its two-bit length tag. */
  function Marker(n: nat): nat
    requires (n == 1 || n == 2 || n == 4 || n == 8)
  {
    if n == 1 then 0
    else if n == 2 then 0x4000
    else if n == 4 then 0x8000_0000
    else 0xC000_0000_0000_0000
  }

  function VarintLen(v: nat): (n: nat)
    requires v <= MAX_VARINT
    ensures (n == 1 || n == 2 || n == 4 || n == 8)
  {
    if v <= 63 then 1
    else if v <= 16383 then 2
    else if v <= 1073741823 then 4
    else 8
  }

  function PutVarint(v: nat): (s: bytes)
    requires v <= MAX_VARINT
    ensures |s| == VarintLen(v)
  {
    ToBE(VarintLen(v), v + Marker(VarintLen(v)))
  }

  /** How many octets the varint starting with `first` occupies. */
  function VarintWidth(first: byte): (n: nat)
    ensures (n == 1 || n == 2 || n == 4 || n == 8)
  {
    if first < 64 then 1
    else if first < 128 then 2
    else if first < 192 then 4
    else 8
  }

  lemma Weights()
    ensures Pow256(0) == 1
    ensures Pow256(1) == 0x100
    ensures Pow256(2) == 0x1_0000
    ensures Pow256(3) == 0x100_0000
    ensures Pow256(4) == 0x1_0000_0000
    ensures Pow256(7) == 0x100_0000_0000_0000
    ensures Pow256(8) == 0x1_0000_0000_0000_0000
  {
    assert Pow256(4) == 256 * Pow256(3);
    assert Pow256(5) == 256 * Pow256(4);
    assert Pow256(6) == 256 * Pow256(5);
    assert Pow256(7) == 256 * Pow256(6);
  }

  function VarintValue(s: bytes): (v: nat)
    requires s != [] && |s| == VarintWidth(s[0])
    ensures v <= MAX_VARINT
  {
    Weights();
    LeadingOctet(s);
    FromBE(s) - Marker(|s|)
  }

  /** A written varint announces its own width and reads back as the value written. */
  lemma VarintRoundTrip(v: nat)
    requires v <= MAX_VARINT
    ensures VarintWidth(PutVarint(v)[0]) == VarintLen(v)
    ensures VarintValue(PutVarint(v)) == v
  {
    var n := VarintLen(v);
    var s := PutVarint(v);
    Weights();
    FromToBE(n, v + Marker(n));
    LeadingOctet(s);
    assert s[0] * Pow256(n - 1) < v + Marker(n) + 1;
  }

  lemma ZeroVarint()
    ensures PutVarint(0) == [0]
  {
    assert ToBE(0, 0) == [];
  }
}
