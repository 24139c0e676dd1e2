/** The write cursor of the octets crate over a fixed buffer. */
module OctetsMut {
  import opened Bytes
  import V = Varint

  class OctetsMut {
    const buf: array<byte>
    var off: nat
    ghost var written: bytes

    constructor (len: nat)
      ensures Valid() && written == [] && buf.Length == len && fresh(buf)
    {
      buf := new byte[len](_ => 0);
      off := 0;
      written := [];
    }

    ghost predicate Valid()
      reads this, buf
    {
      off == |written| <= buf.Length && buf[..off] == written
    }

    /** Writes all of `b` or, when it does not fit, nothing. */
    method PutBytes(b: bytes) returns (ok: bool)
      requires Valid()
      modifies this, buf
      ensures Valid()
      ensures ok <==> |old(written)| + |b| <= buf.Length
      ensures written == if ok then old(written) + b else old(written)
    {
      if |b| > buf.Length - off {
        return false;
      }
      for i := 0 to |b|
        invariant off == |written| && written == old(written)
        invariant buf[..off + i] == written + b[..i]
      {
        buf[off + i] := b[i];
        assert b[..i + 1] == b[..i] + [b[i]];
        assert buf[..off + i + 1] == buf[..off + i] + [b[i]];
      }
      off := off + |b|;
      written := written + b;
      return true;
    }

    method PutVarint(v: nat) returns (ok: bool)
      requires Valid() && v <= V.MAX_VARINT
      modifies this, buf
      ensures Valid()
      ensures ok <==> |old(written)| + V.VarintLen(v) <= buf.Length
      ensures written == if ok then old(written) + V.PutVarint(v) else old(written)
    {
      ok := PutBytes(V.PutVarint(v));
    }

    /** The whole buffer, once it is full: exactly what was written. */
    method Finish() returns (b: bytes)
      requires Valid() && |written| == buf.Length
      ensures b == written
    {
      assert buf[..] == buf[..off];
      return buf[..];
    }
  }
}
