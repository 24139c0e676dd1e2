/** The formats octet by octet. Round trips cannot tell a format from another that both sides agree on;
    these statements can. */
module Layouts {
  import opened Bytes
  import opened Varint
  import opened Streams
  import opened StreamBuf
  import opened StreamOctets
  import opened HttpMessage
  import opened BinarySpec
  import opened BinaryEncoder
  import opened BinaryLaws
  import opened ChunkNonce
  import opened KeyConfig
  import opened Handshake
  import A = Aead
  import opened Framing
  import E = Encapsulated

  // ---------- integers ----------

  /** A varint (section 16 of RFC 9000): the shortest of 1, 2, 4 and 8 octets, big-endian, with the width
      in the top two bits. */
  lemma VarintLayout(v: nat)
    requires v < 0x4000_0000_0000_0000
    ensures v < 64 ==> PutVarint(v) == [v]
    ensures 64 <= v < 16384 ==> PutVarint(v) == [64 + v / 256, v % 256]
    ensures 16384 <= v < 0x4000_0000 ==>
              |PutVarint(v)| == 4 && forall i :: 0 <= i < 4 ==> PutVarint(v)[i] == ((v + 0x8000_0000) / Pow256(3 - i)) % 256
    ensures 0x4000_0000 <= v ==>
              |PutVarint(v)| == 8
              && forall i :: 0 <= i < 8 ==> PutVarint(v)[i] == ((v + 0xC000_0000_0000_0000) / Pow256(7 - i)) % 256
  {
    Weights();
    if v < 64 {
      OctetAt(1, v, 0);
    } else if v < 16384 {
      OctetAt(2, v + 16384, 0);
      OctetAt(2, v + 16384, 1);
    } else if v < 0x4000_0000 {
      forall i | 0 <= i < 4
        ensures PutVarint(v)[i] == ((v + 0x8000_0000) / Pow256(3 - i)) % 256
      {
        OctetAt(4, v + 0x8000_0000, i);
      }
    } else {
      forall i | 0 <= i < 8
        ensures PutVarint(v)[i] == ((v + 0xC000_0000_0000_0000) / Pow256(7 - i)) % 256
      {
        OctetAt(8, v + 0xC000_0000_0000_0000, i);
      }
    }
  }

  /** What the width adds to the number the octets make. */
  function Mark(width: nat): nat {
    if width == 1 then 0 else if width == 2 then 0x4000 else if width == 4 then 0x8000_0000 else 0xC000_0000_0000_0000
  }

  predicate OneVarint(s: bytes) {
    s != [] && |s| == if s[0] < 64 then 1 else if s[0] < 128 then 2 else if s[0] < 192 then 4 else 8
  }

  lemma VarintMeans(s: bytes)
    requires OneVarint(s)
    ensures |s| == VarintWidth(s[0]) && VarintValue(s) + Mark(|s|) == FromBE(s)
  {
    hide FromBE, Pow256;
  }

  /** Any varint, minimal or not, reads as its octets to the base 256 with the top two bits taken off. */
  lemma VarintReads(env: Env, s: bytes, tail: bytes, e: Ending)
    requires Roomy(env.limit) && OneVarint(s)
    ensures FromBE(s) >= Mark(|s|)
    ensures FieldOf(env.limit, Wire(s + tail, e), VarInt) == Outcome.Done(FromBE(s) - Mark(|s|), Wire(tail, e))
  {
    hide FromBE, Pow256, VarintValue, VarintWidth, Mark, FieldOf, OneVarint;
    VarintMeans(s);
    FieldBuffered(env.limit, s, tail, e, VarInt);
    assert s[..|s|] == s;
    assert s[|s|..] + tail == tail;
  }

  /** The number of octets to the base 256, for two of them; the rest follows by `FromToBE`. */
  lemma BigEndian(hi: byte, lo: byte)
    ensures FromBE([hi, lo]) == 256 * hi + lo
  {
    assert [hi, lo][..1] == [hi] && [hi][..0] == [];
    assert FromBE([hi]) == hi;
  }

  /** The sample of RFC 9000, appendix A.1, that is not minimal. */
  lemma SampleVarint(env: Env, tail: bytes, e: Ending)
    requires Roomy(env.limit)
    ensures FieldOf(env.limit, Wire([0x40, 0x25] + tail, e), VarInt) == Outcome.Done(37, Wire(tail, e))
    ensures FieldOf(env.limit, Wire([0x7b, 0xbd] + tail, e), VarInt) == Outcome.Done(15293, Wire(tail, e))
  {
    BigEndian(0x40, 0x25);
    BigEndian(0x7b, 0xbd);
    VarintReads(env, [0x40, 0x25], tail, e);
    VarintReads(env, [0x7b, 0xbd], tail, e);
  }

  /** The fixed-width integers are 1, 2, 4 and 8 octets, big-endian. */
  lemma FixedReads(env: Env, f: Field, v: nat, tail: bytes, e: Ending)
    requires Roomy(env.limit) && f != VarInt
    requires v < Pow256(if f == U8 then 1 else if f == U16 then 2 else if f == U32 then 4 else 8)
    ensures var n := if f == U8 then 1 else if f == U16 then 2 else if f == U32 then 4 else 8;
            FieldOf(env.limit, Wire(ToBE(n, v) + tail, e), f) == Outcome.Done(v, Wire(tail, e))
  {
    var n := if f == U8 then 1 else if f == U16 then 2 else if f == U32 then 4 else 8;
    var s := ToBE(n, v);
    FromToBE(n, v);
    hide ToBE, FromBE, Pow256;
    assert (s + tail)[..n] == s;
    assert (s + tail)[n..] == tail;
  }

  // ---------- numbers fixed elsewhere ----------

  /** Framing indicators (section 3.3 of RFC 9292), identifiers and lengths (section 7 of RFC 9180), the
      associated data of a final chunk, the default buffer limit. */
  lemma Registered()
    ensures KNOWN_LENGTH_REQUEST == 0 && KNOWN_LENGTH_RESPONSE == 1
    ensures INDETERMINATE_LENGTH_REQUEST == 2 && INDETERMINATE_LENGTH_RESPONSE == 3
    ensures KemCode(DhP256HkdfSha256) == 0x10 && KemCode(DhP384HkdfSha384) == 0x11 && KemCode(X25519HkdfSha256) == 0x20
    ensures KdfCode(HkdfSha256) == 1 && KdfCode(HkdfSha384) == 2 && KdfCode(HkdfSha512) == 3
    ensures AeadCode(AesGcm128) == 1 && AeadCode(AesGcm256) == 2 && AeadCode(ChaCha20Poly1305) == 3
    ensures PublicKeyLen(DhP256HkdfSha256) == 65 && PublicKeyLen(DhP384HkdfSha384) == 97 && PublicKeyLen(X25519HkdfSha256) == 32
    ensures EncappedKeyLen(DhP256HkdfSha256) == 65 && EncappedKeyLen(DhP384HkdfSha384) == 97 && EncappedKeyLen(X25519HkdfSha256) == 32
    ensures SecretLen(AesGcm128) == 16 && SecretLen(AesGcm256) == 32 && SecretLen(ChaCha20Poly1305) == 32 && NONCE_LEN == 12
    ensures A.NO_AAD == [] && A.FINAL == [102, 105, 110, 97, 108] && A.FINAL != A.NO_AAD
    ensures DEFAULT_MAX_BUF_SIZE == 10_485_760
    ensures HOST == [104, 111, 115, 116] && QUESTION_MARK == 63
  {
  }

  // ---------- messages ----------

  lemma Short(b: bytes)
    requires |b| < 64
    ensures LengthPrefixed(b) == [|b|] + b
  {
    VarintLayout(|b|);
  }

  lemma ShortLine(l: Line)
    requires |l.name| < 64 && |l.value| < 64
    ensures LineBytes(l) == ([|l.name|] + l.name) + ([|l.value|] + l.value)
  {
    Short(l.name);
    Short(l.value);
  }

  lemma TwoLines(a: Line, b: Line)
    requires Sized(a.name) && Sized(a.value) && Sized(b.name) && Sized(b.value)
    ensures LinesBytes([a, b]) == LineBytes(a) + LineBytes(b)
  {
    hide LineBytes;
    assert [a, b][1..] == [b] && [b][1..] == [];
    assert LinesBytes([b]) == LineBytes(b) + LinesBytes([]) == LineBytes(b);
  }

  /** A request whose strings are all short, string by string: indicator 2, method, scheme, authority,
      path and query, then name and value of each line, each behind its length, then a zero. */
  lemma ShortRequest(verb: bytes, scheme: bytes, authority: bytes, path: bytes, query: bytes, a: Line, b: Line)
    requires |verb| < 64 && |scheme| < 64 && |authority| < 64 && |path| + 1 + |query| < 64
    requires |a.name| < 64 && |a.value| < 64 && |b.name| < 64 && |b.value| < 64
    requires a.name != b.name && a.name != HOST && b.name != HOST
    ensures var req := Request(verb, Uri(Some(scheme), Some(authority), path, Some(query)),
                               [Group(a.name, [a.value]), Group(b.name, [b.value])]);
            && Encodable(req)
            && RequestHead(req) ==
               [2] + ((([|verb|] + verb) + (([|scheme|] + scheme)
                 + (([|authority|] + authority) + ([|path| + 1 + |query|] + (path + [63] + query)))))
               + (((([|a.name|] + a.name) + ([|a.value|] + a.value)) + (([|b.name|] + b.name) + ([|b.value|] + b.value))) + [0]))
  {
    var headers := [Group(a.name, [a.value]), Group(b.name, [b.value])];
    var req := Request(verb, Uri(Some(scheme), Some(authority), path, Some(query)), headers);
    TwoGroups(a, b);
    assert Lookup(headers, HOST) == None;
    assert AuthorityField(req) == authority;
    Short(verb);
    Short(scheme);
    Short(authority);
    Short(path + [63] + query);
    ShortLine(a);
    ShortLine(b);
    TwoLines(a, b);
    VarintLayout(2);
    VarintLayout(0);
    hide PutVarint, LengthPrefixed, LineBytes, LinesBytes, Lookup, Lines;
  }

  lemma TwoGroups(a: Line, b: Line)
    ensures Lines([Group(a.name, [a.value]), Group(b.name, [b.value])]) == [a, b]
  {
    var g, h := Group(a.name, [a.value]), Group(b.name, [b.value]);
    assert [g, h][..1] == [g] && [g][..0] == [];
    assert Lines([g]) == Lines([]) + GroupLines(g) == [a];
  }

  /** Both response heads, string by string: indicator, status in two octets, then the lines and a zero,
      or the length of the lines, the lines and the content length. */
  lemma ShortResponse(status: nat, a: Line, b: Line, size: nat)
    requires 200 <= status < 1000 && size < 64 && |a.name| + |a.value| + |b.name| + |b.value| < 60
    ensures var res := Response(status, [Group(a.name, [a.value]), Group(b.name, [b.value])]);
            var lines := (([|a.name|] + a.name) + ([|a.value|] + a.value)) + (([|b.name|] + b.name) + ([|b.value|] + b.value));
            && EncodableResponse(res)
            && IndeterminateResponseHead(res) == [3] + ([64 + status / 256, status % 256] + (lines + [0]))
            && KnownResponseHead(res, size) == [1] + ([64 + status / 256, status % 256] + (([|lines|] + lines) + [size]))
  {
    TwoGroups(a, b);
    ShortLine(a);
    ShortLine(b);
    TwoLines(a, b);
    Short(LineBytes(a) + LineBytes(b));
    VarintLayout(status);
    VarintLayout(0);
    VarintLayout(1);
    VarintLayout(3);
    VarintLayout(size);
    hide PutVarint, LengthPrefixed, LineBytes, LinesBytes, Lines;
  }

  /** Content event by event. In the indeterminate form each chunk that is not empty goes behind its
      length, and the end is a zero; in the known-length form everything goes as it is. */
  lemma ShortContent(d: bytes, n: Source, error: Error)
    requires 0 < |d| < 64 && ChunksAtMost(n, MAX_VARINT)
    ensures ContentTrace(false, Chunk(d, n)) == Chunk([|d|] + d, ContentTrace(false, n))
    ensures ContentTrace(false, Chunk([], n)) == Chunk([], ContentTrace(false, n))
    ensures ContentTrace(false, End) == Chunk([0], End)
    ensures ContentTrace(true, Chunk(d, n)) == Chunk(d, ContentTrace(true, n)) && ContentTrace(true, End) == End
    ensures forall known :: ContentTrace(known, Pending(n)) == Pending(ContentTrace(known, n))
    ensures forall known :: ContentTrace(known, Fault(error, n)) == Fault(error, ContentTrace(known, n))
  {
    Short(d);
    VarintLayout(0);
    hide LengthPrefixed, PutVarint;
  }

  // ---------- sealed chunks ----------

  /** Two chunks sealed by any cipher with short tags: length of ciphertext and tag, ciphertext, tag, with
      calls 0 and 1 and no associated data; then a zero and the tag of call 2 over `final`. */
  lemma ShortFrames(a: A.Aead, c: bytes, d: bytes)
    requires |c| + a.tagLen < 64 && |d| + a.tagLen < 64
    ensures SizedChunks(a, [c, d])
    ensures var (c0, t0) := a.seal(0, [], c);
            var (c1, t1) := a.seal(1, [], d);
            var (c2, t2) := a.seal(2, [102, 105, 110, 97, 108], []);
            Frames(a, 0, [c, d]) == ([|c| + a.tagLen] + (c0 + t0)) + (([|d| + a.tagLen] + (c1 + t1)) + ([0] + (c2 + t2)))
  {
    VarintLayout(|c| + a.tagLen);
    VarintLayout(|d| + a.tagLen);
    VarintLayout(0);
    hide PutVarint;
    assert [c, d][1..] == [d] && [d][1..] == [];
    assert Frames(a, 2, []) == [0] + A.Sealed(a, 2, A.FINAL, []);
    assert Frames(a, 1, [d]) == Frame(a, 1, d) + Frames(a, 2, []);
    assert Frames(a, 0, [c, d]) == Frame(a, 0, c) + Frames(a, 1, [d]);
  }

  /** The chunked sealer on a chunk: its sealed length, its ciphertext and its tag, three items in a row. */
  lemma SealEvents(a: A.Aead, k: nat, d: bytes, n: Source)
    requires E.Sealable(a, n) && 0 < |d| && |d| + a.tagLen < 64
    ensures E.Sealable(a, Chunk(d, n))
    ensures var (ct, tag) := a.seal(k, [], d);
            E.SealTrace(a, k, Chunk(d, n)) == Chunk([|d| + a.tagLen], Chunk(ct, Chunk(tag, E.SealTrace(a, k + 1, n))))
  {
    VarintLayout(|d| + a.tagLen);
    E.SealLengths(a, k, [], d);
    hide PutVarint, A.Lawful;
  }

  /** Empty chunks, waits and errors pass it as they come; at the end come a zero and the tag over `final`. */
  lemma SealPasses(a: A.Aead, k: nat, n: Source, error: Error)
    requires E.Sealable(a, n)
    ensures E.Sealable(a, Chunk([], n)) && E.SealTrace(a, k, Chunk([], n)) == Chunk([], E.SealTrace(a, k, n))
    ensures E.Sealable(a, Pending(n)) && E.SealTrace(a, k, Pending(n)) == Pending(E.SealTrace(a, k, n))
    ensures E.Sealable(a, Fault(error, n)) && E.SealTrace(a, k, Fault(error, n)) == Fault(error, E.SealTrace(a, k, n))
    ensures E.Sealable(a, End)
    ensures E.SealTrace(a, k, End) == Chunk([0], Chunk(a.seal(k, [102, 105, 110, 97, 108], []).1, End))
  {
    VarintLayout(0);
    hide PutVarint, A.Lawful;
  }

  /** The non-chunked sealer: everything gathered across waits and errors, then the ciphertext and the tag
      of one call without associated data. */
  lemma WholeEvents(a: A.Aead, k: nat, held: bytes, d: bytes, n: Source, error: Error)
    ensures var (ct, tag) := a.seal(k, [], held); E.WholeTrace(a, k, held, End) == Chunk(ct, Chunk(tag, End))
    ensures E.WholeTrace(a, k, held, Chunk(d, n)) == E.WholeTrace(a, k, held + d, n)
    ensures E.WholeTrace(a, k, held, Pending(n)) == Pending(E.WholeTrace(a, k, held, n))
    ensures E.WholeTrace(a, k, held, Fault(error, n)) == Fault(error, E.WholeTrace(a, k, held, n))
  {
  }

  // ---------- key configurations and headers ----------

  /** A configuration octet by octet (section 3 of RFC 9458): the id, the KEM, the key, the length of the
      algorithm list in octets, and the list. */
  lemma ConfigLayout(id: byte, key: PublicKey, algs: seq<Algorithm>)
    requires FitsU16(algs)
    ensures var code, n := KemCode(key.kem), 4 * |algs|;
            ConfigBytes(id, key, algs) == [id] + ([code / 256, code % 256] + (key.data + ([n / 256, n % 256] + AlgorithmBytes(algs))))
  {
    hide PutU16, AlgorithmBytes, KemCode;
    TwoOctets(KemCode(key.kem));
    TwoOctets(4 * |algs|);
  }

  /** KDF and AEAD of each algorithm, in that order, high octets first. */
  lemma AlgorithmLayout(a: Algorithm, rest: seq<Algorithm>)
    ensures AlgorithmBytes([a] + rest) == [0, KdfCode(a.kdf)] + ([0, AeadCode(a.aead)] + AlgorithmBytes(rest))
  {
    SmallCode(KdfCode(a.kdf));
    SmallCode(AeadCode(a.aead));
    hide PutU16, KdfCode, AeadCode;
    assert ([a] + rest)[1..] == rest;
  }

  lemma SmallCode(v: u16)
    requires v < 256
    ensures PutU16(v) == [0, v]
  {
    hide PutU16;
    TwoOctets(v);
  }

  /** In a table each configuration stands behind its length in two octets. */
  lemma TableLayout(c: KeyConfig<KeyPair>, rest: seq<KeyConfig<KeyPair>>)
    requires FitsU16(c.algorithms) && AllFitU16([c] + rest) && AllFitU16(rest)
    ensures var b := ConfigBytes(c.keyId, c.key.public, c.algorithms);
            Blobs(ConfigBlobs([c] + rest)) == ([|b| / 256, |b| % 256] + b) + Blobs(ConfigBlobs(rest))
  {
    hide PutU16, ConfigBytes;
    var bs := ConfigBlobs([c] + rest);
    TwoOctets(|bs[0]|);
    assert bs[1..] == ConfigBlobs(rest);
  }
}
