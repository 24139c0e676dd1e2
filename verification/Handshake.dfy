/** The request header exchange (section 4.3 of RFC 9458) and the contexts both sides derive from
    it: crates/ohttp-hpke/src/{header,client,server,response}.rs. */
module Handshake {
  import opened Bytes
  import opened Varint
  import opened Streams
  import opened StreamBuf
  import opened StreamOctets
  import opened OctetsMut
  import opened KeyConfig
  import opened Aead
  import opened ChunkNonce
  import L = BinaryLaws
  import T = BinaryTruncation

  // ---------- the header ----------

  const HEADER_LEN: nat := 1 + 2 + 2 + 2

  function HeaderBytes(h: EncapHeader): (b: bytes)
    ensures |b| == HEADER_LEN
  {
    [h.keyId] + (PutU16(KemCode(h.kem)) + (PutU16(KdfCode(h.kdf)) + PutU16(AeadCode(h.aead))))
  }

  /** What the HPKE context of a request is bound to. */
  function InfoBytes(h: EncapHeader, purpose: bytes): bytes {
    purpose + ([0] + HeaderBytes(h))
  }

  function HeaderOf(env: Env, w: Wire): Outcome<EncapHeader> {
    var (id, w1) :- FieldOf(env.limit, w, U8);
    var (kem, w2) :- FieldOf(env.limit, w1, U16);
    var k := KemOf(kem);
    if k.None? then Failed(InvalidData) else
    var (kdf, w3) :- FieldOf(env.limit, w2, U16);
    var d := KdfOf(kdf);
    if d.None? then Failed(InvalidData) else
    var (aead, w4) :- FieldOf(env.limit, w3, U16);
    var a := AeadOf(aead);
    if a.None? then Failed(InvalidData) else
    Done(EncapHeader(AsByte(id), k.value, d.value, a.value), w4)
  }

  function AsByte(v: nat): byte {
    v % 256
  }

  method DecodeHeader(sb: StreamBuf) returns (r: Result<EncapHeader>)
    requires sb.Valid()
    modifies sb
    ensures sb.Valid()
    ensures sb.Settled(r, HeaderOf(old(sb.Conf()), old(sb.Flat())))
    ensures sb.Sound(r, HeaderOf(old(sb.Unlimited()), old(sb.Flat())))
    ensures r.Ok? ==> sb.Trail() == old(sb.Trail())
  {
    hide FieldOf, KemOf, KdfOf, AeadOf;
    var id := Decode(sb, U8);
    if id.Err? { return Err(id.error); }
    var kem := Decode(sb, U16);
    if kem.Err? { return Err(kem.error); }
    var k := KemOf(kem.value);
    if k.None? { return Err(InvalidData); }
    var kdf := Decode(sb, U16);
    if kdf.Err? { return Err(kdf.error); }
    var d := KdfOf(kdf.value);
    if d.None? { return Err(InvalidData); }
    var aead := Decode(sb, U16);
    if aead.Err? { return Err(aead.error); }
    var a := AeadOf(aead.value);
    if a.None? { return Err(InvalidData); }
    return Ok(EncapHeader(AsByte(id.value), k.value, d.value, a.value));
  }

  method PutHeader(octets: OctetsMut, h: EncapHeader) returns (ok: bool)
    requires octets.Valid()
    modifies octets, octets.buf
    ensures octets.Valid()
    ensures |old(octets.written)| + HEADER_LEN <= octets.buf.Length ==> ok
    ensures ok ==> octets.written == old(octets.written) + HeaderBytes(h)
  {
    hide PutU16;
    Fields(octets.written, [h.keyId], PutU16(KemCode(h.kem)), PutU16(KdfCode(h.kdf)), PutU16(AeadCode(h.aead)));
    ok := octets.PutBytes([h.keyId]);
    if !ok { return; }
    ok := octets.PutBytes(PutU16(KemCode(h.kem)));
    if !ok { return; }
    ok := octets.PutBytes(PutU16(KdfCode(h.kdf)));
    if !ok { return; }
    ok := octets.PutBytes(PutU16(AeadCode(h.aead)));
  }

  method EncodeInfo(h: EncapHeader, purpose: bytes) returns (b: bytes)
    ensures b == InfoBytes(h, purpose)
  {
    hide HeaderBytes;
    var octets := new OctetsMut(|purpose| + 1 + HEADER_LEN);
    var ok := octets.PutBytes(purpose);
    assert ok;
    ok := octets.PutBytes([0]);
    assert ok;
    ok := PutHeader(octets, h);
    assert ok;
    assert (([] + purpose) + [0]) + HeaderBytes(h) == InfoBytes(h, purpose);
    b := octets.Finish();
  }

  lemma ReadU16Field(env: Env, v: u16, tail: bytes, e: Ending)
    requires L.Roomy(env.limit)
    ensures FieldOf(env.limit, Wire(PutU16(v) + tail, e), U16) == Done(v, Wire(tail, e))
  {
    Weights();
    FromToBE(2, v);
    var s := PutU16(v);
    assert (s + tail)[..2] == s;
    assert (s + tail)[2..] == tail;
  }

  lemma ReadU8Field(env: Env, v: byte, tail: bytes, e: Ending)
    requires L.Roomy(env.limit)
    ensures FieldOf(env.limit, Wire([v] + tail, e), U8) == Done(v, Wire(tail, e))
  {
    assert ([v] + tail)[..1] == [v];
    assert [v][..0] == [];
    assert FromBE([v]) == FromBE([v][..0]) * 256 + v;
    assert ([v] + tail)[1..] == tail;
  }

  lemma ReadHeader(env: Env, h: EncapHeader, tail: bytes, e: Ending)
    requires L.Roomy(env.limit)
    ensures HeaderOf(env, Wire(HeaderBytes(h) + tail, e)) == Done(h, Wire(tail, e))
  {
    hide FieldOf, KemOf, KdfOf, AeadOf, PutU16;
    var kem, kdf, aead := PutU16(KemCode(h.kem)), PutU16(KdfCode(h.kdf)), PutU16(AeadCode(h.aead));
    Fields([h.keyId], kem, kdf, aead, tail);
    assert HeaderBytes(h) + tail == [h.keyId] + (kem + (kdf + (aead + tail)));
    ReadU8Field(env, h.keyId, kem + (kdf + (aead + tail)), e);
    ReadU16Field(env, KemCode(h.kem), kdf + (aead + tail), e);
    ReadU16Field(env, KdfCode(h.kdf), aead + tail, e);
    ReadU16Field(env, AeadCode(h.aead), tail, e);
  }

  lemma HeaderInjective(h: EncapHeader, h': EncapHeader)
    requires HeaderBytes(h) == HeaderBytes(h')
    ensures h == h'
  {
    hide HeaderBytes, HeaderOf;
    var env := Env(7, Trail(false, false));
    ReadHeader(env, h, [], Eof);
    ReadHeader(env, h', [], Eof);
  }

  /** The info binds both the label and every field of the header. */
  lemma InfoInjective(h: EncapHeader, purpose: bytes, h': EncapHeader, purpose': bytes)
    requires InfoBytes(h, purpose) == InfoBytes(h', purpose')
    ensures h == h' && purpose == purpose'
  {
    hide HeaderBytes;
    var i, i' := InfoBytes(h, purpose), InfoBytes(h', purpose');
    assert |purpose| == |purpose'|;
    assert i[..|purpose|] == purpose && i'[..|purpose'|] == purpose';
    assert i[|purpose| + 1..] == HeaderBytes(h) && i'[|purpose'| + 1..] == HeaderBytes(h');
    HeaderInjective(h, h');
  }

  lemma TwoOctets(v: u16)
    ensures PutU16(v) == [v / 256, v % 256]
  {
    assert ToBE(0, 0) == [];
    assert ToBE(1, v / 256) == ToBE(0, v / 256 / 256) + [v / 256 % 256];
  }

  /** The info octet by octet: the label, a zero, the key id, then the three codes, high octet first. */
  lemma InfoLayout(h: EncapHeader, purpose: bytes)
    ensures var i, n := InfoBytes(h, purpose), |purpose|;
            && |i| == n + 8 && i[..n] == purpose && i[n] == 0 && i[n + 1] == h.keyId
            && i[n + 2] == KemCode(h.kem) / 256 && i[n + 3] == KemCode(h.kem) % 256
            && i[n + 4] == 0 && i[n + 5] == KdfCode(h.kdf)
            && i[n + 6] == 0 && i[n + 7] == AeadCode(h.aead)
  {
    TwoOctets(KemCode(h.kem));
    TwoOctets(KdfCode(h.kdf));
    TwoOctets(AeadCode(h.aead));
    hide PutU16;
  }

  // ---------- hybrid encryption, as far as the exchange depends on it ----------

  /** One side of an established HPKE context. */
  datatype Context = Context(aead: Aead, exporter: (bytes, nat) -> bytes)

  datatype Suite = Suite(kem: KemId, kdf: KdfId, aead: AeadId)

  /** `setupSender` also takes the randomness it draws; `derive` is the extract-and-expand step from
      salt and secret to key and nonce; `cipher` is the bare AEAD. */
  datatype Crypto = Crypto(
    setupSender: (Suite, bytes, bytes, nat) -> Option<(bytes, Context)>,
    setupReceiver: (Suite, bytes, bytes, bytes) -> Option<Context>,
    publicOf: (KemId, bytes) -> bytes,
    derive: (KdfId, AeadId, bytes, bytes) -> (bytes, bytes),
    cipher: AeadId -> Cipher)

  function KeyLen(a: AeadId): nat {
    match a case AesGcm128 => 16 case AesGcm256 => 32 case ChaCha20Poly1305 => 32
  }

  const NONCE_LEN: nat := 12

  function SecretLen(a: AeadId): nat {
    if KeyLen(a) > NONCE_LEN then KeyLen(a) else NONCE_LEN
  }

  /** The receiver that holds the private key of `pk` gets the sender's context. */
  ghost predicate Receives(c: Crypto, s: Suite, sk: bytes, info: bytes, rnd: nat) {
    var sent := c.setupSender(s, c.publicOf(s.kem, sk), info, rnd);
    sent.Some? ==>
      && |sent.value.0| == EncappedKeyLen(s.kem)
      && c.setupReceiver(s, sk, sent.value.0, info) == Some(sent.value.1)
      && Lawful(sent.value.1.aead)
      && forall purpose: bytes, n: nat :: |sent.value.1.exporter(purpose, n)| == n
  }

  ghost predicate LawfulCrypto(c: Crypto) {
    && (forall s: Suite, sk: bytes, info: bytes, rnd: nat :: Receives(c, s, sk, info, rnd))
    && (forall a: AeadId :: LawfulCipher(c.cipher(a)))
    && (forall kdf: KdfId, a: AeadId, salt: bytes, secret: bytes ::
          |c.derive(kdf, a, salt, secret).1| == NONCE_LEN)
  }

  // ---------- contexts ----------

  datatype ResponseContext = ResponseContext(kdf: KdfId, aead: AeadId, encappedKey: bytes, secret: bytes)

  /** The AEAD of the response, from the context and the response nonce. */
  function ResponseAead(c: Crypto, x: ResponseContext, nonce: bytes): Aead {
    var (key, initial) := c.derive(x.kdf, x.aead, x.encappedKey + nonce, x.secret);
    Numbered(c.cipher(x.aead), key, initial)
  }

  /** The context in the shape the response stream uses it. */
  method DeriveAeadContext(c: Crypto, x: ResponseContext, nonce: bytes) returns (a: AeadContext)
    ensures fresh(a) && a.Valid() && fresh(a.chunkNonce) && fresh(NonceOf(a)) && a.chunkNonce.Count() == 0
    ensures (a.key, a.chunkNonce.initial) == c.derive(x.kdf, x.aead, x.encappedKey + nonce, x.secret)
    ensures a.cipher == c.cipher(x.aead) && a.Numbering() == ResponseAead(c, x, nonce)
  {
    var (key, initial) := c.derive(x.kdf, x.aead, x.encappedKey + nonce, x.secret);
    a := new AeadContext(c.cipher(x.aead), key, initial);
  }

  datatype RequestSending = RequestSending(aead: Aead, header: EncapHeader, encappedKey: bytes)

  function HeaderFor(e: EncapConfig): EncapHeader {
    EncapHeader(e.keyId, e.public.kem, e.algorithm.kdf, e.algorithm.aead)
  }

  function SuiteOf(h: EncapHeader): Suite {
    Suite(h.kem, h.kdf, h.aead)
  }

  function SetupRequest(c: Crypto, e: EncapConfig, requestLabel: bytes, responseLabel: bytes, rnd: nat)
    : Option<(RequestSending, ResponseContext)>
  {
    var h := HeaderFor(e);
    match c.setupSender(SuiteOf(h), e.public.data, InfoBytes(h, requestLabel), rnd)
    case None => None
    case Some((enc, ctx)) =>
      Some((RequestSending(ctx.aead, h, enc),
            ResponseContext(h.kdf, h.aead, enc, ctx.exporter(responseLabel, SecretLen(h.aead)))))
  }

  function InitialChunk(s: RequestSending): bytes {
    HeaderBytes(s.header) + s.encappedKey
  }

  method EncodeInitialChunk(s: RequestSending) returns (b: bytes)
    ensures b == InitialChunk(s)
  {
    hide HeaderBytes;
    var octets := new OctetsMut(HEADER_LEN + |s.encappedKey|);
    var ok := PutHeader(octets, s.header);
    assert ok;
    ok := octets.PutBytes(s.encappedKey);
    assert ok;
    assert ([] + HeaderBytes(s.header)) + s.encappedKey == InitialChunk(s);
    b := octets.Finish();
  }

  /** What the server makes of the front of a request. */
  function RequestHeaderOf(c: Crypto, cs: seq<KeyConfig<KeyPair>>, requestLabel: bytes, responseLabel: bytes, env: Env, w: Wire)
    : Outcome<(Aead, ResponseContext)>
  {
    var (h, w1) :- HeaderOf(env, w);
    var pair := GetKeyPair(cs, h);
    if pair.None? then Failed(InvalidData) else
    var (enc, w2) :- Take(env.limit, w1, EncappedKeyLen(pair.value.public.kem));
    match c.setupReceiver(SuiteOf(h), pair.value.private, enc, InfoBytes(h, requestLabel))
    case None => Failed(InvalidData)
    case Some(ctx) =>
      Done((ctx.aead, ResponseContext(h.kdf, h.aead, enc, ctx.exporter(responseLabel, SecretLen(h.aead)))), w2)
  }

  method DecodeRequestHeader(c: Crypto, config: ServerConfig, requestLabel: bytes, responseLabel: bytes, sb: StreamBuf)
    returns (r: Result<(Aead, ResponseContext)>)
    requires sb.Valid()
    modifies sb
    ensures sb.Valid()
    ensures sb.Settled(r, RequestHeaderOf(c, config.keyConfigs, requestLabel, responseLabel, old(sb.Conf()), old(sb.Flat())))
    ensures sb.Sound(r, RequestHeaderOf(c, config.keyConfigs, requestLabel, responseLabel, old(sb.Unlimited()), old(sb.Flat())))
    ensures r.Ok? ==> sb.Trail() == old(sb.Trail())
  {
    hide HeaderOf, GetKeyPair, Take, InfoBytes;
    var h := DecodeHeader(sb);
    if h.Err? { return Err(h.error); }
    var pair := GetKeyPair(config.keyConfigs, h.value);
    if pair.None? { return Err(InvalidData); }
    var enc := sb.ReadExact(EncappedKeyLen(pair.value.public.kem));
    if enc.Err? { return Err(enc.error); }
    var info := EncodeInfo(h.value, requestLabel);
    var ctx := c.setupReceiver(SuiteOf(h.value), pair.value.private, enc.value, info);
    if ctx.None? { return Err(InvalidData); }
    return Ok((ctx.value.aead,
               ResponseContext(h.value.kdf, h.value.aead, enc.value, ctx.value.exporter(responseLabel, SecretLen(h.value.aead)))));
  }

  /** The key and the initial nonce of the context are those derived from the exchange. */
  ghost predicate DerivedFrom(a: AeadContext, c: Crypto, x: ResponseContext, nonce: bytes)
    reads a.chunkNonce.counter
  {
    && a.Valid() && a.chunkNonce.Count() == 0
    && (a.key, a.chunkNonce.initial) == c.derive(x.kdf, x.aead, x.encappedKey + nonce, x.secret)
    && a.cipher == c.cipher(x.aead) && a.Numbering() == ResponseAead(c, x, nonce)
  }

  /** The client's side of a response: its nonce comes first. */
  method ReceiveResponseNonce(c: Crypto, x: ResponseContext, sb: StreamBuf) returns (r: Result<AeadContext>)
    requires sb.Valid()
    modifies sb
    ensures sb.Valid()
    ensures r.Ok? ==> fresh(r.value) && fresh(NonceOf(r.value)) && sb.Trail() == old(sb.Trail())
    ensures match Take(sb.maxBufSize, old(sb.Flat()), |x.secret|)
            case Done(nonce, rest) => r.Ok? && sb.Flat() == rest && DerivedFrom(r.value, c, x, nonce)
            case Failed(e) => r == Err(e)
            case Varies => true
    ensures var o := Take(sb.size, old(sb.Flat()), |x.secret|);
            match r
            case Ok(a) => o.Done? && sb.Flat() == o.rest && DerivedFrom(a, c, x, o.value)
            case Err(e) => o == Failed(e) || e == BufferLimit
  {
    hide Take, ResponseAead;
    var nonce := sb.ReadExact(|x.secret|);
    if nonce.Err? { return Err(nonce.error); }
    var a := DeriveAeadContext(c, x, nonce.value);
    return Ok(a);
  }

  /** A request header that is read off a prefix was all there: the seven octets and the key. */
  lemma HeaderConsumed(env: Env, w: Wire)
    ensures var o := HeaderOf(env, w); o.Done? ==> |o.rest.bytes| + HEADER_LEN == |w.bytes| && o.rest.ending == w.ending
  {
    hide KemOf, KdfOf, AeadOf;
  }

  lemma HeaderCut(env: Env, p: Wire, w: Wire)
    requires p.bytes <= w.bytes
    ensures T.Agrees(HeaderOf(env, p), HeaderOf(env, w))
  {
    hide FieldOf, KemOf, KdfOf, AeadOf;
    T.FieldCut(env.limit, p, w, U8);
    var id, id' := FieldOf(env.limit, p, U8), FieldOf(env.limit, w, U8);
    if id.Done? {
      T.FieldCut(env.limit, id.rest, id'.rest, U16);
      var kem, kem' := FieldOf(env.limit, id.rest, U16), FieldOf(env.limit, id'.rest, U16);
      if kem.Done? {
        T.FieldCut(env.limit, kem.rest, kem'.rest, U16);
        var kdf, kdf' := FieldOf(env.limit, kem.rest, U16), FieldOf(env.limit, kem'.rest, U16);
        if kdf.Done? {
          T.FieldCut(env.limit, kdf.rest, kdf'.rest, U16);
        }
      }
    }
  }

  // ---------- agreement ----------

  /** The key pairs of the table belong together. */
  predicate Paired(c: Crypto, cs: seq<KeyConfig<KeyPair>>) {
    forall i :: 0 <= i < |cs| ==> cs[i].key.public.data == c.publicOf(cs[i].key.public.kem, cs[i].key.private)
  }

  /** Algorithm `j` of configuration `i`. */
  function Pick(cs: seq<KeyConfig<KeyPair>>, i: nat, j: nat): EncapConfig
    requires i < |cs| && j < |cs[i].algorithms|
  {
    EncapConfig(cs[i].keyId, cs[i].key.public, cs[i].algorithms[j])
  }

  /** What a request is bound to and what its response will be derived from: the context is set up with
      the chosen suite and key under the label, a zero and the header, and the response secret is
      exported from it under the response label. */
  lemma RequestBinding(c: Crypto, e: EncapConfig, requestLabel: bytes, responseLabel: bytes, rnd: nat)
    ensures var kem, kdf, aead := e.public.kem, e.algorithm.kdf, e.algorithm.aead;
            var info := requestLabel + ([0] + ([e.keyId] + (PutU16(KemCode(kem)) + (PutU16(KdfCode(kdf)) + PutU16(AeadCode(aead))))));
            var sent := c.setupSender(Suite(kem, kdf, aead), e.public.data, info, rnd);
            var got := SetupRequest(c, e, requestLabel, responseLabel, rnd);
            if sent.None? then got.None?
            else
              && got.Some?
              && InitialChunk(got.value.0)
                 == [e.keyId] + (PutU16(KemCode(kem)) + (PutU16(KdfCode(kdf)) + PutU16(AeadCode(aead)))) + sent.value.0
              && got.value.0.aead == sent.value.1.aead
              && got.value.1 == ResponseContext(kdf, aead, sent.value.0,
                   sent.value.1.exporter(responseLabel, match aead case AesGcm128 => 16 case AesGcm256 => 32 case ChaCha20Poly1305 => 32))
  {
    hide PutU16, KemCode, KdfCode, AeadCode;
  }

  /** The response is sealed under the key and nonce derived, for the request's algorithms, from the
      encapsulated key and the response nonce, in that order, as salt and the secret; call `k` uses the
      initial nonce with `k` added in without carry. */
  lemma ResponseBinding(c: Crypto, x: ResponseContext, nonce: bytes, k: nat, aad: bytes, p: bytes)
    ensures var (key, initial) := c.derive(x.kdf, x.aead, x.encappedKey + nonce, x.secret);
            ResponseAead(c, x, nonce).seal(k, aad, p) == c.cipher(x.aead).seal(key, NonceAt(initial, k), aad, p)
    ensures var (key, initial) := c.derive(x.kdf, x.aead, x.encappedKey + nonce, x.secret);
            ResponseAead(c, x, nonce).seal(0, aad, p) == c.cipher(x.aead).seal(key, initial, aad, p)
  {
    hide NonceAt;
    FirstNonce(c.derive(x.kdf, x.aead, x.encappedKey + nonce, x.secret).1);
  }

  /** From the wire bytes alone, whatever follows them, the server recovers the client's header and
      encapsulated key, opens with the context the client seals with, and holds the same response
      context. */
  lemma ContextsAgree(c: Crypto, cs: seq<KeyConfig<KeyPair>>, i: nat, j: nat, requestLabel: bytes, responseLabel: bytes, rnd: nat,
                      env: Env, tail: bytes, e: Ending)
    requires LawfulCrypto(c) && GoodConfigs(cs) && Paired(c, cs) && i < |cs| && j < |cs[i].algorithms|
    requires env.limit >= 96
    requires SetupRequest(c, Pick(cs, i, j), requestLabel, responseLabel, rnd).Some?
    ensures var (sending, context) :=
              SetupRequest(c, Pick(cs, i, j), requestLabel, responseLabel, rnd).value;
            && RequestHeaderOf(c, cs, requestLabel, responseLabel, env, Wire(InitialChunk(sending) + tail, e))
               == Done((sending.aead, context), Wire(tail, e))
            && Lawful(sending.aead)
            && |context.secret| == SecretLen(context.aead)
  {
    hide HeaderBytes, HeaderOf, GetKeyPair, InfoBytes, Lawful, LawfulCipher;
    var pick := Pick(cs, i, j);
    var (sending, context) := SetupRequest(c, pick, requestLabel, responseLabel, rnd).value;
    var h, enc := sending.header, sending.encappedKey;
    assert InitialChunk(sending) + tail == HeaderBytes(h) + (enc + tail);
    ReadHeader(env, h, enc + tail, e);
    ChoicesAccepted(cs, i, j);
    assert Receives(c, SuiteOf(h), cs[i].key.private, InfoBytes(h, requestLabel), rnd);
    L.ReadTake(env.limit, enc, tail, e);
  }

  /** A request cut inside the header or the encapsulated key is refused. */
  lemma HeaderMissing(c: Crypto, cs: seq<KeyConfig<KeyPair>>, i: nat, j: nat, requestLabel: bytes, responseLabel: bytes, rnd: nat,
                      env: Env, p: bytes, e: Ending)
    requires LawfulCrypto(c) && GoodConfigs(cs) && Paired(c, cs) && i < |cs| && j < |cs[i].algorithms|
    requires env.limit >= 96
    requires SetupRequest(c, Pick(cs, i, j), requestLabel, responseLabel, rnd).Some?
    requires p < InitialChunk(SetupRequest(c, Pick(cs, i, j), requestLabel, responseLabel, rnd).value.0)
    ensures !RequestHeaderOf(c, cs, requestLabel, responseLabel, env, Wire(p, e)).Done?
  {
    hide HeaderBytes, HeaderOf, GetKeyPair, InfoBytes, Lawful, LawfulCipher;
    var (sending, context) := SetupRequest(c, Pick(cs, i, j), requestLabel, responseLabel, rnd).value;
    var h, enc, w := sending.header, sending.encappedKey, Wire(InitialChunk(sending), e);
    ReadHeader(env, h, enc, e);
    HeaderCut(env, Wire(p, e), w);
    HeaderConsumed(env, Wire(p, e));
    ChoicesAccepted(cs, i, j);
    assert Receives(c, SuiteOf(h), cs[i].key.private, InfoBytes(h, requestLabel), rnd);
  }

  /** From the request on the wire and the response nonce on the wire, the server's sealer and the
      client's opener are the same: same cipher, same key, same initial nonce, both at call zero. */
  method DeriveResponseContexts(c: Crypto, server: ServerConfig, i: nat, j: nat, requestLabel: bytes, responseLabel: bytes, rnd: nat,
                                request: Source, nonce: bytes, response: Source, limit: nat)
    returns (sealer: AeadContext, opener: AeadContext)
    requires LawfulCrypto(c) && GoodConfigs(server.keyConfigs) && Paired(c, server.keyConfigs) && limit >= 96
    requires i < |server.keyConfigs| && j < |server.keyConfigs[i].algorithms|
    requires var sent := SetupRequest(c, Pick(server.keyConfigs, i, j), requestLabel, responseLabel, rnd);
             sent.Some? && InitialChunk(sent.value.0) <= Data(request) && |nonce| == |sent.value.1.secret|
    requires nonce <= Data(response)
    ensures sealer.cipher == opener.cipher && sealer.key == opener.key
    ensures sealer.chunkNonce.initial == opener.chunkNonce.initial
    ensures sealer.chunkNonce.Count() == opener.chunkNonce.Count() == 0
    ensures sealer.Numbering() == opener.Numbering()
  {
    hide LawfulCrypto, Paired, InitialChunk, RequestHeaderOf, ResponseAead;
    var pick := Pick(server.keyConfigs, i, j);
    var (sending, client) := SetupRequest(c, pick, requestLabel, responseLabel, rnd).value;
    var sb := new StreamBuf(request, limit);
    ghost var tail := Data(request)[|InitialChunk(sending)|..];
    assert [] + Data(request) == InitialChunk(sending) + tail;
    ContextsAgree(c, server.keyConfigs, i, j, requestLabel, responseLabel, rnd, sb.Conf(), tail, Closing(request));
    SecretShort(client);
    hide SetupRequest, SecretLen;
    var received := DecodeRequestHeader(c, server, requestLabel, responseLabel, sb);
    sealer, opener := DeriveBoth(c, received.value.1, client, nonce, response, limit);
  }

  /** One side draws the nonce, the other reads it off the front of the response. */
  method DeriveBoth(c: Crypto, gateway: ResponseContext, client: ResponseContext, nonce: bytes, response: Source, limit: nat)
    returns (sealer: AeadContext, opener: AeadContext)
    requires gateway == client && |nonce| == |client.secret| <= limit + 1 && nonce <= Data(response)
    ensures DerivedFrom(sealer, c, client, nonce) && DerivedFrom(opener, c, client, nonce)
  {
    hide ResponseAead;
    sealer := DeriveAeadContext(c, gateway, nonce);
    var sb := new StreamBuf(response, limit);
    ghost var rest := Data(response)[|nonce|..];
    assert [] + Data(response) == nonce + rest;
    L.ReadTake(limit, nonce, rest, Closing(response));
    var r := ReceiveResponseNonce(c, client, sb);
    opener := r.value;
  }

  lemma SecretShort(x: ResponseContext)
    ensures SecretLen(x.aead) <= 32
  {
  }

  lemma ResponseAeadLawful(c: Crypto, x: ResponseContext, nonce: bytes)
    requires LawfulCrypto(c)
    ensures Lawful(ResponseAead(c, x, nonce))
    ensures ResponseAead(c, x, nonce).messages == Pow256(NONCE_LEN) - 1
  {
    hide Lawful, LawfulCipher, NonceAt, Pow256;
    var (key, initial) := c.derive(x.kdf, x.aead, x.encappedKey + nonce, x.secret);
    NumberedLawful(c.cipher(x.aead), key, initial);
  }

  // ---------- the assumptions are consistent ----------

  function PlainCipher(): Cipher {
    Cipher(16, (key, nonce, aad, p) => (p, Repeat(0, 16)),
           (key, nonce, aad, t) => if |t| < 16 then None else Some(t[..|t| - 16]))
  }

  function PlainContext(): Context {
    Context(Aead(16, 1, false, (k, aad, p) => (p, Repeat(0, 16)), (k, aad, t) => if |t| < 16 then None else Some(t[..|t| - 16])),
            (purpose, n) => Repeat(0, n))
  }

  function PlainCrypto(): Crypto {
    Crypto((s: Suite, pk, info, rnd) => Some((Repeat(0, EncappedKeyLen(s.kem)), PlainContext())),
           (s, sk, enc, info) => Some(PlainContext()),
           (kem, sk) => Repeat(0, PublicKeyLen(kem)),
           (kdf, a, salt, secret) => (Repeat(0, KeyLen(a)), Repeat(0, NONCE_LEN)),
           a => PlainCipher())
  }

  /** There is something that satisfies every law assumed of the cryptography. */
  lemma LawsConsistent()
    ensures LawfulCrypto(PlainCrypto())
  {
    hide Repeat;
    var c, x := PlainCrypto(), PlainContext();
    forall k: nat, aad: bytes, p: bytes
      ensures SealsAt(x.aead, k, aad, p)
    {
      assert (p + Repeat(0, 16))[..|p|] == p;
    }
    assert Lawful(x.aead);
    forall key: bytes, nonce: bytes, aad: bytes, p: bytes
      ensures CipherSealsAt(PlainCipher(), key, nonce, aad, p)
    {
      assert (p + Repeat(0, 16))[..|p|] == p;
    }
    assert LawfulCipher(PlainCipher());
    forall s: Suite, sk: bytes, info: bytes, rnd: nat
      ensures Receives(c, s, sk, info, rnd)
    {
    }
  }
}
