/** Key configurations (section 3 of RFC 9458): the server's table, its encoding, and the client's
    decoding of it. */
module KeyConfig {
  import opened Bytes
  import opened Varint
  import opened Streams
  import opened StreamBuf
  import opened StreamOctets
  import opened OctetsMut
  import L = BinaryLaws

  datatype KemId = DhP256HkdfSha256 | DhP384HkdfSha384 | X25519HkdfSha256
  datatype KdfId = HkdfSha256 | HkdfSha384 | HkdfSha512
  datatype AeadId = AesGcm128 | AesGcm256 | ChaCha20Poly1305

  type u16 = v: nat | v < 65536

  function KemCode(k: KemId): u16 {
    match k case DhP256HkdfSha256 => 0x0010 case DhP384HkdfSha384 => 0x0011 case X25519HkdfSha256 => 0x0020
  }

  function KdfCode(k: KdfId): u16 {
    match k case HkdfSha256 => 1 case HkdfSha384 => 2 case HkdfSha512 => 3
  }

  function AeadCode(k: AeadId): u16 {
    match k case AesGcm128 => 1 case AesGcm256 => 2 case ChaCha20Poly1305 => 3
  }

  function KemOf(v: nat): (r: Option<KemId>)
    ensures r.Some? ==> KemCode(r.value) == v
    ensures forall k :: KemCode(k) == v ==> r == Some(k)
  {
    if v == 0x0010 then Some(DhP256HkdfSha256)
    else if v == 0x0011 then Some(DhP384HkdfSha384)
    else if v == 0x0020 then Some(X25519HkdfSha256)
    else None
  }

  function KdfOf(v: nat): (r: Option<KdfId>)
    ensures forall k :: KdfCode(k) == v ==> r == Some(k)
    ensures r.Some? ==> KdfCode(r.value) == v
  {
    if v == 1 then Some(HkdfSha256) else if v == 2 then Some(HkdfSha384) else if v == 3 then Some(HkdfSha512) else None
  }

  function AeadOf(v: nat): (r: Option<AeadId>)
    ensures forall k :: AeadCode(k) == v ==> r == Some(k)
    ensures r.Some? ==> AeadCode(r.value) == v
  {
    if v == 1 then Some(AesGcm128) else if v == 2 then Some(AesGcm256) else if v == 3 then Some(ChaCha20Poly1305) else None
  }

  function PublicKeyLen(k: KemId): nat {
    match k case DhP256HkdfSha256 => 65 case DhP384HkdfSha384 => 97 case X25519HkdfSha256 => 32
  }

  function EncappedKeyLen(k: KemId): nat {
    match k case DhP256HkdfSha256 => 65 case DhP384HkdfSha384 => 97 case X25519HkdfSha256 => 32
  }

  datatype PublicKey = PublicKey(kem: KemId, data: bytes)
  datatype KeyPair = KeyPair(public: PublicKey, private: bytes)
  datatype Algorithm = Algorithm(kdf: KdfId, aead: AeadId)
  datatype KeyConfig<+K> = KeyConfig(keyId: byte, key: K, algorithms: seq<Algorithm>)

  // ---------- the format ----------

  function PutU16(v: u16): (s: bytes)
    ensures |s| == 2
  {
    ToBE(2, v)
  }

  function AlgorithmBytes(algs: seq<Algorithm>): (s: bytes)
    ensures |s| == 4 * |algs|
  {
    if algs == [] then []
    else PutU16(KdfCode(algs[0].kdf)) + (PutU16(AeadCode(algs[0].aead)) + AlgorithmBytes(algs[1..]))
  }

  predicate FitsU16(algs: seq<Algorithm>) {
    4 * |algs| < 65536
  }

  function ConfigBytes(keyId: byte, key: PublicKey, algs: seq<Algorithm>): bytes
    requires FitsU16(algs)
  {
    [keyId] + (PutU16(KemCode(key.kem)) + (key.data + (PutU16(4 * |algs|) + AlgorithmBytes(algs))))
  }

  function Blob(b: bytes): bytes
    requires |b| < 65536
  {
    PutU16(|b|) + b
  }

  predicate SmallBlobs(bs: seq<bytes>) {
    forall i :: 0 <= i < |bs| ==> |bs[i]| < 65536
  }

  /** Configurations one after another, each behind its length. */
  function Blobs(bs: seq<bytes>): bytes
    requires SmallBlobs(bs)
  {
    if bs == [] then [] else Blob(bs[0]) + Blobs(bs[1..])
  }

  // ---------- the client's decoder ----------

  function GetU16(b: bytes): Option<(nat, bytes)> {
    if |b| < 2 then None else Some((FromBE(b[..2]), b[2..]))
  }

  function GetAlgorithms(n: nat, b: bytes): (r: Option<seq<Algorithm>>)
    ensures r.Some? ==> |r.value| == n
  {
    if n == 0 then Some([])
    else match GetU16(b)
      case None => None
      case Some((kdf, b1)) =>
        match GetU16(b1)
        case None => None
        case Some((aead, b2)) =>
          match KdfOf(kdf)
          case None => None
          case Some(k) =>
            match AeadOf(aead)
            case None => None
            case Some(a) =>
              match GetAlgorithms(n - 1, b2)
              case None => None
              case Some(rest) => Some([Algorithm(k, a)] + rest)
  }

  function AlgorithmsField(b: bytes): (r: Option<seq<Algorithm>>)
    ensures r.Some? ==> r.value != []
  {
    match GetU16(b)
    case None => None
    case Some((len, rest)) =>
      if len == 0 || len % 4 != 0 || |rest| < len then None else GetAlgorithms(len / 4, rest)
  }

  function DecodeKeyConfig(b: bytes): (r: Option<KeyConfig<PublicKey>>)
    ensures r.Some? ==> r.value.algorithms != [] && |r.value.key.data| == PublicKeyLen(r.value.key.kem)
  {
    if b == [] then None
    else match GetU16(b[1..])
      case None => None
      case Some((code, b1)) =>
        match KemOf(code)
        case None => None
        case Some(kem) =>
          var n := PublicKeyLen(kem);
          if |b1| < n then None
          else match AlgorithmsField(b1[n..])
            case None => None
            case Some(algs) => Some(KeyConfig(b[0], PublicKey(kem, b1[..n]), algs))
  }

  /** The algorithm list read off a cursor, one pair at a time. */
  method DecodeAlgorithms(n: nat, b: bytes) returns (r: Option<seq<Algorithm>>)
    ensures r == GetAlgorithms(n, b)
  {
    hide GetU16, KdfOf, AeadOf;
    var algs: seq<Algorithm> := [];
    var rest := b;
    assert GetAlgorithms(n, b).Some? ==> [] + GetAlgorithms(n, b).value == GetAlgorithms(n, b).value;
    while |algs| < n
      invariant |algs| <= n
      invariant GetAlgorithms(n, b) == Prepended(algs, GetAlgorithms(n - |algs|, rest))
      decreases n - |algs|
    {
      var kdf := GetU16(rest);
      if kdf.None? { return None; }
      var k := KdfOf(kdf.value.0);
      var aead := GetU16(kdf.value.1);
      if k.None? || aead.None? { return None; }
      var a := AeadOf(aead.value.0);
      if a.None? { return None; }
      rest := aead.value.1;
      PrependedStep(algs, Algorithm(k.value, a.value), GetAlgorithms(n - |algs| - 1, rest));
      algs := algs + [Algorithm(k.value, a.value)];
    }
    assert algs + [] == algs;
    return Some(algs);
  }

  function Prepended(algs: seq<Algorithm>, rest: Option<seq<Algorithm>>): Option<seq<Algorithm>> {
    match rest
    case None => None
    case Some(more) => Some(algs + more)
  }

  lemma PrependedStep(algs: seq<Algorithm>, a: Algorithm, rest: Option<seq<Algorithm>>)
    ensures Prepended(algs, Prepended([a], rest)) == Prepended(algs + [a], rest)
  {
    if rest.Some? {
      assert algs + ([a] + rest.value) == algs + [a] + rest.value;
    }
  }

  method DecodeKeyConfigBytes(b: bytes) returns (r: Option<KeyConfig<PublicKey>>)
    ensures r == DecodeKeyConfig(b)
  {
    if b == [] { return None; }
    var code := GetU16(b[1..]);
    if code.None? { return None; }
    var kem := KemOf(code.value.0);
    if kem.None? { return None; }
    var b1 := code.value.1;
    var n := PublicKeyLen(kem.value);
    if |b1| < n { return None; }
    var len := GetU16(b1[n..]);
    if len.None? || len.value.0 == 0 || len.value.0 % 4 != 0 || |len.value.1| < len.value.0 { return None; }
    var algs := DecodeAlgorithms(len.value.0 / 4, len.value.1);
    if algs.None? { return None; }
    return Some(KeyConfig(b[0], PublicKey(kem.value, b1[..n]), algs.value));
  }

  function Push(acc: seq<KeyConfig<PublicKey>>, b: bytes): seq<KeyConfig<PublicKey>> {
    match DecodeKeyConfig(b)
    case None => acc
    case Some(c) => acc + [c]
  }

  /** A configuration behind its 16-bit length. */
  function BlobOf(limit: nat, w: Wire): (o: Outcome<bytes>)
    ensures o.Done? ==> |o.rest.bytes| < |w.bytes| && o.rest.ending == w.ending
  {
    var (len, rest) :- FieldOf(limit, w, U16);
    Take(limit, rest, len)
  }

  function ConfigsFrom(env: Env, w: Wire, acc: seq<KeyConfig<PublicKey>>): Outcome<seq<KeyConfig<PublicKey>>>
    decreases |w.bytes|
  {
    var (more, w0) :- HasMore(env, w);
    if !more then (if acc == [] then Failed(UnexpectedEof) else Done(acc, w0))
    else
      var (b, w1) :- BlobOf(env.limit, w0);
      ConfigsFrom(env, w1, Push(acc, b))
  }

  method ReadBlobBytes(sb: StreamBuf) returns (r: Result<bytes>)
    requires sb.Valid()
    modifies sb
    ensures sb.Valid() && sb.Measure() <= old(sb.Measure())
    ensures sb.Settled(r, BlobOf(sb.maxBufSize, old(sb.Flat())))
    ensures sb.Sound(r, BlobOf(sb.size, old(sb.Flat())))
    ensures r.Ok? ==> sb.Trail() == old(sb.Trail()) && sb.Measure() < old(sb.Measure())
  {
    hide FieldOf, Take;
    var len := Decode(sb, U16);
    if len.Err? { return Err(len.error); }
    r := sb.ReadExact(len.value);
  }

  method DecodeConfig(sb: StreamBuf) returns (r: Result<seq<KeyConfig<PublicKey>>>)
    requires sb.Valid()
    modifies sb
    ensures sb.Valid()
    ensures sb.Settled(r, ConfigsFrom(old(sb.Conf()), old(sb.Flat()), []))
    ensures sb.Sound(r, ConfigsFrom(old(sb.Unlimited()), old(sb.Flat()), []))
    ensures r.Ok? ==> r.value != [] && forall i :: 0 <= i < |r.value| ==> r.value[i].algorithms != []
  {
    hide BlobOf, DecodeKeyConfig;
    var configs: seq<KeyConfig<PublicKey>> := [];
    ghost var env, free := sb.Conf(), sb.Unlimited();
    ghost var total, ideal := ConfigsFrom(env, sb.Flat(), []), ConfigsFrom(free, sb.Flat(), []);
    while true
      invariant sb.Valid() && sb.Trail() == env.trail
      invariant ideal == ConfigsFrom(free, sb.Flat(), configs)
      invariant total == Varies || total == ConfigsFrom(env, sb.Flat(), configs)
      invariant forall i :: 0 <= i < |configs| ==> configs[i].algorithms != []
      decreases sb.Measure()
    {
      var more := sb.HasMoreData();
      if more.Err? { return Err(more.error); }
      if !more.value {
        if configs == [] { return Err(UnexpectedEof); }
        return Ok(configs);
      }
      var encoded := ReadBlobBytes(sb);
      if encoded.Err? { return Err(encoded.error); }
      var c := DecodeKeyConfigBytes(encoded.value);
      if c.Some? {
        configs := configs + [c.value];
      }
    }
  }

  datatype EncapConfig = EncapConfig(keyId: byte, public: PublicKey, algorithm: Algorithm)

  function FirstEncapConfig(configs: seq<KeyConfig<PublicKey>>): EncapConfig
    requires configs != [] && configs[0].algorithms != []
  {
    EncapConfig(configs[0].keyId, configs[0].key, configs[0].algorithms[0])
  }

  // ---------- decoding what was encoded ----------

  lemma ReadU16(v: u16, tail: bytes)
    ensures GetU16(PutU16(v) + tail) == Some((v, tail))
  {
    Weights();
    FromToBE(2, v);
    assert (PutU16(v) + tail)[..2] == PutU16(v);
    assert (PutU16(v) + tail)[2..] == tail;
  }

  lemma {:induction false} ReadAlgorithms(algs: seq<Algorithm>, tail: bytes)
    ensures GetAlgorithms(|algs|, AlgorithmBytes(algs) + tail) == Some(algs)
    decreases |algs|
  {
    hide PutU16, GetU16, KdfOf, AeadOf;
    if algs != [] {
      var kdf, aead, rest := PutU16(KdfCode(algs[0].kdf)), PutU16(AeadCode(algs[0].aead)), AlgorithmBytes(algs[1..]);
      assert (kdf + (aead + rest)) + tail == kdf + (aead + (rest + tail));
      ReadU16(KdfCode(algs[0].kdf), aead + (rest + tail));
      ReadU16(AeadCode(algs[0].aead), rest + tail);
      ReadAlgorithms(algs[1..], tail);
      assert algs == [algs[0]] + algs[1..];
    }
  }

  lemma ReadAlgorithmsField(algs: seq<Algorithm>, tail: bytes)
    requires algs != [] && FitsU16(algs)
    ensures AlgorithmsField((PutU16(4 * |algs|) + AlgorithmBytes(algs)) + tail) == Some(algs)
  {
    hide PutU16, GetU16, AlgorithmBytes, GetAlgorithms;
    var len, body := PutU16(4 * |algs|), AlgorithmBytes(algs);
    assert (len + body) + tail == len + (body + tail);
    ReadU16(4 * |algs|, body + tail);
    ReadAlgorithms(algs, tail);
  }

  /** A well-formed configuration decodes to itself, whatever trails it. */
  lemma ReadConfig(keyId: byte, key: PublicKey, algs: seq<Algorithm>, tail: bytes)
    requires algs != [] && FitsU16(algs) && |key.data| == PublicKeyLen(key.kem)
    ensures DecodeKeyConfig(ConfigBytes(keyId, key, algs) + tail) == Some(KeyConfig(keyId, key, algs))
  {
    hide PutU16, GetU16, AlgorithmBytes, AlgorithmsField, KemOf;
    var kem, last := PutU16(KemCode(key.kem)), PutU16(4 * |algs|) + AlgorithmBytes(algs);
    var b := ConfigBytes(keyId, key, algs) + tail;
    assert b == [keyId] + (kem + (key.data + (last + tail)));
    assert b[1..] == kem + (key.data + (last + tail));
    ReadU16(KemCode(key.kem), key.data + (last + tail));
    ReadAlgorithmsField(algs, tail);
    assert (key.data + (last + tail))[..|key.data|] == key.data;
    assert (key.data + (last + tail))[|key.data|..] == last + tail;
  }

  lemma U16Inverse(b: bytes)
    requires |b| >= 2
    ensures var (v, rest) := GetU16(b).value; v < 65536 && b == PutU16(v) + rest
  {
    Weights();
    ToFromBE(b[..2]);
    assert b == b[..2] + b[2..];
  }

  lemma {:induction false} AlgorithmsInverse(n: nat, b: bytes)
    requires GetAlgorithms(n, b).Some?
    ensures var algs := GetAlgorithms(n, b).value; AlgorithmBytes(algs) <= b
    decreases n
  {
    hide PutU16, GetU16;
    if n > 0 {
      assert |b| >= 2 by { U16Short(b); }
      U16Inverse(b);
      var (kdf, b1) := GetU16(b).value;
      assert |b1| >= 2 by { U16Short(b1); }
      U16Inverse(b1);
      var (aead, b2) := GetU16(b1).value;
      AlgorithmsInverse(n - 1, b2);
      var k, a, rest := KdfOf(kdf).value, AeadOf(aead).value, GetAlgorithms(n - 1, b2).value;
      var all := [Algorithm(k, a)] + rest;
      assert all[1..] == rest;
      assert AlgorithmBytes(all) == PutU16(kdf) + (PutU16(aead) + AlgorithmBytes(rest));
    }
  }

  lemma U16Short(b: bytes)
    ensures GetU16(b).Some? ==> |b| >= 2
  {
  }

  lemma FieldInverse(b: bytes)
    requires AlgorithmsField(b).Some?
    ensures var algs := AlgorithmsField(b).value; FitsU16(algs) && PutU16(4 * |algs|) + AlgorithmBytes(algs) <= b
  {
    hide PutU16, GetU16, GetAlgorithms, AlgorithmBytes;
    U16Short(b);
    U16Inverse(b);
    var (len, rest) := GetU16(b).value;
    AlgorithmsInverse(len / 4, rest);
  }

  /** A configuration decodes to `c` if and only if it begins with the encoding of `c`, which has a key of
      its KEM's length and at least one algorithm; nothing else is accepted. */
  lemma ConfigExact(b: bytes, c: KeyConfig<PublicKey>)
    ensures DecodeKeyConfig(b) == Some(c) <==>
            && c.algorithms != [] && FitsU16(c.algorithms) && |c.key.data| == PublicKeyLen(c.key.kem)
            && ConfigBytes(c.keyId, c.key, c.algorithms) <= b
  {
    if DecodeKeyConfig(b) == Some(c) {
      ConfigInverse(b, c);
    }
    if c.algorithms != [] && FitsU16(c.algorithms) && |c.key.data| == PublicKeyLen(c.key.kem)
       && ConfigBytes(c.keyId, c.key, c.algorithms) <= b {
      hide DecodeKeyConfig, ConfigBytes;
      var front := ConfigBytes(c.keyId, c.key, c.algorithms);
      assert b == front + b[|front|..];
      ReadConfig(c.keyId, c.key, c.algorithms, b[|front|..]);
    }
  }

  lemma ConfigInverse(b: bytes, c: KeyConfig<PublicKey>)
    requires DecodeKeyConfig(b) == Some(c)
    ensures FitsU16(c.algorithms) && ConfigBytes(c.keyId, c.key, c.algorithms) <= b
  {
    hide PutU16, GetU16, AlgorithmBytes, AlgorithmsField, KemOf;
    U16Short(b[1..]);
    U16Inverse(b[1..]);
    var (code, b1) := GetU16(b[1..]).value;
    var n := PublicKeyLen(c.key.kem);
    FieldInverse(b1[n..]);
    var last := PutU16(4 * |c.algorithms|) + AlgorithmBytes(c.algorithms);
    assert b1 == b1[..n] + b1[n..];
    assert b == [b[0]] + (PutU16(code) + b1);
    PrefixOf(b[0], PutU16(code), b1[..n], last, b1[n..]);
  }

  lemma PrefixOf(id: byte, code: bytes, key: bytes, last: bytes, rest: bytes)
    requires last <= rest
    ensures [id] + (code + (key + last)) <= [id] + (code + (key + rest))
  {
    assert rest == last + rest[|last|..];
    assert [id] + (code + (key + (last + rest[|last|..]))) == ([id] + (code + (key + last))) + rest[|last|..];
  }

  function Decodable(bs: seq<bytes>, acc: seq<KeyConfig<PublicKey>>): seq<KeyConfig<PublicKey>>
    decreases |bs|
  {
    if bs == [] then acc else Decodable(bs[1..], Push(acc, bs[0]))
  }

  lemma {:induction false} DecodableAfter(bs: seq<bytes>, acc: seq<KeyConfig<PublicKey>>)
    ensures Decodable(bs, acc) == acc + Decodable(bs, [])
    decreases |bs|
  {
    hide DecodeKeyConfig;
    if bs == [] {
      assert acc + [] == acc;
    } else {
      var first, rest := Push([], bs[0]), Decodable(bs[1..], []);
      DecodableAfter(bs[1..], Push(acc, bs[0]));
      DecodableAfter(bs[1..], first);
      PushAfter(acc, bs[0]);
      hide Push;
      assert (acc + first) + rest == acc + (first + rest);
    }
  }

  lemma PushAfter(acc: seq<KeyConfig<PublicKey>>, b: bytes)
    ensures Push(acc, b) == acc + Push([], b)
  {
    assert acc + [] == acc;
  }

  /** The decodable blobs of a table, blob by blob and in order: one that decodes gives its
      configuration, one that does not gives nothing and hides none of the others. */
  lemma DecodableEach(bs: seq<bytes>)
    requires bs != []
    ensures var first, rest := DecodeKeyConfig(bs[0]), Decodable(bs[1..], []);
            && (first.Some? ==> Decodable(bs, []) == [first.value] + rest)
            && (first.None? ==> Decodable(bs, []) == rest)
  {
    DecodableStep(bs);
    hide DecodeKeyConfig, Decodable;
    DecodableAfter(bs[1..], Push([], bs[0]));
    var rest := Decodable(bs[1..], []);
    if DecodeKeyConfig(bs[0]).None? {
      assert [] + rest == rest;
    } else {
      assert Push([], bs[0]) == [DecodeKeyConfig(bs[0]).value];
    }
  }

  lemma DecodableStep(bs: seq<bytes>)
    requires bs != []
    ensures Decodable(bs, []) == Decodable(bs[1..], Push([], bs[0]))
  {
    hide Push;
  }

  /** The first configuration that decodes is the first of the table. */
  lemma {:induction false} FirstDecodable(bs: seq<bytes>, i: nat, c: KeyConfig<PublicKey>)
    requires i < |bs| && DecodeKeyConfig(bs[i]) == Some(c) && forall j :: 0 <= j < i ==> DecodeKeyConfig(bs[j]) == None
    ensures Decodable(bs, []) != [] && Decodable(bs, [])[0] == c
    decreases |bs|
  {
    hide Decodable, DecodeKeyConfig;
    DecodableEach(bs);
    if i > 0 {
      assert bs[1..][i - 1] == bs[i];
      FirstDecodable(bs[1..], i - 1, c);
    }
  }

  /** The client's pick from a table: the first algorithm of the first configuration that decodes. */
  lemma PicksFirst(bs: seq<bytes>, i: nat, c: KeyConfig<PublicKey>)
    requires i < |bs| && DecodeKeyConfig(bs[i]) == Some(c) && forall j :: 0 <= j < i ==> DecodeKeyConfig(bs[j]) == None
    ensures var configs := Decodable(bs, []);
            && configs != [] && configs[0].algorithms != [] && c.algorithms != []
            && FirstEncapConfig(configs) == EncapConfig(c.keyId, c.key, c.algorithms[0])
  {
    hide Decodable, DecodeKeyConfig;
    FirstDecodable(bs, i, c);
    DecodesWhole(bs[i], c);
  }

  lemma DecodesWhole(b: bytes, c: KeyConfig<PublicKey>)
    requires DecodeKeyConfig(b) == Some(c)
    ensures c.algorithms != []
  {
  }

  lemma ReadBlob(limit: nat, b: bytes, rest: bytes, e: Ending)
    requires |b| < 65536 && L.Roomy(limit) && |b| <= limit + 1
    ensures BlobOf(limit, Wire(Blob(b) + rest, e)) == Done(b, Wire(rest, e))
  {
    Weights();
    FromToBE(2, |b|);
    var len := PutU16(|b|);
    assert (len + b) + rest == len + (b + rest);
    assert (len + (b + rest))[..2] == len;
    assert (len + (b + rest))[2..] == b + rest;
    L.ReadTake(limit, b, rest, e);
  }

  lemma NoBlob(limit: nat)
    ensures BlobOf(limit, Wire([], Eof)) == Failed(UnexpectedEof)
  {
  }

  /** Exactly the decodable configurations, in order; an error if there is none, and also if an empty
      chunk after the table announces another. */
  lemma {:induction false} ReadConfigs(env: Env, bs: seq<bytes>, acc: seq<KeyConfig<PublicKey>>)
    requires SmallBlobs(bs) && L.Roomy(env.limit)
    requires forall i :: 0 <= i < |bs| ==> |bs[i]| <= env.limit + 1
    ensures ConfigsFrom(env, Wire(Blobs(bs), Eof), acc) ==
            if env.trail.announces || Decodable(bs, acc) == [] then Failed(UnexpectedEof)
            else Done(Decodable(bs, acc), Wire([], Eof))
    decreases |bs|
  {
    hide Push, Blob, BlobOf;
    if bs == [] {
      NoBlob(env.limit);
    } else {
      ReadBlob(env.limit, bs[0], Blobs(bs[1..]), Eof);
      assert Blob(bs[0]) + Blobs(bs[1..]) != [];
      ReadConfigs(env, bs[1..], Push(acc, bs[0]));
    }
  }

  // ---------- the server ----------

  function EncodedLen(c: KeyConfig<KeyPair>): nat {
    1 + 2 + |c.key.public.data| + 2 + |c.algorithms| * 4
  }

  datatype EncapHeader = EncapHeader(keyId: byte, kem: KemId, kdf: KdfId, aead: AeadId)

  predicate GoodKey(k: KeyPair) {
    |k.public.data| == PublicKeyLen(k.public.kem)
  }

  predicate GoodConfig(c: KeyConfig<KeyPair>, i: nat) {
    && c.keyId == i
    && GoodKey(c.key)
    && c.algorithms != []
    && FitsU16(c.algorithms)
    && EncodedLen(c) + 2 < 65536
  }

  predicate GoodConfigs(cs: seq<KeyConfig<KeyPair>>) {
    forall i :: 0 <= i < |cs| ==> GoodConfig(cs[i], i)
  }

  function Public(c: KeyConfig<KeyPair>): KeyConfig<PublicKey> {
    KeyConfig(c.keyId, c.key.public, c.algorithms)
  }

  function Publics(cs: seq<KeyConfig<KeyPair>>): (ps: seq<KeyConfig<PublicKey>>)
    ensures |ps| == |cs|
  {
    seq(|cs|, i requires 0 <= i < |cs| => Public(cs[i]))
  }

  class ServerConfig {
    var keyConfigs: seq<KeyConfig<KeyPair>>

    constructor ()
      ensures keyConfigs == []
    {
      keyConfigs := [];
    }

    /** Adds a key under the next id. The original panics where this answers false. */
    method AddKeyConfig(keyPair: KeyPair, algorithms: seq<Algorithm>) returns (ok: bool)
      requires GoodKey(keyPair) && GoodConfigs(keyConfigs)
      modifies this
      ensures GoodConfigs(keyConfigs)
      ensures ok <==> |old(keyConfigs)| < 256 && algorithms != [] && |algorithms| * 4 <= 65535
                      && PublicKeyLen(keyPair.public.kem) + |algorithms| * 4 + 7 <= 65535
      ensures if ok then |keyConfigs| == |old(keyConfigs)| + 1 && keyConfigs[..|old(keyConfigs)|] == old(keyConfigs)
                         && keyConfigs[|old(keyConfigs)|].key == keyPair && keyConfigs[|old(keyConfigs)|].algorithms == algorithms
              else keyConfigs == old(keyConfigs)
    {
      if |keyConfigs| > 255 { return false; }
      if algorithms == [] { return false; }
      if |algorithms| * 4 > 65535 { return false; }
      var c := KeyConfig(|keyConfigs|, keyPair, algorithms);
      if EncodedLen(c) + 2 > 65535 { return false; }
      keyConfigs := keyConfigs + [c];
      return true;
    }
  }

  function GetKeyPair(cs: seq<KeyConfig<KeyPair>>, h: EncapHeader): (r: Option<KeyPair>)
    ensures r.Some? <==> h.keyId < |cs| && cs[h.keyId].key.public.kem == h.kem
                         && Algorithm(h.kdf, h.aead) in cs[h.keyId].algorithms
    ensures r.Some? ==> r.value == cs[h.keyId].key
  {
    if h.keyId >= |cs| then None
    else
      var c := cs[h.keyId];
      if h.kem != c.key.public.kem then None
      else if Algorithm(h.kdf, h.aead) !in c.algorithms then None
      else Some(c.key)
  }

  function ConfigBlob(c: KeyConfig<KeyPair>): (b: bytes)
    requires FitsU16(c.algorithms)
    ensures |b| == EncodedLen(c)
  {
    ConfigBytes(c.keyId, c.key.public, c.algorithms)
  }

  predicate AllFitU16(cs: seq<KeyConfig<KeyPair>>) {
    forall i :: 0 <= i < |cs| ==> FitsU16(cs[i].algorithms) && EncodedLen(cs[i]) < 65536
  }

  function ConfigBlobs(cs: seq<KeyConfig<KeyPair>>): (bs: seq<bytes>)
    requires AllFitU16(cs)
    ensures |bs| == |cs| && SmallBlobs(bs)
  {
    seq(|cs|, i requires 0 <= i < |cs| => ConfigBlob(cs[i]))
  }

  function TotalLen(cs: seq<KeyConfig<KeyPair>>): nat {
    if cs == [] then 0 else 2 + EncodedLen(cs[0]) + TotalLen(cs[1..])
  }

  lemma {:induction false} TotalLenExact(cs: seq<KeyConfig<KeyPair>>)
    requires AllFitU16(cs)
    ensures TotalLen(cs) == |Blobs(ConfigBlobs(cs))|
  {
    hide PutU16, ConfigBlob;
    if cs != [] {
      TotalLenExact(cs[1..]);
      assert ConfigBlobs(cs)[1..] == ConfigBlobs(cs[1..]);
    }
  }

  method PutAlgorithms(octets: OctetsMut, algs: seq<Algorithm>) returns (ok: bool)
    requires octets.Valid()
    modifies octets, octets.buf
    ensures octets.Valid()
    ensures |old(octets.written)| + 4 * |algs| <= octets.buf.Length ==> ok
    ensures ok ==> octets.written == old(octets.written) + AlgorithmBytes(algs)
  {
    hide PutU16;
    assert algs[0..] == algs;
    for i := 0 to |algs|
      invariant octets.Valid()
      invariant octets.written + AlgorithmBytes(algs[i..]) == old(octets.written) + AlgorithmBytes(algs)
    {
      assert algs[i..][1..] == algs[i + 1..];
      ghost var before, kdf, aead := octets.written, PutU16(KdfCode(algs[i].kdf)), PutU16(AeadCode(algs[i].aead));
      assert before + (kdf + (aead + AlgorithmBytes(algs[i + 1..]))) == ((before + kdf) + aead) + AlgorithmBytes(algs[i + 1..]);
      ok := octets.PutBytes(PutU16(KdfCode(algs[i].kdf)));
      if !ok { return false; }
      ok := octets.PutBytes(PutU16(AeadCode(algs[i].aead)));
      if !ok { return false; }
    }
    return true;
  }

  /** A cast to 16 bits. */
  function Truncate16(v: nat): u16 {
    v % 65536
  }

  method PutAlgorithmsField(octets: OctetsMut, algs: seq<Algorithm>) returns (ok: bool)
    requires octets.Valid() && FitsU16(algs)
    modifies octets, octets.buf
    ensures octets.Valid()
    ensures |old(octets.written)| + 2 + 4 * |algs| <= octets.buf.Length ==> ok
    ensures ok ==> octets.written == old(octets.written) + (PutU16(4 * |algs|) + AlgorithmBytes(algs))
  {
    hide PutU16, AlgorithmBytes;
    var len := Truncate16(Truncate16(|algs|) * 4);
    assert len == 4 * |algs|;
    ghost var start, lenBytes, body := octets.written, PutU16(len), AlgorithmBytes(algs);
    assert (start + lenBytes) + body == start + (lenBytes + body);
    ok := octets.PutBytes(PutU16(len));
    if !ok { return; }
    ok := PutAlgorithms(octets, algs);
  }

  method PutConfig(octets: OctetsMut, c: KeyConfig<KeyPair>) returns (ok: bool)
    requires octets.Valid() && FitsU16(c.algorithms)
    modifies octets, octets.buf
    ensures octets.Valid()
    ensures |old(octets.written)| + EncodedLen(c) <= octets.buf.Length ==> ok
    ensures ok ==> octets.written == old(octets.written) + ConfigBlob(c)
  {
    hide PutU16, AlgorithmBytes, KemCode;
    Fields(octets.written, [c.keyId], PutU16(KemCode(c.key.public.kem)), c.key.public.data,
           PutU16(4 * |c.algorithms|) + AlgorithmBytes(c.algorithms));
    ok := octets.PutBytes([c.keyId]);
    if !ok { return; }
    ok := octets.PutBytes(PutU16(KemCode(c.key.public.kem)));
    if !ok { return; }
    ok := octets.PutBytes(c.key.public.data);
    if !ok { return; }
    ok := PutAlgorithmsField(octets, c.algorithms);
  }

  lemma Fields(start: bytes, a: bytes, b: bytes, c: bytes, d: bytes)
    ensures (((start + a) + b) + c) + d == start + (a + (b + (c + d)))
  {
    assert ((start + a) + b) + (c + d) == start + (a + (b + (c + d)));
  }

  /** A configuration behind its length. */
  function Entry(c: KeyConfig<KeyPair>): (b: bytes)
    requires FitsU16(c.algorithms) && EncodedLen(c) < 65536
    ensures |b| == 2 + EncodedLen(c)
  {
    Blob(ConfigBlob(c))
  }

  method PutEntry(octets: OctetsMut, c: KeyConfig<KeyPair>)
    requires octets.Valid() && FitsU16(c.algorithms) && EncodedLen(c) < 65536
    requires |octets.written| + |Entry(c)| <= octets.buf.Length
    modifies octets, octets.buf
    ensures octets.Valid() && octets.written == old(octets.written) + Entry(c)
  {
    hide PutU16, ConfigBlob;
    Assoc(octets.written, PutU16(EncodedLen(c)), ConfigBlob(c));
    var ok := octets.PutBytes(PutU16(Truncate16(EncodedLen(c))));
    assert ok;
    ok := PutConfig(octets, c);
    assert ok;
  }

  /** The encoded table. The buffer has exactly the length of what is written, and no 16-bit length
      is cut. */
  method EncodeConfig(config: ServerConfig) returns (b: bytes)
    requires GoodConfigs(config.keyConfigs)
    ensures b == Blobs(ConfigBlobs(config.keyConfigs))
  {
    hide Entry, Blobs, ConfigBlobs;
    var cs := config.keyConfigs;
    TotalLenExact(cs);
    var octets := new OctetsMut(TotalLen(cs));
    assert cs[0..] == cs;
    for i := 0 to |cs|
      invariant octets.Valid() && fresh(octets) && fresh(octets.buf) && config.keyConfigs == cs
      invariant octets.buf.Length == |Blobs(ConfigBlobs(cs))|
      invariant octets.written + Blobs(ConfigBlobs(cs[i..])) == Blobs(ConfigBlobs(cs))
    {
      BlobsFront(cs, i);
      Assoc(octets.written, Entry(cs[i]), Blobs(ConfigBlobs(cs[i + 1..])));
      PutEntry(octets, cs[i]);
    }
    BlobsEmpty(cs);
    b := octets.Finish();
  }

  lemma BlobsFront(cs: seq<KeyConfig<KeyPair>>, i: nat)
    requires AllFitU16(cs) && i < |cs|
    ensures Blobs(ConfigBlobs(cs[i..])) == Entry(cs[i]) + Blobs(ConfigBlobs(cs[i + 1..]))
  {
    hide PutU16, ConfigBlob;
    assert ConfigBlobs(cs[i..])[1..] == ConfigBlobs(cs[i + 1..]);
  }

  lemma BlobsEmpty(cs: seq<KeyConfig<KeyPair>>)
    requires AllFitU16(cs)
    ensures Blobs(ConfigBlobs(cs[|cs|..])) == []
  {
  }

  lemma {:induction false} DecodableConfigs(cs: seq<KeyConfig<KeyPair>>, i: nat, acc: seq<KeyConfig<PublicKey>>)
    requires GoodConfigs(cs) && i <= |cs|
    ensures Decodable(ConfigBlobs(cs)[i..], acc) == acc + Publics(cs)[i..]
    decreases |cs| - i
  {
    hide DecodeKeyConfig, ConfigBytes;
    if i < |cs| {
      var c := cs[i];
      ReadConfig(c.keyId, c.key.public, c.algorithms, []);
      assert ConfigBlob(c) + [] == ConfigBlob(c);
      assert ConfigBlobs(cs)[i..][1..] == ConfigBlobs(cs)[i + 1..];
      DecodableConfigs(cs, i + 1, acc + [Public(c)]);
      assert acc + [Public(c)] + Publics(cs)[i + 1..] == acc + Publics(cs)[i..];
    }
  }

  lemma {:induction false} ConfigsUnlimited(env: Env, env': Env, w: Wire, acc: seq<KeyConfig<PublicKey>>)
    requires env.trail == env'.trail && |w.bytes| <= env.limit && |w.bytes| <= env'.limit
    ensures ConfigsFrom(env, w, acc) == ConfigsFrom(env', w, acc)
    decreases |w.bytes|
  {
    hide Push;
    var b := BlobOf(env.limit, w);
    assert b == BlobOf(env'.limit, w);
    hide BlobOf;
    if b.Done? {
      ConfigsUnlimited(env, env', b.rest, Push(acc, b.value));
    }
  }

  /** Any table built by adding keys decodes, on the client, to the same ids, keys and algorithm
      lists in the same order, unless an empty chunk follows it. */
  lemma ConfigRoundTrip(env: Env, cs: seq<KeyConfig<KeyPair>>)
    requires GoodConfigs(cs) && cs != [] && (env.limit >= 65535 || env.limit >= |Blobs(ConfigBlobs(cs))|)
    ensures ConfigsFrom(env, Wire(Blobs(ConfigBlobs(cs)), Eof), []) ==
            if env.trail.announces then Failed(UnexpectedEof) else Done(Publics(cs), Wire([], Eof))
  {
    hide ConfigBlob, Blobs, DecodeKeyConfig;
    var env' := Env(env.limit + 65535, env.trail);
    if env.limit < 65535 {
      ConfigsUnlimited(env, env', Wire(Blobs(ConfigBlobs(cs)), Eof), []);
    }
    ReadConfigs(if env.limit < 65535 then env' else env, ConfigBlobs(cs), []);
    DecodableConfigs(cs, 0, []);
    assert ConfigBlobs(cs)[0..] == ConfigBlobs(cs);
    assert [] + Publics(cs)[0..] == Publics(cs);
  }

  /** The header of a client that picks algorithm `j` of configuration `i` of a decoded table. */
  function Choice(ps: seq<KeyConfig<PublicKey>>, i: nat, j: nat): EncapHeader
    requires i < |ps| && j < |ps[i].algorithms|
  {
    EncapHeader(ps[i].keyId, ps[i].key.kem, ps[i].algorithms[j].kdf, ps[i].algorithms[j].aead)
  }

  /** Every key and algorithm a client can pick from the decoded table is accepted by the server,
      which then uses that very key pair. */
  lemma ChoicesAccepted(cs: seq<KeyConfig<KeyPair>>, i: nat, j: nat)
    requires GoodConfigs(cs) && i < |cs| && j < |cs[i].algorithms|
    ensures GetKeyPair(cs, Choice(Publics(cs), i, j)) == Some(cs[i].key)
  {
    var a := cs[i].algorithms[j];
    assert Algorithm(a.kdf, a.aead) == a;
  }

  /** And the server accepts nothing else: a header gets a key pair if and only if it is a choice from
      the table, and the pair is that of the chosen configuration. */
  lemma OnlyChoicesAccepted(cs: seq<KeyConfig<KeyPair>>, h: EncapHeader, pair: KeyPair)
    requires GoodConfigs(cs)
    ensures GetKeyPair(cs, h) == Some(pair) <==>
            exists i, j :: 0 <= i < |cs| && 0 <= j < |cs[i].algorithms| && h == Choice(Publics(cs), i, j) && pair == cs[i].key
  {
    if GetKeyPair(cs, h) == Some(pair) {
      var i: nat := h.keyId;
      var j :| 0 <= j < |cs[i].algorithms| && cs[i].algorithms[j] == Algorithm(h.kdf, h.aead);
      assert h == Choice(Publics(cs), i, j);
    }
    if i, j :| 0 <= i < |cs| && 0 <= j < |cs[i].algorithms| && h == Choice(Publics(cs), i, j) && pair == cs[i].key {
      ChoicesAccepted(cs, i, j);
    }
  }
}
