/** The whole stack, from key fetch to decoded message: whatever the bodies, and however the bytes
    are cut and delayed between the layers, what was sent is what is received. */
module EndToEnd {
  import opened Bytes
  import opened Varint
  import opened Streams
  import opened StreamBuf
  import opened HttpMessage
  import opened BinarySpec
  import opened BinaryEncoder
  import opened BinaryDecoder
  import opened BinaryLaws
  import opened BinaryMessages
  import opened StreamTruncation
  import opened KeyConfig
  import opened Handshake
  import A = Aead
  import opened Framing
  import opened Encapsulated
  import D = Decapsulated

  function RequestBytes(req: Request, body: Source): bytes
    requires Encodable(req) && req.uri.scheme.Some? && ChunksAtMost(body, MAX_VARINT)
  {
    RequestHead(req) + Data(ContentTrace(false, body))
  }

  function ResponseBytes(res: Response, size: Option<nat>, body: Source): bytes
    requires EncodableResponse(res) && ChunksAtMost(body, MAX_VARINT)
    requires size.Some? ==> size.value <= MAX_VARINT
  {
    ResponseHead(res, size) + Data(ContentTrace(size.Some?, body))
  }

  /** The plaintext can be sealed, whole or chunk by chunk, within the sealer's calls. */
  ghost predicate Seals(a: A.Aead, chunked: bool, plain: Source) {
    && A.Lawful(a)
    && 0 < a.messages
    && (chunked ==> Sealable(a, plain) && |Chunks(plain)| < a.messages && SizedChunks(a, Chunks(plain)))
  }

  /** And no sealed chunk is too large for the opener's buffer. */
  ghost predicate Carries(a: A.Aead, chunked: bool, plain: Source, limit: nat) {
    Seals(a, chunked, plain) && (chunked ==> Roomy(limit) && FramesFit(a, Chunks(plain), limit))
  }

  /** What follows the first chunk of an encapsulated message. */
  function Payload(a: A.Aead, chunked: bool, plain: Source): bytes
    requires chunked ==> SizedChunks(a, Chunks(plain))
  {
    if chunked then Frames(a, 0, Chunks(plain)) else A.Sealed(a, 0, A.NO_AAD, Data(plain))
  }

  // ---------- sealing and opening ----------

  method Seal(a: A.Aead, context: A.AeadContext?, chunked: bool, initial: bytes, plain: Source) returns (wire: Source)
    requires Closing(plain) == Eof && Seals(a, chunked, plain)
    requires context != null ==> context.At(a, 0)
    modifies A.NonceOf(context)
    ensures Brings(wire, initial + Payload(a, chunked, plain))
  {
    hide Frames, SealTrace, WholeTrace, A.Lawful;
    var sb := new StreamBuf(plain);
    SealCountChunks(plain);
    var e := new Encapsulated(a, context, chunked, initial, sb);
    if chunked {
      SealTraceBytes(a, 0, plain);
    } else {
      WholeTraceBytes(a, 0, [], plain);
      assert [] + Data(plain) == Data(plain);
    }
    wire := Drain(e);
  }

  /** Any re-chunking of a sealed run opens to the plaintext that went in. It comes as a reader: over
      the opened chunks, and then it always ends on an empty chunk; or over all the bytes at once. */
  method OpenPayload(a: A.Aead, context: A.AeadContext?, chunked: bool, ghost plain: Source, sb: StreamBuf, limit: nat)
    returns (inner: StreamBuf)
    requires sb.Valid() && (context != null ==> context.At(a, 0))
    requires Closing(plain) == Eof && Carries(a, chunked, plain, sb.maxBufSize)
    requires sb.Flat() == Wire(Payload(a, chunked, plain), Eof)
    modifies sb, A.NonceOf(context)
    ensures fresh(inner) && inner.Valid() && inner.Flat() == Wire(Data(plain), Eof)
    ensures inner.maxBufSize == if chunked then limit else |Data(plain)|
    ensures inner.Trail() == if chunked then D.EMPTY_LAST else Trail(false, false)
  {
    hide A.Lawful, Frames, Chunks, OpenFrom, A.Sealed, A.OpenAt;
    if chunked {
      FramesOpen(a, sb.maxBufSize, 0, Chunks(plain));
      ListedText(Chunks(plain));
      ChunksJoined(plain);
      var d := new D.Decapsulated(a, context, sb);
      var text := D.Drain(d);
      inner := new StreamBuf(text, limit);
      assert [] + Data(text) == Data(text);
    } else {
      A.SealedOpens(a, 0, A.NO_AAD, Data(plain));
      var whole := D.OpenWhole(a, context, sb);
      inner := new StreamBuf.FromBytes(whole.value);
      assert whole.value + [] == whole.value;
    }
  }

  /** Cut anywhere before its end, or broken off, a chunked run opens to a prefix of the plaintext and
      then an error, never an end, whatever the buffer limit. */
  method OpenTruncated(a: A.Aead, context: A.AeadContext?, ghost plain: Source, sb: StreamBuf) returns (text: Source)
    requires sb.Valid() && (context != null ==> context.At(a, 0))
    requires Closing(plain) == Eof && Seals(a, true, plain)
    requires sb.Flat().bytes <= Payload(a, true, plain)
    requires sb.Flat().bytes < Payload(a, true, plain) || sb.Flat().ending.Broken?
    modifies sb, A.NonceOf(context)
    ensures Data(text) <= Data(plain) && Closing(text).Broken?
  {
    hide A.Lawful, Frames, Chunks, OpenFrom;
    var d := new D.Decapsulated(a, context, sb);
    ghost var cs := Chunks(plain);
    ghost var limit := sb.size + |Joined(cs)| + a.tagLen + 7;
    JoinedFit(a, cs, limit);
    FramesTruncated(a, limit, 0, cs, sb.Flat().bytes, sb.Flat().ending);
    OpenUnlimited(a, sb.size, limit, 0, ChunkLen, sb.Flat());
    StopsWithinPrefix(d.Content(), cs);
    ChunksJoined(plain);
    text := D.Drain(d);
  }

  // ---------- requests ----------

  /** A request decodes to itself off any reader that brings its bytes. */
  method ReadRequest(g: Grammar, ghost req: Request, ghost body: Source, sb: StreamBuf)
    returns (got: Request, content: bytes, end: Result<()>)
    requires Canonical(g, req) && ChunksAtMost(body, MAX_VARINT) && Closing(body) == Eof
    requires sb.Valid() && sb.Flat() == Wire(RequestBytes(req, body), Eof) && Ample(sb.maxBufSize, req, |sb.Flat().bytes|)
    modifies sb
    ensures got == req && content == Data(body) && end.Ok?
  {
    hide RequestHead, ContentTrace, BodyOf, RequestOf, RequestPartsOf, Fits, Canonical;
    RequestReadBack(g, sb.Conf(), req, Data(ContentTrace(false, body)), Eof);
    ContentReadBack(sb.Conf(), body, Eof);
    var head := DecodeRequest(g, sb);
    var decoded := new DecodedBody(head.value.1, sb);
    got := head.value.0;
    content, end := CollectBody(decoded);
  }

  /** The client fetches the key table, encapsulates a request and sends it; the server opens and
      decodes it. For every request with a scheme and an authority, every body, and every cutting
      and delaying of the table, the encoded request and the sealed request, the server gets that
      request and that body, and both sides hold the same response context. */
  method ExchangeRequest(g: Grammar, c: Crypto, server: ServerConfig, requestLabel: bytes, responseLabel: bytes, rnd: nat,
                         ghost req: Request, ghost body: Source, table: StreamBuf, chunked: bool, ghost plain: Source,
                         net: StreamBuf, limit: nat,
                         ghost sending: RequestSending, ghost context: ResponseContext)
    returns (got: Request, content: bytes, end: Result<()>, client: ResponseContext, gateway: ResponseContext)
    requires LawfulCrypto(c) && GoodConfigs(server.keyConfigs) && Paired(c, server.keyConfigs) && server.keyConfigs != []
    requires Canonical(g, req) && ChunksAtMost(body, MAX_VARINT) && Closing(body) == Eof
    requires chunked ==> Ample(limit, req, |RequestBytes(req, body)|)
    requires table != net && table.Valid() && !table.Trail().announces
    requires table.Flat() == Wire(Blobs(ConfigBlobs(server.keyConfigs)), Eof)
    requires table.maxBufSize >= 65535 || table.maxBufSize >= |table.Flat().bytes|
    requires SetupRequest(c, FirstEncapConfig(Publics(server.keyConfigs)), requestLabel, responseLabel, rnd)
             == Some((sending, context))
    requires Brings(plain, RequestBytes(req, body)) && Carries(sending.aead, chunked, plain, net.maxBufSize)
    requires net.Valid() && net.maxBufSize >= 96
    requires net.Flat() == Wire(InitialChunk(sending) + Payload(sending.aead, chunked, plain), Eof)
    modifies table, net
    ensures got == req && content == Data(body) && end.Ok?
    ensures client == gateway == context
  {
    hide LawfulCrypto, Canonical, RequestBytes, Blobs, ConfigBlobs, SetupRequest, Payload, InitialChunk,
      RequestHeaderOf, Paired;
    var configs := FetchConfig(server, table);
    var sent := SetupRequest(c, FirstEncapConfig(configs.value), requestLabel, responseLabel, rnd);
    client := sent.value.1;

    ghost var payload := Payload(sending.aead, chunked, plain);
    FirstContextsAgree(c, server.keyConfigs, requestLabel, responseLabel, rnd, net.Conf(), payload, sending, context);
    var header := DecodeRequestHeader(c, server, requestLabel, responseLabel, net);
    assert header == Ok((sending.aead, context));
    gateway := header.value.1;

    var inner := OpenPayload(header.value.0, null, chunked, plain, net, limit);
    got, content, end := ReadRequest(g, req, body, inner);
  }

  /** The client's fetch of the table, however it arrives: the server's own table, unless an empty
      chunk follows it. */
  method FetchConfig(server: ServerConfig, table: StreamBuf) returns (r: Result<seq<KeyConfig<PublicKey>>>)
    requires GoodConfigs(server.keyConfigs) && server.keyConfigs != []
    requires table.Valid() && table.Flat() == Wire(Blobs(ConfigBlobs(server.keyConfigs)), Eof)
    requires table.maxBufSize >= 65535 || table.maxBufSize >= |table.Flat().bytes|
    modifies table
    ensures r == if old(table.Trail()).announces then Err(UnexpectedEof) else Ok(Publics(server.keyConfigs))
  {
    hide Blobs, ConfigBlobs, ConfigsFrom, TrailOf;
    ConfigRoundTrip(table.Conf(), server.keyConfigs);
    r := DecodeConfig(table);
  }

  lemma FirstContextsAgree(c: Crypto, cs: seq<KeyConfig<KeyPair>>, requestLabel: bytes, responseLabel: bytes, rnd: nat,
                           env: Env, tail: bytes, sending: RequestSending, context: ResponseContext)
    requires LawfulCrypto(c) && GoodConfigs(cs) && Paired(c, cs) && cs != [] && env.limit >= 96
    requires SetupRequest(c, FirstEncapConfig(Publics(cs)), requestLabel, responseLabel, rnd) == Some((sending, context))
    ensures RequestHeaderOf(c, cs, requestLabel, responseLabel, env, Wire(InitialChunk(sending) + tail, Eof))
            == Outcome.Done((sending.aead, context), Wire(tail, Eof))
  {
    hide LawfulCrypto, SetupRequest, RequestHeaderOf, InitialChunk, Paired;
    ContextsAgree(c, cs, 0, 0, requestLabel, responseLabel, rnd, env, tail, Eof);
  }

  /** The bytes assumed on the wire are the ones the client's streams emit. */
  method SendRequest(req: Request, body: Source, sending: RequestSending, chunked: bool, plain: Source)
    returns (wire: Source)
    requires Encodable(req) && req.uri.scheme.Some? && ChunksAtMost(body, MAX_VARINT) && Closing(body) == Eof
    requires Brings(plain, RequestBytes(req, body)) && Seals(sending.aead, chunked, plain)
    ensures Brings(wire, InitialChunk(sending) + Payload(sending.aead, chunked, plain))
  {
    hide RequestHead, ContentTrace, InitialChunk, Payload;
    var m := EncodeRequest(req, body);
    ContentEnds(false, body);
    assert Brings(m.value.Out(), Data(plain));
    var initial := EncodeInitialChunk(sending);
    wire := Seal(sending.aead, null, chunked, initial, plain);
  }

  // ---------- responses ----------

  method ReadResponse(g: Grammar, ghost res: Response, ghost size: Option<nat>, ghost body: Source, sb: StreamBuf)
    returns (got: Response, content: bytes, end: Result<()>)
    requires CanonicalResponse(g, res) && ChunksAtMost(body, MAX_VARINT) && Closing(body) == Eof
    requires size.Some? ==> size.value == |Data(body)| <= MAX_VARINT
    requires sb.Valid() && sb.Flat() == Wire(ResponseBytes(res, size, body), Eof) && AmpleResponse(sb.maxBufSize, res, |sb.Flat().bytes|)
    modifies sb
    ensures got == res && content == Data(body) && end.Ok?
  {
    hide ResponseHead, ContentTrace, BodyOf, ResponseOf, ResponsePartsOf, LinesFit, LinesBytes, CanonicalResponse;
    ghost var encoded := Data(ContentTrace(size.Some?, body));
    ResponseReadBack(g, sb.Conf(), res, size, encoded, Eof);
    if size.Some? {
      KnownContentRoundTrip(sb.Conf(), body, [], Eof);
      assert encoded + [] == encoded;
    } else {
      ContentReadBack(sb.Conf(), body, Eof);
    }
    var head := DecodeResponse(g, sb);
    var decoded := new DecodedBody(head.value.1, sb);
    got := head.value.0;
    content, end := CollectBody(decoded);
  }

  /** The way back: from one response context and any response nonce, the client reads the nonce off
      the wire, opens what the server sealed with its nonce counter, and gets that response and that
      body, sent with a known or an indeterminate length. */
  method ExchangeResponse(g: Grammar, c: Crypto, x: ResponseContext, ghost nonce: bytes, ghost res: Response, ghost size: Option<nat>,
                          ghost body: Source, chunked: bool, ghost plain: Source, net: StreamBuf, limit: nat)
    returns (got: Response, content: bytes, end: Result<()>)
    requires LawfulCrypto(c) && |nonce| == |x.secret| <= net.maxBufSize + 1
    requires CanonicalResponse(g, res) && ChunksAtMost(body, MAX_VARINT) && Closing(body) == Eof
    requires size.Some? ==> size.value == |Data(body)| <= MAX_VARINT
    requires chunked ==> AmpleResponse(limit, res, |ResponseBytes(res, size, body)|)
    requires Brings(plain, ResponseBytes(res, size, body)) && Carries(ResponseAead(c, x, nonce), chunked, plain, net.maxBufSize)
    requires net.Valid() && net.Flat() == Wire(nonce + Payload(ResponseAead(c, x, nonce), chunked, plain), Eof)
    modifies net
    ensures got == res && content == Data(body) && end.Ok?
  {
    hide LawfulCrypto, CanonicalResponse, ResponseBytes, Payload, ResponseAead;
    ghost var payload := Payload(ResponseAead(c, x, nonce), chunked, plain);
    ReadTake(net.maxBufSize, nonce, payload, Eof);
    var received := ReceiveResponseNonce(c, x, net);
    var inner := OpenPayload(received.value.Numbering(), received.value, chunked, plain, net, limit);
    got, content, end := ReadResponse(g, res, size, body, inner);
  }

  /** The bytes assumed on the wire are the ones the server's streams emit. */
  method SendResponse(c: Crypto, x: ResponseContext, nonce: bytes, res: Response, size: Option<nat>, body: Source,
                      chunked: bool, plain: Source)
    returns (wire: Source)
    requires EncodableResponse(res) && ChunksAtMost(body, MAX_VARINT) && Closing(body) == Eof
    requires size.Some? ==> size.value <= MAX_VARINT
    requires Brings(plain, ResponseBytes(res, size, body)) && Seals(ResponseAead(c, x, nonce), chunked, plain)
    ensures Brings(wire, nonce + Payload(ResponseAead(c, x, nonce), chunked, plain))
  {
    hide KnownResponseHead, IndeterminateResponseHead, ContentTrace, Payload, ResponseAead;
    var m := EncodeResponse(res, size, body);
    ContentEnds(size.Some?, body);
    assert Brings(m.Out(), Data(plain));
    var context := DeriveAeadContext(c, x, nonce);
    wire := Seal(context.Numbering(), context, chunked, nonce, plain);
  }

  // ---------- messages cut short ----------

  /** A request whose content lacks its terminator, inside an intact encapsulation: opened chunk by
      chunk the loss is always noticed, opened whole it never is. */
  method OpenUnterminated(g: Grammar, ghost req: Request, ghost body: Source, a: A.Aead, chunked: bool, ghost plain: Source,
                          sb: StreamBuf, limit: nat)
    returns (r: Result<Message<Request>>)
    requires Canonical(g, req) && ChunksAtMost(body, MAX_VARINT) && Closing(body).Broken?
    requires chunked ==> Ample(limit, req, |RequestBytes(req, body)|)
    requires Brings(plain, RequestBytes(req, body)) && Carries(a, chunked, plain, sb.maxBufSize)
    requires sb.Valid() && sb.Flat() == Wire(Payload(a, chunked, plain), Eof)
    modifies sb
    ensures r == Ok(Message(req, Delivered(Data(body), if chunked then Cut(UnexpectedEof) else Clean)))
  {
    hide Fits, Canonical, Payload, ContentTrace, ControlBytes, LinesBytes, TrailOf;
    var inner := OpenPayload(a, null, chunked, plain, sb, limit);
    r := ReadUnterminated(g, req, body, inner);
  }

  /** A sealed chunked request cut anywhere, or broken off, on any source and with any limits: the
      server refuses it, or decodes the whole request, headers included; and a body that ends cleanly
      is the whole body. */
  method ReceiveTruncatedExchange(g: Grammar, c: Crypto, server: ServerConfig, requestLabel: bytes, responseLabel: bytes, rnd: nat,
                                  ghost req: Request, ghost body: Source, ghost plain: Source, net: Source, netLimit: nat, limit: nat,
                                  ghost sending: RequestSending, ghost context: ResponseContext)
    returns (r: Result<Message<Request>>)
    requires LawfulCrypto(c) && GoodConfigs(server.keyConfigs) && Paired(c, server.keyConfigs) && server.keyConfigs != []
    requires Canonical(g, req) && ChunksAtMost(body, MAX_VARINT) && Closing(body) == Eof
    requires SetupRequest(c, FirstEncapConfig(Publics(server.keyConfigs)), requestLabel, responseLabel, rnd)
             == Some((sending, context))
    requires Brings(plain, RequestBytes(req, body)) && Seals(sending.aead, true, plain)
    requires var whole := InitialChunk(sending) + Payload(sending.aead, true, plain);
             Data(net) <= whole && (Data(net) < whole || Closing(net).Broken?)
    ensures r.Ok? ==>
              && r.value.head == req && r.value.content.data <= Data(body)
              && (r.value.content.end == Clean ==> r.value.content.data == Data(body))
  {
    hide LawfulCrypto, Canonical, RequestHead, ContentTrace, SetupRequest, Payload, InitialChunk, RequestHeaderOf,
      Paired, A.Lawful, Sealable, Chunks;
    ghost var p, initial, payload := Data(net), InitialChunk(sending), Payload(sending.aead, true, plain);
    var sb := new StreamBuf(net, netLimit, |AllData(net)| + 96);
    assert [] + Data(net) == Data(net);
    SplitPrefix(p, initial, payload);
    FirstHeader(c, server.keyConfigs, requestLabel, responseLabel, rnd, sb.Unlimited(), p, Closing(net), sending, context);
    var header := DecodeRequestHeader(c, server, requestLabel, responseLabel, sb);
    if header.Err? { return Err(header.error); }
    CutPayload(p, initial, payload);
    var text := OpenTruncated(header.value.0, null, plain, sb);
    r := ReceiveBrokenRequest(g, req, body, text, limit);
  }

  /** What is left of a cut message after its first part is a cut of the second. */
  lemma CutPayload(p: bytes, a: bytes, b: bytes)
    requires p <= a + b && |a| <= |p|
    ensures p[|a|..] <= b && (p < a + b ==> p[|a|..] < b)
  {
  }

  /** The header of a request that was cut: all of it, or nothing that is accepted. */
  lemma FirstHeader(c: Crypto, cs: seq<KeyConfig<KeyPair>>, requestLabel: bytes, responseLabel: bytes, rnd: nat,
                    env: Env, p: bytes, e: Ending, sending: RequestSending, context: ResponseContext)
    requires LawfulCrypto(c) && GoodConfigs(cs) && Paired(c, cs) && cs != [] && env.limit >= 96
    requires SetupRequest(c, FirstEncapConfig(Publics(cs)), requestLabel, responseLabel, rnd) == Some((sending, context))
    requires p < InitialChunk(sending) || InitialChunk(sending) <= p
    ensures var o := RequestHeaderOf(c, cs, requestLabel, responseLabel, env, Wire(p, e));
            o.Done? ==> InitialChunk(sending) <= p
                        && o == Outcome.Done((sending.aead, context), Wire(p[|InitialChunk(sending)|..], e))
  {
    hide LawfulCrypto, SetupRequest, RequestHeaderOf, InitialChunk, Paired;
    if InitialChunk(sending) <= p {
      var tail := p[|InitialChunk(sending)|..];
      assert p == InitialChunk(sending) + tail;
      ContextsAgree(c, cs, 0, 0, requestLabel, responseLabel, rnd, env, tail, e);
    } else {
      HeaderMissing(c, cs, 0, 0, requestLabel, responseLabel, rnd, env, p, e);
    }
  }

  /** The same for the response. */
  method ReceiveTruncatedAnswer(g: Grammar, c: Crypto, x: ResponseContext, ghost nonce: bytes, ghost res: Response, ghost size: Option<nat>,
                                ghost body: Source, ghost plain: Source, net: Source, netLimit: nat, limit: nat)
    returns (r: Result<Message<Response>>)
    requires |nonce| == |x.secret|
    requires CanonicalResponse(g, res) && ChunksAtMost(body, MAX_VARINT) && Closing(body) == Eof && |Data(body)| <= MAX_VARINT
    requires size.Some? ==> size.value == |Data(body)|
    requires Brings(plain, ResponseBytes(res, size, body)) && Seals(ResponseAead(c, x, nonce), true, plain)
    requires var whole := nonce + Payload(ResponseAead(c, x, nonce), true, plain);
             Data(net) <= whole && (Data(net) < whole || Closing(net).Broken?)
    ensures r.Ok? ==>
              && r.value.head == res && r.value.content.data <= Data(body)
              && (r.value.content.end == Clean ==> r.value.content.data == Data(body))
  {
    hide CanonicalResponse, KnownResponseHead, IndeterminateResponseHead, ContentTrace, Payload, ResponseAead, A.Lawful, Sealable, Chunks;
    ghost var p, payload := Data(net), Payload(ResponseAead(c, x, nonce), true, plain);
    var sb := new StreamBuf(net, netLimit);
    assert [] + Data(net) == Data(net);
    SplitPrefix(p, nonce, payload);
    var received := ReceiveResponseNonce(c, x, sb);
    if received.Err? { return Err(received.error); }
    CutPayload(p, nonce, payload);
    assert p[..|nonce|] == nonce;
    var text := OpenTruncated(received.value.Numbering(), received.value, plain, sb);
    r := ReceiveBrokenResponse(g, res, size.Some?, body, text, limit);
  }
}
