/** The encoder of crates/hyper-binary/src/encoder: pre-computed lengths, fixed buffers, and the
    stream of encoded chunks. */
module BinaryEncoder {
  import opened Bytes
  import opened Varint
  import opened Streams
  import opened HttpMessage
  import opened BinarySpec
  import opened OctetsMut

  // ---------- the format ----------

  predicate Sized(b: bytes) {
    |b| <= MAX_VARINT
  }

  predicate SizedLines(ls: seq<Line>) {
    forall l :: l in ls ==> Sized(l.name) && Sized(l.value)
  }

  function LengthPrefixed(b: bytes): bytes
    requires Sized(b)
  {
    PutVarint(|b|) + b
  }

  function LineBytes(l: Line): bytes
    requires Sized(l.name) && Sized(l.value)
  {
    LengthPrefixed(l.name) + LengthPrefixed(l.value)
  }

  function LinesBytes(ls: seq<Line>): bytes
    requires SizedLines(ls)
  {
    if ls == [] then [] else LineBytes(ls[0]) + LinesBytes(ls[1..])
  }

  /** Every length the encoder writes fits a varint. */
  predicate Encodable(req: Request) {
    && Sized(req.verb)
    && (req.uri.scheme.Some? ==> Sized(req.uri.scheme.value))
    && (req.uri.authority.Some? ==> Sized(req.uri.authority.value))
    && Sized(JoinQuery(req.uri.path, req.uri.query))
    && SizedLines(Lines(req.headers))
  }

  /** The authority field: left empty when the Host header says the same. */
  function AuthorityField(req: Request): bytes {
    match req.uri.authority
    case None => []
    case Some(a) => if Lookup(req.headers, HOST) == Some(a) then [] else a
  }

  function ControlBytes(req: Request): bytes
    requires Encodable(req) && req.uri.scheme.Some?
  {
    LengthPrefixed(req.verb) + (LengthPrefixed(req.uri.scheme.value)
      + (LengthPrefixed(AuthorityField(req)) + LengthPrefixed(JoinQuery(req.uri.path, req.uri.query))))
  }

  function RequestHead(req: Request): bytes
    requires Encodable(req) && req.uri.scheme.Some?
  {
    PutVarint(INDETERMINATE_LENGTH_REQUEST) + (ControlBytes(req) + (LinesBytes(Lines(req.headers)) + PutVarint(0)))
  }

  predicate EncodableResponse(res: Response) {
    res.status <= MAX_VARINT && SizedLines(Lines(res.headers)) && Sized(LinesBytes(Lines(res.headers)))
  }

  function IndeterminateResponseHead(res: Response): bytes
    requires EncodableResponse(res)
  {
    PutVarint(INDETERMINATE_LENGTH_RESPONSE) + (PutVarint(res.status) + (LinesBytes(Lines(res.headers)) + PutVarint(0)))
  }

  function KnownResponseHead(res: Response, size: nat): bytes
    requires EncodableResponse(res) && size <= MAX_VARINT
  {
    PutVarint(KNOWN_LENGTH_RESPONSE) + (PutVarint(res.status) + (LengthPrefixed(LinesBytes(Lines(res.headers))) + PutVarint(size)))
  }

  // ---------- the pre-computed lengths ----------

  function FieldLinesLen(ls: seq<Line>): nat
    requires SizedLines(ls)
  {
    if ls == [] then 0
    else VarintLen(|ls[0].name|) + |ls[0].name| + VarintLen(|ls[0].value|) + |ls[0].value| + FieldLinesLen(ls[1..])
  }

  function RequestControlDataLen(req: Request): nat
    requires Encodable(req) && req.uri.scheme.Some?
  {
    var scheme, authority := |req.uri.scheme.value|, |AuthorityField(req)|;
    var path := |req.uri.path| + if req.uri.query.Some? then 1 + |req.uri.query.value| else 0;
    VarintLen(|req.verb|) + |req.verb| + VarintLen(scheme) + scheme + VarintLen(authority) + authority
    + VarintLen(path) + path
  }

  /** The lengths computed ahead are the lengths of what is written. */
  lemma {:induction false} FieldLinesLenExact(ls: seq<Line>)
    requires SizedLines(ls)
    ensures FieldLinesLen(ls) == |LinesBytes(ls)|
  {
    if ls != [] {
      FieldLinesLenExact(ls[1..]);
    }
  }

  function RequestLen(req: Request): nat
    requires Encodable(req) && req.uri.scheme.Some?
  {
    VarintLen(INDETERMINATE_LENGTH_REQUEST) + RequestControlDataLen(req) + FieldLinesLen(Lines(req.headers)) + VarintLen(0)
  }

  lemma RequestLenExact(req: Request)
    requires Encodable(req) && req.uri.scheme.Some?
    ensures RequestControlDataLen(req) == |ControlBytes(req)|
    ensures RequestLen(req) == |RequestHead(req)|
  {
    FieldLinesLenExact(Lines(req.headers));
    assert |LengthPrefixed(AuthorityField(req))| == VarintLen(|AuthorityField(req)|) + |AuthorityField(req)|;
  }

  function IndeterminateResponseLen(res: Response): nat
    requires EncodableResponse(res)
  {
    VarintLen(INDETERMINATE_LENGTH_RESPONSE) + VarintLen(res.status) + FieldLinesLen(Lines(res.headers)) + VarintLen(0)
  }

  function KnownResponseLen(res: Response, size: nat): nat
    requires EncodableResponse(res) && size <= MAX_VARINT
  {
    FieldLinesLenExact(Lines(res.headers));
    var linesLen := FieldLinesLen(Lines(res.headers));
    VarintLen(KNOWN_LENGTH_RESPONSE) + VarintLen(res.status) + VarintLen(linesLen) + linesLen + VarintLen(size)
  }

  lemma ResponseLenExact(res: Response, size: nat)
    requires EncodableResponse(res) && size <= MAX_VARINT
    ensures IndeterminateResponseLen(res) == |IndeterminateResponseHead(res)|
    ensures KnownResponseLen(res, size) == |KnownResponseHead(res, size)|
  {
    FieldLinesLenExact(Lines(res.headers));
  }

  // ---------- the writers ----------

  method PutLengthPrefixed(octets: OctetsMut, b: bytes) returns (ok: bool)
    requires octets.Valid() && Sized(b)
    modifies octets, octets.buf
    ensures octets.Valid()
    ensures |old(octets.written)| + |LengthPrefixed(b)| <= octets.buf.Length ==> ok
    ensures ok ==> octets.written == old(octets.written) + LengthPrefixed(b)
  {
    ok := octets.PutVarint(|b|);
    if ok {
      ok := octets.PutBytes(b);
    }
  }

  lemma Reassociate(a: bytes, b: bytes, c: bytes, d: bytes)
    ensures ((a + b) + c) + d == a + ((b + c) + d)
    ensures ((a + b) + c) + d == a + (b + (c + d))
  {
  }

  method PutFieldLines(octets: OctetsMut, ls: seq<Line>) returns (ok: bool)
    requires octets.Valid() && SizedLines(ls)
    modifies octets, octets.buf
    ensures octets.Valid()
    ensures |old(octets.written)| + |LinesBytes(ls)| <= octets.buf.Length ==> ok
    ensures ok ==> octets.written == old(octets.written) + LinesBytes(ls)
  {
    assert ls[0..] == ls;
    for i := 0 to |ls|
      invariant octets.Valid()
      invariant octets.written + LinesBytes(ls[i..]) == old(octets.written) + LinesBytes(ls)
    {
      assert ls[i..][1..] == ls[i + 1..];
      Reassociate(octets.written, LengthPrefixed(ls[i].name), LengthPrefixed(ls[i].value), LinesBytes(ls[i + 1..]));
      ok := PutLengthPrefixed(octets, ls[i].name);
      if !ok { return false; }
      ok := PutLengthPrefixed(octets, ls[i].value);
      if !ok { return false; }
    }
    return true;
  }

  /** Four pieces written one after another. */
  lemma Pieces(start: bytes, a: bytes, b: bytes, c: bytes, d: bytes)
    ensures (((start + a) + b) + c) + d == start + (a + (b + (c + d)))
    ensures |a + (b + (c + d))| == |a| + |b| + |c| + |d|
    ensures [] + (a + (b + (c + d))) == a + (b + (c + d))
  {
    Reassociate(start + a, b, c, d);
    assert (start + a) + (b + (c + d)) == start + (a + (b + (c + d)));
  }

  method PutPathAndQuery(octets: OctetsMut, path: bytes, query: bytes) returns (ok: bool)
    requires octets.Valid()
    modifies octets, octets.buf
    ensures octets.Valid()
    ensures |old(octets.written)| + |JoinQuery(path, Some(query))| <= octets.buf.Length ==> ok
    ensures ok ==> octets.written == old(octets.written) + JoinQuery(path, Some(query))
  {
    assert ((octets.written + path) + [QUESTION_MARK]) + query == octets.written + (path + [QUESTION_MARK] + query);
    ok := octets.PutBytes(path);
    if !ok { return; }
    ok := octets.PutBytes([QUESTION_MARK]);
    if !ok { return; }
    ok := octets.PutBytes(query);
  }

  method PutPath(octets: OctetsMut, path: bytes, query: Option<bytes>) returns (ok: bool)
    requires octets.Valid() && Sized(JoinQuery(path, query))
    modifies octets, octets.buf
    ensures octets.Valid()
    ensures |old(octets.written)| + |LengthPrefixed(JoinQuery(path, query))| <= octets.buf.Length ==> ok
    ensures ok ==> octets.written == old(octets.written) + LengthPrefixed(JoinQuery(path, query))
  {
    if query.None? {
      ok := PutLengthPrefixed(octets, path);
    } else {
      ok := octets.PutVarint(|path| + 1 + |query.value|);
      if ok {
        ok := PutPathAndQuery(octets, path, query.value);
      }
    }
  }

  method PutRequestControlData(octets: OctetsMut, req: Request) returns (ok: bool)
    requires octets.Valid() && Encodable(req) && req.uri.scheme.Some?
    modifies octets, octets.buf
    ensures octets.Valid()
    ensures |old(octets.written)| + |ControlBytes(req)| <= octets.buf.Length ==> ok
    ensures ok ==> octets.written == old(octets.written) + ControlBytes(req)
  {
    Pieces(octets.written, LengthPrefixed(req.verb), LengthPrefixed(req.uri.scheme.value),
           LengthPrefixed(AuthorityField(req)), LengthPrefixed(JoinQuery(req.uri.path, req.uri.query)));
    ok := PutLengthPrefixed(octets, req.verb);
    if !ok { return; }
    ok := PutLengthPrefixed(octets, req.uri.scheme.value);
    if !ok { return; }
    ok := PutLengthPrefixed(octets, AuthorityField(req));
    if !ok { return; }
    ok := PutPath(octets, req.uri.path, req.uri.query);
  }

  /** The first chunk of an encoded request. The buffer is exactly as long as what is written: no
      write fails and nothing is left over. */
  method InitialRequestChunk(req: Request) returns (r: Result<bytes>)
    requires Encodable(req)
    ensures r == if req.uri.scheme.None? then Err(InvalidData) else Ok(RequestHead(req))
  {
    if req.uri.scheme.None? {
      return Err(InvalidData);
    }
    var lines := Lines(req.headers);
    RequestLenExact(req);
    Pieces([], PutVarint(INDETERMINATE_LENGTH_REQUEST), ControlBytes(req), LinesBytes(lines), PutVarint(0));
    var octets := new OctetsMut(RequestLen(req));
    var ok := octets.PutVarint(INDETERMINATE_LENGTH_REQUEST);
    assert ok;
    ok := PutRequestControlData(octets, req);
    assert ok;
    ok := PutFieldLines(octets, lines);
    assert ok;
    ok := octets.PutVarint(0);
    assert ok;
    var b := octets.Finish();
    return Ok(b);
  }

  method InitialIndeterminateResponseChunk(res: Response) returns (b: bytes)
    requires EncodableResponse(res)
    ensures b == IndeterminateResponseHead(res)
  {
    var lines := Lines(res.headers);
    ResponseLenExact(res, 0);
    Pieces([], PutVarint(INDETERMINATE_LENGTH_RESPONSE), PutVarint(res.status), LinesBytes(lines), PutVarint(0));
    var octets := new OctetsMut(IndeterminateResponseLen(res));
    var ok := octets.PutVarint(INDETERMINATE_LENGTH_RESPONSE);
    assert ok;
    ok := octets.PutVarint(res.status);
    assert ok;
    ok := PutFieldLines(octets, lines);
    assert ok;
    ok := octets.PutVarint(0);
    assert ok;
    b := octets.Finish();
  }

  method PutLengthAndLines(octets: OctetsMut, lines: seq<Line>) returns (ok: bool)
    requires octets.Valid() && SizedLines(lines) && Sized(LinesBytes(lines))
    modifies octets, octets.buf
    ensures octets.Valid()
    ensures |old(octets.written)| + |LengthPrefixed(LinesBytes(lines))| <= octets.buf.Length ==> ok
    ensures ok ==> octets.written == old(octets.written) + LengthPrefixed(LinesBytes(lines))
  {
    FieldLinesLenExact(lines);
    ok := octets.PutVarint(FieldLinesLen(lines));
    if ok {
      ok := PutFieldLines(octets, lines);
    }
  }

  method InitialKnownResponseChunk(res: Response, size: nat) returns (b: bytes)
    requires EncodableResponse(res) && size <= MAX_VARINT
    ensures b == KnownResponseHead(res, size)
  {
    var lines := Lines(res.headers);
    ResponseLenExact(res, size);
    Pieces([], PutVarint(KNOWN_LENGTH_RESPONSE), PutVarint(res.status), LengthPrefixed(LinesBytes(lines)), PutVarint(size));
    var octets := new OctetsMut(KnownResponseLen(res, size));
    var ok := octets.PutVarint(KNOWN_LENGTH_RESPONSE);
    assert ok;
    ok := octets.PutVarint(res.status);
    assert ok;
    ok := PutLengthAndLines(octets, lines);
    assert ok;
    ok := octets.PutVarint(size);
    assert ok;
    b := octets.Finish();
  }

  // ---------- the stream ----------

  /** The encoded content, poll by poll. Empty body chunks pass through as empty chunks; they have
      no encoding of their own. */
  function ContentTrace(known: bool, body: Source): Source
    requires ChunksAtMost(body, MAX_VARINT)
  {
    match body
    case End => if known then End else Chunk(PutVarint(0), End)
    case Chunk(d, n) => Chunk(if known || d == [] then d else LengthPrefixed(d), ContentTrace(known, n))
    case Pending(n) => Pending(ContentTrace(known, n))
    case Fault(e, n) => Fault(e, ContentTrace(known, n))
  }

  /** A non-empty content chunk, its length in front. */
  method EncodeChunk(chunk: bytes) returns (b: bytes)
    requires Sized(chunk)
    ensures b == LengthPrefixed(chunk)
  {
    var octets := new OctetsMut(VarintLen(|chunk|) + |chunk|);
    var ok := PutLengthPrefixed(octets, chunk);
    assert ok;
    b := octets.Finish();
  }

  class EncodedMessage {
    const known: bool
    var initialChunk: Option<bytes>
    var body: Source
    var endOfContent: bool

    constructor (known: bool, initialChunk: bytes, body: Source)
      requires ChunksAtMost(body, MAX_VARINT)
      ensures Valid() && Out() == Chunk(initialChunk, ContentTrace(known, body))
    {
      this.known := known;
      this.initialChunk := Some(initialChunk);
      this.body := body;
      this.endOfContent := false;
    }

    ghost predicate Valid()
      reads this
    {
      ChunksAtMost(body, MAX_VARINT) && (endOfContent ==> initialChunk.None?)
    }

    /** Everything this message will still emit. */
    ghost function Out(): Source
      reads this
      requires Valid()
    {
      if endOfContent then End
      else if initialChunk.Some? then Chunk(initialChunk.value, ContentTrace(known, body))
      else ContentTrace(known, body)
    }

    method PollNext() returns (r: Poll<Option<Result<bytes>>>)
      requires Valid()
      modifies this
      ensures Valid() && Emits(old(Out()), r, Out())
    {
      if endOfContent {
        return Ready(None);
      }
      if initialChunk.Some? {
        r := Ready(Some(Ok(initialChunk.value)));
        initialChunk := None;
        return;
      }
      match body {
        case Pending(n) =>
          body := n;
          return NotReady;
        case Fault(e, n) =>
          body := n;
          return Ready(Some(Err(e)));
        case End =>
          endOfContent := true;
          assert PutVarint(0) == [0] by { ZeroVarint(); }
          return Ready(if known then None else Some(Ok([0])));
        case Chunk(chunk, n) =>
          body := n;
          if known || chunk == [] {
            return Ready(Some(Ok(chunk)));
          }
          var b := EncodeChunk(chunk);
          return Ready(Some(Ok(b)));
      }
    }
  }

  method EncodeRequest(req: Request, body: Source) returns (r: Result<EncodedMessage>)
    requires Encodable(req) && ChunksAtMost(body, MAX_VARINT)
    ensures req.uri.scheme.None? ==> r == Err(InvalidData)
    ensures req.uri.scheme.Some? ==>
              && r.Ok? && fresh(r.value) && r.value.Valid()
              && r.value.Out() == Chunk(RequestHead(req), ContentTrace(false, body))
  {
    var chunk := InitialRequestChunk(req);
    if chunk.Err? { return Err(chunk.error); }
    var m := new EncodedMessage(false, chunk.value, body);
    return Ok(m);
  }

  /** `size` is the body's size hint when that is exact. */
  method EncodeResponse(res: Response, size: Option<nat>, body: Source) returns (m: EncodedMessage)
    requires EncodableResponse(res) && ChunksAtMost(body, MAX_VARINT)
    requires size.Some? ==> size.value <= MAX_VARINT
    ensures fresh(m) && m.Valid()
    ensures m.Out() == match size
                       case Some(n) => Chunk(KnownResponseHead(res, n), ContentTrace(true, body))
                       case None => Chunk(IndeterminateResponseHead(res), ContentTrace(false, body))
  {
    if size.Some? {
      var chunk := InitialKnownResponseChunk(res, size.value);
      m := new EncodedMessage(true, chunk, body);
    } else {
      var chunk := InitialIndeterminateResponseChunk(res);
      m := new EncodedMessage(false, chunk, body);
    }
  }
}
