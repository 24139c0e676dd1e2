/** Messages cut short, as the streaming decoder meets them on any source: what it still delivers is
    true, and whether it notices the cut depends on the empty chunks after the last byte. */
module StreamTruncation {
  import opened Bytes
  import opened Varint
  import opened Streams
  import opened StreamBuf
  import opened StreamOctets
  import opened HttpMessage
  import opened BinarySpec
  import opened BinaryDecoder
  import opened BinaryEncoder
  import opened BinaryLaws
  import opened BinaryMessages
  import opened BinaryTruncation

  /** Any source that brings a prefix of an encoded request, however it is cut, padded, delayed or
      broken off, and any buffer limit: an error, or the same method and URI, the first header
      lines and the first bytes of the body. */
  method ReceiveTruncatedRequest(g: Grammar, ghost req: Request, ghost body: Source, source: Source, limit: nat)
    returns (r: Result<Message<Request>>)
    requires Canonical(g, req) && ChunksAtMost(body, MAX_VARINT) && Closing(body) == Eof
    requires Data(source) <= RequestHead(req) + Data(ContentTrace(false, body))
    ensures r.Ok? ==>
              && r.value.head.verb == req.verb
              && r.value.head.uri == req.uri
              && (exists n :: 0 <= n <= |Lines(req.headers)| && r.value.head.headers == Collect(Lines(req.headers)[..n]))
              && r.value.content.data <= Data(body)
  {
    hide RequestOf, BodyOf, Lines, Collect, Fits, Data, TrailOf, RequestHead;
    ghost var size := |AllData(source)| + Room(req) + 7;
    ghost var free, p := Env(size, TrailOf(source)), Wire(Data(source), Closing(source));
    RoomFits(req, size);
    EncodedRequestTruncated(g, free, req, body, p);
    r := ReceiveRequest(g, source, limit, size);
  }

  method ReceiveTruncatedResponse(g: Grammar, ghost res: Response, ghost known: bool, ghost body: Source, source: Source, limit: nat)
    returns (r: Result<Message<Response>>)
    requires CanonicalResponse(g, res)
    requires ChunksAtMost(body, MAX_VARINT) && Closing(body) == Eof && |Data(body)| <= MAX_VARINT
    requires Data(source) <= (if known then KnownResponseHead(res, |Data(body)|) else IndeterminateResponseHead(res))
                             + Data(ContentTrace(known, body))
    ensures r.Ok? ==>
              && r.value.head.status == res.status
              && (exists n :: 0 <= n <= |Lines(res.headers)| && r.value.head.headers == Collect(Lines(res.headers)[..n]))
              && r.value.content.data <= Data(body)
  {
    hide ResponseOf, BodyOf, Lines, Collect, Data, TrailOf, KnownResponseHead, IndeterminateResponseHead;
    ghost var size := |AllData(source)| + |LinesBytes(Lines(res.headers))| + 7;
    ghost var free, p := Env(size, TrailOf(source)), Wire(Data(source), Closing(source));
    LinesFitBytes(Lines(res.headers), size);
    EncodedResponseTruncated(g, free, res, known, body, p);
    r := ReceiveResponse(g, source, limit, size);
  }

  /** The same when the source breaks off instead of ending, as a decapsulated stream does that was cut
      short: an error, or the whole head; and content that ends cleanly is the whole body. */
  method ReceiveBrokenRequest(g: Grammar, ghost req: Request, ghost body: Source, source: Source, limit: nat)
    returns (r: Result<Message<Request>>)
    requires Canonical(g, req) && ChunksAtMost(body, MAX_VARINT) && Closing(body) == Eof
    requires Data(source) <= RequestHead(req) + Data(ContentTrace(false, body)) && Closing(source).Broken?
    ensures r.Ok? ==>
              && r.value.head == req && r.value.content.data <= Data(body)
              && (r.value.content.end == Clean ==> r.value.content.data == Data(body))
  {
    hide RequestOf, BodyOf, Fits, Data, TrailOf, RequestHead;
    ghost var size := |AllData(source)| + Room(req) + 7;
    ghost var free, p := Env(size, TrailOf(source)), Wire(Data(source), Closing(source));
    RoomFits(req, size);
    EncodedRequestBroken(g, free, req, body, p);
    r := ReceiveRequest(g, source, limit, size);
  }

  method ReceiveBrokenResponse(g: Grammar, ghost res: Response, ghost known: bool, ghost body: Source, source: Source, limit: nat)
    returns (r: Result<Message<Response>>)
    requires CanonicalResponse(g, res)
    requires ChunksAtMost(body, MAX_VARINT) && Closing(body) == Eof && |Data(body)| <= MAX_VARINT
    requires Data(source) <= (if known then KnownResponseHead(res, |Data(body)|) else IndeterminateResponseHead(res))
                             + Data(ContentTrace(known, body))
    requires Closing(source).Broken?
    ensures r.Ok? ==>
              && r.value.head == res && r.value.content.data <= Data(body)
              && (r.value.content.end == Clean ==> r.value.content.data == Data(body))
  {
    hide ResponseOf, BodyOf, Lines, Data, TrailOf, KnownResponseHead, IndeterminateResponseHead;
    ghost var size := |AllData(source)| + |LinesBytes(Lines(res.headers))| + 7;
    ghost var free, p := Env(size, TrailOf(source)), Wire(Data(source), Closing(source));
    LinesFitBytes(Lines(res.headers), size);
    EncodedResponseBroken(g, free, res, known, body, p);
    r := ReceiveResponse(g, source, limit, size);
  }

  // ---------- when the cut is noticed ----------

  lemma SectionOver(g: Grammar, env: Env, acc: seq<Line>)
    ensures IndeterminateSection(g, env, Wire([], Eof), acc) ==
            if env.trail.announces then Failed(UnexpectedEof) else Done(acc, Wire([], Eof))
  {
  }

  /** Header lines and then the end of the input: the section is complete, unless an empty chunk
      announced more of it. */
  lemma {:induction false} SectionEnds(g: Grammar, env: Env, ls: seq<Line>, acc: seq<Line>)
    requires Roomy(env.limit) && CanonicalLines(g, ls) && LinesFit(ls, env.limit)
    ensures IndeterminateSection(g, env, Wire(LinesBytes(ls), Eof), acc) ==
            if env.trail.announces then Failed(UnexpectedEof) else Done(acc + ls, Wire([], Eof))
    decreases |ls|
  {
    hide IndeterminateSection, LineBytes;
    if ls == [] {
      SectionOver(g, env, acc);
      assert acc + ls == acc;
    } else {
      ReadLine(g, env, ls[0], LinesBytes(ls[1..]), Eof, acc);
      SectionEnds(g, env, ls[1..], acc + [ls[0]]);
      assert acc + [ls[0]] + ls[1..] == acc + ls;
    }
  }

  /** A request that stops after its last header line, without the section's terminator. */
  function UnfinishedHead(req: Request): bytes
    requires Encodable(req) && req.uri.scheme.Some?
  {
    PutVarint(INDETERMINATE_LENGTH_REQUEST) + (ControlBytes(req) + LinesBytes(Lines(req.headers)))
  }

  lemma UnfinishedHeadRead(g: Grammar, env: Env, req: Request)
    requires Roomy(env.limit) && Canonical(g, req) && Fits(req, env.limit)
    ensures RequestOf(g, env, Wire(UnfinishedHead(req), Eof)) ==
            if env.trail.announces then Failed(UnexpectedEof) else Done((req, IndeterminateLength(Some(0))), Wire([], Eof))
  {
    hide PutVarint, FieldOf, ControlBytes, LinesBytes, RequestControl, IndeterminateSection, Assemble, Collect;
    var lines := LinesBytes(Lines(req.headers));
    ReadVarint(env.limit, INDETERMINATE_LENGTH_REQUEST, ControlBytes(req) + lines, Eof);
    ReadControl(g, env, req, lines, Eof);
    SectionEnds(g, env, Lines(req.headers), []);
    assert [] + Lines(req.headers) == Lines(req.headers);
    CollectLines(req.headers);
    Reassembled(g, req);
  }

  /** A request cut off after its last header line, on any source: it is taken for a whole one if and
      only if no empty chunk follows its last byte. */
  method ReceiveUnfinished(g: Grammar, ghost req: Request, source: Source, limit: nat) returns (r: Result<Message<Request>>)
    requires Canonical(g, req) && Roomy(limit) && Fits(req, limit)
    requires Brings(source, UnfinishedHead(req))
    ensures r == if TrailOf(source).announces then Err(UnexpectedEof) else Ok(Message(req, Delivered([], Clean)))
  {
    hide RequestOf, Fits, Canonical, TrailOf, UnfinishedHead, BodyOf;
    var sb := new StreamBuf(source, limit);
    assert [] + Data(source) == Data(source);
    UnfinishedHeadRead(g, sb.Conf(), req);
    var head := DecodeRequest(g, sb);
    if head.Err? { return Err(head.error); }
    var body := new DecodedBody(head.value.1, sb);
    NoContentLeft(sb.Conf(), Eof);
    assert !sb.Trail().starves by { TrailKept(sb.source); StarvesAnnounces(Tail(sb.source)); }
    var data, end := CollectBody(body);
    return Ok(Message(head.value.0, Delivered(data, Ended(end))));
  }

  /** A request whose content stops without its terminator, in any reader: the content is taken for
      complete if and only if the source does not end on an empty chunk. */
  method ReadUnterminated(g: Grammar, ghost req: Request, ghost body: Source, sb: StreamBuf) returns (r: Result<Message<Request>>)
    requires Canonical(g, req) && ChunksAtMost(body, MAX_VARINT) && Closing(body).Broken?
    requires sb.Valid() && sb.Flat() == Wire(RequestHead(req) + Data(ContentTrace(false, body)), Eof)
    requires Ample(sb.maxBufSize, req, |sb.Flat().bytes|)
    modifies sb
    ensures r == Ok(Message(req, Delivered(Data(body), if old(sb.Trail()).starves then Cut(UnexpectedEof) else Clean)))
  {
    hide RequestOf, RequestPartsOf, Fits, Canonical, TrailOf, RequestHead, BodyOf, ContentTrace;
    RequestReadBack(g, sb.Conf(), req, Data(ContentTrace(false, body)), Eof);
    ContentReadBack(sb.Conf(), body, Eof);
    var head := DecodeRequest(g, sb);
    var decoded := new DecodedBody(head.value.1, sb);
    var data, end := CollectBody(decoded);
    return Ok(Message(head.value.0, Delivered(data, Ended(end))));
  }

  method ReceiveUnterminated(g: Grammar, ghost req: Request, ghost body: Source, source: Source, limit: nat)
    returns (r: Result<Message<Request>>)
    requires Canonical(g, req) && Roomy(limit) && Fits(req, limit)
    requires ChunksAtMost(body, MAX_VARINT) && Closing(body).Broken?
    requires Brings(source, RequestHead(req) + Data(ContentTrace(false, body)))
    ensures r == Ok(Message(req, Delivered(Data(body), if TrailOf(source).starves then Cut(UnexpectedEof) else Clean)))
  {
    hide Fits, Canonical, TrailOf, RequestHead, ContentTrace;
    var sb := new StreamBuf(source, limit);
    assert [] + Data(source) == Data(source);
    r := ReadUnterminated(g, req, body, sb);
  }

  /** The trails of the shortest sources: nothing after the last byte, an empty chunk, an empty chunk and
      then a wait, a wait and then an empty chunk. */
  lemma Trails(b: bytes)
    requires b != []
    ensures Brings(Chunk(b, End), b) && TrailOf(Chunk(b, End)) == Trail(false, false)
    ensures Brings(Chunk(b, Chunk([], End)), b) && TrailOf(Chunk(b, Chunk([], End))) == Trail(true, true)
    ensures Brings(Chunk(b, Chunk([], Pending(End))), b) && TrailOf(Chunk(b, Chunk([], Pending(End)))) == Trail(true, false)
    ensures Brings(Chunk(b, Pending(Chunk([], End))), b) && TrailOf(Chunk(b, Pending(Chunk([], End)))) == Trail(true, true)
  {
    var empty, waits := Chunk([], End), Pending(End);
    assert Data(empty) == [] && Closing(empty) == Eof && EndsOnChunk(empty, false);
    assert Data(waits) == [] && Closing(waits) == Eof && !EndsOnChunk(waits, true);
    Trailing(b, End);
    Trailing(b, empty);
    Trailing(b, Chunk([], waits));
    Trailing(b, Pending(empty));
  }

  lemma Trailing(b: bytes, t: Source)
    requires b != [] && Data(t) == []
    ensures Data(Chunk(b, t)) == b && Closing(Chunk(b, t)) == Closing(t)
    ensures TrailOf(Chunk(b, t)) == Trail(Announces(t), EndsOnChunk(t, false))
  {
    assert b + [] == b;
    assert Tail(Chunk(b, t)) == Tail(t) == t;
  }

  /** The same request without its content terminator: with nothing after it, with one empty chunk, and
      with one empty chunk and a wait. */
  method EmptyChunkDecides(g: Grammar, req: Request, limit: nat)
    returns (dense: Result<Message<Request>>, padded: Result<Message<Request>>, waited: Result<Message<Request>>)
    requires Canonical(g, req) && Roomy(limit) && Fits(req, limit)
    ensures dense == Ok(Message(req, Delivered([], Clean)))
    ensures padded == Ok(Message(req, Delivered([], Cut(UnexpectedEof))))
    ensures waited == Ok(Message(req, Delivered([], Clean)))
  {
    hide Fits, TrailOf, LinesBytes, ControlBytes;
    var head := RequestHead(req);
    ghost var broken := Fault(UnexpectedEof, End);
    assert Data(ContentTrace(false, broken)) == [] && head + [] == head;
    Trails(head);
    dense := ReceiveUnterminated(g, req, broken, Chunk(head, End), limit);
    padded := ReceiveUnterminated(g, req, broken, Chunk(head, Chunk([], End)), limit);
    waited := ReceiveUnterminated(g, req, broken, Chunk(head, Chunk([], Pending(End))), limit);
  }
}
