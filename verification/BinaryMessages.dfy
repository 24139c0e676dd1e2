/** Whole messages off a source, whatever its chunks and its waits: without a limit the outcome is a
    function of the bytes, how they end and the trail; the limit can only turn it into an error. */
module BinaryMessages {
  import opened Bytes
  import opened Streams
  import opened StreamBuf
  import opened StreamOctets
  import opened HttpMessage
  import opened BinarySpec
  import opened BinaryDecoder
  import opened Varint
  import opened BinaryEncoder
  import opened BinaryLaws

  /** The same reader with two limits, neither smaller than the input. */
  predicate Free(env: Env, env': Env, w: Wire) {
    env.trail == env'.trail && |w.bytes| <= env.limit && |w.bytes| <= env'.limit
  }

  lemma PrefixedDecided(limit: nat, limit': nat, w: Wire)
    requires |w.bytes| <= limit && |w.bytes| <= limit'
    ensures FieldOf(limit, w, VarInt) == FieldOf(limit', w, VarInt) != Varies
    ensures LenPrefixed(limit, w) == LenPrefixed(limit', w) != Varies
  {
  }

  lemma ControlDecided(g: Grammar, env: Env, env': Env, w: Wire)
    requires Free(env, env', w)
    ensures RequestControl(g, env, w) == RequestControl(g, env', w) != Varies
  {
    hide LenPrefixed, OptionalAuthority;
    PrefixedDecided(env.limit, env'.limit, w);
    var a := Checked(LenPrefixed(env.limit, w), g.verb);
    if a.Done? {
      PrefixedDecided(env.limit, env'.limit, a.rest);
      var b := Checked(LenPrefixed(env.limit, a.rest), g.scheme);
      if b.Done? {
        PrefixedDecided(env.limit, env'.limit, b.rest);
        var c := LenPrefixed(env.limit, b.rest);
        if c.Done? {
          PrefixedDecided(env.limit, env'.limit, c.rest);
        }
      }
    }
  }

  lemma {:induction false} SectionDecided(g: Grammar, env: Env, env': Env, w: Wire, acc: seq<Line>)
    requires Free(env, env', w)
    ensures IndeterminateSection(g, env, w, acc) == IndeterminateSection(g, env', w, acc) != Varies
    ensures KnownSection(g, env, w) == KnownSection(g, env', w) != Varies
    decreases |w.bytes|
  {
    hide FieldOf, LenPrefixed, KnownLines;
    PrefixedDecided(env.limit, env'.limit, w);
    var n := FieldOf(env.limit, w, VarInt);
    if n.Done? {
      var name := Checked(Take(env.limit, n.rest, n.value), g.name);
      if name.Done? {
        PrefixedDecided(env.limit, env'.limit, name.rest);
        var value := Checked(LenPrefixed(env.limit, name.rest), g.value);
        if value.Done? {
          SectionDecided(g, env, env', value.rest, acc + [Line(name.value, value.value)]);
        }
      }
    }
  }

  lemma {:induction false} StatusDecided(g: Grammar, env: Env, env': Env, w: Wire)
    requires Free(env, env', w)
    ensures ResponseControl(g, env, w) == ResponseControl(g, env', w) != Varies
    decreases |w.bytes|
  {
    PrefixedDecided(env.limit, env'.limit, w);
    hide FieldOf, KnownSection;
    var s := Status(env, w);
    if s.Done? {
      SectionDecided(g, env, env', s.rest, []);
      var k := KnownSection(g, env, s.rest);
      if k.Done? {
        StatusDecided(g, env, env', k.rest);
      }
    }
  }

  lemma TailDecided(g: Grammar, env: Env, env': Env, w: Wire, known: bool)
    requires Free(env, env', w)
    ensures Section(g, env, w, known) == Section(g, env', w, known) != Varies
    ensures var s := Section(g, env, w, known);
            s.Done? ==> Free(env, env', s.rest) && BodyStart(env, s.rest, known) == BodyStart(env', s.rest, known) != Varies
    ensures BodyStart(env, w, known).Done? ==> Free(env, env', BodyStart(env, w, known).rest)
  {
    SectionDecided(g, env, env', w, []);
    var s := Section(g, env, w, known);
    hide Section;
    if s.Done? {
      PrefixedDecided(env.limit, env'.limit, s.rest);
    }
  }

  /** How content ends is decided also when only its chunk lengths fit the limit. */
  lemma {:induction false} BodyDecided(env: Env, kind: BodyKind, w: Wire)
    requires |w.bytes| <= env.limit || env.limit >= 7
    ensures BodyOf(env, kind, w).end != Unclear
    decreases |w.bytes|, if kind == IndeterminateLength(Some(0)) then 1 else 0
  {
    if kind.IndeterminateLength? && kind.inChunk.Some? {
      var n := kind.inChunk.value;
      if 0 < n <= |w.bytes| {
        BodyDecided(env, IndeterminateLength(Some(0)), Wire(w.bytes[n..], w.ending));
      } else if n == 0 {
        var l := ChunkLength(env, w);
        hide ChunkLength;
        if l.Done? && l.value > 0 {
          BodyDecided(env, IndeterminateLength(Some(l.value)), l.rest);
        }
      }
    }
  }

  /** The content is decided, and does not depend on which of the two limits it is. */
  predicate Settles(env: Env, env': Env, kind: BodyKind, w: Wire) {
    BodyOf(env, kind, w) == BodyOf(env', kind, w) && BodyOf(env, kind, w).end != Unclear
  }

  lemma {:induction false} BodySettles(env: Env, env': Env, kind: BodyKind, w: Wire)
    requires Free(env, env', w)
    ensures Settles(env, env', kind, w)
    decreases |w.bytes|, if kind == IndeterminateLength(Some(0)) then 1 else 0
  {
    BodyDecided(env, kind, w);
    if kind.IndeterminateLength? && kind.inChunk.Some? {
      var n := kind.inChunk.value;
      if 0 < n <= |w.bytes| {
        BodySettles(env, env', IndeterminateLength(Some(0)), Wire(w.bytes[n..], w.ending));
      } else if n == 0 {
        PrefixedDecided(env.limit, env'.limit, w);
        var l := ChunkLength(env, w);
        assert l == ChunkLength(env', w);
        hide ChunkLength;
        if l.Done? && l.value > 0 {
          BodySettles(env, env', IndeterminateLength(Some(l.value)), l.rest);
        }
      }
    }
  }

  lemma RequestAfterDecided(g: Grammar, env: Env, env': Env, w: Wire, known: bool)
    requires Free(env, env', w)
    ensures var o := RequestAfter(g, env, w, known);
            && o == RequestAfter(g, env', w, known) != Varies
            && (o.Done? ==> Settles(env, env', o.value.kind, o.rest))
  {
    hide RequestControl, Section, BodyStart, Settles;
    ControlDecided(g, env, env', w);
    var c := RequestControl(g, env, w);
    if c.Done? {
      TailDecided(g, env, env', c.rest, known);
      var s := Section(g, env, c.rest, known);
      if s.Done? {
        TailDecided(g, env, env', s.rest, known);
        var k := BodyStart(env, s.rest, known);
        if k.Done? {
          BodySettles(env, env', k.value, k.rest);
        }
      }
    }
  }

  lemma RequestDecided(g: Grammar, env: Env, env': Env, w: Wire)
    requires Free(env, env', w)
    ensures var o := RequestOf(g, env, w);
            && o == RequestOf(g, env', w) != Varies
            && (o.Done? ==> Settles(env, env', o.value.1, o.rest))
  {
    hide FieldOf, LenPrefixed, Take, RequestAfter, Settles, Assemble, Collect;
    PrefixedDecided(env.limit, env'.limit, w);
    var i := FieldOf(env.limit, w, VarInt);
    if i.Done? {
      RequestAfterDecided(g, env, env', i.rest, true);
      RequestAfterDecided(g, env, env', i.rest, false);
    }
  }

  lemma ResponseAfterDecided(g: Grammar, env: Env, env': Env, w: Wire, known: bool)
    requires Free(env, env', w)
    ensures var o := ResponseAfter(g, env, w, known);
            && o == ResponseAfter(g, env', w, known) != Varies
            && (o.Done? ==> Settles(env, env', o.value.kind, o.rest))
  {
    hide ResponseControl, Section, BodyStart, Settles;
    StatusDecided(g, env, env', w);
    var c := ResponseControl(g, env, w);
    if c.Done? {
      TailDecided(g, env, env', c.rest, known);
      var s := Section(g, env, c.rest, known);
      if s.Done? {
        TailDecided(g, env, env', s.rest, known);
        var k := BodyStart(env, s.rest, known);
        if k.Done? {
          BodySettles(env, env', k.value, k.rest);
        }
      }
    }
  }

  lemma ResponseDecided(g: Grammar, env: Env, env': Env, w: Wire)
    requires Free(env, env', w)
    ensures var o := ResponseOf(g, env, w);
            && o == ResponseOf(g, env', w) != Varies
            && (o.Done? ==> Settles(env, env', o.value.1, o.rest))
  {
    hide FieldOf, LenPrefixed, Take, ResponseAfter, Settles, Collect;
    PrefixedDecided(env.limit, env'.limit, w);
    var i := FieldOf(env.limit, w, VarInt);
    if i.Done? {
      ResponseAfterDecided(g, env, env', i.rest, true);
      ResponseAfterDecided(g, env, env', i.rest, false);
    }
  }

  /** A message head with everything its body delivered, and how the body ended. */
  datatype Message<+H> = Message(head: H, content: Delivered)

  function Whole<H>(env: Env, o: Outcome<(H, BodyKind)>): Result<Message<H>>
    requires o != Varies
  {
    match o
    case Done(hk, rest) => Ok(Message(hk.0, BodyOf(env, hk.1, rest)))
    case Failed(e) => Err(e)
  }

  /** With `o` the outcome without a limit: what arrived is the head and the first content bytes of
      `o`, and unless the limit struck it is all of `o`, errors included. */
  ghost predicate Received<H>(r: Result<Message<H>>, free: Env, o: Outcome<(H, BodyKind)>) {
    match r
    case Err(e) => o == Failed(e) || e == BufferLimit
    case Ok(m) =>
      && o.Done? && m.head == o.value.0
      && var all := BodyOf(free, o.value.1, o.rest);
         m.content.data <= all.data && (m.content == all || m.content.end == Cut(BufferLimit))
  }

  /** For every source, decoding a request and reading its body gives what the flat parser gives on
      the bytes and the trail, as far as the limit allows; a message within the limit, exactly. */
  method ReceiveRequest(g: Grammar, source: Source, limit: nat, ghost size: nat) returns (r: Result<Message<Request>>)
    requires |AllData(source)| <= size
    ensures var free, w := Env(size, TrailOf(source)), Wire(Data(source), Closing(source));
            RequestOf(g, free, w) != Varies && Received(r, free, RequestOf(g, free, w))
    ensures var env, w := Env(limit, TrailOf(source)), Wire(Data(source), Closing(source));
            |w.bytes| <= limit ==> RequestOf(g, env, w) != Varies && r == Whole(env, RequestOf(g, env, w))
  {
    hide BodyOf, RequestPartsOf, Built, TrailOf;
    ghost var w := Wire(Data(source), Closing(source));
    RequestDecided(g, Env(size, TrailOf(source)), Env(size, TrailOf(source)), w);
    if |w.bytes| <= limit {
      RequestDecided(g, Env(limit, TrailOf(source)), Env(limit, TrailOf(source)), w);
    }
    var sb := new StreamBuf(source, limit, size);
    assert [] + Data(source) == Data(source);
    var head := DecodeRequest(g, sb);
    if head.Err? { return Err(head.error); }
    var body := new DecodedBody(head.value.1, sb);
    var data, end := CollectBody(body);
    return Ok(Message(head.value.0, Delivered(data, Ended(end))));
  }

  method ReceiveResponse(g: Grammar, source: Source, limit: nat, ghost size: nat) returns (r: Result<Message<Response>>)
    requires |AllData(source)| <= size
    ensures var free, w := Env(size, TrailOf(source)), Wire(Data(source), Closing(source));
            ResponseOf(g, free, w) != Varies && Received(r, free, ResponseOf(g, free, w))
    ensures var env, w := Env(limit, TrailOf(source)), Wire(Data(source), Closing(source));
            |w.bytes| <= limit ==> ResponseOf(g, env, w) != Varies && r == Whole(env, ResponseOf(g, env, w))
  {
    hide BodyOf, ResponsePartsOf, Answered, TrailOf;
    ghost var w := Wire(Data(source), Closing(source));
    ResponseDecided(g, Env(size, TrailOf(source)), Env(size, TrailOf(source)), w);
    if |w.bytes| <= limit {
      ResponseDecided(g, Env(limit, TrailOf(source)), Env(limit, TrailOf(source)), w);
    }
    var sb := new StreamBuf(source, limit, size);
    assert [] + Data(source) == Data(source);
    var head := DecodeResponse(g, sb);
    if head.Err? { return Err(head.error); }
    var body := new DecodedBody(head.value.1, sb);
    var data, end := CollectBody(body);
    return Ok(Message(head.value.0, Delivered(data, Ended(end))));
  }

  // ---------- round trips in any buffer that is large enough ----------

  /** The buffer takes every string of the request, or all there is of it. */
  predicate Ample(limit: nat, req: Request, total: nat)
    requires req.uri.scheme.Some?
  {
    (Roomy(limit) && Fits(req, limit)) || total <= limit
  }

  lemma RequestReadBack(g: Grammar, env: Env, req: Request, tail: bytes, e: Ending)
    requires Canonical(g, req) && Ample(env.limit, req, |RequestHead(req) + tail|)
    ensures RequestOf(g, env, Wire(RequestHead(req) + tail, e)) == Done((req, IndeterminateLength(Some(0))), Wire(tail, e))
  {
    hide RequestHead, RequestOf, RequestPartsOf, Fits, Room;
    if Roomy(env.limit) && Fits(req, env.limit) {
      RequestHeadRoundTrip(g, env, req, tail, e);
    } else {
      var env' := Env(env.limit + Room(req) + 7, env.trail);
      RoomFits(req, env'.limit);
      RequestDecided(g, env, env', Wire(RequestHead(req) + tail, e));
      RequestHeadRoundTrip(g, env', req, tail, e);
    }
  }

  /** Content that ends as its sender ended it: whole, or broken off without a terminator. */
  lemma ContentReadBack(env: Env, body: Source, e: Ending)
    requires ChunksAtMost(body, MAX_VARINT)
    requires Roomy(env.limit) || |Data(ContentTrace(false, body))| <= env.limit
    ensures BodyOf(env, IndeterminateLength(Some(0)), Wire(Data(ContentTrace(false, body)), e)) ==
            Delivered(Data(body), if Closing(body) == Eof then Clean else Stop(env, e))
  {
    hide BodyOf, ContentTrace;
    var content := Data(ContentTrace(false, body));
    assert content + [] == content;
    var env' := Env(env.limit + 7, env.trail);
    if !Roomy(env.limit) {
      BodySettles(env, env', IndeterminateLength(Some(0)), Wire(content, e));
    }
    var roomy := if Roomy(env.limit) then env else env';
    if Closing(body) == Eof {
      ContentRoundTrip(roomy, body, [], e);
    } else {
      ContentBreaks(roomy, body, e);
    }
  }

  predicate AmpleResponse(limit: nat, res: Response, total: nat)
    requires SizedLines(Lines(res.headers))
  {
    (Roomy(limit) && |LinesBytes(Lines(res.headers))| <= limit + 1 && LinesFit(Lines(res.headers), limit)) || total <= limit
  }

  function ResponseHead(res: Response, size: Option<nat>): bytes
    requires EncodableResponse(res) && (size.Some? ==> size.value <= MAX_VARINT)
  {
    if size.Some? then KnownResponseHead(res, size.value) else IndeterminateResponseHead(res)
  }

  function KindOf(size: Option<nat>): BodyKind {
    if size.Some? then KnownLength(size.value) else IndeterminateLength(Some(0))
  }

  lemma ResponseReadBack(g: Grammar, env: Env, res: Response, size: Option<nat>, tail: bytes, e: Ending)
    requires CanonicalResponse(g, res) && (size.Some? ==> size.value <= MAX_VARINT)
    requires AmpleResponse(env.limit, res, |ResponseHead(res, size) + tail|)
    ensures ResponseOf(g, env, Wire(ResponseHead(res, size) + tail, e)) == Done((res, KindOf(size)), Wire(tail, e))
  {
    hide KnownResponseHead, IndeterminateResponseHead, ResponseOf, ResponsePartsOf, LinesFit, LinesBytes;
    var lines := Lines(res.headers);
    var env' := if Roomy(env.limit) && |LinesBytes(lines)| <= env.limit + 1 && LinesFit(lines, env.limit) then env
                else Env(env.limit + |LinesBytes(lines)| + 7, env.trail);
    if env' != env {
      LinesFitBytes(lines, env'.limit);
      ResponseDecided(g, env, env', Wire(ResponseHead(res, size) + tail, e));
    }
    if size.Some? {
      KnownResponseRoundTrip(g, env', res, size.value, tail, e);
    } else {
      IndeterminateResponseRoundTrip(g, env', res, tail, e);
    }
  }
}
