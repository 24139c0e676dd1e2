/** What the encoder writes, the decoder reads back: round trips over all messages, bodies and
    chunkings, and the skipping of informational responses. */
module BinaryLaws {
  import opened Bytes
  import opened Varint
  import opened Streams
  import opened StreamOctets
  import opened HttpMessage
  import opened BinarySpec
  import opened BinaryEncoder

  /** The longest varint fits the read limit. */
  predicate Roomy(limit: nat) {
    limit >= 7
  }

  lemma ReadVarint(limit: nat, v: nat, tail: bytes, e: Ending)
    requires Roomy(limit) && v <= MAX_VARINT
    ensures FieldOf(limit, Wire(PutVarint(v) + tail, e), VarInt) == Done(v, Wire(tail, e))
  {
    var s := PutVarint(v);
    VarintRoundTrip(v);
    assert (s + tail)[..|s|] == s;
    assert (s + tail)[|s|..] == tail;
    assert (s + tail)[0] == s[0];
  }

  lemma ReadTake(limit: nat, b: bytes, tail: bytes, e: Ending)
    requires |b| <= limit + 1
    ensures Take(limit, Wire(b + tail, e), |b|) == Done(b, Wire(tail, e))
  {
    assert (b + tail)[..|b|] == b;
    assert (b + tail)[|b|..] == tail;
  }

  lemma ReadLengthPrefixed(limit: nat, b: bytes, tail: bytes, e: Ending)
    requires Roomy(limit) && Sized(b) && |b| <= limit + 1
    ensures LenPrefixed(limit, Wire(LengthPrefixed(b) + tail, e)) == Done(b, Wire(tail, e))
  {
    assert LengthPrefixed(b) + tail == PutVarint(|b|) + (b + tail);
    ReadVarint(limit, |b|, b + tail, e);
    ReadTake(limit, b, tail, e);
  }

  /** A varint that is cut short is an error. */
  lemma VarintCut(limit: nat, v: nat, p: bytes, e: Ending)
    requires Roomy(limit) && v <= MAX_VARINT
    requires p < PutVarint(v)
    ensures FieldOf(limit, Wire(p, e), VarInt) == Failed(Closed(e))
  {
    VarintRoundTrip(v);
    if p != [] {
      assert p[0] == PutVarint(v)[0];
    }
  }

  /** A prefix of `a + b` stops inside `a`, or is `a` and a prefix of `b`. */
  lemma SplitPrefix(p: bytes, a: bytes, b: bytes)
    requires p <= a + b
    ensures p < a || (|a| <= |p| && p == a + p[|a|..] && p[|a|..] <= b)
  {
    if |p| < |a| {
      assert p == a[..|p|];
    } else {
      assert p[..|a|] == a;
      assert p[|a|..] == b[..|p| - |a|];
    }
  }

  // ---------- field sections ----------

  predicate CanonicalLine(g: Grammar, l: Line) {
    l.name != [] && g.name(l.name) == Some(l.name) && g.value(l.value) == Some(l.value)
  }

  predicate CanonicalLines(g: Grammar, ls: seq<Line>) {
    SizedLines(ls) && forall l :: l in ls ==> CanonicalLine(g, l)
  }

  predicate LinesFit(ls: seq<Line>, limit: nat) {
    forall l :: l in ls ==> |l.name| <= limit + 1 && |l.value| <= limit + 1
  }

  lemma ReadLine(g: Grammar, env: Env, l: Line, tail: bytes, e: Ending, acc: seq<Line>)
    requires Roomy(env.limit) && Sized(l.name) && Sized(l.value) && CanonicalLine(g, l)
    requires |l.name| <= env.limit + 1 && |l.value| <= env.limit + 1
    ensures IndeterminateSection(g, env, Wire(LineBytes(l) + tail, e), acc) ==
            IndeterminateSection(g, env, Wire(tail, e), acc + [l])
  {
    var rest := LengthPrefixed(l.value) + tail;
    assert LineBytes(l) + tail == PutVarint(|l.name|) + (l.name + rest);
    ReadVarint(env.limit, |l.name|, l.name + rest, e);
    ReadTake(env.limit, l.name, rest, e);
    ReadLengthPrefixed(env.limit, l.value, tail, e);
    assert Line(l.name, l.value) == l;
  }

  lemma SectionStops(g: Grammar, env: Env, tail: bytes, e: Ending, acc: seq<Line>)
    requires Roomy(env.limit)
    ensures IndeterminateSection(g, env, Wire(PutVarint(0) + tail, e), acc) == Done(acc, Wire(tail, e))
  {
    ReadVarint(env.limit, 0, tail, e);
  }

  lemma {:induction false} ReadIndeterminateSection(g: Grammar, env: Env, ls: seq<Line>, tail: bytes, e: Ending, acc: seq<Line>)
    requires Roomy(env.limit) && CanonicalLines(g, ls) && LinesFit(ls, env.limit)
    ensures IndeterminateSection(g, env, Wire(LinesBytes(ls) + (PutVarint(0) + tail), e), acc) == Done(acc + ls, Wire(tail, e))
    decreases |ls|
  {
    hide LineBytes, PutVarint, IndeterminateSection;
    var more := PutVarint(0) + tail;
    if ls == [] {
      assert LinesBytes(ls) + more == more;
      SectionStops(g, env, tail, e, acc);
      assert acc + ls == acc;
    } else {
      Assoc(LineBytes(ls[0]), LinesBytes(ls[1..]), more);
      ReadLine(g, env, ls[0], LinesBytes(ls[1..]) + more, e, acc);
      ReadIndeterminateSection(g, env, ls[1..], tail, e, acc + [ls[0]]);
      assert acc + [ls[0]] + ls[1..] == acc + ls;
    }
  }

  lemma PrefixedParts(s: bytes, b: bytes, tail: bytes)
    requires s != [] && |s| == VarintWidth(s[0]) && VarintValue(s) == |b|
    ensures Prefixed((s + b) + tail) == Some((b, tail))
  {
    var block := (s + b) + tail;
    assert block[0] == s[0];
    assert block[..|s|] == s;
    assert block[|s|..] == b + tail;
    assert block[|s|..][..|b|] == b;
    assert block[|s|..][|b|..] == tail;
  }

  lemma ReadPrefixed(b: bytes, tail: bytes)
    requires Sized(b)
    ensures Prefixed(LengthPrefixed(b) + tail) == Some((b, tail))
  {
    VarintRoundTrip(|b|);
    PrefixedParts(PutVarint(|b|), b, tail);
  }

  lemma ReadKnownLine(g: Grammar, l: Line, rest: bytes)
    requires Sized(l.name) && Sized(l.value) && CanonicalLine(g, l)
    ensures LineOf(g, LineBytes(l) + rest) == Some((l, rest))
    ensures LineBytes(l) + rest != []
  {
    hide Prefixed, PutVarint;
    var name, value := LengthPrefixed(l.name), LengthPrefixed(l.value);
    ReadPrefixed(l.name, value + rest);
    ReadPrefixed(l.value, rest);
    assert (name + value) + rest == name + (value + rest);
  }

  lemma KnownLinesStep(g: Grammar, block: bytes, l: Line, rest: bytes, acc: seq<Line>)
    requires block != [] && LineOf(g, block) == Some((l, rest))
    ensures KnownLines(g, block, acc) == KnownLines(g, rest, acc + [l])
  {
    hide LineOf;
  }

  lemma {:induction false} ReadKnownLines(g: Grammar, ls: seq<Line>, acc: seq<Line>)
    requires CanonicalLines(g, ls)
    ensures KnownLines(g, LinesBytes(ls), acc) == Some(acc + ls)
    decreases |ls|
  {
    hide LineOf, LineBytes;
    if ls == [] {
      assert acc + ls == acc;
    } else {
      var l, rest := ls[0], LinesBytes(ls[1..]);
      ReadKnownLine(g, l, rest);
      KnownLinesStep(g, LineBytes(l) + rest, l, rest, acc);
      hide KnownLines;
      ReadKnownLines(g, ls[1..], acc + [l]);
      assert acc + [l] + ls[1..] == acc + ls;
    }
  }

  lemma ReadKnownSection(g: Grammar, env: Env, ls: seq<Line>, tail: bytes, e: Ending)
    requires Roomy(env.limit) && CanonicalLines(g, ls) && Sized(LinesBytes(ls)) && |LinesBytes(ls)| <= env.limit + 1
    ensures KnownSection(g, env, Wire(LengthPrefixed(LinesBytes(ls)) + tail, e)) == Done(ls, Wire(tail, e))
  {
    ReadLengthPrefixed(env.limit, LinesBytes(ls), tail, e);
    ReadKnownLines(g, ls, []);
    assert [] + ls == ls;
  }

  // ---------- requests ----------

  /** The parts of a request are as the http crate would have parsed them, with a scheme and an authority. */
  predicate Canonical(g: Grammar, req: Request) {
    && req.uri.scheme.Some? && req.uri.authority.Some?
    && Encodable(req)
    && g.verb(req.verb) == Some(req.verb)
    && g.scheme(req.uri.scheme.value) == req.uri.scheme
    && req.uri.authority.value != [] && g.authority(req.uri.authority.value) == req.uri.authority
    && g.path(JoinQuery(req.uri.path, req.uri.query)) == Some(JoinQuery(req.uri.path, req.uri.query))
    && QUESTION_MARK !in req.uri.path
    && WellFormed(req.headers)
    && CanonicalLines(g, Lines(req.headers))
  }

  /** No single string of the request is longer than one read may be. */
  predicate Fits(req: Request, limit: nat)
    requires req.uri.scheme.Some?
  {
    && |req.verb| <= limit + 1
    && |req.uri.scheme.value| <= limit + 1
    && |AuthorityField(req)| <= limit + 1
    && |JoinQuery(req.uri.path, req.uri.query)| <= limit + 1
    && LinesFit(Lines(req.headers), limit)
  }

  lemma {:induction false} LinesFitBytes(ls: seq<Line>, limit: nat)
    requires SizedLines(ls) && |LinesBytes(ls)| <= limit
    ensures LinesFit(ls, limit)
  {
    if ls != [] {
      LinesFitBytes(ls[1..], limit);
    }
  }

  /** Room for any string of the request. */
  ghost function Room(req: Request): nat
    requires Encodable(req) && req.uri.scheme.Some?
  {
    |req.verb| + |req.uri.scheme.value| + |AuthorityField(req)|
    + |JoinQuery(req.uri.path, req.uri.query)| + |LinesBytes(Lines(req.headers))|
  }

  lemma RoomFits(req: Request, limit: nat)
    requires Encodable(req) && req.uri.scheme.Some? && Room(req) <= limit
    ensures Fits(req, limit)
  {
    LinesFitBytes(Lines(req.headers), limit);
  }

  function ControlOf(req: Request): Control
    requires req.uri.scheme.Some?
  {
    Control(req.verb, req.uri.scheme.value,
            if AuthorityField(req) == [] then None else Some(AuthorityField(req)),
            JoinQuery(req.uri.path, req.uri.query))
  }

  lemma ReadControl(g: Grammar, env: Env, req: Request, tail: bytes, e: Ending)
    requires Roomy(env.limit) && Canonical(g, req) && Fits(req, env.limit)
    ensures RequestControl(g, env, Wire(ControlBytes(req) + tail, e)) == Done(ControlOf(req), Wire(tail, e))
  {
    hide LenPrefixed, LengthPrefixed, JoinQuery, LinesFit, CanonicalLines, WellFormed;
    var verb, scheme := LengthPrefixed(req.verb), LengthPrefixed(req.uri.scheme.value);
    var authority, path := LengthPrefixed(AuthorityField(req)), LengthPrefixed(JoinQuery(req.uri.path, req.uri.query));
    Pieces(verb, scheme, authority, path, tail);
    assert ControlBytes(req) + tail == verb + (scheme + (authority + (path + tail)));
    ReadLengthPrefixed(env.limit, req.verb, scheme + (authority + (path + tail)), e);
    ReadLengthPrefixed(env.limit, req.uri.scheme.value, authority + (path + tail), e);
    ReadLengthPrefixed(env.limit, AuthorityField(req), path + tail, e);
    ReadLengthPrefixed(env.limit, JoinQuery(req.uri.path, req.uri.query), tail, e);
  }

  /** The authority comes back even when it was left out because Host repeats it. */
  lemma Reassembled(g: Grammar, req: Request)
    requires Canonical(g, req)
    ensures Assemble(g, ControlOf(req), req.headers) == Some(req)
  {
    SplitJoinQuery(req.uri.path, req.uri.query);
  }

  lemma RequestHeadRoundTrip(g: Grammar, env: Env, req: Request, tail: bytes, e: Ending)
    requires Roomy(env.limit) && Canonical(g, req) && Fits(req, env.limit)
    ensures RequestPartsOf(g, env, Wire(RequestHead(req) + tail, e)) ==
            Done(RequestParts(ControlOf(req), Lines(req.headers), IndeterminateLength(Some(0))), Wire(tail, e))
    ensures RequestOf(g, env, Wire(RequestHead(req) + tail, e)) ==
            Done((req, IndeterminateLength(Some(0))), Wire(tail, e))
  {
    var lines := LinesBytes(Lines(req.headers));
    var afterControl := lines + (PutVarint(0) + tail);
    var afterIndicator := ControlBytes(req) + afterControl;
    assert RequestHead(req) + tail == PutVarint(2) + afterIndicator;
    ReadVarint(env.limit, 2, afterIndicator, e);
    ReadControl(g, env, req, afterControl, e);
    ReadIndeterminateSection(g, env, Lines(req.headers), tail, e, []);
    assert [] + Lines(req.headers) == Lines(req.headers);
    CollectLines(req.headers);
    Reassembled(g, req);
  }

  /** On the wire the authority is left out exactly when the first Host header is that authority. */
  lemma AuthorityOmitted(g: Grammar, env: Env, req: Request, tail: bytes, e: Ending)
    requires Roomy(env.limit) && Canonical(g, req) && Fits(req, env.limit)
    ensures var o := RequestPartsOf(g, env, Wire(RequestHead(req) + tail, e));
            o.Done? && o.value.control.authority ==
                       if Lookup(req.headers, HOST) == req.uri.authority then None else req.uri.authority
  {
    hide RequestPartsOf, RequestHead;
    RequestHeadRoundTrip(g, env, req, tail, e);
  }

  /** A request in the known-length form of section 3.1 of RFC 9292, which the decoder also reads. */
  function KnownRequestHead(req: Request, size: nat): bytes
    requires Encodable(req) && req.uri.scheme.Some? && Sized(LinesBytes(Lines(req.headers))) && size <= MAX_VARINT
  {
    PutVarint(KNOWN_LENGTH_REQUEST) + (ControlBytes(req) + (LengthPrefixed(LinesBytes(Lines(req.headers))) + PutVarint(size)))
  }

  lemma KnownRequestRead(g: Grammar, env: Env, req: Request, size: nat, tail: bytes, e: Ending)
    requires Roomy(env.limit) && Canonical(g, req) && Fits(req, env.limit) && size <= MAX_VARINT
    requires Sized(LinesBytes(Lines(req.headers))) && |LinesBytes(Lines(req.headers))| <= env.limit + 1
    ensures RequestOf(g, env, Wire(KnownRequestHead(req, size) + tail, e)) == Done((req, KnownLength(size)), Wire(tail, e))
  {
    hide PutVarint, FieldOf, ControlBytes, LinesBytes, LengthPrefixed, RequestControl, KnownSection, Assemble, Collect, Fits;
    var lines, size', indicator := LengthPrefixed(LinesBytes(Lines(req.headers))), PutVarint(size), PutVarint(KNOWN_LENGTH_REQUEST);
    var afterControl := lines + (size' + tail);
    Pieces(indicator, ControlBytes(req), lines, size', tail);
    assert KnownRequestHead(req, size) + tail == indicator + (ControlBytes(req) + afterControl);
    ReadVarint(env.limit, KNOWN_LENGTH_REQUEST, ControlBytes(req) + afterControl, e);
    ReadControl(g, env, req, afterControl, e);
    ReadKnownSection(g, env, Lines(req.headers), size' + tail, e);
    ReadVarint(env.limit, size, tail, e);
    CollectLines(req.headers);
    Reassembled(g, req);
  }

  // ---------- content ----------

  /** A chunk behind its length is delivered, and then the rest. */
  lemma ContentStep(env: Env, len: bytes, d: bytes, rest: bytes, e: Ending)
    requires len != [] && d != []
    requires FieldOf(env.limit, Wire(len + (d + rest), e), VarInt) == Done(|d|, Wire(d + rest, e))
    ensures var after := BodyOf(env, IndeterminateLength(Some(0)), Wire(rest, e));
            BodyOf(env, IndeterminateLength(Some(0)), Wire(len + (d + rest), e)) == Delivered(d + after.data, after.end)
  {
    assert (d + rest)[..|d|] == d;
    assert (d + rest)[|d|..] == rest;
    assert BodyOf(env, IndeterminateLength(Some(0)), Wire(len + (d + rest), e))
        == BodyOf(env, IndeterminateLength(Some(|d|)), Wire(d + rest, e));
  }

  lemma ContentStop(env: Env, zero: bytes, rest: bytes, e: Ending)
    requires zero != [] && FieldOf(env.limit, Wire(zero + rest, e), VarInt) == Done(0, Wire(rest, e))
    ensures BodyOf(env, IndeterminateLength(Some(0)), Wire(zero + rest, e)) == Delivered([], Clean)
  {
  }

  /** Chunked content reads back as the bytes of the body, however the body was cut, empty chunks included. */
  lemma {:induction false} ContentRoundTrip(env: Env, body: Source, tail: bytes, e: Ending)
    requires Roomy(env.limit) && ChunksAtMost(body, MAX_VARINT) && Closing(body) == Eof
    ensures BodyOf(env, IndeterminateLength(Some(0)), Wire(Data(ContentTrace(false, body)) + tail, e)) == Delivered(Data(body), Clean)
  {
    hide PutVarint, BodyOf, FieldOf;
    match body
    case End =>
      assert Data(ContentTrace(false, body)) == PutVarint(0);
      ReadVarint(env.limit, 0, tail, e);
      ContentStop(env, PutVarint(0), tail, e);
    case Pending(n) =>
      ContentRoundTrip(env, n, tail, e);
    case Chunk(d, n) =>
      ContentRoundTrip(env, n, tail, e);
      var rest := Data(ContentTrace(false, n)) + tail;
      if d == [] {
        assert Data(ContentTrace(false, body)) + tail == rest;
      } else {
        var len := PutVarint(|d|);
        assert ((len + d) + Data(ContentTrace(false, n))) + tail == len + (d + rest);
        ReadVarint(env.limit, |d|, d + rest, e);
        ContentStep(env, len, d, rest, e);
      }
  }

  lemma {:induction false} ContentEnds(known: bool, body: Source)
    requires ChunksAtMost(body, MAX_VARINT)
    ensures Closing(ContentTrace(known, body)) == Closing(body)
    ensures known ==> Data(ContentTrace(known, body)) == Data(body)
  {
    match body
    case End =>
    case Pending(n) => ContentEnds(known, n);
    case Chunk(_, n) => ContentEnds(known, n);
    case Fault(_, _) =>
  }

  /** How unterminated content ends with the input: cleanly if and only if the input ends well and
      does not end on an empty chunk. */
  function Stop(env: Env, e: Ending): BodyEnd {
    if e.Eof? && !env.trail.starves then Clean else Cut(Closed(e))
  }

  lemma NoContentLeft(env: Env, e: Ending)
    ensures BodyOf(env, IndeterminateLength(Some(0)), Wire([], e)) == Delivered([], Stop(env, e))
  {
  }

  /** A body that breaks off, so that no terminator is written, arrives up to the break; then comes
      what the input ends with. */
  lemma {:induction false} ContentBreaks(env: Env, body: Source, e: Ending)
    requires Roomy(env.limit) && ChunksAtMost(body, MAX_VARINT) && Closing(body).Broken?
    ensures BodyOf(env, IndeterminateLength(Some(0)), Wire(Data(ContentTrace(false, body)), e)) ==
            Delivered(Data(body), Stop(env, e))
  {
    hide PutVarint, BodyOf, FieldOf, Stop;
    match body
    case Pending(n) => ContentBreaks(env, n, e);
    case Fault(_, _) => NoContentLeft(env, e);
    case Chunk(d, n) =>
      ContentBreaks(env, n, e);
      var rest := Data(ContentTrace(false, n));
      if d != [] {
        var len := PutVarint(|d|);
        assert (len + d) + rest == len + (d + rest);
        ReadVarint(env.limit, |d|, d + rest, e);
        ContentStep(env, len, d, rest, e);
      } else {
        assert Data(ContentTrace(false, body)) == rest;
        assert Data(body) == Data(n);
      }
  }

  // ---------- responses ----------

  predicate CanonicalResponse(g: Grammar, res: Response) {
    && EncodableResponse(res)
    && 200 <= res.status < 1000
    && WellFormed(res.headers)
    && CanonicalLines(g, Lines(res.headers))
  }

  lemma ReadStatus(g: Grammar, env: Env, status: nat, tail: bytes, e: Ending)
    requires Roomy(env.limit) && 200 <= status < 1000
    ensures ResponseControl(g, env, Wire(PutVarint(status) + tail, e)) == Done(status, Wire(tail, e))
  {
    ReadVarint(env.limit, status, tail, e);
  }

  lemma {:induction false} FinalStatus(g: Grammar, env: Env, w: Wire)
    ensures var o := ResponseControl(g, env, w); o.Done? ==> 200 <= o.value < 1000
    decreases |w.bytes|
  {
    hide FieldOf, KnownSection;
    var s := Status(env, w);
    if s.Done? && Informational(s.value) {
      var k := KnownSection(g, env, s.rest);
      if k.Done? {
        FinalStatus(g, env, k.rest);
      }
    }
  }

  /** A status that fits a varint comes back exactly when it is a final status code. */
  lemma StatusExact(g: Grammar, env: Env, status: nat, tail: bytes, e: Ending)
    requires Roomy(env.limit) && status <= MAX_VARINT
    ensures ResponseControl(g, env, Wire(PutVarint(status) + tail, e)) == Done(status, Wire(tail, e)) <==> 200 <= status < 1000
  {
    if 200 <= status < 1000 {
      ReadStatus(g, env, status, tail, e);
    } else {
      FinalStatus(g, env, Wire(PutVarint(status) + tail, e));
    }
  }

  lemma IndeterminateResponseRoundTrip(g: Grammar, env: Env, res: Response, tail: bytes, e: Ending)
    requires Roomy(env.limit) && CanonicalResponse(g, res) && LinesFit(Lines(res.headers), env.limit)
    ensures ResponsePartsOf(g, env, Wire(IndeterminateResponseHead(res) + tail, e)) ==
            Done(ResponseParts(res.status, Lines(res.headers), IndeterminateLength(Some(0))), Wire(tail, e))
    ensures ResponseOf(g, env, Wire(IndeterminateResponseHead(res) + tail, e)) ==
            Done((res, IndeterminateLength(Some(0))), Wire(tail, e))
  {
    hide PutVarint, LinesBytes, FieldOf, ResponseControl, IndeterminateSection, Collect;
    var ls := Lines(res.headers);
    var afterStatus := LinesBytes(ls) + (PutVarint(0) + tail);
    Pieces(PutVarint(3), PutVarint(res.status), LinesBytes(ls), PutVarint(0), tail);
    assert IndeterminateResponseHead(res) + tail == PutVarint(3) + (PutVarint(res.status) + afterStatus);
    ReadVarint(env.limit, 3, PutVarint(res.status) + afterStatus, e);
    ReadStatus(g, env, res.status, afterStatus, e);
    ReadIndeterminateSection(g, env, ls, tail, e, []);
    assert [] + ls == ls;
    CollectLines(res.headers);
  }

  lemma KnownResponseRoundTrip(g: Grammar, env: Env, res: Response, size: nat, tail: bytes, e: Ending)
    requires Roomy(env.limit) && CanonicalResponse(g, res) && size <= MAX_VARINT
    requires |LinesBytes(Lines(res.headers))| <= env.limit + 1
    ensures ResponsePartsOf(g, env, Wire(KnownResponseHead(res, size) + tail, e)) ==
            Done(ResponseParts(res.status, Lines(res.headers), KnownLength(size)), Wire(tail, e))
    ensures ResponseOf(g, env, Wire(KnownResponseHead(res, size) + tail, e)) ==
            Done((res, KnownLength(size)), Wire(tail, e))
  {
    hide PutVarint, LinesBytes, LengthPrefixed, FieldOf, ResponseControl, KnownSection, Collect;
    var ls := Lines(res.headers);
    var section := LengthPrefixed(LinesBytes(ls));
    var afterStatus := section + (PutVarint(size) + tail);
    Pieces(PutVarint(1), PutVarint(res.status), section, PutVarint(size), tail);
    assert KnownResponseHead(res, size) + tail == PutVarint(1) + (PutVarint(res.status) + afterStatus);
    ReadVarint(env.limit, 1, PutVarint(res.status) + afterStatus, e);
    ReadStatus(g, env, res.status, afterStatus, e);
    ReadKnownSection(g, env, ls, PutVarint(size) + tail, e);
    ReadVarint(env.limit, size, tail, e);
    CollectLines(res.headers);
  }

  /** With a truthful size the known-length content is the body, whatever follows it. */
  lemma KnownContentRoundTrip(env: Env, body: Source, tail: bytes, e: Ending)
    requires ChunksAtMost(body, MAX_VARINT)
    ensures BodyOf(env, KnownLength(|Data(body)|), Wire(Data(ContentTrace(true, body)) + tail, e)) == Delivered(Data(body), Clean)
  {
    ContentEnds(true, body);
    assert (Data(body) + tail)[..|Data(body)|] == Data(body);
  }

  /** When nothing follows the content, it is the body exactly when the announced size was true. */
  lemma KnownContentExact(env: Env, body: Source, size: nat)
    requires ChunksAtMost(body, MAX_VARINT)
    ensures BodyOf(env, KnownLength(size), Wire(Data(ContentTrace(true, body)), Eof)) == Delivered(Data(body), Clean)
            <==> size == |Data(body)|
  {
    ContentEnds(true, body);
    assert Data(body)[..|Data(body)|] == Data(body);
  }

  /** Known-length content that does not all come: every octet that came is delivered, and then the
      input's own error, or an unexpected end of file. */
  lemma KnownContentPart(env: Env, size: nat, w: Wire)
    requires |w.bytes| < size
    ensures BodyOf(env, KnownLength(size), w) ==
            Delivered(w.bytes, Cut(match w.ending case Eof => UnexpectedEof case Broken(error) => error))
  {
  }

  // ---------- informational responses ----------

  datatype Interim = Interim(status: nat, lines: seq<Line>)

  predicate SizedInterims(interims: seq<Interim>) {
    forall i :: 0 <= i < |interims| ==>
      interims[i].status < 200 && SizedLines(interims[i].lines) && Sized(LinesBytes(interims[i].lines))
  }

  /** Informational responses that a decoder with this limit can read. */
  predicate CanonicalInterims(g: Grammar, interims: seq<Interim>, limit: nat) {
    && SizedInterims(interims)
    && forall i :: 0 <= i < |interims| ==>
         && Informational(interims[i].status)
         && CanonicalLines(g, interims[i].lines)
         && |LinesBytes(interims[i].lines)| <= limit + 1
  }

  function InterimBytes(interims: seq<Interim>): bytes
    requires SizedInterims(interims)
  {
    if interims == [] then []
    else PutVarint(interims[0].status) + (LengthPrefixed(LinesBytes(interims[0].lines)) + InterimBytes(interims[1..]))
  }

  lemma InterimStep(g: Grammar, env: Env, status: nat, lines: seq<Line>, rest: bytes, e: Ending)
    requires Roomy(env.limit) && Informational(status) && CanonicalLines(g, lines)
    requires Sized(LinesBytes(lines)) && |LinesBytes(lines)| <= env.limit + 1
    ensures ResponseControl(g, env, Wire(PutVarint(status) + (LengthPrefixed(LinesBytes(lines)) + rest), e)) ==
            ResponseControl(g, env, Wire(rest, e))
  {
    ReadVarint(env.limit, status, LengthPrefixed(LinesBytes(lines)) + rest, e);
    ReadKnownSection(g, env, lines, rest, e);
  }

  /** Any number of informational responses before the final status leaves the decoded response as it is. */
  lemma {:induction false} InterimSkipped(g: Grammar, env: Env, interims: seq<Interim>, w: Wire)
    requires Roomy(env.limit) && CanonicalInterims(g, interims, env.limit)
    ensures ResponseControl(g, env, Wire(InterimBytes(interims) + w.bytes, w.ending)) == ResponseControl(g, env, w)
  {
    if interims == [] {
      assert InterimBytes(interims) + w.bytes == w.bytes;
    } else {
      var rest := InterimBytes(interims[1..]);
      var status, section := PutVarint(interims[0].status), LengthPrefixed(LinesBytes(interims[0].lines));
      assert (status + (section + rest)) + w.bytes == status + (section + (rest + w.bytes));
      InterimStep(g, env, interims[0].status, interims[0].lines, rest + w.bytes, w.ending);
      InterimSkipped(g, env, interims[1..], w);
    }
  }

  /** Under either framing indicator. */
  lemma InterimSkippedInResponse(g: Grammar, env: Env, known: bool, interims: seq<Interim>, w: Wire)
    requires Roomy(env.limit) && CanonicalInterims(g, interims, env.limit)
    ensures var indicator := PutVarint(if known then KNOWN_LENGTH_RESPONSE else INDETERMINATE_LENGTH_RESPONSE);
            ResponseOf(g, env, Wire(indicator + (InterimBytes(interims) + w.bytes), w.ending)) ==
            ResponseOf(g, env, Wire(indicator + w.bytes, w.ending))
  {
    hide PutVarint, InterimBytes, FieldOf, ResponseControl;
    var indicator := if known then KNOWN_LENGTH_RESPONSE else INDETERMINATE_LENGTH_RESPONSE;
    ReadVarint(env.limit, indicator, InterimBytes(interims) + w.bytes, w.ending);
    ReadVarint(env.limit, indicator, w.bytes, w.ending);
    InterimSkipped(g, env, interims, w);
  }

  // Section 3.2 of RFC 9292 gives the informational responses of an indeterminate-length message
  // indeterminate-length field sections; the decoder reads a known-length section in either form.

  function IndeterminateInterim(status: nat, lines: seq<Line>): bytes
    requires status < 200 && SizedLines(lines)
  {
    PutVarint(status) + (LinesBytes(lines) + PutVarint(0))
  }

  /** What the decoder makes of an informational response that has header lines in that form: the name
      of the first is taken for a whole section. If it is not one, the response is refused; if it is,
      the length of the value is taken for the next status. */
  lemma InterimLines(g: Grammar, env: Env, status: nat, first: Line, more: bytes, e: Ending)
    requires Roomy(env.limit) && Informational(status) && Sized(first.name) && Sized(first.value)
    ensures ResponseControl(g, env, Wire(PutVarint(status) + (LineBytes(first) + more), e)) ==
            if |first.name| > env.limit + 1 then Varies
            else if KnownLines(g, first.name, []).None? then Failed(InvalidData)
            else ResponseControl(g, env, Wire(LengthPrefixed(first.value) + more, e))
  {
    hide PutVarint, FieldOf, KnownLines;
    var name, value := LengthPrefixed(first.name), LengthPrefixed(first.value);
    assert LineBytes(first) + more == name + (value + more);
    ReadVarint(env.limit, status, name + (value + more), e);
    if |first.name| <= env.limit + 1 {
      hide LenPrefixed;
      ReadLengthPrefixed(env.limit, first.name, value + more, e);
    } else {
      assert name + (value + more) == PutVarint(|first.name|) + (first.name + (value + more));
      ReadVarint(env.limit, |first.name|, first.name + (value + more), e);
    }
  }

  /** An informational response in the indeterminate form, whatever its lines and whatever follows:
      without lines it is skipped as it should be; with lines it is misread as above. */
  lemma InterimFormExact(g: Grammar, env: Env, status: nat, lines: seq<Line>, w: Wire)
    requires Roomy(env.limit) && Informational(status) && SizedLines(lines)
    ensures ResponseControl(g, env, Wire(IndeterminateInterim(status, lines) + w.bytes, w.ending)) ==
            if lines == [] then ResponseControl(g, env, w)
            else if |lines[0].name| > env.limit + 1 then Varies
            else if KnownLines(g, lines[0].name, []).None? then Failed(InvalidData)
            else ResponseControl(g, env, Wire(LengthPrefixed(lines[0].value)
                                              + ((LinesBytes(lines[1..]) + PutVarint(0)) + w.bytes), w.ending))
  {
    hide PutVarint, LineBytes, ResponseControl, KnownLines, LengthPrefixed;
    var first, zero := PutVarint(status), PutVarint(0);
    if lines == [] {
      EmptyPrefixed();
      assert (first + ([] + zero)) + w.bytes == first + (zero + w.bytes);
      InterimStep(g, env, status, [], w.bytes, w.ending);
    } else {
      var line, more := LineBytes(lines[0]), LinesBytes(lines[1..]);
      assert (first + ((line + more) + zero)) + w.bytes == first + (line + ((more + zero) + w.bytes));
      InterimLines(g, env, status, lines[0], (more + zero) + w.bytes, w.ending);
    }
  }

  lemma EmptyPrefixed()
    ensures LengthPrefixed([]) == PutVarint(0)
  {
    assert PutVarint(0) + [] == PutVarint(0);
  }

  /** A field name as they are written: visible octets, and either short or starting with a lower-case
      letter and under 8450 octets. */
  predicate UsualName(name: bytes) {
    && name != []
    && (forall i :: 0 <= i < |name| ==> 33 <= name[i] <= 126)
    && (|name| <= 33 || (97 <= name[0] <= 122 && |name| < 8450))
  }

  /** Such a name, taken for the contents of a section, announces more than there is of it, so that an
      informational response with it in front is always refused. */
  lemma NameIsNoBlock(g: Grammar, name: bytes)
    requires UsualName(name)
    ensures KnownLines(g, name, []) == None
  {
    var n := VarintWidth(name[0]);
    if n == 1 {
      assert name[..1][..0] == [];
      assert FromBE(name[..1]) == FromBE(name[..1][..0]) * 256 + name[0];
    } else if n <= |name| {
      var s := name[..2];
      assert s[..1][..0] == [];
      assert FromBE(s[..1]) == FromBE(s[..1][..0]) * 256 + name[0];
      assert FromBE(s) == FromBE(s[..1]) * 256 + name[1];
    }
    assert Prefixed(name) == None;
  }

  function Run33(b: byte): (s: bytes)
    ensures |s| == 33
  {
    seq(33, _ => b)
  }

  /** A legal field name of 68 octets that is itself a field section of one line: `!`, 33 times `a`,
      `!`, 33 times `b`. */
  function BlockName(): bytes {
    ([33] + Run33(97)) + ([33] + Run33(98))
  }

  lemma BlockNameRead(g: Grammar)
    requires g.name(Run33(97)).Some? && g.value(Run33(98)).Some?
    ensures KnownLines(g, BlockName(), []).Some?
  {
    hide Run33;
    var a, b := Run33(97), Run33(98);
    assert PutVarint(33) == [33] by { assert ToBE(0, 0) == []; }
    hide PutVarint, Prefixed, KnownLines;
    ReadPrefixed(a, [33] + b);
    ReadPrefixed(b, []);
    assert ([33] + b) + [] == [33] + b;
    KnownLinesEnd(g, BlockName());
  }

  lemma KnownLinesEnd(g: Grammar, block: bytes)
    requires block != [] && LineOf(g, block).Some? && LineOf(g, block).value.1 == []
    ensures KnownLines(g, block, []).Some?
  {
    hide LineOf;
  }

  /** Status 103 with that name on its only line and a value of 200 octets: the decoder reports the
      final status 200 and goes on reading inside the value. */
  lemma InterimTakenForFinal(g: Grammar, env: Env, value: bytes, more: bytes, e: Ending)
    requires env.limit >= 67 && |value| == 200
    requires g.name(Run33(97)).Some? && g.value(Run33(98)).Some?
    ensures ResponseControl(g, env, Wire(PutVarint(103) + (LineBytes(Line(BlockName(), value)) + more), e)) ==
            Done(200, Wire(value + more, e))
  {
    hide PutVarint, ResponseControl, KnownLines, Run33;
    BlockNameRead(g);
    InterimLines(g, env, 103, Line(BlockName(), value), more, e);
    assert (PutVarint(200) + value) + more == PutVarint(200) + (value + more);
    ReadStatus(g, env, 200, value + more, e);
  }

  /** Status 103 with the one line `a: b`, then status 200. */
  lemma EarlyHintsRefused(g: Grammar, env: Env, tail: bytes, e: Ending)
    requires Roomy(env.limit)
    ensures ResponseOf(g, env, Wire(PutVarint(INDETERMINATE_LENGTH_RESPONSE)
                                    + (PutVarint(103) + ([1, 97, 1, 98] + ([0] + (PutVarint(200) + tail)))), e))
            == Failed(InvalidData)
  {
    hide FieldOf, ResponseControl, KnownLines;
    var more := [0] + (PutVarint(200) + tail);
    var line := Line([97], [98]);
    assert LineBytes(line) == [1, 97, 1, 98] by {
      assert ToBE(0, 0) == [];
      assert PutVarint(1) == [1];
    }
    ReadVarint(env.limit, INDETERMINATE_LENGTH_RESPONSE, PutVarint(103) + (LineBytes(line) + more), e);
    NameIsNoBlock(g, line.name);
    InterimLines(g, env, 103, line, more, e);
  }
}
