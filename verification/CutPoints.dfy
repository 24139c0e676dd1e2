/** Which cuts of an encoded message go unnoticed: for every proper prefix, on every source, the exact
    condition under which the decoder takes it for a whole message. */
module CutPoints {
  import opened Bytes
  import opened Varint
  import opened Streams
  import opened StreamBuf
  import opened StreamOctets
  import opened HttpMessage
  import opened BinarySpec
  import opened BinaryDecoder
  import opened BinaryEncoder
  import opened BinaryLaws
  import opened BinaryMessages
  import opened StreamTruncation

  // ---------- strings and lines ----------

  /** A length-prefixed string that is cut short is an error. */
  lemma StringCut(limit: nat, b: bytes, p: bytes, e: Ending)
    requires Roomy(limit) && Sized(b) && |b| <= limit + 1 && p < LengthPrefixed(b)
    ensures LenPrefixed(limit, Wire(p, e)) == Failed(Closed(e))
  {
    hide PutVarint, FieldOf;
    var len := PutVarint(|b|);
    SplitPrefix(p, len, b);
    if p < len {
      VarintCut(limit, |b|, p, e);
    } else {
      ReadVarint(limit, |b|, p[|len|..], e);
    }
  }

  lemma ControlMissing(g: Grammar, env: Env, req: Request, p: bytes, e: Ending)
    requires Roomy(env.limit) && Canonical(g, req) && Fits(req, env.limit) && p < ControlBytes(req)
    ensures RequestControl(g, env, Wire(p, e)) == Failed(Closed(e))
  {
    hide LenPrefixed, LengthPrefixed, JoinQuery, LinesFit, CanonicalLines, WellFormed;
    var limit := env.limit;
    var scheme, authority, path := req.uri.scheme.value, AuthorityField(req), JoinQuery(req.uri.path, req.uri.query);
    var v, s, a, t := LengthPrefixed(req.verb), LengthPrefixed(scheme), LengthPrefixed(authority), LengthPrefixed(path);
    SplitPrefix(p, v, s + (a + t));
    if p < v {
      StringCut(limit, req.verb, p, e);
    } else {
      var p1 := p[|v|..];
      ReadLengthPrefixed(limit, req.verb, p1, e);
      SplitPrefix(p1, s, a + t);
      if p1 < s {
        StringCut(limit, scheme, p1, e);
      } else {
        var p2 := p1[|s|..];
        ReadLengthPrefixed(limit, scheme, p2, e);
        SplitPrefix(p2, a, t);
        if p2 < a {
          StringCut(limit, authority, p2, e);
        } else {
          ReadLengthPrefixed(limit, authority, p2[|a|..], e);
          StringCut(limit, path, p2[|a|..], e);
        }
      }
    }
  }

  /** A field line that is begun and not finished is an error. */
  lemma LineCut(g: Grammar, env: Env, l: Line, p: bytes, e: Ending, acc: seq<Line>)
    requires Roomy(env.limit) && Sized(l.name) && Sized(l.value) && CanonicalLine(g, l)
    requires |l.name| <= env.limit + 1 && |l.value| <= env.limit + 1
    requires p != [] && p < LineBytes(l)
    ensures IndeterminateSection(g, env, Wire(p, e), acc) == Failed(Closed(e))
  {
    hide PutVarint, FieldOf, LenPrefixed;
    var len, value := PutVarint(|l.name|), LengthPrefixed(l.value);
    assert LineBytes(l) == len + (l.name + value);
    SplitPrefix(p, len, l.name + value);
    if p < len {
      VarintCut(env.limit, |l.name|, p, e);
    } else {
      var p1 := p[|len|..];
      ReadVarint(env.limit, |l.name|, p1, e);
      SplitPrefix(p1, l.name, value);
      if |l.name| <= |p1| {
        var p2 := p1[|l.name|..];
        ReadTake(env.limit, l.name, p2, e);
        StringCut(env.limit, l.value, p2, e);
      }
    }
  }

  /** How many whole lines `p` is, if it is whole lines. */
  function LinesIn(ls: seq<Line>, p: bytes): (n: Option<nat>)
    requires SizedLines(ls)
    ensures n.Some? ==> n.value <= |ls|
  {
    if p == [] then Some(0)
    else if ls == [] || !(LineBytes(ls[0]) <= p) then None
    else match LinesIn(ls[1..], p[|LineBytes(ls[0])|..])
      case None => None
      case Some(n) => Some(n + 1)
  }

  lemma LinesInNext(ls: seq<Line>, q: bytes)
    requires SizedLines(ls) && ls != []
    ensures var n := LinesIn(ls[1..], q);
            LinesIn(ls, LineBytes(ls[0]) + q) == if n.None? then None else Some(n.value + 1)
  {
    hide PutVarint;
    var line := LineBytes(ls[0]);
    assert (line + q)[|line|..] == q;
  }

  lemma LinesBytesNext(ls: seq<Line>, n: nat)
    requires SizedLines(ls) && n < |ls|
    ensures LinesBytes(ls[..n + 1]) == LineBytes(ls[0]) + LinesBytes(ls[1..][..n])
    ensures LinesBytes(ls[..n + 1]) != []
  {
    hide PutVarint;
    assert ls[..n + 1][1..] == ls[1..][..n];
  }

  lemma {:induction false} LinesInExact(ls: seq<Line>, p: bytes, n: nat)
    requires SizedLines(ls)
    ensures LinesIn(ls, p) == Some(n) <==> n <= |ls| && p == LinesBytes(ls[..n])
  {
    hide LineBytes;
    if 0 < n <= |ls| {
      LinesBytesNext(ls, n - 1);
    }
    if p != [] && n > 0 && ls != [] && LineBytes(ls[0]) <= p {
      var line := LineBytes(ls[0]);
      assert p == line + p[|line|..];
      LinesInExact(ls[1..], p[|line|..], n - 1);
      if n <= |ls| { SameTail(line, p[|line|..], LinesBytes(ls[1..][..n - 1])); }
    }
  }

  /** The header section cut before its terminator: whole lines pass for the section unless an empty
      chunk announced more; anything else is an error. */
  lemma {:induction false} SectionCutExact(g: Grammar, env: Env, ls: seq<Line>, p: bytes, acc: seq<Line>)
    requires Roomy(env.limit) && CanonicalLines(g, ls) && LinesFit(ls, env.limit) && p <= LinesBytes(ls)
    ensures IndeterminateSection(g, env, Wire(p, Eof), acc) ==
            if env.trail.announces || LinesIn(ls, p).None? then Failed(UnexpectedEof)
            else Done(acc + ls[..LinesIn(ls, p).value], Wire([], Eof))
    decreases |ls|
  {
    hide IndeterminateSection, LineBytes;
    if p == [] {
      SectionOver(g, env, acc);
      assert acc + ls[..0] == acc;
    } else {
      var line, rest := LineBytes(ls[0]), LinesBytes(ls[1..]);
      SplitPrefix(p, line, rest);
      if p < line {
        LineCut(g, env, ls[0], p, Eof, acc);
      } else {
        hide LinesIn;
        var p1 := p[|line|..];
        ReadLine(g, env, ls[0], p1, Eof, acc);
        LinesInNext(ls, p1);
        SectionCutExact(g, env, ls[1..], p1, acc + [ls[0]]);
        var n := LinesIn(ls[1..], p1);
        if n.Some? { assert acc + [ls[0]] + ls[1..][..n.value] == acc + ls[..n.value + 1]; }
      }
    }
  }

  // ---------- content ----------

  predicate SizedParts(cs: seq<bytes>) {
    forall i :: 0 <= i < |cs| ==> cs[i] != [] && Sized(cs[i])
  }

  lemma {:induction false} ChunksAreParts(body: Source)
    requires ChunksAtMost(body, MAX_VARINT)
    ensures SizedParts(Chunks(body))
  {
    match body
    case End =>
    case Fault(_, _) =>
    case Pending(n) => ChunksAreParts(n);
    case Chunk(_, n) => ChunksAreParts(n);
  }

  /** The non-empty chunks of a body. */
  function Parts(body: Source): (cs: seq<bytes>)
    requires ChunksAtMost(body, MAX_VARINT)
    ensures SizedParts(cs)
  {
    ChunksAreParts(body);
    Chunks(body)
  }

  /** Content chunks behind their lengths, without the terminator. */
  function Chunked(cs: seq<bytes>): bytes
    requires SizedParts(cs)
  {
    if cs == [] then [] else LengthPrefixed(cs[0]) + Chunked(cs[1..])
  }

  lemma {:induction false} ContentParts(body: Source)
    requires ChunksAtMost(body, MAX_VARINT) && Closing(body) == Eof
    ensures Data(ContentTrace(false, body)) == Chunked(Parts(body)) + PutVarint(0)
  {
    hide PutVarint;
    match body
    case End =>
      assert Data(ContentTrace(false, body)) == PutVarint(0) + [];
    case Pending(n) => ContentParts(n);
    case Chunk(d, n) =>
      ContentParts(n);
      if d == [] {
        assert Parts(body) == Parts(n);
        assert Data(ContentTrace(false, body)) == [] + Data(ContentTrace(false, n));
      } else {
        assert Parts(body)[1..] == Parts(n);
        Assoc(LengthPrefixed(d), Chunked(Parts(n)), PutVarint(0));
      }
  }

  /** `p` is some of the chunks, each whole. */
  predicate WholeChunks(cs: seq<bytes>, p: bytes)
    requires SizedParts(cs)
  {
    p == [] || (cs != [] && LengthPrefixed(cs[0]) <= p && WholeChunks(cs[1..], p[|LengthPrefixed(cs[0])|..]))
  }

  lemma ChunkedNext(cs: seq<bytes>, n: nat)
    requires SizedParts(cs) && n < |cs|
    ensures Chunked(cs[..n + 1]) == LengthPrefixed(cs[0]) + Chunked(cs[1..][..n])
    ensures Chunked(cs[..n + 1]) != []
  {
    hide PutVarint;
    assert cs[..n + 1][1..] == cs[1..][..n];
  }

  lemma {:induction false} WholeChunksExact(cs: seq<bytes>, p: bytes)
    requires SizedParts(cs)
    ensures WholeChunks(cs, p) <==> exists n :: 0 <= n <= |cs| && p == Chunked(cs[..n])
  {
    hide LengthPrefixed, Chunked;
    NoChunks(cs);
    if p == [] {
      assert p == Chunked(cs[..0]);
    } else if cs != [] {
      var c := LengthPrefixed(cs[0]);
      if c <= p {
        assert p == c + p[|c|..];
        WholeChunksExact(cs[1..], p[|c|..]);
        if n :| 0 <= n <= |cs[1..]| && p[|c|..] == Chunked(cs[1..][..n]) {
          ChunkedNext(cs, n);
          assert p == Chunked(cs[..n + 1]);
        }
      }
      if n :| 0 <= n <= |cs| && p == Chunked(cs[..n]) {
        ChunkedNext(cs, n - 1);
        assert p[|c|..] == Chunked(cs[1..][..n - 1]);
      }
    }
  }

  lemma NoChunks(cs: seq<bytes>)
    requires SizedParts(cs)
    ensures Chunked(cs[..0]) == []
  {
  }

  /** The content octets in a prefix of framed chunks: what is left when the lengths are taken out. */
  function Unframed(cs: seq<bytes>, p: bytes): bytes
    requires SizedParts(cs)
  {
    if cs == [] then []
    else
      var len, full := VarintLen(|cs[0]|), VarintLen(|cs[0]|) + |cs[0]|;
      if |p| <= len then []
      else if |p| < full then p[len..]
      else p[len..full] + Unframed(cs[1..], p[full..])
  }

  lemma UnframedNext(cs: seq<bytes>, rest: bytes)
    requires SizedParts(cs) && cs != []
    ensures Unframed(cs, LengthPrefixed(cs[0]) + rest) == cs[0] + Unframed(cs[1..], rest)
  {
    hide VarintLen;
    var len, c := |PutVarint(|cs[0]|)|, LengthPrefixed(cs[0]);
    assert (c + rest)[len..|c|] == cs[0];
    assert (c + rest)[|c|..] == rest;
  }

  /** How content that stops at a cut ends: with the input's own error, or at its end cleanly if and only
      if whole chunks are left and no empty chunk comes last. */
  function CutEnd(trail: Trail, e: Ending, whole: bool): BodyEnd {
    match e
    case Broken(error) => Cut(error)
    case Eof => if whole && !trail.starves then Clean else Cut(UnexpectedEof)
  }

  /** Content cut anywhere before its terminator: every octet of it that came is delivered, and then it
      ends as above. */
  lemma {:induction false} ContentCutExact(env: Env, cs: seq<bytes>, p: bytes, e: Ending)
    requires Roomy(env.limit) && SizedParts(cs) && p <= Chunked(cs)
    ensures BodyOf(env, IndeterminateLength(Some(0)), Wire(p, e)) ==
            Delivered(Unframed(cs, p), CutEnd(env.trail, e, WholeChunks(cs, p)))
    decreases |cs|
  {
    hide BodyOf, LengthPrefixed;
    if p == [] {
      NoContentLeft(env, e);
      NothingFramed(cs);
    } else {
      var c, rest := LengthPrefixed(cs[0]), Chunked(cs[1..]);
      SplitPrefix(p, c, rest);
      if p < c {
        ChunkCut(env, cs, p, e);
      } else {
        hide Unframed;
        ContentCutExact(env, cs[1..], p[|c|..], e);
        WholeChunk(env, cs[0], p[|c|..], e);
        UnframedNext(cs, p[|c|..]);
      }
    }
  }

  lemma NothingFramed(cs: seq<bytes>)
    requires SizedParts(cs)
    ensures Unframed(cs, []) == []
  {
  }

  lemma WholeChunk(env: Env, d: bytes, rest: bytes, e: Ending)
    requires Roomy(env.limit) && Sized(d) && d != []
    ensures var kind := IndeterminateLength(Some(0));
            var after := BodyOf(env, kind, Wire(rest, e));
            BodyOf(env, kind, Wire(LengthPrefixed(d) + rest, e)) == Delivered(d + after.data, after.end)
  {
    hide PutVarint, BodyOf, FieldOf;
    var len := PutVarint(|d|);
    assert (len + d) + rest == len + (d + rest);
    ReadVarint(env.limit, |d|, d + rest, e);
    ContentStep(env, len, d, rest, e);
  }

  lemma ChunkCut(env: Env, cs: seq<bytes>, p: bytes, e: Ending)
    requires Roomy(env.limit) && SizedParts(cs) && cs != [] && p != [] && p < LengthPrefixed(cs[0])
    ensures BodyOf(env, IndeterminateLength(Some(0)), Wire(p, e)) == Delivered(Unframed(cs, p), Cut(Closed(e)))
  {
    hide PutVarint, FieldOf, VarintLen;
    var d := cs[0];
    var len := PutVarint(|d|);
    SplitPrefix(p, len, d);
    if p < len {
      VarintCut(env.limit, |d|, p, e);
    } else {
      var cut := p[|len|..];
      ReadVarint(env.limit, |d|, cut, e);
      assert BodyOf(env, IndeterminateLength(Some(0)), Wire(p, e)) == BodyOf(env, IndeterminateLength(Some(|d|)), Wire(cut, e));
    }
  }

  // ---------- requests ----------

  predicate AfterLines(front: bytes, ls: seq<Line>, n: int, p: bytes)
    requires SizedLines(ls)
  {
    0 <= n <= |ls| && p == front + LinesBytes(ls[..n])
  }

  predicate AfterChunks(head: bytes, cs: seq<bytes>, n: int, p: bytes)
    requires SizedParts(cs)
  {
    0 <= n <= |cs| && p == head + Chunked(cs[..n])
  }

  lemma SameTail(a: bytes, b: bytes, c: bytes)
    ensures a + b == a + c <==> b == c
  {
    if a + b == a + c {
      assert b == (a + b)[|a|..] == (a + c)[|a|..] == c;
    }
  }

  lemma {:induction false} LinesPrefix(ls: seq<Line>, n: nat)
    requires SizedLines(ls) && n <= |ls|
    ensures |LinesBytes(ls[..n])| <= |LinesBytes(ls)|
  {
    if n > 0 {
      assert ls[..n][1..] == ls[1..][..n - 1];
      LinesPrefix(ls[1..], n - 1);
    }
  }

  /** A cut within the lines is after whole lines or after none, and never after the head. */
  lemma LinesWhere(front: bytes, ls: seq<Line>, cs: seq<bytes>, q: bytes)
    requires SizedLines(ls) && SizedParts(cs) && q <= LinesBytes(ls)
    ensures forall n :: AfterLines(front, ls, n, front + q) <==> n >= 0 && LinesIn(ls, q) == Some(n)
    ensures forall n :: !AfterChunks(front + (LinesBytes(ls) + PutVarint(0)), cs, n, front + q)
  {
    hide PutVarint, Chunked, LinesIn, LinesBytes;
    forall n: int
      ensures AfterLines(front, ls, n, front + q) <==> n >= 0 && LinesIn(ls, q) == Some(n)
    {
      if n >= 0 {
        LinesInExact(ls, q, n);
        if n <= |ls| { SameTail(front, q, LinesBytes(ls[..n])); }
      }
    }
  }

  /** A cut within the content is after whole chunks or after none, and never within the lines. */
  lemma ContentWhere(front: bytes, ls: seq<Line>, cs: seq<bytes>, q: bytes)
    requires SizedLines(ls) && SizedParts(cs)
    ensures var head := front + (LinesBytes(ls) + PutVarint(0));
            && (forall n :: !AfterLines(front, ls, n, head + q))
            && ((exists n :: AfterChunks(head, cs, n, head + q)) <==> WholeChunks(cs, q))
  {
    hide PutVarint, Chunked, LinesBytes, WholeChunks;
    var head := front + (LinesBytes(ls) + PutVarint(0));
    forall n | 0 <= n <= |ls|
      ensures head + q != front + LinesBytes(ls[..n])
    {
      LinesPrefix(ls, n);
    }
    WholeChunksExact(cs, q);
    forall n | 0 <= n <= |cs|
      ensures AfterChunks(head, cs, n, head + q) <==> q == Chunked(cs[..n])
    {
      SameTail(head, q, Chunked(cs[..n]));
    }
  }

  /** The message is taken for a whole one. */
  predicate Passes<H>(env: Env, o: Outcome<(H, BodyKind)>) {
    o.Done? && BodyOf(env, o.value.1, o.rest).end == Clean
  }

  /** The request up to its header lines. */
  function Front(req: Request): bytes
    requires Encodable(req) && req.uri.scheme.Some?
  {
    PutVarint(INDETERMINATE_LENGTH_REQUEST) + ControlBytes(req)
  }

  /** Cut after whole header lines that still name an authority, with no empty chunk to announce more;
      or after whole content chunks, with no empty chunk at the end. */
  ghost predicate Unnoticed(g: Grammar, trail: Trail, req: Request, cs: seq<bytes>, p: bytes)
    requires Encodable(req) && req.uri.scheme.Some? && SizedParts(cs)
  {
    !trail.starves &&
    var ls := Lines(req.headers);
    || (!trail.announces && exists n :: AfterLines(Front(req), ls, n, p) && Assemble(g, ControlOf(req), Collect(ls[..n])).Some?)
    || (exists n :: AfterChunks(RequestHead(req), cs, n, p))
  }

  /** Cut before the first header line. */
  lemma FrontCut(g: Grammar, env: Env, req: Request, p: bytes, e: Ending)
    requires Roomy(env.limit) && Canonical(g, req) && Fits(req, env.limit) && p < Front(req)
    ensures RequestOf(g, env, Wire(p, e)) == Failed(Closed(e))
  {
    hide PutVarint, ControlBytes, FieldOf, RequestControl, Fits;
    var indicator := PutVarint(INDETERMINATE_LENGTH_REQUEST);
    SplitPrefix(p, indicator, ControlBytes(req));
    if p < indicator {
      VarintCut(env.limit, INDETERMINATE_LENGTH_REQUEST, p, e);
    } else {
      var q := p[|indicator|..];
      ReadVarint(env.limit, INDETERMINATE_LENGTH_REQUEST, q, e);
      ControlMissing(g, env, req, q, e);
    }
  }

  /** Cut within the header section, or right before its terminator. */
  lemma LinesPart(g: Grammar, env: Env, req: Request, q: bytes)
    requires Roomy(env.limit) && Canonical(g, req) && Fits(req, env.limit) && q <= LinesBytes(Lines(req.headers))
    ensures var o, ls := RequestOf(g, env, Wire(Front(req) + q, Eof)), Lines(req.headers);
            var n := LinesIn(ls, q);
            if env.trail.announces || n.None? then o == Failed(UnexpectedEof)
            else match Assemble(g, ControlOf(req), Collect(ls[..n.value]))
              case None => o == Failed(InvalidData)
              case Some(got) => o == Done((got, IndeterminateLength(Some(0))), Wire([], Eof))
  {
    hide PutVarint, ControlBytes, FieldOf, RequestControl, IndeterminateSection, Assemble, Collect, LinesBytes, LinesIn;
    var indicator, ls := PutVarint(INDETERMINATE_LENGTH_REQUEST), Lines(req.headers);
    Assoc(indicator, ControlBytes(req), q);
    ReadVarint(env.limit, INDETERMINATE_LENGTH_REQUEST, ControlBytes(req) + q, Eof);
    ReadControl(g, env, req, q, Eof);
    SectionCutExact(g, env, ls, q, []);
    if LinesIn(ls, q).Some? { assert [] + ls[..LinesIn(ls, q).value] == ls[..LinesIn(ls, q).value]; }
  }

  /** Where a proper prefix of a message of front, lines, terminator, chunks and terminator ends. */
  lemma Places(p: bytes, front: bytes, lines: bytes, chunks: bytes)
    requires p < (front + (lines + [0])) + (chunks + [0])
    ensures || p < front
            || (front <= p && p[|front|..] <= lines)
            || (front + (lines + [0]) <= p && p[|front + (lines + [0])|..] <= chunks)
  {
    var head := front + (lines + [0]);
    var whole := head + (chunks + [0]);
    assert p == whole[..|p|];
    if |p| < |front| {
      assert front[..|p|] == whole[..|p|];
    } else if |p| <= |front| + |lines| {
      assert whole[..|front|] == front;
      assert p[|front|..] == lines[..|p| - |front|];
    } else {
      assert whole[..|head|] == head;
      assert p[|head|..] == chunks[..|p| - |head|];
    }
  }

  /** A cut within the header section passes if and only if it is unnoticed. */
  lemma LinesCutExact(g: Grammar, env: Env, req: Request, cs: seq<bytes>, q: bytes)
    requires Roomy(env.limit) && Canonical(g, req) && Fits(req, env.limit) && SizedParts(cs)
    requires q <= LinesBytes(Lines(req.headers))
    ensures var p := Front(req) + q; var o := RequestOf(g, env, Wire(p, Eof));
            o != Varies && (Passes(env, o) <==> Unnoticed(g, env.trail, req, cs, p))
  {
    hide RequestOf, BodyOf, Front, LinesBytes, Assemble, Collect, AfterLines, AfterChunks, LinesIn, Fits;
    LinesPart(g, env, req, q);
    NoContentLeft(env, Eof);
    HeadParts(req);
    LinesWhere(Front(req), Lines(req.headers), cs, q);
  }

  /** And so does a cut within the content. */
  lemma ChunksCutExact(g: Grammar, env: Env, req: Request, cs: seq<bytes>, q: bytes)
    requires Roomy(env.limit) && Canonical(g, req) && Fits(req, env.limit) && SizedParts(cs) && q <= Chunked(cs)
    ensures var p := RequestHead(req) + q; var o := RequestOf(g, env, Wire(p, Eof));
            o != Varies && (Passes(env, o) <==> Unnoticed(g, env.trail, req, cs, p))
  {
    hide RequestOf, RequestPartsOf, RequestHead, BodyOf, Front, Chunked, WholeChunks, AfterLines, AfterChunks, Fits;
    HeadParts(req);
    RequestHeadRoundTrip(g, env, req, q, Eof);
    ContentCutExact(env, cs, q, Eof);
    ContentWhere(Front(req), Lines(req.headers), cs, q);
  }

  lemma HeadParts(req: Request)
    requires Encodable(req) && req.uri.scheme.Some?
    ensures RequestHead(req) == Front(req) + (LinesBytes(Lines(req.headers)) + PutVarint(0))
  {
    hide PutVarint, ControlBytes, LinesBytes;
    Assoc(PutVarint(INDETERMINATE_LENGTH_REQUEST), ControlBytes(req), LinesBytes(Lines(req.headers)) + PutVarint(0));
  }

  /** Every cut of an encoded request: taken for a whole one if and only if unnoticed. */
  lemma RequestCutExact(g: Grammar, env: Env, req: Request, body: Source, p: bytes)
    requires Roomy(env.limit) && Canonical(g, req) && Fits(req, env.limit)
    requires ChunksAtMost(body, MAX_VARINT) && Closing(body) == Eof
    requires p < RequestHead(req) + Data(ContentTrace(false, body))
    ensures RequestOf(g, env, Wire(p, Eof)) != Varies
    ensures Passes(env, RequestOf(g, env, Wire(p, Eof))) <==> Unnoticed(g, env.trail, req, Parts(body), p)
  {
    hide RequestOf, RequestHead, ContentTrace, Parts, LinesBytes, Chunked, Front, BodyOf, AfterLines, AfterChunks, Fits;
    var cs, front, lines := Parts(body), Front(req), LinesBytes(Lines(req.headers));
    ContentParts(body);
    ZeroVarint();
    HeadParts(req);
    Places(p, front, lines, Chunked(cs));
    if p < front {
      FrontCut(g, env, req, p, Eof);
      NotReached(front, Lines(req.headers), cs, p);
    } else if front <= p && p[|front|..] <= lines {
      assert p == front + p[|front|..];
      LinesCutExact(g, env, req, cs, p[|front|..]);
    } else {
      assert p == RequestHead(req) + p[|RequestHead(req)|..];
      ChunksCutExact(g, env, req, cs, p[|RequestHead(req)|..]);
    }
  }

  /** A request cut anywhere, on any source: the exact condition under which it passes for a whole one. */
  method ReceiveCutRequest(g: Grammar, ghost req: Request, ghost body: Source, source: Source, limit: nat)
    returns (r: Result<Message<Request>>)
    requires Canonical(g, req) && Roomy(limit) && Fits(req, limit)
    requires ChunksAtMost(body, MAX_VARINT) && Closing(body) == Eof
    requires Data(source) < RequestHead(req) + Data(ContentTrace(false, body)) && Closing(source) == Eof
    ensures r.Ok? && r.value.content.end == Clean <==> Unnoticed(g, TrailOf(source), req, Parts(body), Data(source))
  {
    hide RequestOf, BodyOf, Canonical, Fits, RequestHead, ContentTrace, Parts, TrailOf, Unnoticed;
    var sb := new StreamBuf(source, limit);
    assert [] + Data(source) == Data(source);
    RequestCutExact(g, sb.Conf(), req, body, Data(source));
    var head := DecodeRequest(g, sb);
    if head.Err? { return Err(head.error); }
    BodyDecided(sb.Conf(), head.value.1, sb.Flat());
    var decoded := new DecodedBody(head.value.1, sb);
    var data, end := CollectBody(decoded);
    return Ok(Message(head.value.0, Delivered(data, Ended(end))));
  }

  // ---------- sources that break off ----------

  /** A section that breaks off gives the error it broke off with. */
  lemma {:induction false} SectionBreaks(g: Grammar, env: Env, ls: seq<Line>, p: bytes, error: Error, acc: seq<Line>)
    requires Roomy(env.limit) && CanonicalLines(g, ls) && LinesFit(ls, env.limit) && p <= LinesBytes(ls)
    ensures IndeterminateSection(g, env, Wire(p, Broken(error)), acc) == Failed(error)
    decreases |ls|
  {
    hide IndeterminateSection, LineBytes;
    if p == [] {
      SectionBroken(g, env, error, acc);
    } else {
      var line, rest := LineBytes(ls[0]), LinesBytes(ls[1..]);
      SplitPrefix(p, line, rest);
      if p < line {
        LineCut(g, env, ls[0], p, Broken(error), acc);
      } else {
        ReadLine(g, env, ls[0], p[|line|..], Broken(error), acc);
        SectionBreaks(g, env, ls[1..], p[|line|..], error, acc + [ls[0]]);
      }
    }
  }

  lemma SectionBroken(g: Grammar, env: Env, error: Error, acc: seq<Line>)
    ensures IndeterminateSection(g, env, Wire([], Broken(error)), acc) == Failed(error)
  {
  }

  /** Any source that breaks off within an encoded request: within the head the error is the source's
      own; within the content every octet that came is delivered and then that error; after the
      terminator the break is not seen. */
  lemma RequestBreaksExact(g: Grammar, env: Env, req: Request, body: Source, p: bytes, error: Error)
    requires Roomy(env.limit) && Canonical(g, req) && Fits(req, env.limit)
    requires ChunksAtMost(body, MAX_VARINT) && Closing(body) == Eof
    requires p <= RequestHead(req) + Data(ContentTrace(false, body))
    ensures var o, cs, head := RequestOf(g, env, Wire(p, Broken(error))), Parts(body), RequestHead(req);
            if |p| < |head| then o == Failed(error)
            else
              && o.Done? && o.value.0 == req
              && BodyOf(env, o.value.1, o.rest) ==
                 if p == head + Data(ContentTrace(false, body)) then Delivered(Data(body), Clean)
                 else Delivered(Unframed(cs, p[|head|..]), Cut(error))
  {
    hide RequestOf, RequestPartsOf, RequestHead, ContentTrace, Parts, LinesBytes, Chunked, Front, BodyOf, Fits, Unframed, WholeChunks;
    var content, head, e := Data(ContentTrace(false, body)), RequestHead(req), Broken(error);
    SplitPrefix(p, head, content);
    HeadParts(req);
    ZeroVarint();
    if p < head {
      HeadBreaks(g, env, req, p, error);
    } else {
      var q := p[|head|..];
      RequestHeadRoundTrip(g, env, req, q, e);
      ContentParts(body);
      if q == content {
        ContentRoundTrip(env, body, [], e);
        assert content + [] == content;
      } else {
        assert q <= Chunked(Parts(body)) by { ShortOf(q, Chunked(Parts(body))); }
        ContentCutExact(env, Parts(body), q, e);
      }
    }
  }

  lemma ShortOf(q: bytes, chunks: bytes)
    requires q < chunks + [0]
    ensures q <= chunks
  {
  }

  lemma HeadBreaks(g: Grammar, env: Env, req: Request, p: bytes, error: Error)
    requires Roomy(env.limit) && Canonical(g, req) && Fits(req, env.limit) && p < RequestHead(req)
    ensures RequestOf(g, env, Wire(p, Broken(error))) == Failed(error)
  {
    hide LinesBytes, ControlBytes, FieldOf, RequestControl, IndeterminateSection;
    var e, lines, indicator := Broken(error), LinesBytes(Lines(req.headers)), PutVarint(INDETERMINATE_LENGTH_REQUEST);
    HeadParts(req);
    ZeroVarint();
    SplitPrefix(p, Front(req), lines + [0]);
    if p < Front(req) {
      FrontCut(g, env, req, p, e);
    } else {
      hide PutVarint;
      var q := p[|Front(req)|..];
      ShortOf(q, lines);
      Assoc(indicator, ControlBytes(req), q);
      ReadVarint(env.limit, INDETERMINATE_LENGTH_REQUEST, ControlBytes(req) + q, e);
      ReadControl(g, env, req, q, e);
      SectionBreaks(g, env, Lines(req.headers), q, error, []);
    }
  }

  /** The same for the streaming decoder, on every such source. */
  method ReceiveBreaking(g: Grammar, ghost req: Request, ghost body: Source, source: Source, limit: nat)
    returns (r: Result<Message<Request>>)
    requires Canonical(g, req) && Roomy(limit) && Fits(req, limit)
    requires ChunksAtMost(body, MAX_VARINT) && Closing(body) == Eof
    requires Data(source) <= RequestHead(req) + Data(ContentTrace(false, body)) && Closing(source).Broken?
    ensures var p, head, error := Data(source), RequestHead(req), Closing(source).error;
            r == if |p| < |head| then Err(error)
                 else if p == head + Data(ContentTrace(false, body)) then Ok(Message(req, Delivered(Data(body), Clean)))
                 else Ok(Message(req, Delivered(Unframed(Parts(body), p[|head|..]), Cut(error))))
  {
    hide RequestOf, BodyOf, Canonical, Fits, RequestHead, ContentTrace, Parts, TrailOf, Unframed;
    var sb := new StreamBuf(source, limit);
    assert [] + Data(source) == Data(source);
    RequestBreaksExact(g, sb.Conf(), req, body, Data(source), Closing(source).error);
    var head := DecodeRequest(g, sb);
    if head.Err? { return Err(head.error); }
    var decoded := new DecodedBody(head.value.1, sb);
    var data, end := CollectBody(decoded);
    return Ok(Message(head.value.0, Delivered(data, Ended(end))));
  }

  // ---------- responses ----------

  function StatusFront(res: Response, known: bool): bytes
    requires EncodableResponse(res)
  {
    PutVarint(if known then KNOWN_LENGTH_RESPONSE else INDETERMINATE_LENGTH_RESPONSE) + PutVarint(res.status)
  }

  /** In the indeterminate form: after whole header lines or whole content chunks, as for requests. In
      the known-length form: right after the status or right after the header section, with no empty
      chunk to announce more. */
  ghost predicate UnnoticedResponse(trail: Trail, res: Response, known: bool, cs: seq<bytes>, p: bytes)
    requires EncodableResponse(res) && SizedParts(cs)
  {
    var ls, front := Lines(res.headers), StatusFront(res, known);
    if known then !trail.announces && (p == front || p == front + LengthPrefixed(LinesBytes(ls)))
    else
      !trail.starves &&
      (|| (!trail.announces && exists n :: AfterLines(front, ls, n, p))
       || (exists n :: AfterChunks(IndeterminateResponseHead(res), cs, n, p)))
  }

  lemma StatusMissing(g: Grammar, env: Env, res: Response, known: bool, p: bytes)
    requires Roomy(env.limit) && CanonicalResponse(g, res) && p < StatusFront(res, known)
    ensures ResponseOf(g, env, Wire(p, Eof)) == Failed(UnexpectedEof)
  {
    hide PutVarint, FieldOf;
    var i := if known then KNOWN_LENGTH_RESPONSE else INDETERMINATE_LENGTH_RESPONSE;
    var indicator, status := PutVarint(i), PutVarint(res.status);
    SplitPrefix(p, indicator, status);
    if p < indicator {
      VarintCut(env.limit, i, p, Eof);
    } else {
      ReadVarint(env.limit, i, p[|indicator|..], Eof);
      VarintCut(env.limit, res.status, p[|indicator|..], Eof);
    }
  }

  /** Past the status, what is left decides. */
  lemma AfterStatus(g: Grammar, env: Env, res: Response, known: bool, q: bytes)
    requires Roomy(env.limit) && CanonicalResponse(g, res)
    ensures ResponseOf(g, env, Wire(StatusFront(res, known) + q, Eof)) ==
            Answered(match Section(g, env, Wire(q, Eof), known)
                     case Failed(e) => Failed(e)
                     case Varies => Varies
                     case Done(lines, w) =>
                       (match BodyStart(env, w, known)
                        case Failed(e) => Failed(e)
                        case Varies => Varies
                        case Done(kind, rest) => Done(ResponseParts(res.status, lines, kind), rest)))
  {
    hide PutVarint, FieldOf, ResponseControl, Section, BodyStart;
    var i := if known then KNOWN_LENGTH_RESPONSE else INDETERMINATE_LENGTH_RESPONSE;
    Assoc(PutVarint(i), PutVarint(res.status), q);
    ReadVarint(env.limit, i, PutVarint(res.status) + q, Eof);
    ReadStatus(g, env, res.status, q, Eof);
  }

  /** Cut within the header section, or right before its terminator. */
  lemma ResponseLinesPart(g: Grammar, env: Env, res: Response, q: bytes)
    requires Roomy(env.limit) && CanonicalResponse(g, res) && LinesFit(Lines(res.headers), env.limit)
    requires q <= LinesBytes(Lines(res.headers))
    ensures var o, n := ResponseOf(g, env, Wire(StatusFront(res, false) + q, Eof)), LinesIn(Lines(res.headers), q);
            if env.trail.announces || n.None? then o == Failed(UnexpectedEof)
            else o.Done? && o.value.1 == IndeterminateLength(Some(0)) && o.rest == Wire([], Eof)
  {
    hide ResponseOf, StatusFront, IndeterminateSection, LinesIn, LinesBytes, Collect;
    AfterStatus(g, env, res, false, q);
    SectionCutExact(g, env, Lines(res.headers), q, []);
  }

  lemma IndeterminateResponseCut(g: Grammar, env: Env, res: Response, body: Source, p: bytes)
    requires Roomy(env.limit) && CanonicalResponse(g, res) && LinesFit(Lines(res.headers), env.limit)
    requires ChunksAtMost(body, MAX_VARINT) && Closing(body) == Eof
    requires p < IndeterminateResponseHead(res) + Data(ContentTrace(false, body))
    ensures ResponseOf(g, env, Wire(p, Eof)) != Varies
    ensures Passes(env, ResponseOf(g, env, Wire(p, Eof))) <==> UnnoticedResponse(env.trail, res, false, Parts(body), p)
  {
    hide ResponseOf, ContentTrace, Parts, LinesBytes, Chunked, PutVarint, BodyOf, AfterLines, AfterChunks;
    var cs, ls, front := Parts(body), Lines(res.headers), StatusFront(res, false);
    var lines := LinesBytes(ls);
    ContentParts(body);
    ZeroVarint();
    Assoc(PutVarint(INDETERMINATE_LENGTH_RESPONSE), PutVarint(res.status), lines + PutVarint(0));
    assert IndeterminateResponseHead(res) == front + (lines + [0]);
    Places(p, front, lines, Chunked(cs));
    if p < front {
      StatusMissing(g, env, res, false, p);
      NotReached(front, ls, cs, p);
    } else if front <= p && p[|front|..] <= lines {
      var q := p[|front|..];
      assert p == front + q;
      ResponseLinesPart(g, env, res, q);
      NoContentLeft(env, Eof);
      LinesWhere(front, ls, cs, q);
    } else {
      var q := p[|IndeterminateResponseHead(res)|..];
      assert p == IndeterminateResponseHead(res) + q;
      ContentWhere(front, ls, cs, q);
      hide IndeterminateResponseHead, ResponsePartsOf;
      IndeterminateResponseRoundTrip(g, env, res, q, Eof);
      ContentCutExact(env, cs, q, Eof);
    }
  }

  lemma NotReached(front: bytes, ls: seq<Line>, cs: seq<bytes>, p: bytes)
    requires SizedLines(ls) && SizedParts(cs) && p < front
    ensures forall n :: !AfterLines(front, ls, n, p)
    ensures forall n :: !AfterChunks(front + (LinesBytes(ls) + PutVarint(0)), cs, n, p)
  {
    hide PutVarint, LinesBytes, Chunked;
  }

  lemma KnownResponseCut(g: Grammar, env: Env, res: Response, body: bytes, p: bytes)
    requires Roomy(env.limit) && CanonicalResponse(g, res) && |LinesBytes(Lines(res.headers))| <= env.limit + 1
    requires |body| <= MAX_VARINT && p < KnownResponseHead(res, |body|) + body
    ensures ResponseOf(g, env, Wire(p, Eof)) != Varies
    ensures Passes(env, ResponseOf(g, env, Wire(p, Eof))) <==> UnnoticedResponse(env.trail, res, true, [], p)
  {
    hide ResponseOf, LinesBytes, PutVarint, LengthPrefixed, KnownSection, FieldOf, LenPrefixed, Collect;
    var ls, front := Lines(res.headers), StatusFront(res, true);
    var block, size := LengthPrefixed(LinesBytes(ls)), PutVarint(|body|);
    Assoc(PutVarint(KNOWN_LENGTH_RESPONSE), PutVarint(res.status), block + size);
    assert KnownResponseHead(res, |body|) == front + (block + size);
    assert (front + (block + size)) + body == front + (block + (size + body));
    SplitPrefix(p, front, block + (size + body));
    if p < front {
      StatusMissing(g, env, res, true, p);
    } else {
      var q := p[|front|..];
      AfterStatus(g, env, res, true, q);
      SameTail(front, q, []);
      SameTail(front, q, block);
      SplitPrefix(q, block, size + body);
      if q < block {
        KnownSectionMissing(g, env, ls, q);
      } else {
        var t := q[|block|..];
        ReadKnownSection(g, env, ls, t, Eof);
        KnownTail(env, body, t);
      }
    }
  }

  lemma KnownSectionMissing(g: Grammar, env: Env, ls: seq<Line>, q: bytes)
    requires Roomy(env.limit) && SizedLines(ls) && Sized(LinesBytes(ls)) && |LinesBytes(ls)| <= env.limit + 1
    requires q < LengthPrefixed(LinesBytes(ls))
    ensures KnownSection(g, env, Wire(q, Eof)) ==
            if q == [] && !env.trail.announces then Done([], Wire([], Eof)) else Failed(UnexpectedEof)
    ensures BodyStart(env, Wire([], Eof), true) ==
            if env.trail.announces then Failed(UnexpectedEof) else Done(KnownLength(0), Wire([], Eof))
  {
    hide LengthPrefixed, LinesBytes;
    StringCut(env.limit, LinesBytes(ls), q, Eof);
  }

  /** The content length and the content of a known-length message, cut short. */
  lemma KnownTail(env: Env, body: bytes, t: bytes)
    requires Roomy(env.limit) && |body| <= MAX_VARINT && t < PutVarint(|body|) + body
    ensures var k := BodyStart(env, Wire(t, Eof), true);
            if t == [] then k == if env.trail.announces then Failed(UnexpectedEof) else Done(KnownLength(0), Wire([], Eof))
            else k == Failed(UnexpectedEof) || (k.Done? && BodyOf(env, k.value, k.rest).end != Clean)
  {
    hide PutVarint, FieldOf;
    var size := PutVarint(|body|);
    if t == [] {
      EmptyField(env.limit);
    } else {
      SplitPrefix(t, size, body);
      if t < size {
        VarintCut(env.limit, |body|, t, Eof);
      } else {
        ReadVarint(env.limit, |body|, t[|size|..], Eof);
      }
    }
  }

  lemma EmptyField(limit: nat)
    ensures FieldOf(limit, Wire([], Eof), VarInt) == Failed(UnexpectedEof)
  {
  }

  /** A response cut anywhere, in either form, on any source. */
  method ReceiveCutResponse(g: Grammar, ghost res: Response, ghost known: bool, ghost body: Source, source: Source, limit: nat)
    returns (r: Result<Message<Response>>)
    requires CanonicalResponse(g, res) && Roomy(limit)
    requires |LinesBytes(Lines(res.headers))| <= limit + 1 && LinesFit(Lines(res.headers), limit)
    requires ChunksAtMost(body, MAX_VARINT) && Closing(body) == Eof && |Data(body)| <= MAX_VARINT
    requires Data(source) < (if known then KnownResponseHead(res, |Data(body)|) else IndeterminateResponseHead(res))
                            + Data(ContentTrace(known, body))
    requires Closing(source) == Eof
    ensures r.Ok? && r.value.content.end == Clean <==> UnnoticedResponse(TrailOf(source), res, known, Parts(body), Data(source))
  {
    hide ResponseOf, BodyOf, CanonicalResponse, LinesFit, LinesBytes, KnownResponseHead, IndeterminateResponseHead, ContentTrace,
      Parts, TrailOf, StatusFront, AfterLines, AfterChunks;
    var sb := new StreamBuf(source, limit);
    assert [] + Data(source) == Data(source);
    if known {
      ContentEnds(true, body);
      KnownResponseCut(g, sb.Conf(), res, Data(body), Data(source));
    } else {
      IndeterminateResponseCut(g, sb.Conf(), res, body, Data(source));
    }
    var head := DecodeResponse(g, sb);
    if head.Err? { return Err(head.error); }
    BodyDecided(sb.Conf(), head.value.1, sb.Flat());
    var decoded := new DecodedBody(head.value.1, sb);
    var data, end := CollectBody(decoded);
    return Ok(Message(head.value.0, Delivered(data, Ended(end))));
  }
}
