/** Truncated messages (section 3.8 of RFC 9292): whatever decodes from a prefix of a decodable
    message agrees with the whole message as far as it goes. */
module BinaryTruncation {
  import opened Bytes
  import opened Varint
  import opened Streams
  import opened StreamOctets
  import opened HttpMessage
  import opened BinarySpec
  import opened BinaryEncoder
  import opened BinaryLaws

  /** A read that succeeds on the prefix reads the same thing off the whole. */
  ghost predicate Agrees<T>(part: Outcome<T>, whole: Outcome<T>) {
    part.Done? ==> whole.Done? && part.value == whole.value && part.rest.bytes <= whole.rest.bytes
  }

  lemma TakeCut(limit: nat, p: Wire, w: Wire, n: nat)
    requires p.bytes <= w.bytes
    ensures Agrees(Take(limit, p, n), Take(limit, w, n))
  {
    if n <= |p.bytes| {
      assert p.bytes[..n] == w.bytes[..n];
    }
  }

  lemma FieldCut(limit: nat, p: Wire, w: Wire, f: Field)
    requires p.bytes <= w.bytes
    ensures Agrees(FieldOf(limit, p, f), FieldOf(limit, w, f))
  {
    if p.bytes != [] {
      assert p.bytes[0] == w.bytes[0];
      TakeCut(limit, p, w, Need(f, p.bytes));
    }
  }

  lemma PrefixedCut(limit: nat, p: Wire, w: Wire)
    requires p.bytes <= w.bytes
    ensures Agrees(LenPrefixed(limit, p), LenPrefixed(limit, w))
  {
    FieldCut(limit, p, w, VarInt);
    var n := FieldOf(limit, p, VarInt);
    if n.Done? {
      TakeCut(limit, n.rest, FieldOf(limit, w, VarInt).rest, n.value);
    }
  }

  lemma ControlCut(g: Grammar, env: Env, env': Env, p: Wire, w: Wire)
    requires env'.limit == env.limit && p.bytes <= w.bytes
    ensures Agrees(RequestControl(g, env, p), RequestControl(g, env', w))
  {
    hide LenPrefixed, OptionalAuthority;
    PrefixedCut(env.limit, p, w);
    var p1, w1 := Checked(LenPrefixed(env.limit, p), g.verb), Checked(LenPrefixed(env.limit, w), g.verb);
    if p1.Done? {
      PrefixedCut(env.limit, p1.rest, w1.rest);
      var p2, w2 := Checked(LenPrefixed(env.limit, p1.rest), g.scheme), Checked(LenPrefixed(env.limit, w1.rest), g.scheme);
      if p2.Done? {
        PrefixedCut(env.limit, p2.rest, w2.rest);
        var p3, w3 := LenPrefixed(env.limit, p2.rest), LenPrefixed(env.limit, w2.rest);
        if p3.Done? {
          PrefixedCut(env.limit, p3.rest, w3.rest);
        }
      }
    }
  }

  /** A section read off a prefix: its first lines, and all of them unless the prefix ran out. */
  predicate SectionAgrees(part: Outcome<seq<Line>>, whole: Outcome<seq<Line>>) {
    part.Done? && whole.Done? ==>
      && part.value <= whole.value
      && part.rest.bytes <= whole.rest.bytes
      && (part.rest.bytes == [] || part.value == whole.value)
  }

  lemma KnownSectionCut(g: Grammar, env: Env, env': Env, p: Wire, w: Wire)
    requires env'.limit == env.limit && p.bytes <= w.bytes
    ensures SectionAgrees(KnownSection(g, env, p), KnownSection(g, env', w))
  {
    PrefixedCut(env.limit, p, w);
  }

  lemma {:induction false} IndeterminateSectionGrows(g: Grammar, env: Env, w: Wire, acc: seq<Line>)
    ensures var o := IndeterminateSection(g, env, w, acc); o.Done? ==> acc <= o.value
    decreases |w.bytes|
  {
    hide FieldOf, LenPrefixed, Take;
    var n := FieldOf(env.limit, w, VarInt);
    if n.Done? {
      var name := Checked(Take(env.limit, n.rest, n.value), g.name);
      if name.Done? {
        var value := Checked(LenPrefixed(env.limit, name.rest), g.value);
        if value.Done? {
          IndeterminateSectionGrows(g, env, value.rest, acc + [Line(name.value, value.value)]);
        }
      }
    }
  }

  lemma {:induction false} IndeterminateSectionCut(g: Grammar, env: Env, env': Env, p: Wire, w: Wire, acc: seq<Line>)
    requires env'.limit == env.limit && p.bytes <= w.bytes
    ensures SectionAgrees(IndeterminateSection(g, env, p, acc), IndeterminateSection(g, env', w, acc))
    decreases |p.bytes|
  {
    hide FieldOf, LenPrefixed, Take;
    if p.bytes == [] {
      IndeterminateSectionGrows(g, env', w, acc);
    } else {
      FieldCut(env.limit, p, w, VarInt);
      var n, n' := FieldOf(env.limit, p, VarInt), FieldOf(env.limit, w, VarInt);
      if n.Done? && n.value > 0 {
        TakeCut(env.limit, n.rest, n'.rest, n.value);
        var name, name' := Checked(Take(env.limit, n.rest, n.value), g.name), Checked(Take(env.limit, n'.rest, n.value), g.name);
        if name.Done? {
          PrefixedCut(env.limit, name.rest, name'.rest);
          var value, value' := Checked(LenPrefixed(env.limit, name.rest), g.value), Checked(LenPrefixed(env.limit, name'.rest), g.value);
          if value.Done? {
            IndeterminateSectionCut(g, env, env', value.rest, value'.rest, acc + [Line(name.value, value.value)]);
          }
        }
      }
    }
  }

  lemma SectionCut(g: Grammar, env: Env, env': Env, p: Wire, w: Wire, known: bool)
    requires env'.limit == env.limit && p.bytes <= w.bytes
    ensures SectionAgrees(Section(g, env, p, known), Section(g, env', w, known))
  {
    if known { KnownSectionCut(g, env, env', p, w); } else { IndeterminateSectionCut(g, env, env', p, w, []); }
  }

  lemma {:induction false} StatusCut(g: Grammar, env: Env, env': Env, p: Wire, w: Wire)
    requires env'.limit == env.limit && p.bytes <= w.bytes
    ensures Agrees(ResponseControl(g, env, p), ResponseControl(g, env', w))
    decreases |p.bytes|
  {
    FieldCut(env.limit, p, w, VarInt);
    hide FieldOf, LenPrefixed, KnownLines;
    var s, s' := Status(env, p), Status(env', w);
    if s.Done? && Informational(s.value) {
      var x, x' := KnownSection(g, env, s.rest), KnownSection(g, env', s'.rest);
      if x.Done? {
        if s.rest.bytes == [] {
          NothingLeft(g, env, x.rest);
        } else {
          PrefixedCut(env.limit, s.rest, s'.rest);
          StatusCut(g, env, env', x.rest, x'.rest);
        }
      }
    }
  }

  lemma NothingLeft(g: Grammar, env: Env, w: Wire)
    requires w.bytes == []
    ensures !ResponseControl(g, env, w).Done?
  {
  }

  /** How the content begins, read off a prefix; content the prefix does not reach is empty. */
  lemma BodyStartCut(env: Env, env': Env, p: Wire, w: Wire, known: bool)
    requires env'.limit == env.limit && p.bytes <= w.bytes
    ensures var k, k' := BodyStart(env, p, known), BodyStart(env', w, known);
            k.Done? && k'.Done? ==>
              || (k.value == k'.value && k.rest.bytes <= k'.rest.bytes)
              || (k.value == KnownLength(0) && k.rest.bytes == [])
  {
    FieldCut(env.limit, p, w, VarInt);
  }

  /** The content delivered from a prefix is a prefix of the content. */
  lemma {:induction false} BodyCut(env: Env, env': Env, kind: BodyKind, p: Wire, w: Wire)
    requires env'.limit == env.limit && p.bytes <= w.bytes
    ensures BodyOf(env, kind, p).data <= BodyOf(env', kind, w).data
    decreases |p.bytes|, if kind == IndeterminateLength(Some(0)) then 1 else 0
  {
    if kind.IndeterminateLength? && kind.inChunk.Some? {
      var n := kind.inChunk.value;
      if n == 0 {
        ChunkLengthCut(env, env', p, w);
        hide ChunkLength;
        var l, l' := ChunkLength(env, p), ChunkLength(env', w);
        if l.Done? && l.value > 0 {
          BodyCut(env, env', IndeterminateLength(Some(l.value)), l.rest, l'.rest);
        }
      } else if n <= |p.bytes| {
        var p', w' := Wire(p.bytes[n..], p.ending), Wire(w.bytes[n..], w.ending);
        assert p.bytes[..n] == w.bytes[..n];
        BodyCut(env, env', IndeterminateLength(Some(0)), p', w');
      }
    }
  }

  lemma ChunkLengthCut(env: Env, env': Env, p: Wire, w: Wire)
    requires env'.limit == env.limit && p.bytes <= w.bytes
    ensures ChunkLength(env, p).Done? && ChunkLength(env, p).value > 0 ==> Agrees(ChunkLength(env, p), ChunkLength(env', w))
  {
    FieldCut(env.limit, p, w, VarInt);
  }

  lemma NoContent(env: Env, kind: BodyKind, w: Wire)
    requires w.bytes == []
    ensures BodyOf(env, kind, w).data == []
  {
  }

  /** What a decoder may deliver from a prefix of a message whose lines and content are given. */
  predicate Consistent(env: Env, env': Env, part: (seq<Line>, BodyKind, Wire), whole: (seq<Line>, BodyKind, Wire)) {
    && part.0 <= whole.0
    && BodyOf(env, part.1, part.2).data <= BodyOf(env', whole.1, whole.2).data
  }

  lemma TailCut(g: Grammar, env: Env, env': Env, p: Wire, w: Wire, known: bool)
    requires env'.limit == env.limit && p.bytes <= w.bytes
    ensures var s, s' := Section(g, env, p, known), Section(g, env', w, known);
            s.Done? && s'.Done? ==>
              var k, k' := BodyStart(env, s.rest, known), BodyStart(env', s'.rest, known);
              k.Done? && k'.Done? ==> Consistent(env, env', (s.value, k.value, k.rest), (s'.value, k'.value, k'.rest))
  {
    SectionCut(g, env, env', p, w, known);
    hide Section, BodyStart, BodyOf;
    var s, s' := Section(g, env, p, known), Section(g, env', w, known);
    if s.Done? && s'.Done? {
      BodyStartCut(env, env', s.rest, s'.rest, known);
      var k, k' := BodyStart(env, s.rest, known), BodyStart(env', s'.rest, known);
      if k.Done? && k'.Done? {
        if k.value == k'.value && k.rest.bytes <= k'.rest.bytes {
          BodyCut(env, env', k.value, k.rest, k'.rest);
        } else {
          NoContent(env, k.value, k.rest);
        }
      }
    }
  }

  /** Any prefix of any decodable request: an error, or the same method, target and authority, the
      first header lines, and the first content bytes. */
  lemma RequestTruncated(g: Grammar, env: Env, env': Env, p: Wire, w: Wire)
    requires env'.limit == env.limit && p.bytes <= w.bytes
    ensures var part, whole := RequestPartsOf(g, env, p), RequestPartsOf(g, env', w);
            part.Done? && whole.Done? ==>
              && part.value.control == whole.value.control
              && Consistent(env, env', (part.value.lines, part.value.kind, part.rest), (whole.value.lines, whole.value.kind, whole.rest))
  {
    FieldCut(env.limit, p, w, VarInt);
    hide FieldOf, RequestControl, Section, BodyStart, Consistent;
    var i, i' := FieldOf(env.limit, p, VarInt), FieldOf(env.limit, w, VarInt);
    if i.Done? {
      ControlCut(g, env, env', i.rest, i'.rest);
      var c, c' := RequestControl(g, env, i.rest), RequestControl(g, env', i'.rest);
      if c.Done? {
        TailCut(g, env, env', c.rest, c'.rest, i.value == KNOWN_LENGTH_REQUEST);
      }
    }
  }

  lemma ResponseTruncated(g: Grammar, env: Env, env': Env, p: Wire, w: Wire)
    requires env'.limit == env.limit && p.bytes <= w.bytes
    ensures var part, whole := ResponsePartsOf(g, env, p), ResponsePartsOf(g, env', w);
            part.Done? && whole.Done? ==>
              && part.value.status == whole.value.status
              && Consistent(env, env', (part.value.lines, part.value.kind, part.rest), (whole.value.lines, whole.value.kind, whole.rest))
  {
    FieldCut(env.limit, p, w, VarInt);
    hide FieldOf, ResponseControl, Section, BodyStart, Consistent;
    var i, i' := FieldOf(env.limit, p, VarInt), FieldOf(env.limit, w, VarInt);
    if i.Done? {
      StatusCut(g, env, env', i.rest, i'.rest);
      var c, c' := ResponseControl(g, env, i.rest), ResponseControl(g, env', i'.rest);
      if c.Done? {
        TailCut(g, env, env', c.rest, c'.rest, i.value == KNOWN_LENGTH_RESPONSE);
      }
    }
  }

  /** Any prefix of an encoded request: an error, or a request with the same method and the same
      URI (the authority recovered from Host included), the first of its header lines, and the
      first bytes of its body. */
  lemma EncodedRequestTruncated(g: Grammar, env: Env, req: Request, body: Source, p: Wire)
    requires Roomy(env.limit) && Canonical(g, req) && Fits(req, env.limit)
    requires ChunksAtMost(body, MAX_VARINT) && Closing(body) == Eof
    requires p.bytes <= RequestHead(req) + Data(ContentTrace(false, body))
    ensures var o := RequestOf(g, env, p);
            o.Done? ==>
              && o.value.0.verb == req.verb
              && o.value.0.uri == req.uri
              && (exists n :: 0 <= n <= |Lines(req.headers)| && o.value.0.headers == Collect(Lines(req.headers)[..n]))
              && BodyOf(env, o.value.1, o.rest).data <= Data(body)
  {
    hide RequestPartsOf, BodyOf, RequestHead, Data, ContentTrace, Assemble, ControlOf, Collect, Lines;
    var content := Data(ContentTrace(false, body));
    var w := Wire(RequestHead(req) + content, Eof);
    RequestHeadRoundTrip(g, env, req, content, Eof);
    ContentRoundTrip(env, body, [], Eof);
    assert content + [] == content;
    RequestTruncated(g, env, env, p, w);
    var part := RequestPartsOf(g, env, p);
    if part.Done? {
      var all, n := Lines(req.headers), |part.value.lines|;
      assert part.value.lines == all[..n];
      Recovered(g, req, part.value.lines);
    }
  }

  /** Any prefix of an encoded response, of known or indeterminate length: an error, or the same
      status, the first header lines and the first bytes of the body. */
  lemma EncodedResponseTruncated(g: Grammar, env: Env, res: Response, known: bool, body: Source, p: Wire)
    requires Roomy(env.limit) && CanonicalResponse(g, res) && LinesFit(Lines(res.headers), env.limit)
    requires |LinesBytes(Lines(res.headers))| <= env.limit + 1
    requires ChunksAtMost(body, MAX_VARINT) && Closing(body) == Eof && |Data(body)| <= MAX_VARINT
    requires p.bytes <= (if known then KnownResponseHead(res, |Data(body)|) else IndeterminateResponseHead(res))
                        + Data(ContentTrace(known, body))
    ensures var o := ResponseOf(g, env, p);
            o.Done? ==>
              && o.value.0.status == res.status
              && (exists n :: 0 <= n <= |Lines(res.headers)| && o.value.0.headers == Collect(Lines(res.headers)[..n]))
              && BodyOf(env, o.value.1, o.rest).data <= Data(body)
  {
    hide ResponsePartsOf, BodyOf, KnownResponseHead, IndeterminateResponseHead, Data, ContentTrace, Collect, Lines, LinesBytes;
    var content := Data(ContentTrace(known, body));
    assert content + [] == content;
    if known {
      KnownResponseRoundTrip(g, env, res, |Data(body)|, content, Eof);
      KnownContentRoundTrip(env, body, [], Eof);
      ResponseTruncated(g, env, env, p, Wire(KnownResponseHead(res, |Data(body)|) + content, Eof));
    } else {
      IndeterminateResponseRoundTrip(g, env, res, content, Eof);
      ContentRoundTrip(env, body, [], Eof);
      ResponseTruncated(g, env, env, p, Wire(IndeterminateResponseHead(res) + content, Eof));
    }
    var part := ResponsePartsOf(g, env, p);
    if part.Done? {
      assert part.value.lines == Lines(res.headers)[..|part.value.lines|];
    }
  }

  /** The target put together from the first header lines is the whole request's, or there is none. */
  lemma Recovered(g: Grammar, req: Request, lines: seq<Line>)
    requires Canonical(g, req) && lines <= Lines(req.headers)
    ensures var got := Assemble(g, ControlOf(req), Collect(lines));
            got.Some? ==> got.value == Request(req.verb, req.uri, Collect(lines))
  {
    SplitJoinQuery(req.uri.path, req.uri.query);
    hide SplitQuery, JoinQuery;
    CollectLines(req.headers);
    if AuthorityField(req) == [] && Lookup(Collect(lines), HOST).Some? {
      assert Lines(req.headers)[..|lines|] == lines;
      LookupPrefix(Lines(req.headers), |lines|, HOST);
    }
  }

  // ---------- prefixes that end in an error ----------

  /** Where the input breaks off instead of ending, a section that is read is the whole section. */
  lemma {:induction false} IndeterminateSectionBroken(g: Grammar, env: Env, env': Env, p: Wire, w: Wire, acc: seq<Line>)
    requires env'.limit == env.limit && p.bytes <= w.bytes && p.ending.Broken?
    ensures Agrees(IndeterminateSection(g, env, p, acc), IndeterminateSection(g, env', w, acc))
    decreases |p.bytes|
  {
    hide FieldOf, LenPrefixed, Take;
    FieldCut(env.limit, p, w, VarInt);
    var n, n' := FieldOf(env.limit, p, VarInt), FieldOf(env.limit, w, VarInt);
    if n.Done? && n.value > 0 {
      TakeCut(env.limit, n.rest, n'.rest, n.value);
      var name, name' := Checked(Take(env.limit, n.rest, n.value), g.name), Checked(Take(env.limit, n'.rest, n.value), g.name);
      if name.Done? {
        PrefixedCut(env.limit, name.rest, name'.rest);
        var value, value' := Checked(LenPrefixed(env.limit, name.rest), g.value), Checked(LenPrefixed(env.limit, name'.rest), g.value);
        if value.Done? {
          IndeterminateSectionBroken(g, env, env', value.rest, value'.rest, acc + [Line(name.value, value.value)]);
        }
      }
    }
  }

  lemma SectionBroken(g: Grammar, env: Env, env': Env, p: Wire, w: Wire, known: bool)
    requires env'.limit == env.limit && p.bytes <= w.bytes && p.ending.Broken?
    ensures Agrees(Section(g, env, p, known), Section(g, env', w, known))
  {
    if known {
      PrefixedCut(env.limit, p, w);
    } else {
      IndeterminateSectionBroken(g, env, env', p, w, []);
    }
  }

  lemma BodyStartBroken(env: Env, env': Env, p: Wire, w: Wire, known: bool)
    requires env'.limit == env.limit && p.bytes <= w.bytes && p.ending.Broken?
    ensures Agrees(BodyStart(env, p, known), BodyStart(env', w, known))
  {
    FieldCut(env.limit, p, w, VarInt);
  }

  /** And content that ends cleanly is the whole content. */
  lemma {:induction false} BodyBroken(env: Env, env': Env, kind: BodyKind, p: Wire, w: Wire)
    requires env'.limit == env.limit && p.bytes <= w.bytes && p.ending.Broken?
    ensures BodyOf(env, kind, p).end == Clean ==> BodyOf(env', kind, w) == BodyOf(env, kind, p)
    decreases |p.bytes|, if kind == IndeterminateLength(Some(0)) then 1 else 0
  {
    match kind
    case KnownLength(n) =>
      if n <= |p.bytes| { assert p.bytes[..n] == w.bytes[..n]; }
    case IndeterminateLength(None) =>
    case IndeterminateLength(Some(n)) =>
      if n == 0 {
        FieldCut(env.limit, p, w, VarInt);
        var l, l' := ChunkLength(env, p), ChunkLength(env', w);
        assert Agrees(l, l');
        hide ChunkLength;
        if l.Done? && l.value > 0 {
          BodyBroken(env, env', IndeterminateLength(Some(l.value)), l.rest, l'.rest);
        }
      } else if n <= |p.bytes| {
        assert p.bytes[..n] == w.bytes[..n];
        BodyBroken(env, env', IndeterminateLength(Some(0)), Wire(p.bytes[n..], p.ending), Wire(w.bytes[n..], w.ending));
      }
  }

  lemma TailBroken(g: Grammar, env: Env, env': Env, p: Wire, w: Wire, known: bool)
    requires env'.limit == env.limit && p.bytes <= w.bytes && p.ending.Broken?
    ensures Agrees(Section(g, env, p, known), Section(g, env', w, known))
    ensures var s, s' := Section(g, env, p, known), Section(g, env', w, known);
            s.Done? ==> Agrees(BodyStart(env, s.rest, known), BodyStart(env', s'.rest, known))
  {
    hide Section, BodyStart;
    SectionBroken(g, env, env', p, w, known);
    var s, s' := Section(g, env, p, known), Section(g, env', w, known);
    if s.Done? {
      BodyStartBroken(env, env', s.rest, s'.rest, known);
    }
  }

  lemma RequestBroken(g: Grammar, env: Env, env': Env, p: Wire, w: Wire)
    requires env'.limit == env.limit && p.bytes <= w.bytes && p.ending.Broken?
    ensures Agrees(RequestOf(g, env, p), RequestOf(g, env', w))
    ensures RequestOf(g, env, p).Done? ==> RequestOf(g, env, p).rest.ending == p.ending
  {
    hide FieldOf, RequestControl, Section, BodyStart, Assemble, Collect;
    FieldCut(env.limit, p, w, VarInt);
    var i, i' := FieldOf(env.limit, p, VarInt), FieldOf(env.limit, w, VarInt);
    if i.Done? {
      ControlCut(g, env, env', i.rest, i'.rest);
      var c, c' := RequestControl(g, env, i.rest), RequestControl(g, env', i'.rest);
      if c.Done? {
        TailBroken(g, env, env', c.rest, c'.rest, i.value == KNOWN_LENGTH_REQUEST);
      }
    }
  }

  lemma ResponseBroken(g: Grammar, env: Env, env': Env, p: Wire, w: Wire)
    requires env'.limit == env.limit && p.bytes <= w.bytes && p.ending.Broken?
    ensures Agrees(ResponseOf(g, env, p), ResponseOf(g, env', w))
    ensures ResponseOf(g, env, p).Done? ==> ResponseOf(g, env, p).rest.ending == p.ending
  {
    hide FieldOf, ResponseControl, Section, BodyStart, Collect;
    FieldCut(env.limit, p, w, VarInt);
    var i, i' := FieldOf(env.limit, p, VarInt), FieldOf(env.limit, w, VarInt);
    if i.Done? {
      StatusCut(g, env, env', i.rest, i'.rest);
      var c, c' := ResponseControl(g, env, i.rest), ResponseControl(g, env', i'.rest);
      if c.Done? {
        TailBroken(g, env, env', c.rest, c'.rest, i.value == KNOWN_LENGTH_RESPONSE);
      }
    }
  }

  /** What a message that breaks off may decode to: the whole head, and content that is whole if it
      ends cleanly. */
  ghost predicate WholeIfAny<H>(env: Env, o: Outcome<(H, BodyKind)>, head: H, data: bytes) {
    o.Done? ==>
      && o.value.0 == head
      && var content := BodyOf(env, o.value.1, o.rest);
         content.data <= data && (content.end == Clean ==> content.data == data)
  }

  /** Any prefix of an encoded request, followed by an error instead of an end. */
  lemma EncodedRequestBroken(g: Grammar, env: Env, req: Request, body: Source, p: Wire)
    requires Roomy(env.limit) && Canonical(g, req) && Fits(req, env.limit)
    requires ChunksAtMost(body, MAX_VARINT) && Closing(body) == Eof
    requires p.bytes <= RequestHead(req) + Data(ContentTrace(false, body)) && p.ending.Broken?
    ensures WholeIfAny(env, RequestOf(g, env, p), req, Data(body))
  {
    hide RequestOf, RequestPartsOf, BodyOf, RequestHead, Data, ContentTrace;
    var content := Data(ContentTrace(false, body));
    RequestHeadRoundTrip(g, env, req, content, Eof);
    ContentRoundTrip(env, body, [], Eof);
    assert content + [] == content;
    RequestBroken(g, env, env, p, Wire(RequestHead(req) + content, Eof));
    var o := RequestOf(g, env, p);
    if o.Done? {
      BodyCut(env, env, o.value.1, o.rest, Wire(content, Eof));
      BodyBroken(env, env, o.value.1, o.rest, Wire(content, Eof));
    }
  }

  lemma EncodedResponseBroken(g: Grammar, env: Env, res: Response, known: bool, body: Source, p: Wire)
    requires Roomy(env.limit) && CanonicalResponse(g, res) && LinesFit(Lines(res.headers), env.limit)
    requires |LinesBytes(Lines(res.headers))| <= env.limit + 1
    requires ChunksAtMost(body, MAX_VARINT) && Closing(body) == Eof && |Data(body)| <= MAX_VARINT
    requires p.bytes <= (if known then KnownResponseHead(res, |Data(body)|) else IndeterminateResponseHead(res))
                        + Data(ContentTrace(known, body))
    requires p.ending.Broken?
    ensures WholeIfAny(env, ResponseOf(g, env, p), res, Data(body))
  {
    hide ResponseOf, ResponsePartsOf, BodyOf, KnownResponseHead, IndeterminateResponseHead, Data, ContentTrace, LinesBytes, Lines;
    var content := Data(ContentTrace(known, body));
    assert content + [] == content;
    var head := if known then KnownResponseHead(res, |Data(body)|) else IndeterminateResponseHead(res);
    if known {
      KnownResponseRoundTrip(g, env, res, |Data(body)|, content, Eof);
      KnownContentRoundTrip(env, body, [], Eof);
    } else {
      IndeterminateResponseRoundTrip(g, env, res, content, Eof);
      ContentRoundTrip(env, body, [], Eof);
    }
    ResponseBroken(g, env, env, p, Wire(head + content, Eof));
    var o := ResponseOf(g, env, p);
    if o.Done? {
      BodyCut(env, env, o.value.1, o.rest, Wire(content, Eof));
      BodyBroken(env, env, o.value.1, o.rest, Wire(content, Eof));
    }
  }
}
