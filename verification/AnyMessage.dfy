/** Messages as anyone may send them, not only as this encoder writes them: what is kept of each string
    is what the http crate's parser makes of it, and what a parser rejects is invalid data. */
module AnyMessage {
  import opened Bytes
  import opened Varint
  import opened Streams
  import opened StreamOctets
  import opened HttpMessage
  import opened BinarySpec
  import opened BinaryEncoder
  import opened BinaryLaws

  // ---------- lines ----------

  predicate LineFits(l: Line, limit: nat) {
    Sized(l.name) && Sized(l.value) && |l.name| <= limit + 1 && |l.value| <= limit + 1
  }

  /** The parsers make `got` of the line `l`. */
  predicate Keeps(g: Grammar, l: Line, got: Line) {
    g.name(l.name) == Some(got.name) && g.value(l.value) == Some(got.value)
  }

  predicate Rejects(g: Grammar, l: Line) {
    g.name(l.name).None? || g.value(l.value).None?
  }

  /** A line read in the indeterminate form, whatever its spelling: kept as parsed, or refused. */
  lemma LineRead(g: Grammar, env: Env, l: Line, tail: bytes, e: Ending, acc: seq<Line>)
    requires Roomy(env.limit) && LineFits(l, env.limit) && l.name != []
    ensures var o := IndeterminateSection(g, env, Wire(LineBytes(l) + tail, e), acc);
            && (Rejects(g, l) ==> o == Failed(InvalidData))
            && (forall got :: Keeps(g, l, got) ==> o == IndeterminateSection(g, env, Wire(tail, e), acc + [got]))
  {
    hide PutVarint, FieldOf, LenPrefixed;
    var rest := LengthPrefixed(l.value) + tail;
    assert LineBytes(l) + tail == PutVarint(|l.name|) + (l.name + rest);
    ReadVarint(env.limit, |l.name|, l.name + rest, e);
    ReadTake(env.limit, l.name, rest, e);
    ReadLengthPrefixed(env.limit, l.value, tail, e);
    forall got | Keeps(g, l, got)
      ensures IndeterminateSection(g, env, Wire(LineBytes(l) + tail, e), acc)
              == IndeterminateSection(g, env, Wire(tail, e), acc + [got])
    {
      assert Line(got.name, got.value) == got;
    }
  }

  /** A line read in the known-length form. */
  lemma KnownLineRead(g: Grammar, l: Line, rest: bytes, acc: seq<Line>)
    requires Sized(l.name) && Sized(l.value)
    ensures var o := KnownLines(g, LineBytes(l) + rest, acc);
            && (Rejects(g, l) ==> o == None)
            && (forall got :: Keeps(g, l, got) ==> o == KnownLines(g, rest, acc + [got]))
  {
    hide Prefixed, PutVarint;
    var name, value := LengthPrefixed(l.name), LengthPrefixed(l.value);
    ReadPrefixed(l.name, value + rest);
    ReadPrefixed(l.value, rest);
    assert (name + value) + rest == name + (value + rest);
    forall got | Keeps(g, l, got)
      ensures KnownLines(g, LineBytes(l) + rest, acc) == KnownLines(g, rest, acc + [got])
    {
      assert Line(got.name, got.value) == got;
    }
  }

  // ---------- sections ----------

  predicate AllFit(ls: seq<Line>, limit: nat) {
    forall i :: 0 <= i < |ls| ==> LineFits(ls[i], limit) && ls[i].name != []
  }

  predicate AllKept(g: Grammar, ls: seq<Line>, got: seq<Line>) {
    |ls| == |got| && forall i :: 0 <= i < |ls| ==> Keeps(g, ls[i], got[i])
  }

  predicate AnyRejected(g: Grammar, ls: seq<Line>) {
    exists i :: 0 <= i < |ls| && Rejects(g, ls[i])
  }

  lemma {:induction false} AllFitSized(ls: seq<Line>, limit: nat)
    requires AllFit(ls, limit)
    ensures SizedLines(ls)
  {
  }

  lemma RestKept(g: Grammar, ls: seq<Line>, got: seq<Line>)
    requires ls != [] && AllKept(g, ls, got)
    ensures Keeps(g, ls[0], got[0]) && AllKept(g, ls[1..], got[1..])
  {
  }

  lemma RestRejected(g: Grammar, ls: seq<Line>)
    requires ls != [] && AnyRejected(g, ls) && !Rejects(g, ls[0])
    ensures AnyRejected(g, ls[1..])
  {
    var i :| 0 <= i < |ls| && Rejects(g, ls[i]);
    assert ls[1..][i - 1] == ls[i];
  }

  /** Any header section in the indeterminate form: the lines as parsed, in order; or, as soon as one of
      them is rejected, invalid data. */
  lemma {:induction false} SectionRead(g: Grammar, env: Env, ls: seq<Line>, got: seq<Line>, tail: bytes, e: Ending, acc: seq<Line>)
    requires Roomy(env.limit) && AllFit(ls, env.limit) && SizedLines(ls)
    ensures var o := IndeterminateSection(g, env, Wire(LinesBytes(ls) + (PutVarint(0) + tail), e), acc);
            && (AllKept(g, ls, got) ==> o == Done(acc + got, Wire(tail, e)))
            && (AnyRejected(g, ls) ==> o == Failed(InvalidData))
    decreases |ls|
  {
    hide LineBytes, PutVarint, IndeterminateSection;
    var more := PutVarint(0) + tail;
    if ls == [] {
      assert LinesBytes(ls) + more == more;
      SectionStops(g, env, tail, e, acc);
      assert AllKept(g, ls, got) ==> acc + got == acc;
    } else {
      Assoc(LineBytes(ls[0]), LinesBytes(ls[1..]), more);
      LineRead(g, env, ls[0], LinesBytes(ls[1..]) + more, e, acc);
      if AllKept(g, ls, got) {
        RestKept(g, ls, got);
        SectionRead(g, env, ls[1..], got[1..], tail, e, acc + [got[0]]);
        assert acc + [got[0]] + got[1..] == acc + got;
      }
      if AnyRejected(g, ls) && !Rejects(g, ls[0]) {
        var first := Line(g.name(ls[0].name).value, g.value(ls[0].value).value);
        assert Keeps(g, ls[0], first);
        RestRejected(g, ls);
        SectionRead(g, env, ls[1..], got, tail, e, acc + [first]);
      }
    }
  }

  lemma {:induction false} KnownBlockRead(g: Grammar, ls: seq<Line>, got: seq<Line>, acc: seq<Line>)
    requires SizedLines(ls)
    ensures var o := KnownLines(g, LinesBytes(ls), acc);
            && (AllKept(g, ls, got) ==> o == Some(acc + got))
            && (AnyRejected(g, ls) ==> o == None)
    decreases |ls|
  {
    hide LineBytes, KnownLines;
    if ls == [] {
      NoLines(g, acc);
      assert AllKept(g, ls, got) ==> acc + got == acc;
    } else {
      KnownLineRead(g, ls[0], LinesBytes(ls[1..]), acc);
      if AllKept(g, ls, got) {
        RestKept(g, ls, got);
        KnownBlockRead(g, ls[1..], got[1..], acc + [got[0]]);
        assert acc + [got[0]] + got[1..] == acc + got;
      }
      if AnyRejected(g, ls) && !Rejects(g, ls[0]) {
        var first := Line(g.name(ls[0].name).value, g.value(ls[0].value).value);
        assert Keeps(g, ls[0], first);
        RestRejected(g, ls);
        KnownBlockRead(g, ls[1..], got, acc + [first]);
      }
    }
  }

  lemma NoLines(g: Grammar, acc: seq<Line>)
    ensures KnownLines(g, [], acc) == Some(acc)
  {
  }

  /** Any header section in the known-length form. */
  lemma KnownSectionRead(g: Grammar, env: Env, ls: seq<Line>, got: seq<Line>, tail: bytes, e: Ending)
    requires Roomy(env.limit) && SizedLines(ls) && Sized(LinesBytes(ls)) && |LinesBytes(ls)| <= env.limit + 1
    ensures var o := KnownSection(g, env, Wire(LengthPrefixed(LinesBytes(ls)) + tail, e));
            && (AllKept(g, ls, got) ==> o == Done(got, Wire(tail, e)))
            && (AnyRejected(g, ls) ==> o == Failed(InvalidData))
  {
    hide LinesBytes, KnownLines;
    ReadLengthPrefixed(env.limit, LinesBytes(ls), tail, e);
    KnownBlockRead(g, ls, got, []);
    assert [] + got == got;
  }

  // ---------- control data ----------

  /** The four control fields of a request as they stand on the wire. */
  datatype Fields = Fields(verb: bytes, scheme: bytes, authority: bytes, path: bytes)

  predicate FieldsFit(f: Fields, limit: nat) {
    && Sized(f.verb) && Sized(f.scheme) && Sized(f.authority) && Sized(f.path)
    && |f.verb| <= limit + 1 && |f.scheme| <= limit + 1 && |f.authority| <= limit + 1 && |f.path| <= limit + 1
  }

  function FieldsBytes(f: Fields): bytes
    requires Sized(f.verb) && Sized(f.scheme) && Sized(f.authority) && Sized(f.path)
  {
    LengthPrefixed(f.verb) + (LengthPrefixed(f.scheme) + (LengthPrefixed(f.authority) + LengthPrefixed(f.path)))
  }

  /** The parsers make `c` of the fields; an empty authority is none. */
  predicate KeepsFields(g: Grammar, f: Fields, c: Control) {
    && g.verb(f.verb) == Some(c.verb)
    && g.scheme(f.scheme) == Some(c.scheme)
    && g.path(f.path) == Some(c.path)
    && (f.authority == [] ==> c.authority == None)
    && (f.authority != [] ==> c.authority.Some? && g.authority(f.authority) == c.authority)
  }

  predicate RejectsFields(g: Grammar, f: Fields) {
    g.verb(f.verb).None? || g.scheme(f.scheme).None? || g.path(f.path).None?
    || (f.authority != [] && g.authority(f.authority).None?)
  }

  lemma ControlRead(g: Grammar, env: Env, f: Fields, tail: bytes, e: Ending)
    requires Roomy(env.limit) && FieldsFit(f, env.limit)
    ensures var o := RequestControl(g, env, Wire(FieldsBytes(f) + tail, e));
            && (RejectsFields(g, f) ==> o == Failed(InvalidData))
            && (forall c :: KeepsFields(g, f, c) ==> o == Done(c, Wire(tail, e)))
  {
    hide LenPrefixed, LengthPrefixed;
    var verb, scheme := LengthPrefixed(f.verb), LengthPrefixed(f.scheme);
    var authority, path := LengthPrefixed(f.authority), LengthPrefixed(f.path);
    Pieces(verb, scheme, authority, path, tail);
    assert FieldsBytes(f) + tail == verb + (scheme + (authority + (path + tail)));
    ReadLengthPrefixed(env.limit, f.verb, scheme + (authority + (path + tail)), e);
    ReadLengthPrefixed(env.limit, f.scheme, authority + (path + tail), e);
    ReadLengthPrefixed(env.limit, f.authority, path + tail, e);
    ReadLengthPrefixed(env.limit, f.path, tail, e);
  }

  // ---------- whole requests ----------

  /** Line `i` is the first with that name. */
  predicate FirstNamed(ls: seq<Line>, name: bytes, i: int) {
    0 <= i < |ls| && ls[i].name == name && forall j :: 0 <= j < i ==> ls[j].name != name
  }

  predicate NoneNamed(ls: seq<Line>, name: bytes) {
    forall j :: 0 <= j < |ls| ==> ls[j].name != name
  }

  lemma {:induction false} LookupFirst(ls: seq<Line>, name: bytes, i: int)
    requires FirstNamed(ls, name, i) || NoneNamed(ls, name)
    ensures Lookup(Collect(ls), name) == if FirstNamed(ls, name, i) then Some(ls[i].value) else None
  {
    hide Lookup;
    if ls == [] {
      NoHeaders(name);
    } else {
      var init, last := ls[..|ls| - 1], ls[|ls| - 1];
      CollectWellFormed(init);
      LookupAppend(Collect(init), last, name);
      LookupFirst(init, name, i);
    }
  }

  lemma NoHeaders(name: bytes)
    ensures Lookup([], name) == None
  {
  }

  /** The authority a request ends up with: its own, or the first Host header that is one. */
  ghost predicate Authorized(g: Grammar, f: Fields, got: seq<Line>, a: bytes) {
    if f.authority != [] then g.authority(f.authority) == Some(a)
    else exists i :: FirstNamed(got, [104, 111, 115, 116], i) && g.authority(got[i].value) == Some(a)
  }

  /** It has none: neither its own nor a Host header, or the first Host header is no authority. */
  ghost predicate Unauthorized(g: Grammar, f: Fields, got: seq<Line>) {
    && f.authority == []
    && (NoneNamed(got, [104, 111, 115, 116])
        || exists i :: FirstNamed(got, [104, 111, 115, 116], i) && g.authority(got[i].value) == None)
  }

  /** `req` is the request made of the parsed fields and lines. */
  ghost predicate MadeOf(g: Grammar, f: Fields, got: seq<Line>, req: Request) {
    && g.verb(f.verb) == Some(req.verb)
    && g.scheme(f.scheme) == req.uri.scheme && req.uri.scheme.Some?
    && req.uri.authority.Some? && Authorized(g, f, got, req.uri.authority.value)
    && g.path(f.path) == Some(JoinQuery(req.uri.path, req.uri.query)) && 63 !in req.uri.path
    && req.headers == Collect(got)
  }

  lemma Assembled(g: Grammar, f: Fields, c: Control, got: seq<Line>)
    requires KeepsFields(g, f, c)
    ensures forall req :: MadeOf(g, f, got, req) ==> Assemble(g, c, Collect(got)) == Some(req)
    ensures Unauthorized(g, f, got) ==> Assemble(g, c, Collect(got)) == None
  {
    hide Lookup, Collect, SplitQuery, JoinQuery;
    if f.authority == [] {
      forall i | FirstNamed(got, HOST, i)
        ensures Lookup(Collect(got), HOST) == Some(got[i].value)
      {
        LookupFirst(got, HOST, i);
      }
      if NoneNamed(got, HOST) { LookupFirst(got, HOST, 0); }
    }
    forall req | MadeOf(g, f, got, req)
      ensures Assemble(g, c, Collect(got)) == Some(req)
    {
      SplitJoinQuery(req.uri.path, req.uri.query);
    }
  }

  function IndeterminateRequest(f: Fields, ls: seq<Line>): bytes
    requires Sized(f.verb) && Sized(f.scheme) && Sized(f.authority) && Sized(f.path) && SizedLines(ls)
  {
    [2] + (FieldsBytes(f) + (LinesBytes(ls) + [0]))
  }

  function KnownRequest(f: Fields, ls: seq<Line>, size: nat): bytes
    requires Sized(f.verb) && Sized(f.scheme) && Sized(f.authority) && Sized(f.path) && SizedLines(ls)
    requires Sized(LinesBytes(ls)) && size <= MAX_VARINT
  {
    [0] + (FieldsBytes(f) + (LengthPrefixed(LinesBytes(ls)) + PutVarint(size)))
  }

  /** How a request with these fields and lines decodes, `kind` being how its content begins. */
  ghost predicate DecodesAs(g: Grammar, f: Fields, ls: seq<Line>, o: Outcome<(Request, BodyKind)>, kind: BodyKind, rest: Wire) {
    && (forall got, req :: AllKept(g, ls, got) && MadeOf(g, f, got, req) ==> o == Done((req, kind), rest))
    && (RejectsFields(g, f) || AnyRejected(g, ls) ==> o == Failed(InvalidData))
    && (forall got :: AllKept(g, ls, got) && Unauthorized(g, f, got) ==> o == Failed(InvalidData))
  }

  lemma Concluded(g: Grammar, env: Env, f: Fields, ls: seq<Line>, w: Wire, w1: Wire, w2: Wire, known: bool,
                  kind: BodyKind, rest: Wire)
    requires RejectsFields(g, f) ==> RequestControl(g, env, w) == Failed(InvalidData)
    requires forall c :: KeepsFields(g, f, c) ==> RequestControl(g, env, w) == Done(c, w1)
    requires AnyRejected(g, ls) ==> Section(g, env, w1, known) == Failed(InvalidData)
    requires forall got :: AllKept(g, ls, got) ==> Section(g, env, w1, known) == Done(got, w2)
    requires BodyStart(env, w2, known) == Done(kind, rest)
    ensures DecodesAs(g, f, ls, Built(g, RequestAfter(g, env, w, known)), kind, rest)
  {
    hide RequestControl, Section, BodyStart, Assemble, Collect, MadeOf, Unauthorized, AllKept, AnyRejected, KeepsFields, RejectsFields;
    if !RejectsFields(g, f) {
      var c := TheControl(g, f);
      forall got | AllKept(g, ls, got)
        ensures forall req :: MadeOf(g, f, got, req) ==> Assemble(g, c, Collect(got)) == Some(req)
        ensures Unauthorized(g, f, got) ==> Assemble(g, c, Collect(got)) == None
      {
        Assembled(g, f, c, got);
      }
    } else {
      forall got, req | MadeOf(g, f, got, req)
        ensures false
      {
        MadeNotRejected(g, f, got, req);
      }
    }
  }

  lemma TheControl(g: Grammar, f: Fields) returns (c: Control)
    requires !RejectsFields(g, f)
    ensures KeepsFields(g, f, c)
  {
    c := Control(g.verb(f.verb).value, g.scheme(f.scheme).value,
                 if f.authority == [] then None else g.authority(f.authority), g.path(f.path).value);
  }

  lemma MadeNotRejected(g: Grammar, f: Fields, got: seq<Line>, req: Request)
    requires MadeOf(g, f, got, req)
    ensures !RejectsFields(g, f)
  {
  }

  /** Any request in the indeterminate form, by any sender. */
  lemma AnyRequestRead(g: Grammar, env: Env, f: Fields, ls: seq<Line>, tail: bytes, e: Ending)
    requires Roomy(env.limit) && FieldsFit(f, env.limit) && AllFit(ls, env.limit) && SizedLines(ls)
    ensures DecodesAs(g, f, ls, RequestOf(g, env, Wire(IndeterminateRequest(f, ls) + tail, e)),
                      IndeterminateLength(Some(0)), Wire(tail, e))
  {
    hide FieldOf, FieldsBytes, LinesBytes, RequestControl, IndeterminateSection, AllKept, AnyRejected, KeepsFields, RejectsFields,
      DecodesAs;
    assert PutVarint(2) == [2] && PutVarint(0) == [0] by { assert ToBE(0, 0) == []; }
    hide PutVarint;
    var lines := LinesBytes(ls) + ([0] + tail);
    assert IndeterminateRequest(f, ls) + tail == [2] + (FieldsBytes(f) + lines);
    ReadVarint(env.limit, 2, FieldsBytes(f) + lines, e);
    ControlRead(g, env, f, lines, e);
    SectionRead(g, env, ls, [], tail, e, []);
    forall got | AllKept(g, ls, got)
      ensures Section(g, env, Wire(lines, e), false) == Done(got, Wire(tail, e))
    {
      SectionRead(g, env, ls, got, tail, e, []);
      assert [] + got == got;
    }
    Concluded(g, env, f, ls, Wire(FieldsBytes(f) + lines, e), Wire(lines, e), Wire(tail, e), false,
              IndeterminateLength(Some(0)), Wire(tail, e));
  }

  /** And in the known-length form. */
  lemma AnyKnownRequestRead(g: Grammar, env: Env, f: Fields, ls: seq<Line>, size: nat, tail: bytes, e: Ending)
    requires Roomy(env.limit) && FieldsFit(f, env.limit) && SizedLines(ls) && size <= MAX_VARINT
    requires Sized(LinesBytes(ls)) && |LinesBytes(ls)| <= env.limit + 1
    ensures DecodesAs(g, f, ls, RequestOf(g, env, Wire(KnownRequest(f, ls, size) + tail, e)), KnownLength(size), Wire(tail, e))
  {
    hide FieldOf, FieldsBytes, LinesBytes, LengthPrefixed, RequestControl, KnownSection, AllKept, AnyRejected, KeepsFields,
      RejectsFields, DecodesAs;
    assert PutVarint(0) == [0] by { assert ToBE(0, 0) == []; }
    hide PutVarint;
    var block, count := LengthPrefixed(LinesBytes(ls)), PutVarint(size);
    Pieces([0], FieldsBytes(f), block, count, tail);
    assert KnownRequest(f, ls, size) + tail == [0] + (FieldsBytes(f) + (block + (count + tail)));
    var w := Wire(FieldsBytes(f) + (block + (count + tail)), e);
    ReadVarint(env.limit, 0, w.bytes, e);
    ControlRead(g, env, f, block + (count + tail), e);
    KnownSectionRead(g, env, ls, [], count + tail, e);
    forall got | AllKept(g, ls, got)
      ensures Section(g, env, Wire(block + (count + tail), e), true) == Done(got, Wire(count + tail, e))
    {
      KnownSectionRead(g, env, ls, got, count + tail, e);
    }
    ReadVarint(env.limit, size, tail, e);
    KnownStart(env, count, size, tail, e);
    Concluded(g, env, f, ls, w, Wire(block + (count + tail), e), Wire(count + tail, e), true, KnownLength(size), Wire(tail, e));
  }

  lemma KnownStart(env: Env, count: bytes, size: nat, tail: bytes, e: Ending)
    requires count != [] && FieldOf(env.limit, Wire(count + tail, e), VarInt) == Done(size, Wire(tail, e))
    ensures BodyStart(env, Wire(count + tail, e), true) == Done(KnownLength(size), Wire(tail, e))
  {
    hide FieldOf;
  }

  // ---------- whole responses ----------

  /** How a response with this status and these lines decodes: a final status with the lines as parsed,
      and invalid data if a line is rejected. */
  ghost predicate AnswersAs(g: Grammar, status: nat, ls: seq<Line>, o: Outcome<(Response, BodyKind)>, kind: BodyKind, rest: Wire) {
    && (forall got :: AllKept(g, ls, got) ==> o == Done((Response(status, Collect(got)), kind), rest))
    && (AnyRejected(g, ls) ==> o == Failed(InvalidData))
  }

  /** Any response in the indeterminate form, by any sender. */
  lemma AnyResponseRead(g: Grammar, env: Env, status: nat, ls: seq<Line>, tail: bytes, e: Ending)
    requires Roomy(env.limit) && 200 <= status < 1000 && AllFit(ls, env.limit) && SizedLines(ls)
    ensures AnswersAs(g, status, ls, ResponseOf(g, env, Wire([3] + (PutVarint(status) + (LinesBytes(ls) + ([0] + tail))), e)),
                      IndeterminateLength(Some(0)), Wire(tail, e))
  {
    hide FieldOf, LinesBytes, ResponseControl, IndeterminateSection, AllKept, AnyRejected, Collect;
    assert PutVarint(3) == [3] && PutVarint(0) == [0] by { assert ToBE(0, 0) == []; }
    hide PutVarint;
    var lines := LinesBytes(ls) + ([0] + tail);
    ReadVarint(env.limit, 3, PutVarint(status) + lines, e);
    ReadStatus(g, env, status, lines, e);
    SectionRead(g, env, ls, [], tail, e, []);
    forall got | AllKept(g, ls, got)
      ensures IndeterminateSection(g, env, Wire(lines, e), []) == Done(got, Wire(tail, e))
    {
      SectionRead(g, env, ls, got, tail, e, []);
      assert [] + got == got;
    }
  }

  /** And in the known-length form. */
  lemma AnyKnownResponseRead(g: Grammar, env: Env, status: nat, ls: seq<Line>, size: nat, tail: bytes, e: Ending)
    requires Roomy(env.limit) && 200 <= status < 1000 && SizedLines(ls) && size <= MAX_VARINT
    requires Sized(LinesBytes(ls)) && |LinesBytes(ls)| <= env.limit + 1
    ensures AnswersAs(g, status, ls,
                      ResponseOf(g, env, Wire([1] + (PutVarint(status) + (LengthPrefixed(LinesBytes(ls)) + (PutVarint(size) + tail))), e)),
                      KnownLength(size), Wire(tail, e))
  {
    hide FieldOf, LinesBytes, LengthPrefixed, ResponseControl, KnownSection, AllKept, AnyRejected, Collect;
    assert PutVarint(1) == [1] by { assert ToBE(0, 0) == []; }
    hide PutVarint;
    var count := PutVarint(size);
    var section := LengthPrefixed(LinesBytes(ls)) + (count + tail);
    ReadVarint(env.limit, 1, PutVarint(status) + section, e);
    ReadStatus(g, env, status, section, e);
    KnownSectionRead(g, env, ls, [], count + tail, e);
    forall got | AllKept(g, ls, got)
      ensures KnownSection(g, env, Wire(section, e)) == Done(got, Wire(count + tail, e))
    {
      KnownSectionRead(g, env, ls, got, count + tail, e);
    }
    ReadVarint(env.limit, size, tail, e);
    KnownStart(env, count, size, tail, e);
  }

  // ---------- one spelling ----------

  function Lower(b: bytes): bytes {
    seq(|b|, i requires 0 <= i < |b| => if 65 <= b[i] <= 90 then b[i] + 32 else b[i])
  }

  function LoweringGrammar(): Grammar {
    Grammar(b => Some(b), b => Some(b), b => Some(b), b => Some(b), b => Some(Lower(b)), b => Some(b))
  }

  /** `G s:///`, `HOST: b`, octet by octet. */
  function CapitalWire(): bytes {
    [2] + (([1, 71] + ([1, 115] + ([0] + [1, 47]))) + (([4, 72, 79, 83, 84] + [1, 98]) + [0]))
  }

  /** `Host: b` in capitals and no other authority, for parsers that lower names and keep the rest: the
      header is stored as `host` and found. */
  lemma HostInCapitals(env: Env, tail: bytes, e: Ending)
    requires Roomy(env.limit)
    ensures RequestOf(LoweringGrammar(), env, Wire(CapitalWire() + tail, e)) ==
            Done((Request([71], Uri(Some([115]), Some([98]), [47], None), [Group([104, 111, 115, 116], [[98]])]),
                  IndeterminateLength(Some(0))), Wire(tail, e))
  {
    var g := LoweringGrammar();
    var f, raw, got := Fields([71], [115], [], [47]), Line([72, 79, 83, 84], [98]), Line([104, 111, 115, 116], [98]);
    var req := Request([71], Uri(Some([115]), Some([98]), [47], None), [Group([104, 111, 115, 116], [[98]])]);
    SpelledOut();
    hide IndeterminateRequest, Collect, RequestOf, CapitalWire;
    assert Lower(raw.name) == got.name;
    assert Keeps(g, raw, got);
    OneHeader(got);
    assert FirstNamed([got], [104, 111, 115, 116], 0);
    AnyRequestRead(g, env, f, [raw], tail, e);
    assert AllKept(g, [raw], [got]) && MadeOf(g, f, [got], req);
  }

  lemma OneHeader(l: Line)
    ensures Collect([l]) == [Group(l.name, [l.value])]
  {
    assert [l][..0] == [];
    assert Collect([]) == [];
  }

  lemma Small(b: bytes)
    requires |b| < 64
    ensures LengthPrefixed(b) == [|b|] + b
  {
    assert ToBE(0, 0) == [];
  }

  lemma OneLine(l: Line)
    requires Sized(l.name) && Sized(l.value)
    ensures LinesBytes([l]) == LineBytes(l)
  {
    hide LineBytes;
    assert [l][1..] == [] && LineBytes(l) + [] == LineBytes(l);
  }

  lemma SpelledOut()
    ensures IndeterminateRequest(Fields([71], [115], [], [47]), [Line([72, 79, 83, 84], [98])]) == CapitalWire()
  {
    var l := Line([72, 79, 83, 84], [98]);
    Small(l.name);
    Small(l.value);
    Small([71]);
    Small([115]);
    Small([]);
    Small([47]);
    OneLine(l);
    hide LengthPrefixed, LinesBytes;
  }
}
