/** The streaming decoder of crates/hyper-binary/src/decoder: whatever the chunking and the
    schedule, it answers as the flat parser does. */
module BinaryDecoder {
  import opened Bytes
  import opened Streams
  import opened StreamBuf
  import opened StreamOctets
  import opened HttpMessage
  import opened BinarySpec

  /** A length-prefixed string and what the http crate makes of it. */
  method ReadParsed<T>(sb: StreamBuf, parse: bytes -> Option<T>) returns (r: Result<T>)
    requires sb.Valid()
    modifies sb
    ensures sb.Valid()
    ensures sb.Settled(r, Checked(LenPrefixed(sb.maxBufSize, old(sb.Flat())), parse))
    ensures sb.Sound(r, Checked(LenPrefixed(sb.size, old(sb.Flat())), parse))
    ensures r.Ok? ==> sb.Trail() == old(sb.Trail())
  {
    hide LenPrefixed;
    var b := ReadWithVarintLength(sb);
    if b.Err? { return Err(b.error); }
    var v := parse(b.value);
    return if v.None? then Err(InvalidData) else Ok(v.value);
  }

  method DecodeRequestControlData(g: Grammar, sb: StreamBuf) returns (r: Result<Control>)
    requires sb.Valid()
    modifies sb
    ensures sb.Valid()
    ensures sb.Settled(r, RequestControl(g, old(sb.Conf()), old(sb.Flat())))
    ensures sb.Sound(r, RequestControl(g, old(sb.Unlimited()), old(sb.Flat())))
    ensures r.Ok? ==> sb.Trail() == old(sb.Trail())
  {
    hide LenPrefixed, OptionalAuthority, Checked;
    var verb := ReadParsed(sb, g.verb);
    if verb.Err? { return Err(verb.error); }
    var scheme := ReadParsed(sb, g.scheme);
    if scheme.Err? { return Err(scheme.error); }
    var authority := ReadParsed(sb, Authority(g));
    if authority.Err? { return Err(authority.error); }
    var path := ReadParsed(sb, g.path);
    if path.Err? { return Err(path.error); }
    return Ok(Control(verb.value, scheme.value, authority.value, path.value));
  }

  /** The block of a known-length section, line by line. */
  method DecodeFieldBlock(g: Grammar, block: bytes) returns (r: Option<HeaderMap>)
    ensures r == match KnownLines(g, block, []) case None => None case Some(ls) => Some(Collect(ls))
  {
    var buf := block;
    var headers: HeaderMap := [];
    ghost var lines: seq<Line> := [];
    while buf != []
      invariant KnownLines(g, block, []) == KnownLines(g, buf, lines)
      invariant headers == Collect(lines)
      decreases |buf|
    {
      var name := Prefixed(buf);
      if name.None? { return None; }
      var n := g.name(name.value.0);
      if n.None? { return None; }
      var value := Prefixed(name.value.1);
      if value.None? { return None; }
      var v := g.value(value.value.0);
      if v.None? { return None; }
      CollectLast(lines, Line(n.value, v.value));
      headers := AppendLine(headers, Line(n.value, v.value));
      lines := lines + [Line(n.value, v.value)];
      buf := value.value.1;
    }
    return Some(headers);
  }

  method DecodeKnownLengthFieldSection(g: Grammar, sb: StreamBuf) returns (r: Result<HeaderMap>)
    requires sb.Valid()
    modifies sb
    ensures sb.Valid() && sb.Measure() <= old(sb.Measure())
    ensures sb.Settled(r, Headers(KnownSection(g, old(sb.Conf()), old(sb.Flat()))))
    ensures sb.Sound(r, Headers(KnownSection(g, old(sb.Unlimited()), old(sb.Flat()))))
    ensures r.Ok? ==> sb.Trail() == old(sb.Trail())
  {
    var more := sb.HasMoreData();
    if more.Err? { return Err(more.error); }
    if !more.value { return Ok([]); }
    var block := ReadWithVarintLength(sb);
    if block.Err? { return Err(block.error); }
    var headers := DecodeFieldBlock(g, block.value);
    if headers.None? { return Err(InvalidData); }
    return Ok(headers.value);
  }

  method DecodeIndeterminateLengthFieldSection(g: Grammar, sb: StreamBuf) returns (r: Result<HeaderMap>)
    requires sb.Valid()
    modifies sb
    ensures sb.Valid()
    ensures sb.Settled(r, Headers(IndeterminateSection(g, old(sb.Conf()), old(sb.Flat()), [])))
    ensures sb.Sound(r, Headers(IndeterminateSection(g, old(sb.Unlimited()), old(sb.Flat()), [])))
    ensures r.Ok? ==> sb.Trail() == old(sb.Trail())
  {
    hide FieldOf, LenPrefixed, Take, AppendLine;
    var headers: HeaderMap := [];
    ghost var lines: seq<Line> := [];
    ghost var env, free := sb.Conf(), sb.Unlimited();
    ghost var total, ideal := IndeterminateSection(g, env, sb.Flat(), []), IndeterminateSection(g, free, sb.Flat(), []);
    while true
      invariant sb.Valid() && sb.Trail() == env.trail
      invariant ideal == IndeterminateSection(g, free, sb.Flat(), lines)
      invariant headers == Collect(lines)
      invariant total == Varies || total == IndeterminateSection(g, env, sb.Flat(), lines)
      decreases sb.Measure()
    {
      var more := sb.HasMoreData();
      if more.Err? { return Err(more.error); }
      if !more.value { return Ok(headers); }

      var len := Decode(sb, VarInt);
      if len.Err? { return Err(len.error); }
      if len.value == 0 { return Ok(headers); }

      var name := sb.ReadExact(len.value);
      if name.Err? { return Err(name.error); }
      var n := g.name(name.value);
      if n.None? { return Err(InvalidData); }

      var value := ReadWithVarintLength(sb);
      if value.Err? { return Err(value.error); }
      var v := g.value(value.value);
      if v.None? { return Err(InvalidData); }

      CollectLast(lines, Line(n.value, v.value));
      headers := AppendLine(headers, Line(n.value, v.value));
      lines := lines + [Line(n.value, v.value)];
    }
  }

  method DecodeStatus(sb: StreamBuf) returns (r: Result<nat>)
    requires sb.Valid()
    modifies sb
    ensures sb.Valid()
    ensures sb.Settled(r, Status(old(sb.Conf()), old(sb.Flat())))
    ensures sb.Sound(r, Status(old(sb.Unlimited()), old(sb.Flat())))
    ensures r.Ok? ==> sb.Trail() == old(sb.Trail())
    ensures r.Ok? ==> sb.Measure() < old(sb.Measure())
  {
    var code := Decode(sb, VarInt);
    if code.Err? { return Err(code.error); }
    // The value must fit 16 bits, and then be a status code.
    if code.value > 65535 { return Err(InvalidData); }
    if !(100 <= code.value < 1000) { return Err(InvalidData); }
    return code;
  }

  method DecodeResponseControlData(g: Grammar, sb: StreamBuf) returns (r: Result<nat>)
    requires sb.Valid()
    modifies sb
    ensures sb.Valid()
    ensures sb.Settled(r, ResponseControl(g, old(sb.Conf()), old(sb.Flat())))
    ensures sb.Sound(r, ResponseControl(g, old(sb.Unlimited()), old(sb.Flat())))
    ensures r.Ok? ==> sb.Trail() == old(sb.Trail())
  {
    hide KnownSection, Status, Collect, FieldOf;
    ghost var env, free := sb.Conf(), sb.Unlimited();
    ghost var total, ideal := ResponseControl(g, env, sb.Flat()), ResponseControl(g, free, sb.Flat());
    ghost var before := sb.Flat();
    r := DecodeStatus(sb);
    while r.Ok? && Informational(r.value)
      invariant sb.Valid() && (r.Ok? ==> sb.Trail() == env.trail)
      invariant ideal == ResponseControl(g, free, before) && sb.Sound(r, Status(free, before))
      invariant total == Varies || (total == ResponseControl(g, env, before) && sb.Settled(r, Status(env, before)))
      decreases r.Ok?, sb.Measure()
    {
      var skipped := DecodeKnownLengthFieldSection(g, sb);
      if skipped.Err? { return Err(skipped.error); }
      before := sb.Flat();
      r := DecodeStatus(sb);
    }
  }

  method DecodeBodyStart(sb: StreamBuf, known: bool) returns (r: Result<BodyKind>)
    requires sb.Valid()
    modifies sb
    ensures sb.Valid()
    ensures sb.Settled(r, BodyStart(old(sb.Conf()), old(sb.Flat()), known))
    ensures sb.Sound(r, BodyStart(old(sb.Unlimited()), old(sb.Flat()), known))
    ensures r.Ok? ==> sb.Trail() == old(sb.Trail())
  {
    if !known { return Ok(IndeterminateLength(Some(0))); }
    var more := sb.HasMoreData();
    if more.Err? { return Err(more.error); }
    if !more.value { return Ok(KnownLength(0)); }
    var n := Decode(sb, VarInt);
    if n.Err? { return Err(n.error); }
    return Ok(KnownLength(n.value));
  }

  method DecodeSection(g: Grammar, sb: StreamBuf, known: bool) returns (r: Result<HeaderMap>)
    requires sb.Valid()
    modifies sb
    ensures sb.Valid()
    ensures sb.Settled(r, Headers(Section(g, old(sb.Conf()), old(sb.Flat()), known)))
    ensures sb.Sound(r, Headers(Section(g, old(sb.Unlimited()), old(sb.Flat()), known)))
    ensures r.Ok? ==> sb.Trail() == old(sb.Trail())
  {
    if known {
      r := DecodeKnownLengthFieldSection(g, sb);
    } else {
      r := DecodeIndeterminateLengthFieldSection(g, sb);
    }
  }

  method DecodeRequest(g: Grammar, sb: StreamBuf) returns (r: Result<(Request, BodyKind)>)
    requires sb.Valid()
    modifies sb
    ensures sb.Valid()
    ensures sb.Settled(r, RequestOf(g, old(sb.Conf()), old(sb.Flat())))
    ensures sb.Sound(r, RequestOf(g, old(sb.Unlimited()), old(sb.Flat())))
    ensures r.Ok? ==> sb.Trail() == old(sb.Trail())
  {
    var indicator := Decode(sb, VarInt);
    if indicator.Err? { return Err(indicator.error); }
    if indicator.value != KNOWN_LENGTH_REQUEST && indicator.value != INDETERMINATE_LENGTH_REQUEST {
      return Err(InvalidData);
    }
    r := DecodeRequestAfter(g, sb, indicator.value == KNOWN_LENGTH_REQUEST);
  }

  method DecodeRequestAfter(g: Grammar, sb: StreamBuf, known: bool) returns (r: Result<(Request, BodyKind)>)
    requires sb.Valid()
    modifies sb
    ensures sb.Valid()
    ensures sb.Settled(r, Built(g, RequestAfter(g, old(sb.Conf()), old(sb.Flat()), known)))
    ensures sb.Sound(r, Built(g, RequestAfter(g, old(sb.Unlimited()), old(sb.Flat()), known)))
    ensures r.Ok? ==> sb.Trail() == old(sb.Trail())
  {
    hide RequestControl, Section, BodyStart, Assemble;
    var control := DecodeRequestControlData(g, sb);
    if control.Err? { return Err(control.error); }
    var headers := DecodeSection(g, sb, known);
    if headers.Err? { return Err(headers.error); }
    var kind := DecodeBodyStart(sb, known);
    if kind.Err? { return Err(kind.error); }
    var req := Assemble(g, control.value, headers.value);
    if req.None? { return Err(InvalidData); }
    return Ok((req.value, kind.value));
  }

  method DecodeResponse(g: Grammar, sb: StreamBuf) returns (r: Result<(Response, BodyKind)>)
    requires sb.Valid()
    modifies sb
    ensures sb.Valid()
    ensures sb.Settled(r, ResponseOf(g, old(sb.Conf()), old(sb.Flat())))
    ensures sb.Sound(r, ResponseOf(g, old(sb.Unlimited()), old(sb.Flat())))
    ensures r.Ok? ==> sb.Trail() == old(sb.Trail())
  {
    var indicator := Decode(sb, VarInt);
    if indicator.Err? { return Err(indicator.error); }
    if indicator.value != KNOWN_LENGTH_RESPONSE && indicator.value != INDETERMINATE_LENGTH_RESPONSE {
      return Err(InvalidData);
    }
    r := DecodeResponseAfter(g, sb, indicator.value == KNOWN_LENGTH_RESPONSE);
  }

  method DecodeResponseAfter(g: Grammar, sb: StreamBuf, known: bool) returns (r: Result<(Response, BodyKind)>)
    requires sb.Valid()
    modifies sb
    ensures sb.Valid()
    ensures sb.Settled(r, Answered(ResponseAfter(g, old(sb.Conf()), old(sb.Flat()), known)))
    ensures sb.Sound(r, Answered(ResponseAfter(g, old(sb.Unlimited()), old(sb.Flat()), known)))
    ensures r.Ok? ==> sb.Trail() == old(sb.Trail())
  {
    hide ResponseControl, Section, BodyStart;
    var status := DecodeResponseControlData(g, sb);
    if status.Err? { return Err(status.error); }
    var headers := DecodeSection(g, sb, known);
    if headers.Err? { return Err(headers.error); }
    var kind := DecodeBodyStart(sb, known);
    if kind.Err? { return Err(kind.error); }
    return Ok((Response(status.value, headers.value), kind.value));
  }

  /** In both environments the content ends here, and in the same way. */
  ghost predicate NoChunk(w: Wire, env: Env, env': Env) {
    var l := ChunkLength(env, w);
    ChunkLength(env', w) == l && !(l.Done? && l.value > 0)
  }

  /** The next chunk length; every poll asks again whether there is more. */
  method PollChunkLength(sb: StreamBuf) returns (r: Poll<Result<nat>>)
    requires sb.Valid()
    modifies sb
    ensures sb.Valid() && sb.Measure() <= old(sb.Measure())
    ensures r.NotReady? ==> sb.Flat() == old(sb.Flat()) && sb.Measure() < old(sb.Measure())
    ensures r.Ready? && r.value.Ok? ==> sb.Trail() == old(sb.Trail())
    ensures r.NotReady? && sb.Trail() != old(sb.Trail()) ==>
              && NoChunk(sb.Flat(), old(sb.Conf()), sb.Conf())
              && NoChunk(sb.Flat(), old(sb.Unlimited()), sb.Unlimited())
    ensures Waits(sb.source) + (if r.NotReady? then 1 else 0) == old(Waits(sb.source))
    ensures r.Ready? ==> sb.Settled(r.value, ChunkLength(old(sb.Conf()), old(sb.Flat())))
    ensures r.Ready? ==> sb.Sound(r.value, ChunkLength(old(sb.Unlimited()), old(sb.Flat())))
  {
    hide TrailOf, Data, Closing, AllData, Weight, EndsOnChunk, Waits, Faults;
    var more := sb.PollHasMoreData();
    if more.NotReady? { return NotReady; }
    if more.value.Err? { return Ready(Err(more.value.error)); }
    if !more.value.value { return Ready(Ok(0)); }
    TrailKept(sb.source);
    r := PollWithOctets(sb, VarInt);
    TrailKept(sb.source);
  }

  /** One poll of a body that had `before` to deliver and now has `after`. */
  ghost predicate Delivers(r: Poll<Option<Result<bytes>>>, before: Delivered, after: Delivered) {
    match r
    case NotReady => after == before
    case Ready(None) => before == Delivered([], Clean)
    case Ready(Some(Ok(d))) => before == Delivered(d + after.data, after.end)
    case Ready(Some(Err(e))) => before == Delivered([], Cut(e))
  }

  function Framed(r: Poll<Result<bytes>>): Poll<Option<Result<bytes>>> {
    match r
    case NotReady => NotReady
    case Ready(res) => Ready(Some(res))
  }

  /** The body handed out with a decoded message. */
  class DecodedBody {
    var kind: BodyKind
    const streamBuf: StreamBuf

    constructor (kind: BodyKind, streamBuf: StreamBuf)
      ensures this.kind == kind && this.streamBuf == streamBuf
    {
      this.kind := kind;
      this.streamBuf := streamBuf;
    }

    /** All the content still to be delivered. */
    ghost function Remaining(): Delivered
      reads this, streamBuf
    {
      BodyOf(streamBuf.Conf(), kind, streamBuf.Flat())
    }

    /** The same if nothing were too large for the buffer. */
    ghost function Content(): Delivered
      reads this, streamBuf
    {
      BodyOf(streamBuf.Unlimited(), kind, streamBuf.Flat())
    }

    predicate IsEndStream()
      reads this
    {
      match kind
      case KnownLength(n) => n == 0
      case IndeterminateLength(c) => c.None?
    }

    function Left(): (n: nat)
      reads this
      requires !IsEndStream()
    {
      if kind.KnownLength? then kind.remaining else kind.inChunk.value
    }

    /** Up to the announced number of bytes, counted down in place. */
    method PollReadAtMost() returns (r: Poll<Result<bytes>>)
      requires streamBuf.Valid() && !IsEndStream() && Left() > 0
      modifies this, streamBuf
      ensures streamBuf.Valid() && streamBuf.Measure() <= old(streamBuf.Measure())
      ensures kind.IndeterminateLength? ==> kind.inChunk.Some?
      ensures r.NotReady? || r.value.Ok? ==> streamBuf.Measure() < old(streamBuf.Measure())
      ensures Delivers(Framed(r), old(Remaining()), Remaining())
      ensures Delivers(Framed(r), old(Content()), Content())
      ensures Waits(streamBuf.source) + (if r.NotReady? then 1 else 0) == old(Waits(streamBuf.source))
    {
      hide BodyOf;
      r := streamBuf.PollReadAtMost(Left());
      ghost var was, left := kind, Left();
      if r.Ready? && r.value.Ok? {
        var n := |r.value.value|;
        kind := if kind.KnownLength? then KnownLength(kind.remaining - n)
                else IndeterminateLength(Some(kind.inChunk.value - n));
        BodyAdvance(streamBuf.Conf(), was, left, r.value.value, streamBuf.Flat());
        BodyAdvance(streamBuf.Unlimited(), was, left, r.value.value, streamBuf.Flat());
      }
      if old(streamBuf.Flat()).bytes == [] {
        BodyStarved(old(streamBuf.Conf()), was, old(streamBuf.Flat()).ending);
        BodyStarved(old(streamBuf.Unlimited()), was, old(streamBuf.Flat()).ending);
        BodyStarved(streamBuf.Conf(), was, old(streamBuf.Flat()).ending);
        BodyStarved(streamBuf.Unlimited(), was, old(streamBuf.Flat()).ending);
      }
    }

    method PollFrame() returns (r: Poll<Option<Result<bytes>>>)
      requires streamBuf.Valid()
      modifies this, streamBuf
      ensures streamBuf.Valid() && streamBuf.Measure() <= old(streamBuf.Measure())
      ensures r.NotReady? || (r.value.Some? && r.value.value.Ok?) ==> streamBuf.Measure() < old(streamBuf.Measure())
      ensures r == Ready(None) ==> IsEndStream()
      ensures old(Remaining()) == Delivered([], Unclear) || Delivers(r, old(Remaining()), Remaining())
      ensures r == Ready(Some(Err(BufferLimit))) || Delivers(r, old(Content()), Content())
      ensures Waits(streamBuf.source) + (if r.NotReady? then 1 else 0) == old(Waits(streamBuf.source))
    {
      if IsEndStream() {
        return Ready(None);
      }
      if kind.IndeterminateLength? && kind.inChunk.value == 0 {
        var len := PollChunkLength(streamBuf);
        if len.NotReady? { return NotReady; }
        if len.value.Err? { return Ready(Some(Err(len.value.error))); }
        if len.value.value == 0 {
          kind := IndeterminateLength(None);
          return Ready(None);
        }
        kind := IndeterminateLength(Some(len.value.value));
      }
      var got := PollReadAtMost();
      return Framed(got);
    }
  }

  /** Handing out `d` takes exactly `d` off the content still to come. */
  lemma BodyAdvance(env: Env, kind: BodyKind, left: nat, d: bytes, after: Wire)
    requires kind == KnownLength(left) || kind == IndeterminateLength(Some(left))
    requires 0 < left && |d| <= left
    ensures var next := if kind.KnownLength? then KnownLength(left - |d|) else IndeterminateLength(Some(left - |d|));
            var rest := BodyOf(env, next, after);
            BodyOf(env, kind, Wire(d + after.bytes, after.ending)) == Delivered(d + rest.data, rest.end)
  {
    hide ChunkLength;
    var all := d + after.bytes;
    if left <= |all| {
      assert all[..left] == d + after.bytes[..left - |d|];
      assert all[left..] == after.bytes[left - |d|..];
      if left == |d| {
        assert after.bytes[..0] == [];
        assert after.bytes[0..] == after.bytes;
        assert all[..left] == d == d + [];
      }
    }
  }

  /** Content that is owed and not there. */
  lemma BodyStarved(env: Env, kind: BodyKind, e: Ending)
    requires if kind.KnownLength? then kind.remaining > 0 else kind.inChunk.Some? && kind.inChunk.value > 0
    ensures BodyOf(env, kind, Wire([], e)) == Delivered([], Cut(Closed(e)))
  {
  }

  function Ended(end: Result<()>): BodyEnd {
    if end.Ok? then Clean else Cut(end.error)
  }

  /** `data` has been delivered of `all`, and `rest` has not. */
  ghost predicate Delivering(all: Delivered, data: bytes, rest: Delivered) {
    all == Delivered(data + rest.data, rest.end)
  }

  lemma DeliveringStep(all: Delivered, data: bytes, d: bytes, rest: Delivered)
    requires Delivering(all, data, Delivered(d + rest.data, rest.end))
    ensures Delivering(all, data + d, rest)
  {
    Assoc(data, d, rest.data);
  }

  lemma DeliveringEnd(all: Delivered, data: bytes, rest: Delivered)
    requires Delivering(all, data, rest)
    ensures rest.end == all.end && data <= all.data && (rest.data == [] ==> all == Delivered(data, rest.end))
  {
    assert data + [] == data;
  }

  /** Reading the body to its end, as far as it goes. */
  method CollectBody(body: DecodedBody) returns (data: bytes, end: Result<()>)
    requires body.streamBuf.Valid()
    modifies body, body.streamBuf
    ensures var all := old(body.Remaining());
            all.end == Unclear || all == Delivered(data, Ended(end))
    ensures var all := old(body.Content());
            data <= all.data && (end == Err(BufferLimit) || all == Delivered(data, Ended(end)))
  {
    hide BodyOf;
    data := [];
    ghost var all, ideal := body.Remaining(), body.Content();
    assert Delivering(all, data, all) && Delivering(ideal, data, ideal);
    hide Delivering;
    while true
      invariant body.streamBuf.Valid()
      invariant all.end == Unclear || Delivering(all, data, body.Remaining())
      invariant Delivering(ideal, data, body.Content())
      decreases body.streamBuf.Measure()
    {
      ghost var rest, content := body.Remaining(), body.Content();
      if all.end != Unclear { DeliveringEnd(all, data, rest); }
      DeliveringEnd(ideal, data, content);
      var r := body.PollFrame();
      match r {
        case NotReady =>
        case Ready(None) =>
          return data, Ok(());
        case Ready(Some(Ok(d))) =>
          if all.end != Unclear { DeliveringStep(all, data, d, body.Remaining()); }
          DeliveringStep(ideal, data, d, body.Content());
          data := data + d;
        case Ready(Some(Err(e))) =>
          return data, Err(e);
      }
    }
  }
}
