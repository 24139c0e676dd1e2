/** Binary HTTP (RFC 9292) as a parser of one flat byte string: the reference that the streaming
    decoder is proved against. */
module BinarySpec {
  import opened Bytes
  import opened Streams
  import opened StreamOctets
  import opened HttpMessage

  const KNOWN_LENGTH_REQUEST: nat := 0
  const KNOWN_LENGTH_RESPONSE: nat := 1
  const INDETERMINATE_LENGTH_REQUEST: nat := 2
  const INDETERMINATE_LENGTH_RESPONSE: nat := 3

  datatype Control = Control(verb: bytes, scheme: bytes, authority: Option<bytes>, path: bytes)

  datatype BodyKind = KnownLength(remaining: nat) | IndeterminateLength(inChunk: Option<nat>)

  function OptionalAuthority(g: Grammar, b: bytes): Option<Option<bytes>> {
    if b == [] then Some(None)
    else match g.authority(b)
      case None => None
      case Some(a) => Some(Some(a))
  }

  function Authority(g: Grammar): bytes -> Option<Option<bytes>> {
    b => OptionalAuthority(g, b)
  }

  function RequestControl(g: Grammar, env: Env, w: Wire): (o: Outcome<Control>)
    ensures o.Done? ==> |o.rest.bytes| < |w.bytes| && o.rest.ending == w.ending
  {
    var (verb, w1) :- Checked(LenPrefixed(env.limit, w), g.verb);
    var (scheme, w2) :- Checked(LenPrefixed(env.limit, w1), g.scheme);
    var (authority, w3) :- Checked(LenPrefixed(env.limit, w2), Authority(g));
    var (path, w4) :- Checked(LenPrefixed(env.limit, w3), g.path);
    Done(Control(verb, scheme, authority, path), w4)
  }

  /** A length-prefixed string at the front of a block, and what follows it. */
  function Prefixed(block: bytes): (r: Option<(bytes, bytes)>)
    ensures r.Some? ==> |r.value.1| < |block|
  {
    match Get(VarInt, block)
    case None => None
    case Some((n, off)) =>
      var rest := block[off..];
      if |rest| < n then None else Some((rest[..n], rest[n..]))
  }

  /** One field line at the front of a block. */
  function LineOf(g: Grammar, block: bytes): (r: Option<(Line, bytes)>)
    ensures r.Some? ==> |r.value.1| < |block|
  {
    match Prefixed(block)
    case None => None
    case Some((name, b1)) =>
      match g.name(name)
      case None => None
      case Some(n) =>
        match Prefixed(b1)
        case None => None
        case Some((value, b2)) =>
          match g.value(value)
          case None => None
          case Some(v) => Some((Line(n, v), b2))
  }

  function KnownLines(g: Grammar, block: bytes, acc: seq<Line>): Option<seq<Line>>
    decreases |block|
  {
    if block == [] then Some(acc)
    else match LineOf(g, block)
      case None => None
      case Some((l, rest)) => KnownLines(g, rest, acc + [l])
  }

  function KnownSection(g: Grammar, env: Env, w: Wire): (o: Outcome<seq<Line>>)
    ensures o.Done? ==> |o.rest.bytes| <= |w.bytes| && o.rest.ending == w.ending
  {
    var (more, w0) :- HasMore(env, w);
    if !more then Done([], w0) else Checked(LenPrefixed(env.limit, w0), b => KnownLines(g, b, []))
  }

  function IndeterminateSection(g: Grammar, env: Env, w: Wire, acc: seq<Line>): (o: Outcome<seq<Line>>)
    ensures o.Done? ==> |o.rest.bytes| <= |w.bytes| && o.rest.ending == w.ending
    decreases |w.bytes|
  {
    var (more, w0) :- HasMore(env, w);
    if !more then Done(acc, w0)
    else
      var (n, w1) :- FieldOf(env.limit, w0, VarInt);
      if n == 0 then Done(acc, w1)
      else
        var (name, w2) :- Checked(Take(env.limit, w1, n), g.name);
        var (value, w3) :- Checked(LenPrefixed(env.limit, w2), g.value);
        IndeterminateSection(g, env, w3, acc + [Line(name, value)])
  }

  function Section(g: Grammar, env: Env, w: Wire, known: bool): (o: Outcome<seq<Line>>)
    ensures o.Done? ==> |o.rest.bytes| <= |w.bytes| && o.rest.ending == w.ending
  {
    if known then KnownSection(g, env, w) else IndeterminateSection(g, env, w, [])
  }

  function Headers(o: Outcome<seq<Line>>): Outcome<HeaderMap> {
    match o
    case Done(lines, rest) => Done(Collect(lines), rest)
    case Failed(e) => Failed(e)
    case Varies => Varies
  }

  predicate Informational(status: nat) {
    100 <= status < 200
  }

  function Status(env: Env, w: Wire): (o: Outcome<nat>)
    ensures o.Done? ==> |o.rest.bytes| < |w.bytes| && o.rest.ending == w.ending
  {
    var (v, rest) :- FieldOf(env.limit, w, VarInt);
    if 100 <= v < 1000 then Done(v, rest) else Failed(InvalidData)
  }

  /** The final status; informational responses before it are read and dropped. */
  function ResponseControl(g: Grammar, env: Env, w: Wire): (o: Outcome<nat>)
    ensures o.Done? ==> |o.rest.bytes| < |w.bytes| && o.rest.ending == w.ending
    decreases |w.bytes|
  {
    var (status, w1) :- Status(env, w);
    if Informational(status) then
      var (_, w2) :- KnownSection(g, env, w1);
      ResponseControl(g, env, w2)
    else Done(status, w1)
  }

  function BodyStart(env: Env, w: Wire, known: bool): (o: Outcome<BodyKind>)
    ensures o.Done? ==> |o.rest.bytes| <= |w.bytes| && o.rest.ending == w.ending
  {
    if !known then Done(IndeterminateLength(Some(0)), w)
    else
      var (more, w0) :- HasMore(env, w);
      if !more then Done(KnownLength(0), w0)
      else
        var (n, w1) :- FieldOf(env.limit, w0, VarInt);
        Done(KnownLength(n), w1)
  }

  /** The request a control block and its header lines make; without an authority the Host header is one. */
  function Assemble(g: Grammar, c: Control, headers: HeaderMap): Option<Request> {
    var authority := if c.authority.Some? then c.authority
                     else match Lookup(headers, HOST)
                       case None => None
                       case Some(h) => g.authority(h);
    var (path, query) := SplitQuery(c.path);
    match authority
    case None => None
    case Some(_) => Some(Request(c.verb, Uri(Some(c.scheme), authority, path, query), headers))
  }

  datatype RequestParts = RequestParts(control: Control, lines: seq<Line>, kind: BodyKind)

  function RequestAfter(g: Grammar, env: Env, w: Wire, known: bool): Outcome<RequestParts> {
    var (c, w1) :- RequestControl(g, env, w);
    var (lines, w2) :- Section(g, env, w1, known);
    var (kind, w3) :- BodyStart(env, w2, known);
    Done(RequestParts(c, lines, kind), w3)
  }

  function RequestPartsOf(g: Grammar, env: Env, w: Wire): Outcome<RequestParts> {
    var (indicator, w0) :- FieldOf(env.limit, w, VarInt);
    if indicator == KNOWN_LENGTH_REQUEST then RequestAfter(g, env, w0, true)
    else if indicator == INDETERMINATE_LENGTH_REQUEST then RequestAfter(g, env, w0, false)
    else Failed(InvalidData)
  }

  function Built(g: Grammar, o: Outcome<RequestParts>): Outcome<(Request, BodyKind)> {
    var (p, rest) :- o;
    match Assemble(g, p.control, Collect(p.lines))
    case None => Failed(InvalidData)
    case Some(req) => Done((req, p.kind), rest)
  }

  function RequestOf(g: Grammar, env: Env, w: Wire): Outcome<(Request, BodyKind)> {
    Built(g, RequestPartsOf(g, env, w))
  }

  datatype ResponseParts = ResponseParts(status: nat, lines: seq<Line>, kind: BodyKind)

  function ResponseAfter(g: Grammar, env: Env, w: Wire, known: bool): Outcome<ResponseParts> {
    var (status, w1) :- ResponseControl(g, env, w);
    var (lines, w2) :- Section(g, env, w1, known);
    var (kind, w3) :- BodyStart(env, w2, known);
    Done(ResponseParts(status, lines, kind), w3)
  }

  function ResponsePartsOf(g: Grammar, env: Env, w: Wire): Outcome<ResponseParts> {
    var (indicator, w0) :- FieldOf(env.limit, w, VarInt);
    if indicator == KNOWN_LENGTH_RESPONSE then ResponseAfter(g, env, w0, true)
    else if indicator == INDETERMINATE_LENGTH_RESPONSE then ResponseAfter(g, env, w0, false)
    else Failed(InvalidData)
  }

  function Answered(o: Outcome<ResponseParts>): Outcome<(Response, BodyKind)> {
    var (p, rest) :- o;
    Done((Response(p.status, Collect(p.lines)), p.kind), rest)
  }

  function ResponseOf(g: Grammar, env: Env, w: Wire): Outcome<(Response, BodyKind)> {
    Answered(ResponsePartsOf(g, env, w))
  }

  // ---------- content ----------

  datatype BodyEnd = Clean | Cut(error: Error) | Unclear
  datatype Delivered = Delivered(data: bytes, end: BodyEnd)

  /** The next chunk length of indeterminate-length content; zero or end of input ends it, unless
      the reader is left waiting for a length when the input ends. */
  function ChunkLength(env: Env, w: Wire): (o: Outcome<nat>)
    ensures o.Done? ==> |o.rest.bytes| <= |w.bytes| && o.rest.ending == w.ending
    ensures o.Done? && o.value > 0 ==> |o.rest.bytes| < |w.bytes|
  {
    if w.bytes != [] then FieldOf(env.limit, w, VarInt)
    else if w.ending.Eof? && !env.trail.starves then Done(0, w)
    else Failed(Closed(w.ending))
  }

  /** The content bytes a reader gets in all, and how the content ends. */
  function BodyOf(env: Env, kind: BodyKind, w: Wire): Delivered
    decreases |w.bytes|, if kind == IndeterminateLength(Some(0)) then 1 else 0
  {
    match kind
    case KnownLength(n) =>
      if n <= |w.bytes| then Delivered(w.bytes[..n], Clean) else Delivered(w.bytes, Cut(Closed(w.ending)))
    case IndeterminateLength(None) => Delivered([], Clean)
    case IndeterminateLength(Some(n)) =>
      if n > 0 then
        if n <= |w.bytes| then
          var rest := BodyOf(env, IndeterminateLength(Some(0)), Wire(w.bytes[n..], w.ending));
          Delivered(w.bytes[..n] + rest.data, rest.end)
        else Delivered(w.bytes, Cut(Closed(w.ending)))
      else
        match ChunkLength(env, w)
        case Failed(e) => Delivered([], Cut(e))
        case Varies => Delivered([], Unclear)
        case Done(n, rest) =>
          if n == 0 then Delivered([], Clean) else BodyOf(env, IndeterminateLength(Some(n)), rest)
  }
}
