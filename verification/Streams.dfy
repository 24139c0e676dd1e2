/** What an asynchronous byte source may do, and the same source seen as one flat byte string.

    A `Source` is the whole future of a stream: each poll takes its head. The flat view
    forgets how the bytes were split and when the stream was not ready; parsers written on
    it are the specification of the streaming code. */
module Streams {
  import opened Bytes

  datatype Error = UnexpectedEof | BufferLimit | InvalidData | Transport(code: nat)

  datatype Result<+T> = Ok(value: T) | Err(error: Error)

  datatype Poll<+T> = NotReady | Ready(value: T)

  datatype Source =
    | End
    | Chunk(data: bytes, next: Source)
    | Pending(next: Source)
    | Fault(error: Error, next: Source)

  /** Every byte the source will yield, transport errors notwithstanding. */
  function AllData(s: Source): bytes {
    match s
    case End => []
    case Chunk(d, n) => d + AllData(n)
    case Pending(n) => AllData(n)
    case Fault(_, n) => AllData(n)
  }

  /** The bytes that come before the first transport error. */
  function Data(s: Source): (d: bytes)
    ensures |d| <= |AllData(s)|
  {
    match s
    case End => []
    case Chunk(d, n) => d + Data(n)
    case Pending(n) => Data(n)
    case Fault(_, _) => []
  }

  datatype Ending = Eof | Broken(error: Error)

  /** What a reader meets after `Data(s)`. */
  function Closing(s: Source): Ending {
    match s
    case End => Eof
    case Chunk(_, n) => Closing(n)
    case Pending(n) => Closing(n)
    case Fault(e, _) => Broken(e)
  }

  /** No chunk is empty. */
  predicate Dense(s: Source) {
    match s
    case End => true
    case Chunk(d, n) => d != [] && Dense(n)
    case Pending(n) => Dense(n)
    case Fault(_, n) => Dense(n)
  }

  predicate ChunksAtMost(s: Source, m: nat) {
    match s
    case End => true
    case Chunk(d, n) => |d| <= m && ChunksAtMost(n, m)
    case Pending(n) => ChunksAtMost(n, m)
    case Fault(_, n) => ChunksAtMost(n, m)
  }

  /** Polls and bytes left; every poll that is not an end of stream lowers it. */
  function Weight(s: Source): nat {
    match s
    case End => 0
    case Chunk(d, n) => |d| + 1 + Weight(n)
    case Pending(n) => 1 + Weight(n)
    case Fault(_, n) => 1 + Weight(n)
  }

  /** How often the source will not be ready. */
  function Waits(s: Source): nat {
    match s
    case End => 0
    case Chunk(_, n) => Waits(n)
    case Pending(n) => 1 + Waits(n)
    case Fault(_, n) => Waits(n)
  }

  /** How many errors the source will yield. */
  function Faults(s: Source): nat {
    match s
    case End => 0
    case Chunk(_, n) => Faults(n)
    case Pending(n) => Faults(n)
    case Fault(_, n) => 1 + Faults(n)
  }

  /** The source that yields `s` first and then `t`. */
  function Append(s: Source, t: Source): Source {
    match s
    case End => t
    case Chunk(d, n) => Chunk(d, Append(n, t))
    case Pending(n) => Pending(Append(n, t))
    case Fault(e, n) => Fault(e, Append(n, t))
  }

  /** The non-empty chunks of a source. */
  function Chunks(s: Source): seq<bytes> {
    match s
    case End => []
    case Chunk(d, n) => (if d == [] then [] else [d]) + Chunks(n)
    case Pending(n) => Chunks(n)
    case Fault(_, n) => []
  }

  /** What a source loses when its head is taken. */
  lemma HeadTaken(s: Source)
    ensures match s
            case End => Data(s) == [] && AllData(s) == [] && Closing(s) == Eof
            case Pending(n) => Data(s) == Data(n) && AllData(s) == AllData(n) && Closing(s) == Closing(n) && Weight(s) == 1 + Weight(n)
            case Fault(e, n) => Data(s) == [] && AllData(s) == AllData(n) && Closing(s) == Broken(e) && Weight(s) == 1 + Weight(n)
            case Chunk(d, n) =>
              && Data(s) == d + Data(n) && AllData(s) == d + AllData(n) && Closing(s) == Closing(n)
              && Weight(s) == |d| + 1 + Weight(n)
    ensures !s.End? && Dense(s) ==> Dense(s.next) && (s.Chunk? ==> s.data != [])
    ensures !s.End? ==> forall m :: ChunksAtMost(s, m) ==> ChunksAtMost(s.next, m) && (s.Chunk? ==> |s.data| <= m)
  {
  }

  lemma PaceTaken(s: Source)
    requires !s.End?
    ensures Waits(s) == Waits(s.next) + if s.Pending? then 1 else 0
    ensures Faults(s) == Faults(s.next) + if s.Fault? then 1 else 0
  {
  }

  /** Reading `n` bytes with `have` of them buffered stops at a chunk boundary past the limit. */
  predicate Overflows(limit: nat, have: nat, s: Source, n: nat)
    decreases s
  {
    have < n && (have > limit || match s
                                 case Chunk(d, next) => Overflows(limit, have + |d|, next, n)
                                 case Pending(next) => Overflows(limit, have, next, n)
                                 case _ => false)
  }

  lemma OverflowsStep(limit: nat, have: nat, s: Source, n: nat)
    requires have < n
    ensures have > limit ==> Overflows(limit, have, s, n)
    ensures have <= limit ==> Overflows(limit, have, s, n) == match s
                                                              case Chunk(d, next) => Overflows(limit, have + |d|, next, n)
                                                              case Pending(next) => Overflows(limit, have, next, n)
                                                              case _ => false
    ensures s.Chunk? && n <= have + |s.data| ==> !Overflows(limit, have + |s.data|, s.next, n)
  {
  }

  /** The next thing the source has, once it has something, is a chunk. */
  predicate Announces(s: Source) {
    match s
    case Chunk(_, _) => true
    case Pending(n) => Announces(n)
    case _ => false
  }

  /** The source ends right after a chunk, with no wait between; `after` says that a chunk has just come. */
  predicate EndsOnChunk(s: Source, after: bool)
    decreases s
  {
    match s
    case End => after
    case Chunk(_, n) => EndsOnChunk(n, true)
    case Pending(n) => EndsOnChunk(n, false)
    case Fault(_, _) => false
  }

  /** What is left of the source once its last byte has come. */
  function Tail(s: Source): (t: Source)
    ensures Data(t) == []
    decreases s
  {
    if Data(s) == [] then s else Tail(s.next)
  }

  /** What empty chunks after the last byte do to a reader that asks whether there is more:
      `announces`, it is told yes; `starves`, one that asks again after every wait is still told
      yes when the stream ends. */
  datatype Trail = Trail(announces: bool, starves: bool)

  function TrailOf(s: Source): Trail {
    Trail(Announces(Tail(s)), EndsOnChunk(Tail(s), false))
  }

  /** Taking the head of a source leaves its trail as it was, unless the last byte has come. */
  lemma TrailKept(s: Source)
    ensures Data(s) != [] ==> TrailOf(s.next) == TrailOf(s)
    ensures s.Pending? ==> TrailOf(s.next) == TrailOf(s)
    ensures Data(s) == [] ==> TrailOf(s) == Trail(Announces(s), EndsOnChunk(s, false))
  {
  }

  /** A reader that takes everything it can without waiting: what it then holds, and what comes next. */
  function Absorb(held: bytes, s: Source): (r: (bytes, Source))
    ensures !r.1.Chunk?
    decreases s
  {
    match s
    case Chunk(d, n) => Absorb(held + d, n)
    case _ => (held, s)
  }

  /** One poll of a stream whose future is `before`: it takes the head and leaves the tail. */
  predicate Emits(before: Source, r: Poll<Option<Result<bytes>>>, after: Source) {
    match before
    case End => r == Ready(None) && after == End
    case Chunk(d, n) => r == Ready(Some(Ok(d))) && after == n
    case Pending(n) => r == NotReady && after == n
    case Fault(e, n) => r == Ready(Some(Err(e))) && after == n
  }

  // ---------- the flat view ----------

  datatype Wire = Wire(bytes: bytes, ending: Ending)

  /** What the outcome of a read may depend on besides the bytes: the buffer limit and the trail. */
  datatype Env = Env(limit: nat, trail: Trail)

  /** `Varies` marks the inputs on which the streaming code's answer depends on how the bytes
      were split into chunks. */
  datatype Outcome<+T> = Done(value: T, rest: Wire) | Failed(error: Error) | Varies {
    predicate IsFailure() {
      !Done?
    }

    function PropagateFailure<U>(): Outcome<U>
      requires IsFailure()
    {
      if Failed? then Failed(error) else Varies
    }

    function Extract(): (T, Wire)
      requires Done?
    {
      (value, rest)
    }
  }

  function Closed(e: Ending): Error {
    match e
    case Eof => UnexpectedEof
    case Broken(error) => error
  }

  /** The error met by a read that needs more bytes than there are. */
  function Shortfall(limit: nat, w: Wire): Error {
    if |w.bytes| > limit then BufferLimit else Closed(w.ending)
  }

  function Take(limit: nat, w: Wire, n: nat): (o: Outcome<bytes>)
    ensures o.Done? ==> o.value + o.rest.bytes == w.bytes && |o.value| == n && o.rest.ending == w.ending
    ensures o.Done? ==> |o.rest.bytes| + n == |w.bytes|
  {
    if n > |w.bytes| then Failed(Shortfall(limit, w))
    else if n > limit + 1 then Varies
    else Done(w.bytes[..n], Wire(w.bytes[n..], w.ending))
  }

  function HasMore(env: Env, w: Wire): (o: Outcome<bool>)
    ensures o.Done? ==> o.rest == w && (w.bytes != [] ==> o.value)
  {
    if w.bytes != [] || env.trail.announces then Done(true, w)
    else if w.ending.Eof? then Done(false, w)
    else Failed(w.ending.error)
  }

  function ToEnd(w: Wire): Outcome<bytes> {
    if w.ending.Eof? then Done(w.bytes, Wire([], Eof)) else Failed(w.ending.error)
  }

  /** `parse` applied to the bytes read; what it rejects is invalid data. */
  function Checked<T>(o: Outcome<bytes>, parse: bytes -> Option<T>): (c: Outcome<T>)
    ensures c.Done? ==> o.Done? && c.rest == o.rest && parse(o.value) == Some(c.value)
  {
    match o
    case Done(b, rest) => (match parse(b) case Some(v) => Done(v, rest) case None => Failed(InvalidData))
    case Failed(e) => Failed(e)
    case Varies => Varies
  }
}
