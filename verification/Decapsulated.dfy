/** The opening state machine of crates/ohttp-hpke/src/decapsulated.rs: however the sealed bytes
    arrive, it hands out what the flat opener does. */
module Decapsulated {
  import opened Bytes
  import opened Streams
  import opened StreamBuf
  import opened StreamOctets
  import opened Aead
  import opened Framing

  /** One poll of an opener that had `before` to hand out and now has `after`. */
  ghost predicate Opens(r: Poll<Option<Result<bytes>>>, before: Opened, after: Opened) {
    match r
    case NotReady => after == before
    case Ready(None) => before == Finished
    case Ready(Some(Ok(d))) => before == Emit(d, after)
    case Ready(Some(Err(e))) => before == Stopped(e)
  }

  /** The opener is the response context with its nonce counter, or, for a request, a foreign context
      of which only the numbering is known; `used` is the number of its next call. */
  class Decapsulated {
    const aead: Aead
    const context: AeadContext?
    const streamBuf: StreamBuf
    var used: nat
    var state: OpenState

    constructor (aead: Aead, context: AeadContext?, streamBuf: StreamBuf)
      requires streamBuf.Valid() && (context != null ==> context.At(aead, 0))
      ensures this.aead == aead && this.context == context && this.streamBuf == streamBuf
      ensures Valid() && used == 0 && state == ChunkLen
    {
      this.aead := aead;
      this.context := context;
      this.streamBuf := streamBuf;
      this.used := 0;
      this.state := ChunkLen;
    }

    ghost predicate Valid()
      reads this, streamBuf, NonceOf(context)
    {
      streamBuf.Valid() && (context != null ==> context.At(aead, used))
    }

    /** All that is still to be handed out. */
    ghost function Remaining(): Opened
      reads this, streamBuf
    {
      OpenFrom(aead, streamBuf.maxBufSize, used, state, streamBuf.Flat())
    }

    /** The same if no frame were too large for the buffer. */
    ghost function Content(): Opened
      reads this, streamBuf
    {
      OpenFrom(aead, streamBuf.size, used, state, streamBuf.Flat())
    }

    ghost function Size(): nat
      reads this, streamBuf
    {
      streamBuf.Measure() + if state.Done? then 0 else 1
    }

    method PollNext() returns (r: Poll<Option<Result<bytes>>>)
      requires Valid()
      modifies this, streamBuf, NonceOf(context)
      ensures Valid()
      ensures r.NotReady? || (r.value.Some? && r.value.value.Ok?) ==> Size() < old(Size())
      ensures old(state).Done? ==> r == Ready(None)
      ensures r.NotReady? ==> !state.Done?
      ensures old(Remaining()) == Unknown || Opens(r, old(Remaining()), Remaining())
      ensures r == Ready(Some(Err(BufferLimit))) || Opens(r, old(Content()), Content())
      ensures Waits(streamBuf.source) + (if r.NotReady? then 1 else 0) == old(Waits(streamBuf.source))
    {
      hide FieldOf, ChunkOf, OpenAt, Numbered, TrailOf, Data, AllData, Closing, Weight, Waits, Faults;
      if state.Done? {
        return Ready(None);
      }
      if state.ChunkLen? {
        var len := PollWithOctets(streamBuf, VarInt);
        if len.NotReady? { return NotReady; }
        if len.value.Err? { return Ready(Some(Err(len.value.error))); }
        state := InChunk(len.value.value);
      }
      r := PollChunk();
    }

    /** The turn of the loop in which a chunk is read and opened. A chunk that does not open is passed
        over: the next poll goes on behind it. */
    method PollChunk() returns (r: Poll<Option<Result<bytes>>>)
      requires Valid() && state.InChunk?
      modifies this, streamBuf, NonceOf(context)
      ensures Valid() && streamBuf.Measure() <= old(streamBuf.Measure())
      ensures r != Ready(None)
      ensures r.NotReady? || (r.value.Some? && r.value.value.Ok?) ==> Size() < old(Size())
      ensures old(Remaining()) == Unknown || Opens(r, old(Remaining()), Remaining())
      ensures r == Ready(Some(Err(BufferLimit))) || Opens(r, old(Content()), Content())
      ensures Waits(streamBuf.source) + (if r.NotReady? then 1 else 0) == old(Waits(streamBuf.source))
      ensures var n, o := old(state.len), ChunkOf(streamBuf.size, old(streamBuf.Flat()), old(state.len));
              o.Done? && r.Ready? && r != Ready(Some(Err(BufferLimit))) ==>
                && streamBuf.Flat() == o.rest && state == (if n == 0 then OpenState.Done else ChunkLen)
                && used == NextCall(aead, old(used), r.value.Some? && r.value.value.Ok?)
    {
      hide FieldOf, OpenAt, ChunkOf, Numbered, TrailOf, Data, AllData, Closing, Weight, Waits, Faults;
      var n := state.len;
      var c := PollSealed(n);
      if c.NotReady? { return NotReady; }
      if c.value.Err? { return Ready(Some(Err(c.value.error))); }
      state := if n == 0 then OpenState.Done else ChunkLen;
      var p := OpenInPlace(c.value.value, AadOf(n));
      return Ready(Some(if p.Some? then Ok(p.value) else Err(InvalidData)));
    }

    method OpenInPlace(c: bytes, aad: bytes) returns (p: Option<bytes>)
      requires context != null ==> context.At(aead, used)
      modifies this`used, NonceOf(context)
      ensures context != null ==> context.At(aead, used)
      ensures p == OpenAt(aead, old(used), aad, c)
      ensures used == NextCall(aead, old(used), p.Some?)
    {
      if context != null {
        p := context.OpenInPlace(c, aad);
      } else {
        p := OpenAt(aead, used, aad, c);
      }
      used := NextCall(aead, used, p.Some?);
    }

    method PollSealed(n: nat) returns (c: Poll<Result<bytes>>)
      requires streamBuf.Valid()
      modifies streamBuf
      ensures streamBuf.Valid() && streamBuf.Measure() <= old(streamBuf.Measure())
      ensures c.NotReady? ==> streamBuf.Flat() == old(streamBuf.Flat()) && streamBuf.Measure() < old(streamBuf.Measure())
      ensures c.Ready? && c.value.Ok? && n > 0 ==> streamBuf.Measure() < old(streamBuf.Measure())
      ensures Waits(streamBuf.source) + (if c.NotReady? then 1 else 0) == old(Waits(streamBuf.source))
      ensures c.Ready? ==> streamBuf.Settled(c.value, ChunkOf(streamBuf.maxBufSize, old(streamBuf.Flat()), n))
      ensures c.Ready? ==> streamBuf.Sound(c.value, ChunkOf(streamBuf.size, old(streamBuf.Flat()), n))
    {
      hide Take;
      if n == 0 {
        c := streamBuf.PollReadToEnd();
      } else {
        c := streamBuf.PollReadExact(n);
      }
    }
  }

  /** `out` is what has been handed out of `all`, and `rest` what has not. */
  ghost predicate Progress(all: Opened, out: Source, rest: Opened) {
    && Closing(out) == Eof
    && (Known(all) ==> Known(rest))
    && PlainText(all) == Data(out) + PlainText(rest)
    && EndOf(all) == EndOf(rest)
  }

  lemma ProgressEmit(all: Opened, out: Source, d: bytes, rest: Opened)
    requires Progress(all, out, Emit(d, rest))
    ensures Progress(all, Append(out, Chunk(d, End)), rest)
  {
    Appended(out, Chunk(d, End));
    assert Data(Chunk(d, End)) == d + [] == d;
  }

  lemma ProgressWait(all: Opened, out: Source, rest: Opened)
    requires Progress(all, out, rest)
    ensures Progress(all, Append(out, Pending(End)), rest)
  {
    Appended(out, Pending(End));
    assert Data(out) + [] == Data(out);
  }

  lemma ProgressEnd(all: Opened, out: Source, rest: Opened)
    requires Progress(all, out, rest)
    ensures rest == Finished ==> Data(out) == PlainText(all) && Closing(out) == EndOf(all)
    ensures rest.Stopped? ==> var t := Append(out, Fault(rest.error, End)); Data(t) == PlainText(all) && Closing(t) == EndOf(all)
  {
    if rest.Stopped? {
      Appended(out, Fault(rest.error, End));
    }
    assert Data(out) + [] == Data(out);
  }

  lemma ProgressStop(all: Opened, out: Source, rest: Opened, e: Error)
    requires Progress(all, out, rest)
    ensures var t := Append(out, Fault(e, End)); Data(t) <= PlainText(all) && Closing(t) == Broken(e)
  {
    Appended(out, Fault(e, End));
    assert Data(out) + [] == Data(out);
  }

  const EMPTY_LAST: Trail := Trail(true, true)

  lemma {:induction false} AppendedTrail(s: Source)
    requires Closing(s) == Eof
    ensures Announces(Append(s, Chunk([], End))) && forall after :: EndsOnChunk(Append(s, Chunk([], End)), after)
    ensures TrailOf(Append(s, Chunk([], End))) == EMPTY_LAST
  {
    Appended(s, Chunk([], End));
    match s
    case End =>
    case Chunk(d, n) => AppendedTrail(n);
    case Pending(n) => AppendedTrail(n);
  }

  /** A complete run of the opener over a section that ends as this sender ends it. */
  ghost predicate Trailing(all: Opened, out: Source, rest: Opened, done: bool) {
    EndsEmpty(all) ==> EndsEmpty(rest) || (done && TrailOf(out) == EMPTY_LAST)
  }

  lemma TrailingWait(all: Opened, out: Source, out': Source, rest: Opened)
    requires Trailing(all, out, rest, false)
    ensures Trailing(all, out', rest, false)
  {
  }

  lemma TrailingEnd(all: Opened, out: Source, done: bool)
    requires Trailing(all, out, Finished, done)
    ensures EndsEmpty(all) ==> TrailOf(out) == EMPTY_LAST
  {
  }

  lemma TrailingEmit(all: Opened, out: Source, d: bytes, rest: Opened, done: bool)
    requires Trailing(all, out, Emit(d, rest), false) && Progress(all, out, Emit(d, rest))
    requires rest == Finished ==> done
    ensures Trailing(all, Append(out, Chunk(d, End)), rest, done)
  {
    if rest == Finished && d == [] {
      AppendedTrail(out);
    }
  }

  lemma OnlyDoneFinishes(a: Aead, limit: nat, k: nat, st: OpenState, w: Wire)
    ensures OpenFrom(a, limit, k, st, w) == Finished ==> st.Done?
  {
    if st.ChunkLen? {
      var len := FieldOf(limit, w, VarInt);
      if len.Done? {
        assert OpenFrom(a, limit, k, st, w) == OpenFrom(a, limit, k, InChunk(len.value), len.rest);
      }
    }
  }

  /** The run so far: `out` of `all`, which the limit may have left unknown, and of `ideal`. */
  ghost predicate SoFar(all: Opened, ideal: Opened, out: Source, rest: Opened, content: Opened, done: bool) {
    && (Known(all) ==> Progress(all, out, rest) && Trailing(all, out, rest, done))
    && Progress(ideal, out, content)
  }

  function Extended(out: Source, r: Poll<Option<Result<bytes>>>): Source {
    match r
    case NotReady => Append(out, Pending(End))
    case Ready(None) => out
    case Ready(Some(Ok(d))) => Append(out, Chunk(d, End))
    case Ready(Some(Err(e))) => Append(out, Fault(e, End))
  }

  lemma SoFarStep(all: Opened, ideal: Opened, out: Source, rest: Opened, content: Opened, done: bool,
                  r: Poll<Option<Result<bytes>>>, rest': Opened, content': Opened, done': bool)
    requires SoFar(all, ideal, out, rest, content, done) && (done ==> r == Ready(None))
    requires r.NotReady? || (r.value.Some? && r.value.value.Ok?)
    requires (rest == Unknown || Opens(r, rest, rest')) && Opens(r, content, content')
    requires if r.NotReady? then done' == done else rest' == Finished ==> done'
    ensures SoFar(all, ideal, Extended(out, r), rest', content', done')
  {
    hide Append, Progress, PlainText, EndOf, Data, Closing, TrailOf, EndsEmpty, Trailing;
    assert Known(all) ==> rest != Unknown by { ProgressKnown(all, out, rest); }
    match r {
      case NotReady =>
        ProgressWait(ideal, out, content);
        if Known(all) {
          ProgressWait(all, out, rest);
          TrailingWait(all, out, Append(out, Pending(End)), rest);
        }
      case Ready(Some(Ok(b))) =>
        ProgressEmit(ideal, out, b, content');
        if Known(all) {
          ProgressEmit(all, out, b, rest');
          TrailingEmit(all, out, b, rest', done');
        }
    }
  }

  lemma ProgressKnown(all: Opened, out: Source, rest: Opened)
    ensures Known(all) && Progress(all, out, rest) ==> rest != Unknown
  {
  }

  lemma SoFarEnd(all: Opened, ideal: Opened, out: Source, rest: Opened, content: Opened, done: bool,
                 r: Poll<Option<Result<bytes>>>, rest': Opened, content': Opened)
    requires SoFar(all, ideal, out, rest, content, done)
    requires r.Ready? && (r.value.None? || r.value.value.Err?)
    requires rest == Unknown || Opens(r, rest, rest')
    requires r == Ready(Some(Err(BufferLimit))) || Opens(r, content, content')
    ensures var t := Extended(out, r);
            && (Known(all) ==> Data(t) == PlainText(all) && Closing(t) == EndOf(all))
            && (|| (Data(t) == PlainText(ideal) && Closing(t) == EndOf(ideal))
                || (Data(t) <= PlainText(ideal) && Closing(t) == Broken(BufferLimit)))
            && (Known(all) && EndsEmpty(all) && Closing(t) == Eof ==> TrailOf(t) == EMPTY_LAST)
  {
    hide Append, Progress, PlainText, EndOf, Data, Closing, TrailOf, EndsEmpty, Trailing;
    assert Known(all) ==> rest != Unknown by { ProgressKnown(all, out, rest); }
    if r.value.None? {
      ProgressEnd(ideal, out, content);
      if Known(all) { TrailingEnd(all, out, done); }
    } else {
      ProgressStop(ideal, out, content, r.value.value.error);
      if Opens(r, content, content') { ProgressEnd(ideal, out, content); }
    }
    if Known(all) { ProgressEnd(all, out, rest); }
  }

  /** Everything an opener hands out, poll by poll, up to its end or its first error: the plaintext of
      the flat opener and its ending; if a frame was too large for the buffer, a prefix and that
      error. After the frames of this sender the stream ends on an empty chunk. */
  method Drain(d: Decapsulated) returns (out: Source)
    requires d.Valid()
    modifies d, d.streamBuf, NonceOf(d.context)
    ensures Known(old(d.Remaining())) ==>
              Data(out) == PlainText(old(d.Remaining())) && Closing(out) == EndOf(old(d.Remaining()))
    ensures var all := old(d.Content());
            || (Data(out) == PlainText(all) && Closing(out) == EndOf(all))
            || (Data(out) <= PlainText(all) && Closing(out) == Broken(BufferLimit))
    ensures Known(old(d.Remaining())) && EndsEmpty(old(d.Remaining())) && Closing(out) == Eof ==>
              TrailOf(out) == EMPTY_LAST
  {
    ghost var all, ideal := d.Remaining(), d.Content();
    assert SoFar(all, ideal, End, all, ideal, d.state.Done?);
    hide OpenFrom, Append, PlainText, EndOf, Data, Closing, TrailOf, EndsEmpty, SoFar, Known, Extended, Opens;
    out := End;
    while true
      invariant d.Valid()
      invariant SoFar(all, ideal, out, d.Remaining(), d.Content(), d.state.Done?)
      decreases d.Size()
    {
      ghost var rest, content, done := d.Remaining(), d.Content(), d.state.Done?;
      var r := d.PollNext();
      if r.Ready? && (r.value.None? || r.value.value.Err?) {
        SoFarEnd(all, ideal, out, rest, content, done, r, d.Remaining(), d.Content());
        return Extended(out, r);
      }
      OnlyDoneFinishes(d.aead, d.streamBuf.maxBufSize, d.used, d.state, d.streamBuf.Flat());
      SoFarStep(all, ideal, out, rest, content, done, r, d.Remaining(), d.Content(), d.state.Done?);
      out := Extended(out, r);
    }
  }

  lemma {:induction false} Appended(s: Source, t: Source)
    ensures Closing(s) == Eof ==> Data(Append(s, t)) == Data(s) + Data(t) && Closing(Append(s, t)) == Closing(t)
  {
    match s
    case End =>
      assert [] + Data(t) == Data(t);
    case Chunk(d, n) =>
      Appended(n, t);
      HeadTaken(s);
      HeadTaken(Append(s, t));
      Assoc(d, Data(n), Data(t));
    case Pending(n) => Appended(n, t);
    case Fault(_, _) =>
  }

  /** Opening a message sealed whole. */
  method OpenWhole(aead: Aead, context: AeadContext?, sb: StreamBuf) returns (r: Result<bytes>)
    requires sb.Valid() && (context != null ==> context.At(aead, 0))
    modifies sb, NonceOf(context)
    ensures r == match ToEnd(old(sb.Flat()))
                 case Done(c, _) => (match OpenAt(aead, 0, NO_AAD, c) case Some(p) => Ok(p) case None => Err(InvalidData))
                 case Failed(e) => Err(e)
                 case Varies => Err(InvalidData)
  {
    var c := sb.ReadToEnd();
    if c.Err? { return Err(c.error); }
    var p := OpenAt(aead, 0, NO_AAD, c.value);
    if context != null {
      p := context.OpenInPlace(c.value, NO_AAD);
    }
    return if p.Some? then Ok(p.value) else Err(InvalidData);
  }
}
