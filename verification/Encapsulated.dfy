/** The sealing state machine of crates/ohttp-hpke/src/encapsulated.rs. */
module Encapsulated {
  import opened Bytes
  import opened Varint
  import opened Streams
  import opened StreamBuf
  import opened OctetsMut
  import opened Aead
  import opened Framing

  /** Every chunk of the source can be sealed behind a varint length. */
  ghost predicate Sealable(a: Aead, s: Source) {
    Lawful(a) && ChunksAtMost(s, MAX_VARINT - a.tagLen)
  }

  lemma SealLengths(a: Aead, k: nat, aad: bytes, p: bytes)
    requires Lawful(a)
    ensures |a.seal(k, aad, p).0| == |p| && |a.seal(k, aad, p).1| == a.tagLen
  {
    assert SealsAt(a, k, aad, p);
  }

  /** The whole run of the chunked sealer over a source, from call `k` on: for each non-empty chunk
      a length, the ciphertext and the tag, with nothing in between; waits and source errors only
      between frames; then a zero and the final tag, then nothing. */
  ghost function SealTrace(a: Aead, k: nat, s: Source): Source
    requires Sealable(a, s)
    decreases s
  {
    match s
    case End => Chunk(PutVarint(0), Chunk(a.seal(k, FINAL, []).1, End))
    case Pending(n) => Pending(SealTrace(a, k, n))
    case Fault(e, n) => Fault(e, SealTrace(a, k, n))
    case Chunk(d, n) =>
      if d == [] then Chunk([], SealTrace(a, k, n))
      else
        SealLengths(a, k, NO_AAD, d);
        var (ct, tag) := a.seal(k, NO_AAD, d);
        Chunk(PutVarint(|ct| + |tag|), Chunk(ct, Chunk(tag, SealTrace(a, k + 1, n))))
  }

  /** The run of the non-chunked sealer: everything is gathered, then sealed at once. */
  function WholeTrace(a: Aead, k: nat, held: bytes, s: Source): Source
    decreases s
  {
    match s
    case End => Chunk(a.seal(k, NO_AAD, held).0, Chunk(a.seal(k, NO_AAD, held).1, End))
    case Pending(n) => Pending(WholeTrace(a, k, held, n))
    case Fault(e, n) => Fault(e, WholeTrace(a, k, held, n))
    case Chunk(d, n) => WholeTrace(a, k, held + d, n)
  }

  lemma {:induction false} WholeTraceAbsorbs(a: Aead, k: nat, held: bytes, s: Source)
    ensures WholeTrace(a, k, held, s) == WholeTrace(a, k, Absorb(held, s).0, Absorb(held, s).1)
    decreases s
  {
    if s.Chunk? { WholeTraceAbsorbs(a, k, held + s.data, s.next); }
  }

  /** One call for each non-empty chunk and one for the end. */
  function SealCount(s: Source): nat {
    match s
    case End => 1
    case Chunk(d, n) => (if d == [] then 0 else 1) + SealCount(n)
    case Pending(n) => SealCount(n)
    case Fault(_, n) => SealCount(n)
  }

  method EncodedLen(len: nat) returns (b: bytes)
    requires len <= MAX_VARINT
    ensures b == PutVarint(len)
  {
    var octets := new OctetsMut(VarintLen(len));
    var ok := octets.PutVarint(len);
    assert ok;
    assert [] + PutVarint(len) == PutVarint(len);
    b := octets.Finish();
  }

  datatype SealState = NonChunked | Chunked(tag: Option<bytes>) | Done

  /** The sealer is the response context with its nonce counter, or, for a request, a foreign context
      of which only the numbering is known; `used` is the number of its next call. */
  class Encapsulated {
    const aead: Aead
    const context: AeadContext?
    const streamBuf: StreamBuf
    var used: nat
    var state: SealState
    var chunk: Option<bytes>

    constructor (aead: Aead, context: AeadContext?, chunked: bool, initialChunk: bytes, streamBuf: StreamBuf)
      requires streamBuf.Valid() && Lawful(aead)
      requires context != null ==> context.At(aead, 0)
      requires chunked ==> Sealable(aead, streamBuf.Out())
      ensures Valid() && this.streamBuf == streamBuf && this.aead == aead && this.context == context && used == 0
      ensures Owed() == if chunked then SealCount(streamBuf.Out()) else 1
      ensures Out() == Chunk(initialChunk, if chunked then SealTrace(aead, 0, streamBuf.Out())
                                           else WholeTrace(aead, 0, streamBuf.buf, streamBuf.source))
    {
      this.aead := aead;
      this.context := context;
      this.streamBuf := streamBuf;
      this.used := 0;
      this.state := if chunked then Chunked(None) else NonChunked;
      this.chunk := Some(initialChunk);
    }

    ghost predicate Valid()
      reads this, streamBuf, NonceOf(context)
    {
      && streamBuf.Valid() && Lawful(aead) && (state.Chunked? ==> Sealable(aead, streamBuf.Out()))
      && (context != null ==> context.At(aead, used))
    }

    ghost function Rest(): Source
      reads this, streamBuf, NonceOf(context)
      requires Valid()
    {
      match state
      case Done => End
      case NonChunked => WholeTrace(aead, used, streamBuf.buf, streamBuf.source)
      case Chunked(None) => SealTrace(aead, used, streamBuf.Out())
      case Chunked(Some(tag)) => Chunk(tag, SealTrace(aead, used, streamBuf.Out()))
    }

    /** Everything this stream will still emit. */
    ghost function Out(): Source
      reads this, streamBuf, NonceOf(context)
      requires Valid()
    {
      if chunk.Some? then Chunk(chunk.value, Rest()) else Rest()
    }

    /** How many calls the rest of the run makes to the sealer. */
    ghost function Owed(): nat
      reads this, streamBuf
    {
      match state
      case Done => 0
      case NonChunked => 1
      case Chunked(_) => SealCount(streamBuf.Out())
    }

    /** The poll emits the next item of a run, at the price of the calls it owes. */
    twostate predicate Stepped(new r: Poll<Option<Result<bytes>>>, before: Source)
      requires Valid()
      reads this, streamBuf, NonceOf(context)
    {
      Emits(before, r, Out()) && used + Owed() == old(used + Owed())
    }

    /** The poll needed the sealer after its last call; the counter goes where such a call takes it. */
    twostate predicate Refused(new r: Poll<Option<Result<bytes>>>)
      reads this
    {
      && r == Ready(Some(Err(InvalidData)))
      && old(used) >= aead.messages && used == NextCall(aead, old(used), false)
    }

    /** The next poll cannot answer without the sealer. */
    ghost predicate NeedsSealer()
      reads this, streamBuf
    {
      && chunk.None?
      && match state
         case Done => false
         case NonChunked => Absorb(streamBuf.buf, streamBuf.source).1.End?
         case Chunked(tag) => tag.None? && var s := streamBuf.Out(); s.End? || (s.Chunk? && s.data != [])
    }

    /** Each poll emits the next item of the run, except that it is refused exactly when it needs the
        sealer after its last call. With an eager counter the polls after a refusal seal again, under
        numbers already used. */
    method PollNext() returns (r: Poll<Option<Result<bytes>>>)
      requires Valid()
      modifies this, streamBuf, NonceOf(context)
      ensures Valid()
      ensures if old(used >= aead.messages && NeedsSealer()) then Refused(r) else Stepped(r, old(Out()))
      ensures old(used + Owed()) <= aead.messages ==> Stepped(r, old(Out()))
      ensures r == Ready(None) ==> Owed() == 0
    {
      if chunk.Some? {
        r := Ready(Some(Ok(chunk.value)));
        chunk := None;
        return;
      }
      match state {
        case Done =>
          return Ready(None);
        case NonChunked =>
          r := PollWhole();
        case Chunked(Some(tag)) =>
          state := Chunked(None);
          return Ready(Some(Ok(tag)));
        case Chunked(None) =>
          r := PollChunk();
      }
    }

    method PollWhole() returns (r: Poll<Option<Result<bytes>>>)
      requires Valid() && chunk.None? && state == NonChunked
      modifies this, streamBuf, NonceOf(context)
      ensures Valid()
      ensures if old(used >= aead.messages && NeedsSealer()) then Refused(r) else Stepped(r, old(Rest()))
      ensures old(used + Owed()) <= aead.messages ==> Stepped(r, old(Rest()))
      ensures r != Ready(None)
    {
      WholeTraceAbsorbs(aead, used, streamBuf.buf, streamBuf.source);
      var p := streamBuf.PollReadToEnd();
      if p.NotReady? { return NotReady; }
      if p.value.Err? { return Ready(Some(Err(p.value.error))); }
      var sealed := SealInPlace(p.value.value, NO_AAD);
      if sealed.None? { return Ready(Some(Err(InvalidData))); }
      chunk := Some(sealed.value.1);
      state := SealState.Done;
      return Ready(Some(Ok(sealed.value.0)));
    }

    method SealInPlace(p: bytes, aad: bytes) returns (r: Option<(bytes, bytes)>)
      requires context != null ==> context.At(aead, used)
      modifies this`used, NonceOf(context)
      ensures context != null ==> context.At(aead, used)
      ensures r == if old(used) < aead.messages then Some(aead.seal(old(used), aad, p)) else None
      ensures used == NextCall(aead, old(used), r.Some?)
    {
      if context != null {
        r := context.SealInPlace(p, aad);
      } else {
        r := if used < aead.messages then Some(aead.seal(used, aad, p)) else None;
      }
      used := NextCall(aead, used, r.Some?);
    }

    /** A length and a ciphertext, with the tag held back; or the refusal. */
    method SealChunk(d: bytes) returns (r: Poll<Option<Result<bytes>>>)
      requires Lawful(aead) && |d| <= MAX_VARINT - aead.tagLen
      requires context != null ==> context.At(aead, used)
      modifies this`used, this`chunk, this`state, NonceOf(context)
      ensures context != null ==> context.At(aead, used)
      ensures if old(used) < aead.messages then
                var sealed := aead.seal(old(used), NO_AAD, d);
                && |sealed.0| == |d| && |sealed.1| == aead.tagLen
                && r == Ready(Some(Ok(PutVarint(|sealed.0| + |sealed.1|))))
                && used == old(used) + 1 && chunk == Some(sealed.0) && state == Chunked(Some(sealed.1))
              else
                && r == Ready(Some(Err(InvalidData))) && used == NextCall(aead, old(used), false)
                && chunk == old(chunk) && state == old(state)
    {
      SealLengths(aead, used, NO_AAD, d);
      var sealed := SealInPlace(d, NO_AAD);
      if sealed.None? { return Ready(Some(Err(InvalidData))); }
      var (ct, tag) := sealed.value;
      var len := EncodedLen(|ct| + |tag|);
      chunk := Some(ct);
      state := Chunked(Some(tag));
      return Ready(Some(Ok(len)));
    }

    /** A zero, with the tag of the end held back; or the refusal. */
    method SealEnd() returns (r: Poll<Option<Result<bytes>>>)
      requires context != null ==> context.At(aead, used)
      modifies this`used, this`chunk, this`state, NonceOf(context)
      ensures context != null ==> context.At(aead, used)
      ensures if old(used) < aead.messages then
                && r == Ready(Some(Ok(PutVarint(0)))) && used == old(used) + 1
                && chunk == Some(aead.seal(old(used), FINAL, []).1) && state == SealState.Done
              else
                && r == Ready(Some(Err(InvalidData))) && used == NextCall(aead, old(used), false)
                && chunk == old(chunk) && state == old(state)
    {
      var sealed := SealInPlace([], FINAL);
      if sealed.None? { return Ready(Some(Err(InvalidData))); }
      var zero := EncodedLen(0);
      chunk := Some(sealed.value.1);
      state := SealState.Done;
      return Ready(Some(Ok(zero)));
    }

    method PollChunk() returns (r: Poll<Option<Result<bytes>>>)
      requires Valid() && chunk.None? && state == Chunked(None)
      modifies this, streamBuf, NonceOf(context)
      ensures Valid()
      ensures if old(used >= aead.messages && NeedsSealer()) then Refused(r) else Stepped(r, old(Rest()))
      ensures old(used + Owed()) <= aead.messages ==> Stepped(r, old(Rest()))
      ensures r != Ready(None)
    {
      hide PutVarint, Lawful, Numbered, TrailOf, Data, AllData, Weight;
      var p := streamBuf.PollNext();
      if p.NotReady? { return NotReady; }
      if p.value.None? {
        r := SealEnd();
        return;
      }
      if p.value.value.Err? { return Ready(Some(Err(p.value.value.error))); }
      var d := p.value.value.value;
      if d == [] { return Ready(Some(Ok([]))); }
      r := SealChunk(d);
    }
  }

  /** Polled to its end, with calls enough for the whole run, the stream emits exactly that run and
      makes exactly the calls it owed. */
  method Drain(e: Encapsulated) returns (out: Source)
    requires e.Valid() && e.used + e.Owed() <= e.aead.messages
    modifies e, e.streamBuf, NonceOf(e.context)
    ensures out == old(e.Out())
    ensures e.used == old(e.used + e.Owed())
  {
    hide SealTrace, WholeTrace, SealCount;
    out := End;
    ghost var all := e.Out();
    while true
      invariant e.Valid() && e.used + e.Owed() == old(e.used + e.Owed())
      invariant Append(out, e.Out()) == all
      decreases e.Out()
    {
      ghost var rest := e.Out();
      var r := e.PollNext();
      match r {
        case NotReady =>
          AppendStep(out, rest);
          out := Append(out, Pending(End));
        case Ready(None) =>
          AppendEnd(out);
          return;
        case Ready(Some(Ok(b))) =>
          AppendStep(out, rest);
          out := Append(out, Chunk(b, End));
        case Ready(Some(Err(x))) =>
          AppendStep(out, rest);
          out := Append(out, Fault(x, End));
      }
    }
  }

  lemma {:induction false} AppendEnd(s: Source)
    ensures Append(s, End) == s
  {
    match s
    case End =>
    case Chunk(_, n) => AppendEnd(n);
    case Pending(n) => AppendEnd(n);
    case Fault(_, n) => AppendEnd(n);
  }

  /** The head of `t` can be moved to the end of `s`. */
  lemma {:induction false} AppendStep(s: Source, t: Source)
    requires !t.End?
    ensures Append(s, t) == match t
                            case Chunk(d, n) => Append(Append(s, Chunk(d, End)), n)
                            case Pending(n) => Append(Append(s, Pending(End)), n)
                            case Fault(e, n) => Append(Append(s, Fault(e, End)), n)
  {
    match s
    case End =>
    case Chunk(_, m) => AppendStep(m, t);
    case Pending(m) => AppendStep(m, t);
    case Fault(_, m) => AppendStep(m, t);
  }

  // ---------- the bytes of a run ----------

  lemma {:induction false} SealCountChunks(s: Source)
    ensures Closing(s) == Eof ==> SealCount(s) == |Chunks(s)| + 1
  {
    match s
    case End =>
    case Fault(_, _) =>
    case Pending(n) => SealCountChunks(n);
    case Chunk(_, n) => SealCountChunks(n);
  }

  lemma {:induction false} ChunksJoined(s: Source)
    ensures Joined(Chunks(s)) == Data(s)
  {
    match s
    case End =>
    case Fault(_, _) =>
    case Pending(n) => ChunksJoined(n);
    case Chunk(d, n) =>
      ChunksJoined(n);
      if d == [] {
        assert [] + Chunks(n) == Chunks(n);
      } else {
        assert ([d] + Chunks(n))[1..] == Chunks(n);
      }
  }

  lemma {:induction false} ChunksSized(a: Aead, s: Source, m: nat)
    requires ChunksAtMost(s, m)
    ensures forall i :: 0 <= i < |Chunks(s)| ==> 0 < |Chunks(s)[i]| <= m
  {
    match s
    case End =>
    case Fault(_, _) =>
    case Pending(n) => ChunksSized(a, n, m);
    case Chunk(_, n) => ChunksSized(a, n, m);
  }

  /** A run without a source error puts the flat chunk section on the wire, numbering its calls as
      the opener will. */
  lemma {:induction false} SealTraceBytes(a: Aead, k: nat, s: Source)
    requires Sealable(a, s) && Closing(s) == Eof
    ensures SizedChunks(a, Chunks(s))
    ensures Data(SealTrace(a, k, s)) == Frames(a, k, Chunks(s))
    ensures Closing(SealTrace(a, k, s)) == Eof
    decreases s
  {
    hide PutVarint;
    ChunksSized(a, s, MAX_VARINT - a.tagLen);
    match s
    case End =>
      SealLengths(a, k, FINAL, []);
      FinalTag(a, k);
      assert Data(Chunk(a.seal(k, FINAL, []).1, End)) == a.seal(k, FINAL, []).1 + [];
    case Pending(n) => SealTraceBytes(a, k, n);
    case Chunk(d, n) =>
      if d == [] {
        SealTraceBytes(a, k, n);
        assert [] + Chunks(n) == Chunks(n);
      } else {
        SealTraceBytes(a, k + 1, n);
        SealLengths(a, k, NO_AAD, d);
        var (ct, tag) := a.seal(k, NO_AAD, d);
        var len, rest := PutVarint(|ct| + |tag|), Frames(a, k + 1, Chunks(n));
        FrameEvents(len, ct, tag, SealTrace(a, k + 1, n));
        FramesFront(a, k, d, Chunks(n));
      }
  }

  lemma FramesFront(a: Aead, k: nat, d: bytes, cs: seq<bytes>)
    requires SizedChunks(a, cs) && |d| + a.tagLen <= MAX_VARINT
    ensures SizedChunks(a, [d] + cs) && Frames(a, k, [d] + cs) == Frame(a, k, d) + Frames(a, k + 1, cs)
  {
    hide PutVarint, Sealed;
    assert ([d] + cs)[1..] == cs;
  }

  lemma FrameEvents(len: bytes, ct: bytes, tag: bytes, next: Source)
    ensures var s := Chunk(len, Chunk(ct, Chunk(tag, next)));
            Data(s) == (len + (ct + tag)) + Data(next) && Closing(s) == Closing(next)
  {
    var s1 := Chunk(tag, next);
    var s2 := Chunk(ct, s1);
    assert Data(s1) == tag + Data(next) && Closing(s1) == Closing(next);
    assert Data(s2) == ct + (tag + Data(next)) && Closing(s2) == Closing(s1);
    assert len + (ct + (tag + Data(next))) == (len + (ct + tag)) + Data(next);
  }

  lemma FinalTag(a: Aead, k: nat)
    requires |a.seal(k, FINAL, []).0| == 0
    ensures PutVarint(0) + (a.seal(k, FINAL, []).1 + []) == PutVarint(0) + Sealed(a, k, FINAL, [])
  {
    hide PutVarint;
    var (ct, tag) := a.seal(k, FINAL, []);
    assert ct == [];
    assert tag + [] == [] + tag;
  }

  lemma {:induction false} WholeTraceBytes(a: Aead, k: nat, held: bytes, s: Source)
    requires Closing(s) == Eof
    ensures Data(WholeTrace(a, k, held, s)) == Sealed(a, k, NO_AAD, held + Data(s))
    ensures Closing(WholeTrace(a, k, held, s)) == Eof
    decreases s
  {
    match s
    case End =>
      assert held + [] == held;
      var (ct, tag) := a.seal(k, NO_AAD, held);
      assert ct + (tag + []) == ct + tag;
    case Pending(n) => WholeTraceBytes(a, k, held, n);
    case Chunk(d, n) =>
      WholeTraceBytes(a, k, held + d, n);
      assert (held + d) + Data(n) == held + (d + Data(n));
  }
}
