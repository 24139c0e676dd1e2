/** Chunked OHTTP framing on flat byte strings: sealed chunks behind their lengths, then a zero and
    the final tag. */
module Framing {
  import opened Bytes
  import opened Varint
  import opened Streams
  import opened StreamOctets
  import opened Aead
  import L = BinaryLaws

  predicate SizedChunks(a: Aead, cs: seq<bytes>) {
    forall i :: 0 <= i < |cs| ==> |cs[i]| + a.tagLen <= MAX_VARINT
  }

  function Frame(a: Aead, k: nat, c: bytes): bytes
    requires |c| + a.tagLen <= MAX_VARINT
  {
    PutVarint(|c| + a.tagLen) + Sealed(a, k, NO_AAD, c)
  }

  /** The chunk section: call `k + i` seals `cs[i]`, and one more call seals the end. */
  function Frames(a: Aead, k: nat, cs: seq<bytes>): bytes
    requires SizedChunks(a, cs)
    decreases |cs|
  {
    if cs == [] then PutVarint(0) + Sealed(a, k, FINAL, [])
    else Frame(a, k, cs[0]) + Frames(a, k + 1, cs[1..])
  }

  // ---------- opening ----------

  datatype OpenState = ChunkLen | InChunk(len: nat) | Done

  /** What an opener hands out: plaintext chunks, then an end or an error. */
  datatype Opened = Emit(data: bytes, next: Opened) | Finished | Stopped(error: Error) | Unknown

  /** A sealed chunk of announced length; after a zero, everything that is left. */
  function ChunkOf(limit: nat, w: Wire, n: nat): (o: Outcome<bytes>)
    ensures n > 0 && o.Done? ==> |o.rest.bytes| < |w.bytes|
  {
    if n == 0 then ToEnd(w) else Take(limit, w, n)
  }

  function AadOf(n: nat): bytes {
    if n == 0 then FINAL else NO_AAD
  }

  function OpenFrom(a: Aead, limit: nat, k: nat, st: OpenState, w: Wire): Opened
    decreases |w.bytes|, if st.ChunkLen? then 1 else 0
  {
    match st
    case Done => Finished
    case ChunkLen =>
      (match FieldOf(limit, w, VarInt)
       case Failed(e) => Stopped(e)
       case Varies => Unknown
       case Done(n, rest) => OpenFrom(a, limit, k, InChunk(n), rest))
    case InChunk(n) =>
      (match ChunkOf(limit, w, n)
       case Failed(e) => Stopped(e)
       case Varies => Unknown
       case Done(c, rest) =>
         (match OpenAt(a, k, AadOf(n), c)
          case None => Stopped(InvalidData)
          case Some(p) => Emit(p, if n == 0 then Finished else OpenFrom(a, limit, k + 1, ChunkLen, rest))))
  }

  function PlainText(o: Opened): bytes {
    match o
    case Emit(d, n) => d + PlainText(n)
    case _ => []
  }

  predicate Known(o: Opened) {
    match o
    case Emit(_, n) => Known(n)
    case Unknown => false
    case _ => true
  }

  function EndOf(o: Opened): Ending {
    match o
    case Emit(_, n) => EndOf(n)
    case Stopped(e) => Broken(e)
    case _ => Eof
  }

  /** The chunks one by one, then the empty plaintext of the final frame, then the end. */
  function Listed(cs: seq<bytes>): Opened {
    if cs == [] then Emit([], Finished) else Emit(cs[0], Listed(cs[1..]))
  }

  predicate FramesFit(a: Aead, cs: seq<bytes>, limit: nat) {
    forall i :: 0 <= i < |cs| ==> |cs[i]| + a.tagLen <= limit + 1
  }

  lemma OpenFrame(a: Aead, limit: nat, k: nat, len: bytes, sealed: bytes, p: bytes, rest: bytes, e: Ending)
    requires FieldOf(limit, Wire(len + (sealed + rest), e), VarInt) == Outcome.Done(|sealed|, Wire(sealed + rest, e))
    requires 0 < |sealed| <= limit + 1
    requires OpenAt(a, k, NO_AAD, sealed) == Some(p)
    ensures OpenFrom(a, limit, k, ChunkLen, Wire(len + (sealed + rest), e)) ==
            Emit(p, OpenFrom(a, limit, k + 1, ChunkLen, Wire(rest, e)))
  {
    L.ReadTake(limit, sealed, rest, e);
    assert OpenFrom(a, limit, k, ChunkLen, Wire(len + (sealed + rest), e))
        == OpenFrom(a, limit, k, InChunk(|sealed|), Wire(sealed + rest, e));
  }

  /** A final frame opens to what it was sealed over; this sender seals nothing there, but data would
      be handed out. */
  lemma FinalFrameOpens(a: Aead, limit: nat, k: nat, d: bytes)
    requires Lawful(a) && L.Roomy(limit) && k < a.messages
    ensures OpenFrom(a, limit, k, ChunkLen, Wire(PutVarint(0) + Sealed(a, k, FINAL, d), Eof)) == Emit(d, Finished)
  {
    hide PutVarint, Sealed, OpenAt, FieldOf, Lawful;
    var sealed := Sealed(a, k, FINAL, d);
    SealedOpens(a, k, FINAL, d);
    L.ReadVarint(limit, 0, sealed, Eof);
    assert OpenFrom(a, limit, k, ChunkLen, Wire(PutVarint(0) + sealed, Eof)) == OpenFrom(a, limit, k, InChunk(0), Wire(sealed, Eof));
  }

  /** A chunk passed off as the final frame is refused by any cipher that tells the associated data
      `final` from none. */
  lemma ChunkIsNotFinal(a: Aead, limit: nat, k: nat, c: bytes)
    requires L.Roomy(limit)
    requires a.open(k, [102, 105, 110, 97, 108], Sealed(a, k, [], c)) == None
    ensures OpenFrom(a, limit, k, ChunkLen, Wire(PutVarint(0) + Sealed(a, k, [], c), Eof)) == Stopped(InvalidData)
  {
    hide PutVarint, Sealed, FieldOf;
    var sealed := Sealed(a, k, [], c);
    L.ReadVarint(limit, 0, sealed, Eof);
    assert OpenFrom(a, limit, k, ChunkLen, Wire(PutVarint(0) + sealed, Eof)) == OpenFrom(a, limit, k, InChunk(0), Wire(sealed, Eof));
  }

  /** And the final frame, passed off as a chunk. */
  lemma FinalIsNotChunk(a: Aead, limit: nat, k: nat, d: bytes, rest: bytes, e: Ending)
    requires L.Roomy(limit) && 0 < |Sealed(a, k, [102, 105, 110, 97, 108], d)| <= MAX_VARINT
    requires |Sealed(a, k, [102, 105, 110, 97, 108], d)| <= limit + 1
    requires a.open(k, [], Sealed(a, k, [102, 105, 110, 97, 108], d)) == None
    ensures var sealed := Sealed(a, k, [102, 105, 110, 97, 108], d);
            OpenFrom(a, limit, k, ChunkLen, Wire(PutVarint(|sealed|) + (sealed + rest), e)) == Stopped(InvalidData)
  {
    var sealed := Sealed(a, k, [102, 105, 110, 97, 108], d);
    FrameRefused(a, limit, k, sealed, rest, e);
  }

  /** A chunk out of its turn is refused by any cipher that tells the two calls apart. */
  lemma OutOfTurn(a: Aead, limit: nat, k: nat, k': nat, c: bytes, rest: bytes, e: Ending)
    requires Lawful(a) && L.Roomy(limit) && |c| + a.tagLen <= MAX_VARINT && |c| + a.tagLen <= limit + 1
    requires a.open(k, [], Sealed(a, k', [], c)) == None
    ensures OpenFrom(a, limit, k, ChunkLen, Wire(Frame(a, k', c) + rest, e)) == Stopped(InvalidData)
  {
    hide PutVarint, Sealed, OpenFrom, Lawful;
    TagPositive(a);
    SealedOpens(a, k', NO_AAD, c);
    var len, sealed := PutVarint(|c| + a.tagLen), Sealed(a, k', NO_AAD, c);
    Assoc(len, sealed, rest);
    FrameRefused(a, limit, k, sealed, rest, e);
  }

  lemma FrameRefused(a: Aead, limit: nat, k: nat, sealed: bytes, rest: bytes, e: Ending)
    requires L.Roomy(limit) && 0 < |sealed| <= MAX_VARINT && |sealed| <= limit + 1 && a.open(k, [], sealed) == None
    ensures OpenFrom(a, limit, k, ChunkLen, Wire(PutVarint(|sealed|) + (sealed + rest), e)) == Stopped(InvalidData)
  {
    hide PutVarint, FieldOf;
    L.ReadVarint(limit, |sealed|, sealed + rest, e);
    L.ReadTake(limit, sealed, rest, e);
    assert OpenFrom(a, limit, k, ChunkLen, Wire(PutVarint(|sealed|) + (sealed + rest), e))
        == OpenFrom(a, limit, k, InChunk(|sealed|), Wire(sealed + rest, e));
  }

  /** Opening a sealed chunk section gives back its chunks, in order and one by one. */
  lemma {:induction false} FramesOpen(a: Aead, limit: nat, k: nat, cs: seq<bytes>)
    requires Lawful(a) && L.Roomy(limit) && SizedChunks(a, cs) && FramesFit(a, cs, limit)
    requires k + |cs| < a.messages
    ensures OpenFrom(a, limit, k, ChunkLen, Wire(Frames(a, k, cs), Eof)) == Listed(cs)
    decreases |cs|
  {
    hide PutVarint, Sealed, OpenAt, FieldOf, Lawful;
    if cs == [] {
      FinalFrameOpens(a, limit, k, []);
    } else {
      var len, sealed, rest := PutVarint(|cs[0]| + a.tagLen), Sealed(a, k, NO_AAD, cs[0]), Frames(a, k + 1, cs[1..]);
      SealedOpens(a, k, NO_AAD, cs[0]);
      assert (len + sealed) + rest == len + (sealed + rest);
      L.ReadVarint(limit, |sealed|, sealed + rest, Eof);
      TagPositive(a);
      OpenFrame(a, limit, k, len, sealed, cs[0], rest, Eof);
      FramesOpen(a, limit, k + 1, cs[1..]);
    }
  }

  lemma TagPositive(a: Aead)
    requires Lawful(a)
    ensures a.tagLen > 0
  {
  }

  /** The opener handed out some of the chunks and then an error, never an end. */
  predicate StopsWithin(o: Opened, cs: seq<bytes>) {
    match o
    case Stopped(_) => true
    case Emit(d, n) => cs != [] && d == cs[0] && StopsWithin(n, cs[1..])
    case _ => false
  }

  /** Any prefix of a chunk section that is not all of it, or that breaks off: an error before any end,
      and before it only chunks of the original, in order. */
  lemma {:induction false} FramesTruncated(a: Aead, limit: nat, k: nat, cs: seq<bytes>, p: bytes, e: Ending)
    requires Lawful(a) && L.Roomy(limit) && SizedChunks(a, cs) && FramesFit(a, cs, limit)
    requires k + |cs| < a.messages
    requires p <= Frames(a, k, cs) && (p < Frames(a, k, cs) || e.Broken?)
    ensures StopsWithin(OpenFrom(a, limit, k, ChunkLen, Wire(p, e)), cs)
    decreases |cs|
  {
    hide PutVarint, Sealed, OpenAt, FieldOf, Lawful, Take;
    if cs == [] {
      var sealed := Sealed(a, k, FINAL, []);
      SealedOpens(a, k, FINAL, []);
      L.SplitPrefix(p, PutVarint(0), sealed);
      if p < PutVarint(0) {
        L.VarintCut(limit, 0, p, e);
      } else {
        var cut := p[|PutVarint(0)|..];
        L.ReadVarint(limit, 0, cut, e);
        if e.Eof? { TooShort(a, k, FINAL, cut); }
        assert OpenFrom(a, limit, k, ChunkLen, Wire(p, e)) == OpenFrom(a, limit, k, InChunk(0), Wire(cut, e));
      }
    } else {
      FrameTruncated(a, limit, k, cs[0], Frames(a, k + 1, cs[1..]), p, e);
      var full := Frame(a, k, cs[0]);
      L.SplitPrefix(p, full, Frames(a, k + 1, cs[1..]));
      if |full| <= |p| {
        FramesTruncated(a, limit, k + 1, cs[1..], p[|full|..], e);
      }
    }
  }

  /** A prefix that stops inside a frame is an error; one that goes past it opens the frame first. */
  lemma FrameTruncated(a: Aead, limit: nat, k: nat, c: bytes, more: bytes, p: bytes, e: Ending)
    requires Lawful(a) && L.Roomy(limit) && |c| + a.tagLen <= MAX_VARINT && |c| + a.tagLen <= limit + 1
    requires k < a.messages && p <= Frame(a, k, c) + more
    ensures var o := OpenFrom(a, limit, k, ChunkLen, Wire(p, e));
            var n := |Frame(a, k, c)|;
            if |p| < n then o.Stopped? else o == Emit(c, OpenFrom(a, limit, k + 1, ChunkLen, Wire(p[n..], e)))
  {
    hide PutVarint, Sealed, OpenAt, FieldOf, Lawful;
    TagPositive(a);
    SealedOpens(a, k, NO_AAD, c);
    var len, sealed := PutVarint(|c| + a.tagLen), Sealed(a, k, NO_AAD, c);
    Assoc(len, sealed, more);
    L.SplitPrefix(p, len, sealed + more);
    if p < len {
      L.VarintCut(limit, |c| + a.tagLen, p, e);
    } else {
      var cut := p[|len|..];
      L.ReadVarint(limit, |sealed|, cut, e);
      L.SplitPrefix(cut, sealed, more);
      if cut < sealed {
        assert OpenFrom(a, limit, k, ChunkLen, Wire(p, e)) == OpenFrom(a, limit, k, InChunk(|sealed|), Wire(cut, e));
      } else {
        hide OpenFrom;
        assert cut[|sealed|..] == p[|len| + |sealed|..];
        OpenFrame(a, limit, k, len, sealed, c, cut[|sealed|..], e);
      }
    }
  }

  /** What stops within the chunks has handed out a prefix of their concatenation. */
  lemma {:induction false} StopsWithinPrefix(o: Opened, cs: seq<bytes>)
    requires StopsWithin(o, cs)
    ensures PlainText(o) <= Joined(cs)
    ensures EndOf(o).Broken? && Known(o)
    decreases |cs|
  {
    if o.Emit? {
      StopsWithinPrefix(o.next, cs[1..]);
    }
  }

  /** Limits that are no smaller than the input are all the same. */
  lemma {:induction false} OpenUnlimited(a: Aead, limit: nat, limit': nat, k: nat, st: OpenState, w: Wire)
    requires |w.bytes| <= limit && |w.bytes| <= limit'
    ensures OpenFrom(a, limit, k, st, w) == OpenFrom(a, limit', k, st, w)
    decreases |w.bytes|, if st.ChunkLen? then 1 else 0
  {
    hide OpenAt;
    if st.ChunkLen? {
      var len := FieldOf(limit, w, VarInt);
      if len.Done? {
        OpenUnlimited(a, limit, limit', k, InChunk(len.value), len.rest);
      }
    } else if st.InChunk? && st.len > 0 {
      var c := ChunkOf(limit, w, st.len);
      if c.Done? {
        OpenUnlimited(a, limit, limit', k + 1, ChunkLen, c.rest);
      }
    }
  }

  lemma {:induction false} JoinedFit(a: Aead, cs: seq<bytes>, limit: nat)
    requires |Joined(cs)| + a.tagLen <= limit
    ensures FramesFit(a, cs, limit)
  {
    if cs != [] {
      JoinedFit(a, cs[1..], limit);
      assert forall i :: 0 < i < |cs| ==> cs[i] == cs[1..][i - 1];
    }
  }

  function Joined(cs: seq<bytes>): bytes {
    if cs == [] then [] else cs[0] + Joined(cs[1..])
  }

  /** The last thing handed out before the end is the empty plaintext of a final frame. */
  predicate EndsEmpty(o: Opened) {
    match o
    case Emit(d, n) => (d == [] && n == Finished) || EndsEmpty(n)
    case _ => false
  }

  lemma {:induction false} ListedText(cs: seq<bytes>)
    ensures PlainText(Listed(cs)) == Joined(cs) && EndsEmpty(Listed(cs))
    ensures EndOf(Listed(cs)) == Eof && Known(Listed(cs))
  {
    if cs != [] { ListedText(cs[1..]); }
  }
}
