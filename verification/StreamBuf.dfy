/** The resumable reader of crates/stream-buf: a buffer in front of a chunked source. */
module StreamBuf {
  import opened Bytes
  import opened Streams

  const DEFAULT_MAX_BUF_SIZE: nat := 10 * 1024 * 1024

  /** Taking `b` off a buffer that `more` has reached takes it off everything unread. */
  lemma Fronts(before: bytes, more: bytes, b: bytes, buf: bytes, tail: bytes)
    requires b + buf == before + more
    ensures before + (more + tail) == b + (buf + tail)
    ensures (before + (more + tail))[..|b|] == b
    ensures (before + (more + tail))[|b|..] == buf + tail
  {
    assert before + (more + tail) == (b + buf) + tail;
  }

  lemma Halves(buf: bytes, tail: bytes, len: nat)
    requires len <= |buf|
    ensures (buf + tail)[..len] == buf[..len]
    ensures (buf + tail)[len..] == buf[len..] + tail
    ensures buf + tail == buf[..len] + (buf[len..] + tail)
  {
  }

  class StreamBuf {
    const maxBufSize: nat
    var buf: bytes
    var source: Source
    ghost const size: nat

    /** `size` is any bound on the bytes the reader will ever hold. */
    constructor (source: Source, maxBufSize: nat := DEFAULT_MAX_BUF_SIZE, ghost size: nat := |AllData(source)|)
      requires |AllData(source)| <= size
      ensures Valid() && buf == [] && this.source == source && this.maxBufSize == maxBufSize && this.size == size
    {
      this.maxBufSize := maxBufSize;
      this.buf := [];
      this.source := source;
      this.size := size;
    }

    constructor FromBytes(data: bytes)
      ensures Valid() && buf == data && source == End && maxBufSize == size == |data|
    {
      this.maxBufSize := |data|;
      this.buf := data;
      this.source := End;
      this.size := |data|;
    }

    ghost predicate Valid()
      reads this
    {
      |Unread()| <= size
    }

    ghost function Trail(): Trail
      reads this
    {
      TrailOf(source)
    }

    ghost function Conf(): Env
      reads this
    {
      Env(maxBufSize, Trail())
    }

    /** The same reader without its limit: nothing it reads can be too large. */
    ghost function Unlimited(): Env
      reads this
    {
      Env(size, Trail())
    }

    /** The bytes a reader will see, and how they end. */
    ghost function Flat(): Wire
      reads this
    {
      Wire(buf + Data(source), Closing(source))
    }

    /** Everything received and not yet handed out, and everything still to come. */
    ghost function Unread(): bytes
      reads this
    {
      buf + AllData(source)
    }

    ghost function Measure(): nat
      reads this
    {
      |buf| + Weight(source)
    }

    ghost predicate Within(m: nat)
      reads this
    {
      ChunksAtMost(source, m) && |buf| <= maxBufSize + m
    }

    /** Nothing has been handed out, lost or added. */
    twostate predicate Kept()
      reads this
    {
      && Valid()
      && Unread() == old(Unread())
      && Measure() <= old(Measure())
    }

    /** `out` has been handed out and nothing else has happened to the bytes. */
    twostate predicate Took(out: bytes)
      reads this
    {
      && Valid()
      && old(Unread()) == out + Unread()
      && Measure() + |out| <= old(Measure())
    }

    /** A buffer within its limit plus one source chunk stays so. */
    twostate predicate Bounded()
      reads this
    {
      forall m :: old(Within(m)) ==> Within(m)
    }

    /** One wait of the source has been taken if the poll was not ready, one error of it if that is what
        the poll reports, and no other. */
    twostate predicate Paced(waited: bool, failed: bool)
      reads this
    {
      && Waits(source) + (if waited then 1 else 0) == old(Waits(source))
      && Faults(source) + (if failed then 1 else 0) == old(Faults(source))
    }

    /** The poll was not ready: nothing a reader can observe has changed. */
    twostate predicate Waited()
      reads this
    {
      Kept() && Measure() < old(Measure()) && Flat() == old(Flat())
    }

    /** The answer `r` and the state after it are those of the flat outcome `o`. */
    ghost predicate Settled<T>(r: Result<T>, o: Outcome<T>)
      reads this
    {
      match o
      case Done(v, rest) => r == Ok(v) && Flat() == rest
      case Failed(e) => r == Err(e)
      case Varies => true
    }

    /** Of the outcome `o` without a limit: success is always its answer, and an error is either its
        error or the limit's. */
    ghost predicate Sound<T>(r: Result<T>, o: Outcome<T>)
      reads this
    {
      match r
      case Ok(v) => o == Done(v, Flat())
      case Err(e) => o == Failed(e) || e == BufferLimit
    }

    method SplitTo(len: nat) returns (b: bytes)
      requires Valid() && len <= |buf|
      modifies this`buf
      ensures Valid() && b == old(buf)[..len] && buf == old(buf)[len..]
      ensures old(Unread()) == b + Unread()
      ensures old(Flat()).bytes == b + Flat().bytes
      ensures old(Flat()).bytes[..len] == b && old(Flat()).bytes[len..] == Flat().bytes
    {
      Halves(buf, Data(source), len);
      Halves(buf, AllData(source), len);
      b := buf[..len];
      buf := buf[len..];
    }

    /** A chunk that completes a read: the read takes the buffer and the chunk's head. */
    method Splice(len: nat, more: bytes) returns (b: bytes)
      requires |buf| <= len <= |buf| + |more|
      modifies this`buf
      ensures b + buf == old(buf) + more && |b| == len
      ensures |buf| <= |more|
    {
      var missing := len - |buf|;
      b := buf + more[..missing];
      buf := more[missing..];
    }

    /** One turn of an exact read that the buffer cannot serve: a chunk may complete it, or is added
        to the buffer. */
    method PollReadTurn(len: nat) returns (r: Poll<Result<Option<bytes>>>)
      requires Valid() && |buf| < len
      modifies this
      ensures Bounded()
      ensures len <= |old(Flat()).bytes| ==> Trail() == old(Trail())
      ensures Paced(r.NotReady?, r.Ready? && r.value.Err? && |old(buf)| <= maxBufSize && old(Flat()).ending.Broken?)
      ensures match r
              case Ready(Ok(Some(b))) =>
                && Took(b) && |b| == len <= |old(Flat()).bytes| && |old(buf)| <= maxBufSize
                && old(Flat()).bytes[..len] == b && old(Flat()).bytes[len..] == Flat().bytes && old(Flat()).ending == Flat().ending
                && !old(Overflows(maxBufSize, |buf|, source, len))
              case Ready(Err(e)) =>
                && Kept() && e == Shortfall(maxBufSize, Wire(old(buf), old(Flat()).ending))
                && (|old(buf)| <= maxBufSize ==> old(Flat()).bytes == old(buf))
                && (|old(buf)| > maxBufSize ==> old(Overflows(maxBufSize, |buf|, source, len)))
              case _ =>
                && Kept() && Flat() == old(Flat()) && Measure() < old(Measure())
                && Overflows(maxBufSize, |buf|, source, len) == old(Overflows(maxBufSize, |buf|, source, len))
    {
      hide Data, AllData, Closing, Weight, Dense, ChunksAtMost, TrailOf, Overflows, Waits, Faults;
      HeadTaken(source);
      if !source.End? { PaceTaken(source); }
      TrailKept(source);
      OverflowsStep(maxBufSize, |buf|, source, len);
      if |buf| > maxBufSize {
        return Ready(Err(BufferLimit));
      }
      var missing := len - |buf|;
      match source {
        case End =>
          return Ready(Err(UnexpectedEof));
        case Pending(n) =>
          source := n;
          return NotReady;
        case Fault(e, n) =>
          source := n;
          return Ready(Err(e));
        case Chunk(more, n) =>
          source := n;
          if |more| >= missing {
            ghost var before := buf;
            var b := Splice(len, more);
            Fronts(before, more, b, buf, Data(n));
            Fronts(before, more, b, buf, AllData(n));
            return Ready(Ok(Some(b)));
          }
          Assoc(buf, more, Data(n));
          Assoc(buf, more, AllData(n));
          buf := buf + more;
          return Ready(Ok(None));
      }
    }

    method PollReadExact(len: nat) returns (r: Poll<Result<bytes>>)
      requires Valid()
      modifies this
      ensures Bounded()
      ensures if r.Ready? && r.value.Ok? then Took(r.value.value) else Kept()
      ensures r.NotReady? ==> Waited()
      ensures r.Ready? ==> Settled(r.value, Take(maxBufSize, old(Flat()), len))
      ensures r.Ready? ==> Sound(r.value, Take(size, old(Flat()), len))
      ensures r.Ready? && r.value.Ok? ==> |r.value.value| == len
      ensures len <= |old(Flat()).bytes| ==> Trail() == old(Trail())
      ensures Paced(r.NotReady?, r.Ready? && r.value.Err? && |old(Flat()).bytes| <= maxBufSize && old(Flat()).ending.Broken?)
      ensures var stops := old(Overflows(maxBufSize, |buf|, source, len));
              && (r.NotReady? ==> Overflows(maxBufSize, |buf|, source, len) == stops)
              && (r.Ready? && len <= |old(Flat()).bytes| ==> (r.value.Ok? <==> !stops))
    {
      hide Data, AllData, Closing, Weight, Dense, ChunksAtMost, TrailOf, Waits, Faults;
      while true
        invariant Bounded() && Kept()
        invariant Paced(false, false)
        invariant len <= |old(Flat()).bytes| ==> Trail() == old(Trail())
        invariant Flat() == old(Flat())
        invariant Overflows(maxBufSize, |buf|, source, len) == old(Overflows(maxBufSize, |buf|, source, len))
        decreases Measure()
      {
        if |buf| >= len {
          var b := SplitTo(len);
          return Ready(Ok(b));
        }
        var t := PollReadTurn(len);
        match t {
          case NotReady =>
            return NotReady;
          case Ready(Err(e)) =>
            return Ready(Err(e));
          case Ready(Ok(Some(b))) =>
            return Ready(Ok(b));
          case Ready(Ok(None)) =>
        }
      }
    }

    method ReadExact(len: nat) returns (r: Result<bytes>)
      requires Valid()
      modifies this
      ensures Settled(r, Take(maxBufSize, old(Flat()), len))
      ensures Sound(r, Take(size, old(Flat()), len))
      ensures r.Ok? ==> Trail() == old(Trail())
      ensures Bounded()
      ensures if r.Ok? then Took(r.value) else Kept()
      ensures r.Ok? ==> |r.value| == len
      ensures len <= |old(Flat()).bytes| ==> (r.Ok? <==> !old(Overflows(maxBufSize, |buf|, source, len)))
    {
      var p := PollReadExact(len);
      while p.NotReady?
        invariant p.NotReady? ==> Overflows(maxBufSize, |buf|, source, len) == old(Overflows(maxBufSize, |buf|, source, len))
        invariant p.Ready? && len <= |old(Flat()).bytes| ==> (p.value.Ok? <==> !old(Overflows(maxBufSize, |buf|, source, len)))
        invariant Bounded()
        invariant if p.Ready? && p.value.Ok? then Took(p.value.value) else Kept()
        invariant p.NotReady? ==> Flat() == old(Flat())
        invariant p.Ready? ==> Settled(p.value, Take(maxBufSize, old(Flat()), len))
        invariant p.Ready? ==> Sound(p.value, Take(size, old(Flat()), len))
        invariant len <= |old(Flat()).bytes| ==> Trail() == old(Trail())
        invariant p.Ready? && p.value.Ok? ==> |p.value.value| == len
        decreases Measure(), p.NotReady?
      {
        p := PollReadExact(len);
      }
      return p.value;
    }

    method PollReadToEnd() returns (r: Poll<Result<bytes>>)
      requires Valid()
      modifies this
      ensures if r.Ready? && r.value.Ok? then Took(r.value.value) else Kept()
      ensures r.NotReady? ==> Waited()
      ensures r.Ready? ==> Settled(r.value, ToEnd(old(Flat())))
      ensures Paced(r.NotReady?, r.Ready? && r.value.Err?)
      ensures var (held, next) := Absorb(old(buf), old(source));
              match next
              case Pending(n) => r == NotReady && buf == held && source == n
              case Fault(e, n) => r == Ready(Err(e)) && buf == held && source == n
              case _ => r == Ready(Ok(held)) && buf == [] && source == End
    {
      while !source.End?
        invariant Kept() && Paced(false, false)
        invariant Absorb(buf, source) == Absorb(old(buf), old(source))
        invariant Flat() == old(Flat())
        decreases source
      {
        match source {
          case Pending(n) =>
            source := n;
            return NotReady;
          case Fault(e, n) =>
            source := n;
            return Ready(Err(e));
          case Chunk(more, n) =>
            source := n;
            buf := buf + more;
        }
      }
      assert buf + [] == buf;
      r := Ready(Ok(buf));
      buf := [];
    }

    method ReadToEnd() returns (r: Result<bytes>)
      requires Valid()
      modifies this
      ensures Settled(r, ToEnd(old(Flat())))
      ensures if r.Ok? then Took(r.value) else Kept()
    {
      var p := PollReadToEnd();
      while p.NotReady?
        invariant if p.Ready? && p.value.Ok? then Took(p.value.value) else Kept()
        invariant p.NotReady? ==> Flat() == old(Flat())
        invariant p.Ready? ==> Settled(p.value, ToEnd(old(Flat())))
        decreases Measure(), p.NotReady?
      {
        p := PollReadToEnd();
      }
      return p.value;
    }

    method PollHasMoreData() returns (r: Poll<Result<bool>>)
      requires Valid()
      modifies this
      ensures Bounded() && Kept()
      ensures r.NotReady? ==> Waited()
      ensures r.Ready? ==> Settled(r.value, HasMore(old(Conf()), old(Flat())))
      ensures old(Flat()).bytes != [] || r.NotReady? || r.value == Ok(false) ==> Trail() == old(Trail())
      ensures Paced(r.NotReady?, r.Ready? && r.value.Err?)
      ensures r == Ready(Ok(false)) ==> !Trail().starves
      ensures r == Ready(Ok(true)) && Flat().bytes == [] ==> EndsOnChunk(source, true) == old(Trail()).starves
    {
      TrailKept(source);
      if buf != [] {
        return Ready(Ok(true));
      }
      match source {
        case End =>
          return Ready(Ok(false));
        case Pending(n) =>
          source := n;
          return NotReady;
        case Fault(e, n) =>
          source := n;
          return Ready(Err(e));
        case Chunk(more, n) =>
          buf := more;
          source := n;
          return Ready(Ok(true));
      }
    }

    method HasMoreData() returns (r: Result<bool>)
      requires Valid()
      modifies this
      ensures Settled(r, HasMore(old(Conf()), old(Flat())))
      ensures Bounded() && Kept()
      ensures r.Ok? && (Flat().bytes != [] || !r.value) ==> Trail() == old(Trail())
    {
      var p := PollHasMoreData();
      while p.NotReady?
        invariant Bounded() && Kept()
        invariant p.NotReady? ==> Flat() == old(Flat())
        invariant p.Ready? ==> Settled(p.value, HasMore(old(Conf()), old(Flat())))
        invariant old(Flat()).bytes != [] || p.NotReady? || p.value == Ok(false) ==> Trail() == old(Trail())
        decreases Measure(), p.NotReady?
      {
        p := PollHasMoreData();
      }
      return p.value;
    }

    method PollFillBuf() returns (r: Poll<Result<()>>)
      requires Valid()
      modifies this
      ensures Bounded() && Kept()
      ensures r.NotReady? ==> Waited() && buf == old(buf)
      ensures r.Ready? && r.value.Ok? ==>
                && Measure() < old(Measure()) && Flat() == old(Flat())
                && old(source).Chunk? && buf == old(buf) + old(source).data && (old(Dense(source)) ==> old(buf) < buf)
      ensures r.NotReady? || |old(buf)| < |old(Flat()).bytes| ==> Trail() == old(Trail())
      ensures Paced(r.NotReady?, r.Ready? && r.value.Err? && |old(buf)| <= maxBufSize && old(Flat()).ending.Broken?)
      ensures r.NotReady? ==> EndsOnChunk(source, false) == old(EndsOnChunk(source, true))
      ensures r.Ready? && r.value.Ok? ==> EndsOnChunk(source, true) == old(EndsOnChunk(source, true))
      ensures r.Ready? && r.value.Err? && |old(buf)| <= maxBufSize && old(Flat()).ending.Eof? ==>
                old(EndsOnChunk(source, true))
      ensures r.Ready? && r.value.Err? ==>
                r.value.error == Shortfall(maxBufSize, Wire(old(buf), old(Flat()).ending))
                && (|old(buf)| <= maxBufSize ==> old(Flat()).bytes == old(buf))
    {
      hide TrailOf, Waits, Faults;
      TrailKept(source);
      if !source.End? { PaceTaken(source); }
      if |buf| > maxBufSize {
        return Ready(Err(BufferLimit));
      }
      match source {
        case End =>
          return Ready(Err(UnexpectedEof));
        case Pending(n) =>
          source := n;
          return NotReady;
        case Fault(e, n) =>
          source := n;
          return Ready(Err(e));
        case Chunk(more, n) =>
          buf := buf + more;
          source := n;
          return Ready(Ok(()));
      }
    }

    /** Up to `len` bytes: off the front of the buffer, or of the next chunk when the buffer is empty. */
    method PollReadAtMost(len: nat) returns (r: Poll<Result<bytes>>)
      requires Valid()
      modifies this
      ensures Bounded()
      ensures if r.Ready? && r.value.Ok? then Took(r.value.value) else Kept()
      ensures r.NotReady? ==> Waited()
      ensures r.Ready? && r.value.Ok? ==>
                && old(Flat()) == Wire(r.value.value + Flat().bytes, Flat().ending)
                && |r.value.value| <= len
                && (len == 0 || Measure() < old(Measure()))
                && (r.value.value == [] ==> len == 0 || !old(Dense(source)))
      ensures r.NotReady? || old(Flat()).bytes != [] ==> Trail() == old(Trail())
      ensures Paced(r.NotReady?, r.Ready? && r.value.Err? && old(Flat()).ending.Broken?)
      ensures r.Ready? && r.value.Ok? && len > 0 ==>
                && (old(buf) == [] ==> old(source).Chunk?)
                && var held := if old(buf) != [] then old(buf) else old(source).data;
                   var n := if len < |held| then len else |held|;
                   r.value.value == held[..n] && buf == held[n..]
      ensures r.Ready? && r.value.Err? ==>
                len > 0 && old(Flat()).bytes == [] && r.value.error == Closed(old(Flat()).ending)
    {
      hide Data, AllData, Closing, Weight, Dense, ChunksAtMost, TrailOf, Waits, Faults;
      if len == 0 {
        return Ready(Ok([]));
      }
      if buf == [] {
        var p := PollFillBuf();
        if p.NotReady? {
          return NotReady;
        }
        if p.value.Err? {
          return Ready(Err(p.value.error));
        }
      }
      var n := if len < |buf| then len else |buf|;
      var b := SplitTo(n);
      return Ready(Ok(b));
    }

    /** The rest of this reader's life as a stream of its own. */
    ghost function Out(): Source
      reads this
    {
      if buf != [] then Chunk(buf, source) else source
    }

    method PollNext() returns (r: Poll<Option<Result<bytes>>>)
      requires Valid()
      modifies this
      ensures Emits(old(Out()), r, Out())
      ensures Bounded()
      ensures if r.Ready? && r.value.Some? && r.value.value.Ok? then Took(r.value.value.value) else Kept()
      ensures buf == []
      ensures r.NotReady? ==> Waited()
      ensures r != Ready(None) ==> Measure() < old(Measure())
    {
      if buf != [] {
        r := Ready(Some(Ok(buf)));
        buf := [];
        return;
      }
      match source {
        case End =>
          return Ready(None);
        case Pending(n) =>
          source := n;
          return NotReady;
        case Fault(e, n) =>
          source := n;
          return Ready(Some(Err(e)));
        case Chunk(d, n) =>
          source := n;
          return Ready(Some(Ok(d)));
      }
    }

    method Advance(count: nat)
      requires Valid() && count <= |buf|
      modifies this
      ensures Bounded() && Took(old(buf)[..count])
      ensures buf == old(buf)[count..] && source == old(source)
    {
      buf := buf[count..];
    }

    method CopyToBytes(len: nat) returns (b: bytes)
      requires Valid() && len <= |buf|
      modifies this
      ensures Bounded() && Took(b)
      ensures b == old(buf)[..len] && buf == old(buf)[len..] && source == old(source)
    {
      b := buf[..len];
      buf := buf[len..];
    }
  }

  datatype Op =
    | ReadExact(len: nat)
    | ReadToEnd
    | HasMoreData
    | FillBuf
    | ReadAtMost(len: nat)
    | Next
    | Advance(len: nat)
    | CopyToBytes(len: nat)

  /** One operation, ready or not, failing or not; `out` is what it handed out. */
  method Perform(sb: StreamBuf, op: Op) returns (out: bytes)
    requires sb.Valid()
    modifies sb
    ensures sb.Took(out)
    ensures !op.ReadToEnd? ==> sb.Bounded()
  {
    out := [];
    assert [] + sb.Unread() == sb.Unread();
    match op {
      case ReadExact(n) =>
        var r := sb.PollReadExact(n);
        if r.Ready? && r.value.Ok? { out := r.value.value; }
      case ReadToEnd =>
        var r := sb.PollReadToEnd();
        if r.Ready? && r.value.Ok? { out := r.value.value; }
      case HasMoreData =>
        var _ := sb.PollHasMoreData();
      case FillBuf =>
        var _ := sb.PollFillBuf();
      case ReadAtMost(n) =>
        var r := sb.PollReadAtMost(n);
        if r.Ready? && r.value.Ok? { out := r.value.value; }
      case Next =>
        var r := sb.PollNext();
        if r.Ready? && r.value.Some? && r.value.value.Ok? { out := r.value.value.value; }
      case Advance(n) =>
        // Advancing past the buffer panics; such a call never completes.
        if n <= |sb.buf| {
          out := sb.buf[..n];
          sb.Advance(n);
        }
      case CopyToBytes(n) =>
        if n <= |sb.buf| {
          out := sb.CopyToBytes(n);
        }
    }
  }

  /** Over every interleaving of operations, what was handed out followed by what is still unread
      is what was there to begin with; and unless the whole stream is asked for at once, the
      buffer never outgrows its limit by more than one source chunk. */
  method Run(sb: StreamBuf, ops: seq<Op>) returns (out: bytes)
    requires sb.Valid()
    modifies sb
    ensures old(sb.Unread()) == out + sb.Unread()
    ensures ReadToEnd !in ops ==> forall m :: old(sb.Within(m)) ==> sb.Within(m)
  {
    out := [];
    for i := 0 to |ops|
      invariant sb.Valid()
      invariant old(sb.Unread()) == out + sb.Unread()
      invariant ReadToEnd !in ops ==> forall m :: old(sb.Within(m)) ==> sb.Within(m)
    {
      var o := Perform(sb, ops[i]);
      out := out + o;
    }
  }

  // ---------- when the chunking matters ----------

  predicate Brings(s: Source, data: bytes) {
    Data(s) == data && Closing(s) == Eof
  }

  lemma {:induction false} WithinLimit(limit: nat, have: nat, s: Source, n: nat)
    requires n <= limit + 1
    ensures !Overflows(limit, have, s, n)
    decreases s
  {
    match s
    case Chunk(d, next) => WithinLimit(limit, have + |d|, next, n);
    case Pending(next) => WithinLimit(limit, have, next, n);
    case _ =>
  }

  /** An exact read of bytes that are there succeeds under every chunking if and only if it asks for
      at most one byte more than the limit; past that it depends on where the chunks end. */
  lemma ReadIndependent(limit: nat, data: bytes, n: nat)
    requires n <= |data|
    ensures n <= limit + 1 <==>
            forall s, t :: Brings(s, data) && Brings(t, data) ==> Overflows(limit, 0, s, n) == Overflows(limit, 0, t, n)
  {
    if n <= limit + 1 {
      forall s, t | Brings(s, data) && Brings(t, data)
        ensures Overflows(limit, 0, s, n) == Overflows(limit, 0, t, n)
      {
        WithinLimit(limit, 0, s, n);
        WithinLimit(limit, 0, t, n);
      }
    } else {
      var whole, rest := Chunk(data, End), Chunk(data[limit + 1..], End);
      var cut := Chunk(data[..limit + 1], rest);
      assert data + [] == data;
      assert Data(rest) == data[limit + 1..] + [];
      assert Closing(rest) == Eof && Closing(cut) == Eof;
      assert Brings(whole, data) && Brings(cut, data);
      assert !Overflows(limit, 0, whole, n);
      assert Overflows(limit, limit + 1, rest, n);
      assert Overflows(limit, 0, cut, n);
    }
  }

  /** A read within the limit meets the size error only if the source itself broke off with one. */
  lemma NeverLimited(limit: nat, w: Wire, n: nat)
    requires n <= limit + 1 && Take(limit, w, n) == Failed(BufferLimit)
    ensures w.ending == Broken(BufferLimit)
  {
  }

  /** A source announces more whenever there is more; it announces more than there is only if it
      holds an empty chunk, and then it may. */
  lemma {:induction false} AnnouncesData(s: Source)
    ensures Data(s) != [] ==> Announces(s)
    ensures Announces(s) && Dense(s) ==> Data(s) != []
  {
    match s
    case End =>
    case Fault(_, _) =>
    case Pending(n) => AnnouncesData(n);
    case Chunk(d, n) =>
  }

  lemma {:induction false} StarvesAnnounces(s: Source)
    ensures EndsOnChunk(s, false) ==> Announces(s)
  {
    if s.Pending? {
      StarvesAnnounces(s.next);
    }
  }

  /** Without empty chunks nothing is ever announced that is not there. */
  lemma {:induction false} DenseTrail(s: Source)
    requires Dense(s)
    ensures TrailOf(s) == Trail(false, false)
    decreases s
  {
    if Data(s) == [] {
      AnnouncesData(s);
      StarvesAnnounces(s);
    } else {
      DenseTrail(s.next);
    }
  }

  lemma EmptyChunkAnnounces()
    ensures Brings(Chunk([], End), []) && Brings(End, [])
    ensures Announces(Chunk([], End)) && !Announces(End)
  {
  }
}
