/** HTTP/3 bodies, src/client/http3/body.rs: bounded frames with a fin flag on the way out, partial
    reads on the way in. */
module H3Body {
  import opened Bytes
  import opened Streams

  datatype Frame = Body(data: bytes, fin: bool) | PeerStreamError

  /** What the outbound channel does when asked for room: grants it, grants it and is gone when the
      frame comes, is full, or is closed. A channel that has run out of answers is full. */
  datatype Slot = Granted | Lost | Busy | Closed

  datatype WriteError = WroteFin | NoStreamState
  datatype Written = Accepted(n: nat) | Refused(error: WriteError)

  function FrameData(fs: seq<Frame>): bytes {
    if fs == [] then []
    else FrameData(fs[..|fs| - 1]) + (if fs[|fs| - 1].Body? then fs[|fs| - 1].data else [])
  }

  /** Only the last frame may carry a fin. */
  predicate FinLast(fs: seq<Frame>) {
    forall i :: 0 <= i < |fs| && fs[i].Body? && fs[i].fin ==> i == |fs| - 1
  }

  predicate Finished(fs: seq<Frame>) {
    fs != [] && fs[|fs| - 1].Body? && fs[|fs| - 1].fin
  }

  predicate FramesAtMost(fs: seq<Frame>, m: nat) {
    forall i :: 0 <= i < |fs| && fs[i].Body? ==> |fs[i].data| <= m
  }

  /** Body frames, and none empty but one with the fin. */
  predicate Solid(fs: seq<Frame>) {
    forall i :: 0 <= i < |fs| ==> fs[i].Body? && (fs[i].data != [] || fs[i].fin)
  }

  predicate OpenChannel(slots: seq<Slot>) {
    forall i :: 0 <= i < |slots| ==> slots[i].Granted? || slots[i].Busy?
  }

  function First(slots: seq<Slot>): Slot {
    if slots == [] then Busy else slots[0]
  }

  /** How many bytes the slots granted in a row take, at `size` bytes each. */
  function Room(slots: seq<Slot>, size: nat): nat {
    if First(slots) != Granted then 0 else size + Room(slots[1..], size)
  }

  /** The answer that ends that row. */
  function Stop(slots: seq<Slot>): Slot {
    if First(slots) != Granted then First(slots) else Stop(slots[1..])
  }

  lemma FrameDataLast(fs: seq<Frame>, f: Frame)
    ensures FrameData(fs + [f]) == FrameData(fs) + if f.Body? then f.data else []
  {
    assert (fs + [f])[..|fs|] == fs;
  }

  // ---------- writing ----------

  class Sender {
    var slots: seq<Slot>
    var sent: seq<Frame>

    constructor (slots: seq<Slot>)
      ensures this.slots == slots && sent == []
    {
      this.slots := slots;
      this.sent := [];
    }

    /** One attempt to reserve room. */
    method PollReserve() returns (s: Slot)
      modifies this`slots
      ensures s == First(old(slots)) && slots == if old(slots) == [] then [] else old(slots)[1..]
      ensures OpenChannel(old(slots)) ==> OpenChannel(slots) && (s == Granted || s == Busy)
      ensures |slots| <= |old(slots)| && (s != Busy ==> |slots| < |old(slots)|)
    {
      if slots == [] { return Busy; }
      s := slots[0];
      slots := slots[1..];
    }
  }

  class Writer {
    const maxBufSize: nat
    const sender: Sender
    var wroteFin: bool

    constructor (maxBufSize: nat, sender: Sender)
      ensures this.maxBufSize == maxBufSize && this.sender == sender && !wroteFin
    {
      this.maxBufSize := maxBufSize;
      this.sender := sender;
      this.wroteFin := false;
    }

    /** What has been sent is a well-formed stream of frames. */
    ghost predicate Valid()
      reads this, sender
    {
      && maxBufSize > 0
      && FinLast(sender.sent)
      && FramesAtMost(sender.sent, maxBufSize)
      && Solid(sender.sent)
      && wroteFin == Finished(sender.sent)
    }

    method SendItem(chunk: bytes, last: bool)
      requires Valid() && !wroteFin && |chunk| <= maxBufSize && (chunk != [] || last)
      modifies this`wroteFin, sender`sent
      ensures Valid() && wroteFin == last && sender.sent == old(sender.sent) + [Body(chunk, last)]
      ensures FrameData(sender.sent) == FrameData(old(sender.sent)) + chunk
    {
      AppendFrame(sender.sent, Body(chunk, last), maxBufSize);
      sender.sent := sender.sent + [Body(chunk, last)];
      wroteFin := wroteFin || last;
    }

    /** Sends `m` bytes of `buf`, in order, and with `fin` marks the frame that completes it. The
        answer counts the bytes sent, less those of a frame that carried the fin: it is short exactly
        when a fin was asked for and all of a non-empty buffer went out. What goes out is what the
        slots granted in a row have room for, and what stops it short decides the answer. */
    method PollWrite(buf: bytes, fin: bool) returns (r: Poll<Written>, ghost m: nat)
      requires Valid()
      modifies this, sender
      ensures Valid()
      ensures OpenChannel(old(sender.slots)) ==> OpenChannel(sender.slots) && (r.Ready? && r.value.Refused? ==> old(wroteFin))
      ensures m <= |buf| && FrameData(sender.sent) == FrameData(old(sender.sent)) + buf[..m]
      ensures old(sender.sent) <= sender.sent
      ensures buf == [] ==> sender.sent == old(sender.sent) + if wroteFin && !old(wroteFin) then [Body([], true)] else []
      ensures old(wroteFin) ==> r == Ready(Refused(WroteFin)) && sender.sent == old(sender.sent) && m == 0
      ensures wroteFin && !old(wroteFin) ==> fin && m == |buf| && r.Ready? && r.value.Accepted?
      ensures r.NotReady? ==> sender.sent == old(sender.sent) && m == 0
      ensures r.Ready? && r.value.Accepted? ==>
                && (!wroteFin ==> r.value.n == m && (fin ==> m < |buf|))
                && (wroteFin ==> Finished(sender.sent) && r.value.n == m - |sender.sent[|sender.sent| - 1].data|)
      ensures r.Ready? && r.value.Accepted? ==> (r.value.n == m <==> buf == [] || !fin || m < |buf|)
      ensures !old(wroteFin) ==> m == if |buf| <= Room(old(sender.slots), maxBufSize) then |buf| else Room(old(sender.slots), maxBufSize)
      ensures !old(wroteFin) && m < |buf| ==> r == Stopped(Stop(old(sender.slots)), m)
      ensures !old(wroteFin) && m == |buf| > 0 ==> r.Ready? && r.value.Accepted? && wroteFin == fin
      ensures !old(wroteFin) && buf == [] && fin && First(old(sender.slots)) != Granted ==> r == Stopped(First(old(sender.slots)), 0)
      ensures !old(wroteFin) && buf == [] && fin && First(old(sender.slots)) == Granted ==> r == Ready(Accepted(0)) && wroteFin
      ensures !old(wroteFin) && buf == [] && !fin ==> r == Ready(Accepted(0)) && !wroteFin
    {
      hide FrameData, FinLast, FramesAtMost, Solid, Finished, OpenChannel;
      assert buf[..0] == [];
      m := 0;
      if wroteFin {
        return Ready(Refused(WroteFin)), 0;
      }
      var sent := 0;
      var any := false;
      while sent < |buf| || (buf == [] && fin)
        invariant m == sent <= |buf| && !wroteFin && Valid()
        invariant OpenChannel(old(sender.slots)) ==> OpenChannel(sender.slots)
        invariant old(sender.sent) <= sender.sent
        invariant FrameData(sender.sent) == FrameData(old(sender.sent)) + buf[..sent]
        invariant if any then sent > 0 && (fin ==> sent < |buf|) else sent == 0 && sender.sent == old(sender.sent)
        invariant !any ==> sender.slots == old(sender.slots)
        invariant if sent == |buf| > 0 then |buf| <= Room(old(sender.slots), maxBufSize) && !fin
                  else Room(old(sender.slots), maxBufSize) == sent + Room(sender.slots, maxBufSize)
                       && Stop(old(sender.slots)) == Stop(sender.slots)
        decreases |buf| - sent
      {
        var len := if |buf| - sent < maxBufSize then |buf| - sent else maxBufSize;
        var chunk := buf[sent..sent + len];
        var slot := sender.PollReserve();
        if slot == Closed { return Ready(Refused(NoStreamState)), m; }
        if slot == Busy {
          return if any then Ready(Accepted(sent)) else NotReady, m;
        }
        // Only the frame that completes the buffer carries the fin.
        var last := sent + len == |buf| && fin;
        if slot == Lost { return Ready(Refused(NoStreamState)), m; }
        assert buf[..sent] + chunk == buf[..sent + len];
        Assoc(FrameData(old(sender.sent)), buf[..sent], chunk);
        SendItem(chunk, last);
        m := sent + len;
        if last {
          return Ready(Accepted(sent)), m;
        }
        sent := sent + len;
        any := true;
      }
      return Ready(Accepted(sent)), m;
    }

    /** Sends the fin in one empty frame of its own, once, and nothing else. Errors mean the stream is
        already down. */
    method PollShutdown() returns (ready: bool)
      requires Valid()
      modifies this, sender
      ensures Valid() && FrameData(sender.sent) == FrameData(old(sender.sent))
      ensures sender.sent == old(sender.sent) + if wroteFin && !old(wroteFin) then [Body([], true)] else []
      ensures OpenChannel(old(sender.slots)) ==> OpenChannel(sender.slots) && (ready ==> wroteFin)
      ensures old(wroteFin) ==> ready && sender.sent == old(sender.sent)
      ensures ready <==> old(wroteFin) || First(old(sender.slots)) != Busy
      ensures wroteFin <==> old(wroteFin) || First(old(sender.slots)) == Granted
    {
      hide FrameData;
      if wroteFin { return true; }
      var r, m := PollWrite([], true);
      return r.Ready?;
    }
  }

  lemma AppendFrame(fs: seq<Frame>, f: Frame, m: nat)
    requires FinLast(fs) && FramesAtMost(fs, m) && !Finished(fs) && f.Body? && |f.data| <= m
    ensures FinLast(fs + [f]) && FramesAtMost(fs + [f], m)
    ensures Finished(fs + [f]) == f.fin
    ensures FrameData(fs + [f]) == FrameData(fs) + f.data
  {
    FrameDataLast(fs, f);
  }

  /** A write cut short after `m` bytes by `slot`. */
  function Stopped(slot: Slot, m: nat): Poll<Written> {
    if slot != Busy then Ready(Refused(NoStreamState)) else if m > 0 then Ready(Accepted(m)) else NotReady
  }

  /** One octet with a fin: it goes out, and the answer counts none. */
  method ShortCount() returns (r: Poll<Written>, w: Writer)
    ensures r == Ready(Accepted(0)) && FrameData(w.sender.sent) == [1] && w.wroteFin
  {
    var sender := new Sender([Granted]);
    w := new Writer(16, sender);
    assert FrameData([]) == [];
    ghost var m;
    r, m := w.PollWrite([1], true);
    assert [1][..1] == [1];
    assert FrameData(sender.sent) == [] + [1];
  }

  datatype Op = Write(data: bytes) | Shutdown

  /** Over every sequence of writes and shutdowns: bounded frames with at most one fin, which is the
      last frame; and while the channel stays open the frames carry exactly the accepted bytes. */
  method RunWriter(w: Writer, ops: seq<Op>) returns (accepted: bytes)
    requires w.Valid() && w.sender.sent == []
    modifies w, w.sender
    ensures FinLast(w.sender.sent) && FramesAtMost(w.sender.sent, w.maxBufSize) && Solid(w.sender.sent)
    ensures OpenChannel(old(w.sender.slots)) ==> FrameData(w.sender.sent) == accepted
  {
    accepted := [];
    for i := 0 to |ops|
      invariant w.Valid()
      invariant OpenChannel(old(w.sender.slots)) ==> OpenChannel(w.sender.slots) && FrameData(w.sender.sent) == accepted
    {
      match ops[i] {
        case Shutdown =>
          var _ := w.PollShutdown();
        case Write(data) =>
          var r, m := w.PollWrite(data, false);
          if r.Ready? && r.value.Accepted? {
            accepted := accepted + data[..r.value.n];
          }
      }
    }
  }

  // ---------- sending a whole body ----------

  /** Frames sent so far that more may follow. */
  predicate Unfinished(fs: seq<Frame>, m: nat, room: nat) {
    FinLast(fs) && FramesAtMost(fs, m) && !Finished(fs) && |fs| <= room
  }

  /** A chunk in full frames and what is left over. */
  function Slices(d: bytes, m: nat): seq<Frame>
    requires m > 0
  {
    if d == [] then []
    else if |d| <= m then [Body(d, false)]
    else [Body(d[..m], false)] + Slices(d[m..], m)
  }

  /** All the frames a body makes: its chunks sliced, then a lone fin; or a stream error where it breaks. */
  function FramesOf(body: Source, m: nat): seq<Frame>
    requires m > 0
  {
    match body
    case End => [Body([], true)]
    case Pending(n) => FramesOf(n, m)
    case Fault(_, _) => [PeerStreamError]
    case Chunk(d, n) => Slices(d, m) + FramesOf(n, m)
  }

  /** `sent` and then `rest` are `all`. */
  predicate Splits(all: seq<Frame>, sent: seq<Frame>, rest: seq<Frame>) {
    all == sent + rest
  }

  lemma SplitsNext(all: seq<Frame>, sent: seq<Frame>, f: Frame, rest: seq<Frame>)
    requires Splits(all, sent, [f] + rest)
    ensures Splits(all, sent + [f], rest)
  {
    assert sent + ([f] + rest) == (sent + [f]) + rest;
  }

  lemma SliceNext(d: bytes, m: nat, more: seq<Frame>)
    requires m > 0 && d != []
    ensures var end := if m < |d| then m else |d|;
            Slices(d, m) + more == [Body(d[..end], false)] + (Slices(d[end..], m) + more)
  {
    if |d| <= m {
      assert d[..|d|] == d && d[|d|..] == [];
      assert [] + more == more;
    } else {
      var f := [Body(d[..m], false)];
      assert (f + Slices(d[m..], m)) + more == f + (Slices(d[m..], m) + more);
    }
  }

  /** One chunk, cut to size. */
  method SendChunk(before: seq<Frame>, d: bytes, maxBufSize: nat, room: nat, ghost all: seq<Frame>, ghost more: seq<Frame>)
    returns (sent: seq<Frame>, ok: bool)
    requires maxBufSize > 0 && Unfinished(before, maxBufSize, room)
    requires Splits(all, before, Slices(d, maxBufSize) + more)
    ensures Unfinished(sent, maxBufSize, room)
    ensures FrameData(sent) <= FrameData(before) + d
    ensures ok ==> FrameData(sent) == FrameData(before) + d && Splits(all, sent, more)
    ensures !ok ==> |sent| == room && sent <= all
  {
    hide FrameData, FinLast, FramesAtMost, Slices;
    sent := before;
    var off := 0;
    assert d[0..] == d;
    while off < |d|
      invariant off <= |d| && Unfinished(sent, maxBufSize, room)
      invariant Splits(all, sent, Slices(d[off..], maxBufSize) + more)
      invariant FrameData(sent) == FrameData(before) + d[..off]
    {
      var end := if off + maxBufSize < |d| then off + maxBufSize else |d|;
      if |sent| == room { return sent, false; }
      SliceNext(d[off..], maxBufSize, more);
      assert d[off..][..end - off] == d[off..end] && d[off..][end - off..] == d[end..];
      SplitsNext(all, sent, Body(d[off..end], false), Slices(d[end..], maxBufSize) + more);
      AppendFrame(sent, Body(d[off..end], false), maxBufSize);
      assert d[..off] + d[off..end] == d[..end];
      sent := sent + [Body(d[off..end], false)];
      off := end;
    }
    NoSlices(maxBufSize);
    assert d[off..] == [] && [] + more == more;
    return sent, true;
  }

  lemma StartSplit(all: seq<Frame>)
    ensures Splits(all, [], all)
  {
    assert [] + all == all;
  }

  lemma SplitsPrefix(all: seq<Frame>, sent: seq<Frame>, rest: seq<Frame>)
    requires Splits(all, sent, rest)
    ensures sent <= all
  {
  }

  lemma LastFrame(all: seq<Frame>, sent: seq<Frame>, f: Frame)
    requires Splits(all, sent, [f])
    ensures sent + [f] == all
  {
  }

  lemma NoSlices(m: nat)
    requires m > 0
    ensures Slices([], m) == []
  {
  }

  /** The body as frames: its chunks cut to size, then a lone fin; or, if the body breaks off, what
      came before the break and then a stream error. The channel takes `room` frames in all. */
  method SendHyperBody(body: Source, maxBufSize: nat, room: nat) returns (sent: seq<Frame>, done: bool)
    requires maxBufSize > 0
    ensures FinLast(sent) && FramesAtMost(sent, maxBufSize) && |sent| <= room
    ensures sent == FramesOf(body, maxBufSize) || (|sent| == room && sent <= FramesOf(body, maxBufSize))
    ensures FrameData(sent) <= Data(body)
    ensures done <==> Finished(sent)
    ensures done ==> Closing(body) == Eof && FrameData(sent) == Data(body)
    ensures !done && |sent| < room ==>
              Closing(body).Broken? && FrameData(sent) == Data(body) && sent != [] && sent[|sent| - 1] == PeerStreamError
  {
    hide FrameData, FinLast, FramesAtMost, Slices;
    sent := [];
    ghost var all := FramesOf(body, maxBufSize);
    hide Splits;
    StartSplit(all);
    NoFrames(maxBufSize);
    var rest := body;
    while !rest.End?
      invariant Unfinished(sent, maxBufSize, room)
      invariant Splits(all, sent, FramesOf(rest, maxBufSize))
      invariant FrameData(sent) + Data(rest) == Data(body) && Closing(rest) == Closing(body)
      decreases rest
    {
      match rest {
        case Pending(n) =>
          rest := n;
        case Fault(_, n) =>
          if |sent| == room {
            SplitsPrefix(all, sent, FramesOf(rest, maxBufSize));
            return sent, false;
          }
          LastFrame(all, sent, PeerStreamError);
          AppendError(sent, maxBufSize);
          return sent + [PeerStreamError], false;
        case Chunk(d, n) =>
          assert FrameData(sent) + (d + Data(n)) == (FrameData(sent) + d) + Data(n);
          var ok;
          sent, ok := SendChunk(sent, d, maxBufSize, room, all, FramesOf(n, maxBufSize));
          if !ok { return sent, false; }
          rest := n;
      }
    }
    if |sent| == room {
      SplitsPrefix(all, sent, FramesOf(rest, maxBufSize));
      return sent, false;
    }
    LastFrame(all, sent, Body([], true));
    AppendFrame(sent, Body([], true), maxBufSize);
    sent := sent + [Body([], true)];
    return sent, true;
  }

  lemma NoFrames(m: nat)
    ensures FinLast([]) && FramesAtMost([], m) && FrameData([]) == []
  {
  }

  lemma AppendError(fs: seq<Frame>, m: nat)
    requires FinLast(fs) && FramesAtMost(fs, m) && !Finished(fs)
    ensures FinLast(fs + [PeerStreamError]) && FramesAtMost(fs + [PeerStreamError], m) && !Finished(fs + [PeerStreamError])
    ensures FrameData(fs + [PeerStreamError]) == FrameData(fs)
  {
    FrameDataLast(fs, PeerStreamError);
  }

  // ---------- reading ----------

  /** The inbound channel: frames as they come, waits, and its closing. */
  datatype Inbound = Hangup | Wait(next: Inbound) | Arrives(data: bytes, fin: bool, next: Inbound)

  /** The bytes up to the fin or the hangup. */
  function UpToFin(i: Inbound): bytes {
    match i
    case Hangup => []
    case Wait(n) => UpToFin(n)
    case Arrives(d, fin, n) => d + if fin then [] else UpToFin(n)
  }

  function Front(b: bytes, n: nat): bytes {
    if |b| <= n then b else b[..n]
  }

  lemma FrontPart(b: bytes, out: bytes, rest: bytes, n: nat)
    requires b == out + rest && |out| <= n && (|out| == n || rest == [])
    ensures out == Front(b, n)
  {
    assert out + [] == out;
  }

  /** The bytes up to the fin, the hangup or the first wait. */
  function BeforeWait(i: Inbound): bytes {
    match i
    case Arrives(d, fin, n) => d + if fin then [] else BeforeWait(n)
    case _ => []
  }

  /** Nothing but empty frames comes before a wait, and more after it; `seen` says that an empty frame
      has come already. */
  predicate Stalls(i: Inbound, seen: bool)
    decreases i
  {
    match i
    case Hangup => false
    case Wait(n) => seen && UpToFin(n) != []
    case Arrives(d, fin, n) => d == [] && !fin && Stalls(n, true)
  }

  /** Every frame but one with the fin carries data. */
  predicate NoEmptyFrames(i: Inbound) {
    match i
    case Hangup => true
    case Wait(n) => NoEmptyFrames(n)
    case Arrives(d, fin, n) => (d != [] || fin) && NoEmptyFrames(n)
  }

  lemma NeverStalls(i: Inbound)
    requires NoEmptyFrames(i)
    ensures !Stalls(i, false)
  {
  }

  function Length(i: Inbound): nat {
    match i
    case Hangup => 0
    case Wait(n) => 1 + Length(n)
    case Arrives(_, _, n) => 1 + Length(n)
  }

  datatype Got = Gone | Later | Arrived

  class Reader {
    var readFin: bool
    var recv: Inbound
    var pending: Option<(bytes, bool)>

    constructor (recv: Inbound, readFin: bool)
      ensures this.recv == recv && this.readFin == readFin && pending == None
    {
      this.recv := recv;
      this.readFin := readFin;
      this.pending := None;
    }

    /** A fin is not reported while a frame is still waiting to be read. */
    ghost predicate Valid()
      reads this
    {
      readFin ==> pending == None
    }

    /** What is still to be delivered. */
    ghost function Incoming(): bytes
      reads this
    {
      if readFin then []
      else match pending
        case None => UpToFin(recv)
        case Some((d, fin)) => d + if fin then [] else UpToFin(recv)
    }

    /** The next read, given room, will answer without bytes although there are more to come. */
    ghost predicate Stalled(seen: bool)
      reads this
    {
      !readFin && match pending
                  case None => Stalls(recv, seen)
                  case Some((d, fin)) => d == [] && !fin && Stalls(recv, true)
    }

    /** No frame that is waiting or still to come is empty, save one with the fin. */
    ghost predicate Filled()
      reads this
    {
      NoEmptyFrames(recv) && (pending.Some? ==> pending.value.0 != [] || pending.value.1)
    }

    /** As much of the waiting frame as there is room for. */
    method TakePending(room: nat) returns (out: bytes, partial: bool)
      requires Valid() && pending.Some?
      modifies this`pending, this`readFin
      ensures Valid() && old(Incoming()) == out + Incoming() && |out| <= room
      ensures old(Burst()) == out + Burst()
      ensures partial <==> pending.Some?
      ensures partial ==> |out| == room && pending.value.0 != [] && readFin == old(readFin)
      ensures !partial ==> out == old(pending).value.0 && readFin == old(pending).value.1
      ensures room > 0 ==> old(Stalled(true)) == (out == [] && Stalled(true))
    {
      hide UpToFin, BeforeWait, Stalls;
      var (data, fin) := pending.value;
      if |data| > room {
        assert data == data[..room] + data[room..];
        Assoc(data[..room], data[room..], if fin then [] else UpToFin(recv));
        Assoc(data[..room], data[room..], if fin then [] else BeforeWait(recv));
        pending := Some((data[room..], fin));
        return data[..room], true;
      }
      pending := None;
      readFin := readFin || fin;
      return data, false;
    }

    /** One poll of the channel; a frame that arrives waits to be read. */
    method PollRecv() returns (got: Got)
      requires Valid() && pending.None? && !readFin
      modifies this`pending, this`recv
      ensures Valid() && Incoming() == old(Incoming())
      ensures got == Arrived ==> Burst() == old(Burst())
      ensures got != Arrived ==> old(Burst()) == []
      ensures got == Later <==> old(recv).Wait?
      ensures got == Arrived <==> old(recv).Arrives?
      ensures pending.Some? <==> got == Arrived
      ensures got == Gone ==> Incoming() == [] && recv == old(recv)
      ensures got != Gone ==> Length(recv) < Length(old(recv))
      ensures got == Gone ==> forall seen :: !old(Stalled(seen))
      ensures got == Later ==> forall seen :: old(Stalled(seen)) == (seen && Incoming() != [])
      ensures got == Arrived ==> forall seen :: old(Stalled(seen)) == Stalled(seen)
      ensures old(Filled()) ==> Filled()
    {
      match recv {
        case Hangup =>
          return Gone;
        case Wait(n) =>
          recv := n;
          return Later;
        case Arrives(d, fin, n) =>
          recv := n;
          pending := Some((d, fin));
          return Arrived;
      }
    }

    /** What can be read before the next wait. */
    ghost function Burst(): bytes
      reads this
    {
      if readFin then []
      else match pending
        case None => BeforeWait(recv)
        case Some((d, fin)) => d + if fin then [] else BeforeWait(recv)
    }

    /** Fills up to `capacity` bytes of the caller's buffer, with all there is before the next wait. With
        room to read into, an answer without bytes means the end, except exactly when the reader is
        stalled. */
    method PollRead(capacity: nat) returns (ready: bool, out: bytes)
      requires Valid()
      modifies this
      ensures Valid()
      ensures old(Incoming()) == out + Incoming()
      ensures |out| <= capacity
      ensures Length(recv) <= Length(old(recv))
      ensures !ready ==> out == [] && Length(recv) < Length(old(recv))
      ensures !ready <==> old(!readFin && pending.None? && recv.Wait?)
      ensures out == Front(old(Burst()), capacity)
      ensures old(Filled()) ==> Filled()
      ensures capacity > 0 ==> (ready && out == [] && Incoming() != [] <==> old(Stalled(false)))
    {
      hide UpToFin, BeforeWait, Length, Stalls, NoEmptyFrames, Front;
      out := [];
      var didRead := false;
      while true
        invariant Valid() && |out| <= capacity
        invariant old(Incoming()) == out + Incoming()
        invariant !didRead ==> out == []
        invariant Length(recv) <= Length(old(recv))
        invariant didRead ==> !readFin
        invariant old(Burst()) == out + Burst()
        invariant didRead ==> old(pending).Some? || old(recv).Arrives?
        invariant !didRead ==> readFin == old(readFin)
        invariant !didRead ==> (pending == old(pending) && recv == old(recv)) || (pending.Some? && old(recv).Arrives?)
        invariant old(Filled()) ==> Filled()
        invariant capacity > 0 ==> old(Stalled(false)) == (out == [] && Stalled(didRead))
        decreases Length(recv)
      {
        if pending.Some? {
          var d, partial := TakePending(capacity - |out|);
          Assoc(out, d, Incoming());
          Assoc(out, d, Burst());
          out := out + d;
          if partial {
            FrontPart(old(Burst()), out, Burst(), capacity);
            return true, out;
          }
          didRead := true;
        }
        if readFin {
          FrontPart(old(Burst()), out, Burst(), capacity);
          return true, out;
        }
        ghost var burst := Burst();
        var got := PollRecv();
        if got != Arrived { FrontPart(old(Burst()), out, burst, capacity); }
        if got == Gone { return true, out; }
        if got == Later { return didRead, out; }
      }
    }
  }

  /** An empty frame, a wait, and then the data: the read answers without bytes, as at the end. */
  method StalledRead() returns (ready: bool, out: bytes, r: Reader)
    ensures ready && out == [] && r.Incoming() == [1]
  {
    var data := Arrives([1], true, Hangup);
    assert UpToFin(data) == [1] + [] == [1];
    r := new Reader(Arrives([], false, Wait(data)), false);
    assert r.Incoming() == [] + UpToFin(Wait(data)) == [1];
    assert Stalls(Wait(data), true);
    ready, out := r.PollRead(10);
  }

  /** Reads of any capacities deliver, in order, exactly what was received up to the fin. */
  method RunReader(r: Reader, capacities: seq<nat>) returns (out: bytes)
    requires r.Valid()
    modifies r
    ensures old(r.Incoming()) == out + r.Incoming()
  {
    hide UpToFin, Stalls, Length;
    out := [];
    for i := 0 to |capacities|
      invariant r.Valid()
      invariant old(r.Incoming()) == out + r.Incoming()
    {
      var _, d := r.PollRead(capacities[i]);
      Assoc(out, d, r.Incoming());
      out := out + d;
    }
  }

  /** A caller that reads until an answer without bytes: it has everything up to the fin, unless an
      empty frame stalled it. */
  method ReadToFin(r: Reader, capacity: nat) returns (out: bytes)
    requires r.Valid() && capacity > 0
    modifies r
    ensures old(r.Incoming()) == out + r.Incoming()
    ensures old(r.Filled()) ==> out == old(r.Incoming())
  {
    hide UpToFin, Stalls, Length, NoEmptyFrames;
    out := [];
    var ready, d := false, [];
    while !ready || d != []
      invariant r.Valid()
      invariant old(r.Incoming()) == out + r.Incoming()
      invariant old(r.Filled()) ==> r.Filled() && (ready && d == [] ==> r.Incoming() == [])
      decreases |r.Incoming()| + Length(r.recv), !ready || d != []
    {
      if r.Filled() { FilledNeverStalls(r); }
      ready, d := r.PollRead(capacity);
      Assoc(out, d, r.Incoming());
      out := out + d;
    }
  }

  lemma FilledNeverStalls(r: Reader)
    requires r.Filled()
    ensures !r.Stalled(false)
  {
    NeverStalls(r.recv);
  }

  // ---------- from one end to the other ----------

  lemma {:induction false} FrameDataFront(fs: seq<Frame>)
    requires fs != [] && fs[0].Body?
    ensures FrameData(fs) == fs[0].data + FrameData(fs[1..])
  {
    if |fs| == 1 {
      assert FrameData(fs[..0]) == [] && FrameData(fs[1..]) == [];
      assert [] + fs[0].data == fs[0].data + [];
    } else {
      var init, last := fs[..|fs| - 1], fs[|fs| - 1];
      FrameDataFront(init);
      assert init[1..] == fs[1..][..|fs| - 2];
      assert fs[1..][|fs| - 2] == last;
      Assoc(fs[0].data, FrameData(init[1..]), if last.Body? then last.data else []);
    }
  }

  function Delayed(waits: nat, i: Inbound): Inbound {
    if waits == 0 then i else Wait(Delayed(waits - 1, i))
  }

  /** The frames as they arrive, each after its own number of waits; then the channel hangs up. */
  function Arrival(fs: seq<Frame>, waits: seq<nat>): Inbound
    requires Solid(fs) && |waits| == |fs|
  {
    if fs == [] then Hangup else Delayed(waits[0], Arrives(fs[0].data, fs[0].fin, Arrival(fs[1..], waits[1..])))
  }

  lemma {:induction false} DelayedSame(waits: nat, i: Inbound)
    ensures UpToFin(Delayed(waits, i)) == UpToFin(i) && NoEmptyFrames(Delayed(waits, i)) == NoEmptyFrames(i)
  {
    if waits > 0 { DelayedSame(waits - 1, i); }
  }

  /** What arrives up to the fin is what the frames carry. */
  lemma {:induction false} ArrivalWhole(fs: seq<Frame>, waits: seq<nat>)
    requires Solid(fs) && FinLast(fs) && |waits| == |fs|
    ensures UpToFin(Arrival(fs, waits)) == FrameData(fs)
    ensures NoEmptyFrames(Arrival(fs, waits))
    decreases |fs|
  {
    hide FrameData, Delayed;
    if fs == [] {
      NoFrames(0);
    } else {
      var rest := Arrival(fs[1..], waits[1..]);
      DelayedSame(waits[0], Arrives(fs[0].data, fs[0].fin, rest));
      FrameDataFront(fs);
      ArrivalWhole(fs[1..], waits[1..]);
      if fs[0].fin {
        assert fs[1..] == [];
        NoFrames(0);
      }
    }
  }

  /** Over any writes and shutdowns on an open channel, and any delays on the way, a reader with room
      gets exactly the bytes the writer accepted. */
  method Transfer(w: Writer, ops: seq<Op>, delays: nat -> nat, capacity: nat) returns (accepted: bytes, received: bytes)
    requires w.Valid() && w.sender.sent == [] && OpenChannel(w.sender.slots) && capacity > 0
    modifies w, w.sender
    ensures received == accepted
  {
    hide FrameData, UpToFin, NoEmptyFrames, Arrival;
    accepted := RunWriter(w, ops);
    var waits := seq(|w.sender.sent|, i requires 0 <= i => delays(i));
    ArrivalWhole(w.sender.sent, waits);
    var r := new Reader(Arrival(w.sender.sent, waits), false);
    received := ReadToFin(r, capacity);
  }
}
