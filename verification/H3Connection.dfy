/** Correlation of requests, streams and responses, src/client/http3/connection.rs. */
module H3Connection {
  import opened Bytes

  type Headers = seq<(bytes, bytes)>

  /** What the connection reacts to. `Fatal` stands for connection errors, GOAWAY and shutdown;
      `Other` for flows, body notices and closed streams. Request ids come from one counter for the
      whole process: `skipped` ids went to other connections since this one last drew. `taken` says
      whether the driver took the new request. */
  datatype Input =
    | ClientRequest(skipped: nat, taken: bool)
    | NewOutboundRequest(stream: nat, request: nat)
    | IncomingHeaders(stream: nat, headers: Headers)
    | ResetStream(stream: nat)
    | IncomingSettings
    | Fatal
    | Other

  /** A response handed to the caller of `request`. */
  datatype Fired = Fired(request: nat, stream: nat, headers: Headers)

  datatype State = State(
    nextId: nat,
    pending: set<nat>,
    streams: map<nat, nat>,
    settings: bool,
    running: bool)

  const INITIAL: State := State(0, {}, map[], false, true)

  /** One turn of the run loop: the state after it and the response it sends, if any. `valid` says
      which headers make a response. */
  function Step(valid: Headers -> bool, s: State, i: Input): (State, Option<Fired>) {
    if !s.running then (s, None)
    else match i
      case ClientRequest(skipped, taken) =>
        var id := s.nextId + skipped;
        if taken then (s.(nextId := id + 1, pending := s.pending + {id}), None)
        else (s.(nextId := id + 1, running := false), None)
      case NewOutboundRequest(stream, request) =>
        (s.(streams := s.streams[stream := request]), None)
      case IncomingHeaders(stream, headers) =>
        if stream !in s.streams then (s.(running := false), None)
        else
          var request := s.streams[stream];
          var s1 := s.(streams := s.streams - {stream});
          if request !in s.pending then (s1, None)
          else
            var s2 := s1.(pending := s.pending - {request});
            if valid(headers) then (s2, Some(Fired(request, stream, headers)))
            else (s2.(running := false), None)
      case ResetStream(stream) =>
        if stream in s.streams then (s.(pending := s.pending - {s.streams[stream]}), None) else (s, None)
      case IncomingSettings =>
        if s.settings then (s.(running := false), None) else (s.(settings := true), None)
      case Fatal => (s.(running := false), None)
      case Other => (s, None)
  }

  class Connection {
    var nextId: nat
    var pendingRequests: set<nat>
    var streamToRequest: map<nat, nat>
    var peerSettings: bool

    constructor ()
      ensures Snapshot(true) == INITIAL
    {
      nextId := 0;
      pendingRequests := {};
      streamToRequest := map[];
      peerSettings := false;
    }

    ghost function Snapshot(running: bool): State
      reads this
    {
      State(nextId, pendingRequests, streamToRequest, peerSettings, running)
    }

    /** Handles one event; `ok` is false when the run loop must stop. */
    method HandleEvent(valid: Headers -> bool, i: Input) returns (ok: bool, fired: Option<Fired>)
      requires !i.ClientRequest?
      modifies this
      ensures (Snapshot(ok), fired) == Step(valid, old(Snapshot(true)), i)
    {
      match i {
        case NewOutboundRequest(stream, request) =>
          streamToRequest := streamToRequest[stream := request];
          return true, None;
        case Fatal =>
          return false, None;
        case Other =>
          return true, None;
        case IncomingSettings =>
          if peerSettings { return false, None; }
          peerSettings := true;
          return true, None;
        case ResetStream(stream) =>
          if stream in streamToRequest {
            pendingRequests := pendingRequests - {streamToRequest[stream]};
          }
          return true, None;
        case IncomingHeaders(stream, headers) =>
          if stream !in streamToRequest { return false, None; }
          var request := streamToRequest[stream];
          streamToRequest := streamToRequest - {stream};
          if request !in pendingRequests { return true, None; }
          pendingRequests := pendingRequests - {request};
          if !valid(headers) { return false, None; }
          return true, Some(Fired(request, stream, headers));
      }
    }

    method HandleClientRequest(skipped: nat, taken: bool) returns (ok: bool)
      modifies this
      ensures forall valid :: (Snapshot(ok), None) == Step(valid, old(Snapshot(true)), ClientRequest(skipped, taken))
    {
      var id := nextId + skipped;
      nextId := id + 1;
      if !taken { return false; }
      pendingRequests := pendingRequests + {id};
      return true;
    }
  }

  // ---------- runs ----------

  function After(valid: Headers -> bool, inputs: seq<Input>): State {
    if inputs == [] then INITIAL
    else Step(valid, After(valid, inputs[..|inputs| - 1]), inputs[|inputs| - 1]).0
  }

  /** What input `n` of a run makes the connection send. */
  function Fires(valid: Headers -> bool, inputs: seq<Input>, n: nat): Option<Fired>
    requires n < |inputs|
  {
    Step(valid, After(valid, inputs[..n]), inputs[n]).1
  }

  /** The run loop over a sequence of inputs: what it sends is what the run fires. */
  method Run(valid: Headers -> bool, inputs: seq<Input>) returns (log: seq<Option<Fired>>)
    ensures |log| <= |inputs|
    ensures forall n :: 0 <= n < |log| ==> log[n] == Fires(valid, inputs, n)
    ensures forall n :: |log| <= n < |inputs| ==> Fires(valid, inputs, n) == None
  {
    hide Step;
    var c := new Connection();
    log := [];
    var ok := true;
    assert inputs[..0] == [];
    while ok && |log| < |inputs|
      invariant |log| <= |inputs|
      invariant c.Snapshot(ok) == After(valid, inputs[..|log|])
      invariant forall n :: 0 <= n < |log| ==> log[n] == Fires(valid, inputs, n)
      decreases |inputs| - |log|
    {
      AfterNext(valid, inputs, |log|);
      var i := inputs[|log|];
      var fired := None;
      if i.ClientRequest? {
        ok := c.HandleClientRequest(i.skipped, i.taken);
        assert Step(valid, After(valid, inputs[..|log|]), ClientRequest(i.skipped, i.taken)) == (c.Snapshot(ok), None);
      } else {
        ok, fired := c.HandleEvent(valid, i);
      }
      log := log + [fired];
    }
    if !ok {
      Halted(valid, inputs, |log|);
    }
  }

  lemma {:induction false} Halted(valid: Headers -> bool, inputs: seq<Input>, n: nat)
    requires n <= |inputs| && !After(valid, inputs[..n]).running
    ensures forall m :: n <= m < |inputs| ==> Fires(valid, inputs, m) == None
    decreases |inputs| - n
  {
    if n < |inputs| {
      AfterNext(valid, inputs, n);
      Halted(valid, inputs, n + 1);
    }
  }

  /** How far the process-wide counter has moved. */
  function Drawn(inputs: seq<Input>): nat {
    if inputs == [] then 0
    else Drawn(inputs[..|inputs| - 1])
         + match inputs[|inputs| - 1] case ClientRequest(skipped, _) => skipped + 1 case _ => 0
  }

  /** The driver binds each request the connection has issued to one stream of its own, before
      anything else happens on that stream. */
  predicate Disciplined(inputs: seq<Input>) {
    forall n :: 0 <= n < |inputs| && inputs[n].NewOutboundRequest? ==>
      && inputs[n].request < Drawn(inputs[..n])
      && forall m :: 0 <= m < n ==> !OnStream(inputs[m], inputs[n].stream) && !Binds(inputs[m], inputs[n].request)
  }

  predicate OnStream(i: Input, stream: nat) {
    (i.NewOutboundRequest? || i.IncomingHeaders? || i.ResetStream?) && i.stream == stream
  }

  predicate Binds(i: Input, request: nat) {
    i.NewOutboundRequest? && i.request == request
  }

  lemma AfterNext(valid: Headers -> bool, inputs: seq<Input>, n: nat)
    requires n < |inputs|
    ensures After(valid, inputs[..n + 1]) == Step(valid, After(valid, inputs[..n]), inputs[n]).0
  {
    assert inputs[..n + 1][..n] == inputs[..n];
  }

  lemma DrawnNext(inputs: seq<Input>, n: nat)
    requires n < |inputs|
    ensures Drawn(inputs[..n + 1]) ==
            Drawn(inputs[..n]) + match inputs[n] case ClientRequest(skipped, _) => skipped + 1 case _ => 0
  {
    assert inputs[..n + 1][..n] == inputs[..n];
  }

  /** The next id is where the counter stands. */
  lemma {:induction false} IdsDrawn(valid: Headers -> bool, inputs: seq<Input>, n: nat)
    requires n <= |inputs| && After(valid, inputs[..n]).running
    ensures After(valid, inputs[..n]).nextId == Drawn(inputs[..n])
  {
    if n == 0 {
      assert inputs[..0] == [];
    } else {
      AfterNext(valid, inputs, n - 1);
      DrawnNext(inputs, n - 1);
      StepFacts(valid, After(valid, inputs[..n - 1]), inputs[n - 1]);
      IdsDrawn(valid, inputs, n - 1);
      hide After, Drawn;
    }
  }

  /** What one turn can do to the two tables. */
  lemma StepFacts(valid: Headers -> bool, s: State, i: Input)
    ensures var (s', f) := Step(valid, s, i);
            && s.nextId <= s'.nextId
            && (s'.running ==> s.running)
            && (forall r :: r in s'.pending ==> r in s.pending || s.nextId <= r < s'.nextId)
            && (f.Some? ==> s.running && i == IncomingHeaders(f.value.stream, f.value.headers) && valid(f.value.headers)
                            && f.value.stream in s.streams && s.streams[f.value.stream] == f.value.request
                            && f.value.request in s.pending && f.value.request !in s'.pending)
            && (forall t :: t in s'.streams ==> (t in s.streams && s.streams[t] == s'.streams[t])
                                                || i == NewOutboundRequest(t, s'.streams[t]))
            && (i.ResetStream? && s.running && i.stream in s'.streams ==> s'.streams[i.stream] !in s'.pending)
  {
  }

  /** Requests that wait have been issued and not answered. */
  ghost predicate Inv(valid: Headers -> bool, inputs: seq<Input>, n: nat)
    requires n <= |inputs|
  {
    var s := After(valid, inputs[..n]);
    && (forall r :: r in s.pending ==> r < s.nextId)
    && (forall m :: 0 <= m < n && Fires(valid, inputs, m).Some? ==>
          Fires(valid, inputs, m).value.request < s.nextId && Fires(valid, inputs, m).value.request !in s.pending)
  }

  lemma {:induction false} InvHolds(valid: Headers -> bool, inputs: seq<Input>, n: nat)
    requires n <= |inputs|
    ensures Inv(valid, inputs, n)
  {
    if n == 0 {
      assert inputs[..0] == [];
    } else {
      InvHolds(valid, inputs, n - 1);
      InvStep(valid, inputs, n - 1);
    }
  }

  lemma InvStep(valid: Headers -> bool, inputs: seq<Input>, n: nat)
    requires n < |inputs| && Inv(valid, inputs, n)
    ensures Inv(valid, inputs, n + 1)
  {
    hide After, Step;
    AfterNext(valid, inputs, n);
    StepFacts(valid, After(valid, inputs[..n]), inputs[n]);
    var s, s' := After(valid, inputs[..n]), After(valid, inputs[..n + 1]);
    forall m | 0 <= m < n + 1 && Fires(valid, inputs, m).Some?
      ensures Fires(valid, inputs, m).value.request < s'.nextId && Fires(valid, inputs, m).value.request !in s'.pending
    {
      var f := Fires(valid, inputs, m).value.request;
      if m < n {
        assert f < s.nextId && f !in s.pending;
      }
    }
  }

  /** Streams in the table were bound to the requests they stand for. */
  lemma {:induction false} Bound(valid: Headers -> bool, inputs: seq<Input>, n: nat, t: nat) returns (m: nat)
    requires n <= |inputs| && t in After(valid, inputs[..n]).streams
    ensures m < n && inputs[m] == NewOutboundRequest(t, After(valid, inputs[..n]).streams[t])
  {
    if n == 0 {
      assert false;
    } else {
      AfterNext(valid, inputs, n - 1);
      hide After, Step;
      var s := After(valid, inputs[..n - 1]);
      StepFacts(valid, s, inputs[n - 1]);
      if t in s.streams && s.streams[t] == After(valid, inputs[..n]).streams[t] {
        m := Bound(valid, inputs, n - 1, t);
      } else {
        m := n - 1;
      }
    }
  }

  /** No request is answered twice, whatever the driver does. */
  lemma FiresOnce(valid: Headers -> bool, inputs: seq<Input>, m: nat, n: nat)
    requires m < n < |inputs|
    requires Fires(valid, inputs, m).Some? && Fires(valid, inputs, n).Some?
    ensures Fires(valid, inputs, m).value.request != Fires(valid, inputs, n).value.request
  {
    hide After, Step;
    InvHolds(valid, inputs, n);
    StepFacts(valid, After(valid, inputs[..n]), inputs[n]);
  }

  /** A request is answered only with the headers that came in on the stream it was bound to. */
  lemma FiresOwnStream(valid: Headers -> bool, inputs: seq<Input>, n: nat)
    requires n < |inputs| && Fires(valid, inputs, n).Some?
    ensures var f := Fires(valid, inputs, n).value;
            && inputs[n] == IncomingHeaders(f.stream, f.headers)
            && valid(f.headers)
            && exists m :: 0 <= m < n && inputs[m] == NewOutboundRequest(f.stream, f.request)
  {
    hide After, Step;
    var s, f := After(valid, inputs[..n]), Fires(valid, inputs, n).value;
    StepFacts(valid, s, inputs[n]);
    var m := Bound(valid, inputs, n, f.stream);
  }

  predicate WasReset(inputs: seq<Input>, n: nat, stream: nat)
    requires n <= |inputs|
  {
    exists k :: 0 <= k < n && inputs[k] == ResetStream(stream)
  }

  /** A request bound to a stream that was reset waits no more. */
  ghost predicate ResetsHold(valid: Headers -> bool, inputs: seq<Input>, n: nat)
    requires n <= |inputs|
  {
    var s := After(valid, inputs[..n]);
    s.running ==> forall t :: t in s.streams ==>
      s.streams[t] < s.nextId && (WasReset(inputs, n, t) ==> s.streams[t] !in s.pending)
  }

  lemma ResetNow(inputs: seq<Input>, n: nat, t: nat)
    requires 0 < n <= |inputs|
    ensures WasReset(inputs, n, t) ==> WasReset(inputs, n - 1, t) || inputs[n - 1] == ResetStream(t)
  {
  }

  lemma FreshStream(valid: Headers -> bool, inputs: seq<Input>, n: nat)
    requires n < |inputs| && Disciplined(inputs) && inputs[n].NewOutboundRequest? && After(valid, inputs[..n]).running
    ensures inputs[n].request < After(valid, inputs[..n]).nextId
    ensures !WasReset(inputs, n, inputs[n].stream)
  {
    hide After;
    IdsDrawn(valid, inputs, n);
    forall k | 0 <= k < n
      ensures inputs[k] != ResetStream(inputs[n].stream)
    {
      assert !OnStream(inputs[k], inputs[n].stream);
    }
  }

  lemma {:induction false} ResetsKept(valid: Headers -> bool, inputs: seq<Input>, n: nat)
    requires n <= |inputs| && Disciplined(inputs)
    ensures ResetsHold(valid, inputs, n)
  {
    if n == 0 {
      assert inputs[..0] == [];
    } else {
      ResetsKept(valid, inputs, n - 1);
      AfterNext(valid, inputs, n - 1);
      hide After, Step, Disciplined, WasReset;
      StepFacts(valid, After(valid, inputs[..n - 1]), inputs[n - 1]);
      if inputs[n - 1].NewOutboundRequest? && After(valid, inputs[..n - 1]).running {
        FreshStream(valid, inputs, n - 1);
      }
      var s, s', i := After(valid, inputs[..n - 1]), After(valid, inputs[..n]), inputs[n - 1];
      if s'.running {
        forall t | t in s'.streams
          ensures s'.streams[t] < s'.nextId
          ensures WasReset(inputs, n, t) ==> s'.streams[t] !in s'.pending
        {
          ResetNow(inputs, n, t);
        }
      }
    }
  }

  /** Under a disciplined driver no request is answered from a stream that was reset before its
      headers came. */
  lemma NeverAfterReset(valid: Headers -> bool, inputs: seq<Input>, k: nat, n: nat)
    requires Disciplined(inputs)
    requires k < n < |inputs| && inputs[k].ResetStream?
    requires Fires(valid, inputs, n).Some?
    ensures Fires(valid, inputs, n).value.stream != inputs[k].stream
  {
    hide After, Step;
    ResetsKept(valid, inputs, n);
    StepFacts(valid, After(valid, inputs[..n]), inputs[n]);
    assert WasReset(inputs, n, inputs[k].stream);
  }

  // ---------- runs told by their inputs alone ----------

  /** Input `k` is a client request that draws the id `r` and that the driver takes. */
  predicate Issues(inputs: seq<Input>, k: int, r: nat) {
    0 <= k < |inputs| && inputs[k].ClientRequest? && inputs[k].taken && r == Drawn(inputs[..k]) + inputs[k].skipped
  }

  predicate BindsStream(i: Input, t: nat) {
    i.NewOutboundRequest? && i.stream == t
  }

  predicate HeadersOn(i: Input, t: nat) {
    i.IncomingHeaders? && i.stream == t
  }

  predicate Touches(i: Input, t: nat) {
    (i.IncomingHeaders? || i.ResetStream?) && i.stream == t
  }

  /** Input `m` bound stream `t` to request `r`, and before input `n` no headers came on it and nothing
      bound it again. */
  predicate BoundAt(inputs: seq<Input>, n: nat, t: nat, r: nat, m: int)
    requires n <= |inputs|
  {
    0 <= m < n && inputs[m] == NewOutboundRequest(t, r)
    && forall k :: m < k < n ==> !HeadersOn(inputs[k], t) && !BindsStream(inputs[k], t)
  }

  ghost predicate IsBound(inputs: seq<Input>, n: nat, t: nat, r: nat)
    requires n <= |inputs|
  {
    exists m :: BoundAt(inputs, n, t, r, m)
  }

  predicate IssuedBefore(inputs: seq<Input>, n: nat, r: nat)
    requires n <= |inputs|
  {
    exists k :: 0 <= k < n && Issues(inputs, k, r)
  }

  /** Nothing has touched the stream of request `r` since it was bound. */
  predicate Untouched(inputs: seq<Input>, n: nat, r: nat)
    requires n <= |inputs|
  {
    forall m, j :: 0 <= m < j < n && Binds(inputs[m], r) ==> !Touches(inputs[j], inputs[m].stream)
  }

  /** Request `r` was issued before input `n`, and since it was bound to a stream neither headers nor a
      reset came on that stream. */
  predicate Waiting(inputs: seq<Input>, n: nat, r: nat)
    requires n <= |inputs|
  {
    IssuedBefore(inputs, n, r) && Untouched(inputs, n, r)
  }

  predicate SettingsBefore(inputs: seq<Input>, n: nat)
    requires n <= |inputs|
  {
    exists k :: 0 <= k < n && inputs[k] == IncomingSettings
  }

  /** Input `n` stops the connection: a fatal event, a request the driver does not take, settings a
      second time, headers on a stream that is bound to nothing, or headers that make no response for
      a request that waits. */
  ghost predicate StopsAt(valid: Headers -> bool, inputs: seq<Input>, n: nat)
    requires n < |inputs|
  {
    match inputs[n]
    case Fatal => true
    case ClientRequest(_, taken) => !taken
    case IncomingSettings => SettingsBefore(inputs, n)
    case IncomingHeaders(t, h) =>
      || (forall r: nat :: !IsBound(inputs, n, t, r))
      || (!valid(h) && exists r: nat :: IsBound(inputs, n, t, r) && Waiting(inputs, n, r))
    case _ => false
  }

  /** The tables after `n` inputs say exactly what the inputs say. */
  ghost predicate Told(valid: Headers -> bool, inputs: seq<Input>, n: nat)
    requires n <= |inputs|
  {
    var s := After(valid, inputs[..n]);
    s.running ==>
      && s.nextId == Drawn(inputs[..n])
      && s.settings == SettingsBefore(inputs, n)
      && (forall t: nat, r: nat :: IsBound(inputs, n, t, r) <==> t in s.streams && s.streams[t] == r)
      && (forall r: nat :: r in s.pending <==> Waiting(inputs, n, r))
  }

  lemma {:induction false} DrawnGrows(inputs: seq<Input>, k: nat, n: nat)
    requires k <= n <= |inputs|
    ensures Drawn(inputs[..k]) <= Drawn(inputs[..n])
    ensures k < n && inputs[k].ClientRequest? ==> Drawn(inputs[..k]) + inputs[k].skipped < Drawn(inputs[..n])
    decreases n - k
  {
    if k < n {
      DrawnNext(inputs, k);
      DrawnGrows(inputs, k + 1, n);
    }
  }

  lemma BoundStep(inputs: seq<Input>, n: nat, t: nat, r: nat)
    requires n < |inputs|
    ensures IsBound(inputs, n + 1, t, r) <==>
            || inputs[n] == NewOutboundRequest(t, r)
            || (!BindsStream(inputs[n], t) && !HeadersOn(inputs[n], t) && IsBound(inputs, n, t, r))
  {
    if inputs[n] == NewOutboundRequest(t, r) {
      assert BoundAt(inputs, n + 1, t, r, n);
    }
    if !BindsStream(inputs[n], t) && !HeadersOn(inputs[n], t) && IsBound(inputs, n, t, r) {
      var m :| BoundAt(inputs, n, t, r, m);
      assert BoundAt(inputs, n + 1, t, r, m);
    }
    if IsBound(inputs, n + 1, t, r) {
      var n' := n + 1;
      var m :| BoundAt(inputs, n', t, r, m);
      if m < n {
        assert BoundAt(inputs, n, t, r, m);
      }
    }
  }

  lemma WaitingStep(inputs: seq<Input>, n: nat, r: nat)
    requires n < |inputs|
    ensures IssuedBefore(inputs, n + 1, r) <==> IssuedBefore(inputs, n, r) || Issues(inputs, n, r)
    ensures Untouched(inputs, n + 1, r) <==>
            Untouched(inputs, n, r) && forall m :: 0 <= m < n && Binds(inputs[m], r) ==> !Touches(inputs[n], inputs[m].stream)
  {
    hide Issues;
    if Issues(inputs, n, r) {
      assert 0 <= n < n + 1 && Issues(inputs, n, r);
    }
  }

  /** Under a disciplined driver, a stream is bound once, and a request to one stream. */
  lemma OneBinding(inputs: seq<Input>, m: int, m': int)
    requires Disciplined(inputs) && 0 <= m < |inputs| && 0 <= m' < |inputs|
    requires inputs[m].NewOutboundRequest? && inputs[m'].NewOutboundRequest?
    requires inputs[m].stream == inputs[m'].stream || inputs[m].request == inputs[m'].request
    ensures m == m'
  {
  }

  lemma {:induction false} StillRunning(valid: Headers -> bool, inputs: seq<Input>, m: nat, n: nat)
    requires m <= n <= |inputs| && After(valid, inputs[..n]).running
    ensures After(valid, inputs[..m]).running
    decreases n - m
  {
    if m < n {
      AfterNext(valid, inputs, n - 1);
      StepFacts(valid, After(valid, inputs[..n - 1]), inputs[n - 1]);
      StillRunning(valid, inputs, m, n - 1);
    }
  }

  /** The id of a request that has just been issued is bound to nothing yet. */
  lemma NotBoundYet(inputs: seq<Input>, n: nat, m: int)
    requires Disciplined(inputs) && 0 <= m < n <= |inputs| && inputs[m].NewOutboundRequest?
    ensures inputs[m].request < Drawn(inputs[..n])
  {
    DrawnGrows(inputs, m, n);
  }

  /** What one turn does to the table of waiting requests. */
  lemma PendingAfter(valid: Headers -> bool, s: State, i: Input, r: nat)
    requires s.running && Step(valid, s, i).0.running
    ensures r in Step(valid, s, i).0.pending <==>
            || (r in s.pending && !((i.IncomingHeaders? || i.ResetStream?) && i.stream in s.streams && s.streams[i.stream] == r))
            || (i.ClientRequest? && i.taken && r == s.nextId + i.skipped)
  {
  }

  /** How one input changes which requests wait. */
  lemma PendingStep(valid: Headers -> bool, inputs: seq<Input>, n: nat, r: nat)
    requires n < |inputs| && Disciplined(inputs) && Told(valid, inputs, n)
    requires After(valid, inputs[..n + 1]).running
    ensures r in After(valid, inputs[..n + 1]).pending <==> Waiting(inputs, n + 1, r)
  {
    AfterNext(valid, inputs, n);
    hide After, Step, Told, Disciplined, Issues, Untouched, IssuedBefore, Touches, Binds;
    var s, i := After(valid, inputs[..n]), inputs[n];
    StillRunning(valid, inputs, n, n + 1);
    Unfold(valid, inputs, n, r);
    WaitingStep(inputs, n, r);
    PendingAfter(valid, s, i, r);
    if i.ClientRequest? {
      IssuedNow(inputs, n, r);
      NotTouching(inputs, n, r);
    } else {
      NotIssued(inputs, n, r);
      if i.IncomingHeaders? || i.ResetStream? {
        TouchedNow(valid, inputs, n, r);
      } else {
        NotTouching(inputs, n, r);
      }
    }
  }

  lemma NotTouching(inputs: seq<Input>, n: nat, r: nat)
    requires n < |inputs| && !inputs[n].IncomingHeaders? && !inputs[n].ResetStream?
    ensures forall m :: 0 <= m < n && Binds(inputs[m], r) ==> !Touches(inputs[n], inputs[m].stream)
  {
  }

  lemma Unfold(valid: Headers -> bool, inputs: seq<Input>, n: nat, r: nat)
    requires n <= |inputs| && Told(valid, inputs, n) && After(valid, inputs[..n]).running
    ensures var s := After(valid, inputs[..n]);
            s.nextId == Drawn(inputs[..n]) && (r in s.pending <==> Waiting(inputs, n, r))
  {
    hide After, Waiting;
  }

  lemma NotIssued(inputs: seq<Input>, n: nat, r: nat)
    requires n < |inputs| && !inputs[n].ClientRequest?
    ensures !Issues(inputs, n, r)
  {
  }

  lemma IssuedNow(inputs: seq<Input>, n: nat, r: nat)
    requires n < |inputs| && Disciplined(inputs) && inputs[n].ClientRequest?
    ensures Issues(inputs, n, r) <==> inputs[n].taken && r == Drawn(inputs[..n]) + inputs[n].skipped
    ensures Issues(inputs, n, r) ==> Untouched(inputs, n, r)
  {
    hide Disciplined;
    if Issues(inputs, n, r) {
      forall m | 0 <= m < n && Binds(inputs[m], r)
        ensures false
      {
        NotBoundYet(inputs, n, m);
      }
    }
  }

  /** Headers or a reset on a stream end the wait of the request in the table under it, and of no other. */
  lemma TouchedNow(valid: Headers -> bool, inputs: seq<Input>, n: nat, r: nat)
    requires n < |inputs| && Disciplined(inputs) && (inputs[n].IncomingHeaders? || inputs[n].ResetStream?)
    requires Told(valid, inputs, n) && After(valid, inputs[..n]).running
    ensures var s, t := After(valid, inputs[..n]), inputs[n].stream;
            Untouched(inputs, n, r) ==>
              ((exists m :: 0 <= m < n && Binds(inputs[m], r) && Touches(inputs[n], inputs[m].stream))
               <==> t in s.streams && s.streams[t] == r)
  {
    hide After, Disciplined;
    var s, t := After(valid, inputs[..n]), inputs[n].stream;
    assert IsBound(inputs, n, t, r) <==> t in s.streams && s.streams[t] == r;
    if IsBound(inputs, n, t, r) {
      var m :| BoundAt(inputs, n, t, r, m);
      assert Binds(inputs[m], r) && Touches(inputs[n], inputs[m].stream);
    }
    if Untouched(inputs, n, r) && exists m :: 0 <= m < n && Binds(inputs[m], r) && Touches(inputs[n], inputs[m].stream) {
      var m :| 0 <= m < n && Binds(inputs[m], r) && Touches(inputs[n], inputs[m].stream);
      forall k | m < k < n
        ensures !HeadersOn(inputs[k], t) && !BindsStream(inputs[k], t)
      {
        if BindsStream(inputs[k], t) {
          OneBinding(inputs, m, k);
        }
        assert !Touches(inputs[k], t);
      }
      assert BoundAt(inputs, n, t, r, m);
    }
  }

  lemma StreamsAfter(valid: Headers -> bool, s: State, i: Input, t: nat, r: nat)
    requires s.running && Step(valid, s, i).0.running
    ensures var s' := Step(valid, s, i).0;
            (t in s'.streams && s'.streams[t] == r) <==>
              || i == NewOutboundRequest(t, r)
              || (!BindsStream(i, t) && !HeadersOn(i, t) && t in s.streams && s.streams[t] == r)
  {
  }

  lemma {:induction false} ToldHolds(valid: Headers -> bool, inputs: seq<Input>, n: nat)
    requires n <= |inputs| && Disciplined(inputs)
    ensures Told(valid, inputs, n)
  {
    if n == 0 {
      NothingTold(valid, inputs);
    } else {
      ToldHolds(valid, inputs, n - 1);
      if After(valid, inputs[..n]).running {
        ToldStep(valid, inputs, n - 1);
      }
    }
  }

  lemma NothingTold(valid: Headers -> bool, inputs: seq<Input>)
    ensures Told(valid, inputs, 0)
  {
    assert inputs[..0] == [];
  }

  lemma ToldStep(valid: Headers -> bool, inputs: seq<Input>, n: nat)
    requires n < |inputs| && Disciplined(inputs) && Told(valid, inputs, n)
    requires After(valid, inputs[..n + 1]).running
    ensures Told(valid, inputs, n + 1)
  {
    StillRunning(valid, inputs, n, n + 1);
    CountersStep(valid, inputs, n);
    AfterNext(valid, inputs, n);
    hide After, Step, Disciplined, Waiting, IsBound, Drawn, SettingsBefore, BindsStream, HeadersOn;
    var s, s', n' := After(valid, inputs[..n]), After(valid, inputs[..n + 1]), n + 1;
    forall t: nat, r: nat
      ensures IsBound(inputs, n', t, r) <==> t in s'.streams && s'.streams[t] == r
    {
      StreamsAfter(valid, s, inputs[n], t, r);
      BoundStep(inputs, n, t, r);
    }
    forall r: nat
      ensures r in s'.pending <==> Waiting(inputs, n', r)
    {
      PendingStep(valid, inputs, n, r);
    }
  }

  lemma SettingsNext(inputs: seq<Input>, n: nat)
    requires n < |inputs|
    ensures SettingsBefore(inputs, n + 1) <==> SettingsBefore(inputs, n) || inputs[n] == IncomingSettings
  {
    if inputs[n] == IncomingSettings { assert 0 <= n < n + 1 && inputs[n] == IncomingSettings; }
  }

  lemma CountersStep(valid: Headers -> bool, inputs: seq<Input>, n: nat)
    requires n < |inputs| && Told(valid, inputs, n)
    requires After(valid, inputs[..n]).running && After(valid, inputs[..n + 1]).running
    ensures var s' := After(valid, inputs[..n + 1]);
            s'.nextId == Drawn(inputs[..n + 1]) && s'.settings == SettingsBefore(inputs, n + 1)
  {
    AfterNext(valid, inputs, n);
    DrawnNext(inputs, n);
    SettingsNext(inputs, n);
    assert After(valid, inputs[..n]).nextId == Drawn(inputs[..n]);
    hide After, Drawn, SettingsBefore, IsBound, Waiting;
  }

  /** A running connection goes on exactly unless its input is one that stops it. */
  lemma StopsExactly(valid: Headers -> bool, inputs: seq<Input>, n: nat)
    requires n < |inputs| && Disciplined(inputs) && After(valid, inputs[..n]).running
    ensures After(valid, inputs[..n + 1]).running <==> !StopsAt(valid, inputs, n)
  {
    ToldHolds(valid, inputs, n);
    AfterNext(valid, inputs, n);
    hide After, Disciplined, Waiting, IsBound;
    var s, i := After(valid, inputs[..n]), inputs[n];
    if i.IncomingHeaders? && i.stream in s.streams {
      assert IsBound(inputs, n, i.stream, s.streams[i.stream]);
    }
  }

  /** Nothing before input `n` stopped the connection. */
  ghost predicate Alive(valid: Headers -> bool, inputs: seq<Input>, n: nat)
    requires n <= |inputs|
  {
    forall k :: 0 <= k < n ==> !StopsAt(valid, inputs, k)
  }

  lemma {:induction false} AliveExactly(valid: Headers -> bool, inputs: seq<Input>, n: nat)
    requires n <= |inputs| && Disciplined(inputs)
    ensures After(valid, inputs[..n]).running <==> Alive(valid, inputs, n)
  {
    if n == 0 {
      assert inputs[..0] == [];
    } else {
      AliveExactly(valid, inputs, n - 1);
      if After(valid, inputs[..n]).running {
        StillRunning(valid, inputs, n - 1, n);
      }
      hide After, StopsAt, Disciplined;
      if After(valid, inputs[..n - 1]).running {
        StopsExactly(valid, inputs, n - 1);
      }
    }
  }

  /** Under a disciplined driver, exactly this makes a connection answer: it is alive, valid headers come
      in on a stream, the stream is bound to a request, and the request was issued and waits. */
  lemma FiresExactly(valid: Headers -> bool, inputs: seq<Input>, n: nat, f: Fired)
    requires n < |inputs| && Disciplined(inputs)
    ensures Fires(valid, inputs, n) == Some(f) <==>
            && Alive(valid, inputs, n)
            && inputs[n] == IncomingHeaders(f.stream, f.headers) && valid(f.headers)
            && IsBound(inputs, n, f.stream, f.request) && Waiting(inputs, n, f.request)
  {
    ToldHolds(valid, inputs, n);
    AliveExactly(valid, inputs, n);
    hide After, Disciplined, Waiting, IsBound, Alive;
  }

  lemma TakesRequest(valid: Headers -> bool, s: State)
    requires s.running
    ensures var s' := Step(valid, s, ClientRequest(0, true)).0; s'.running && s.nextId in s'.pending
  {
  }

  lemma BindsRequest(valid: Headers -> bool, s: State, t: nat, r: nat)
    requires s.running && r in s.pending
    ensures var s' := Step(valid, s, NewOutboundRequest(t, r)).0;
            s'.running && r in s'.pending && t in s'.streams && s'.streams[t] == r
  {
  }

  lemma Answers(valid: Headers -> bool, s: State, t: nat, r: nat, headers: Headers)
    requires s.running && r in s.pending && t in s.streams && s.streams[t] == r && valid(headers)
    ensures Step(valid, s, IncomingHeaders(t, headers)).1 == Some(Fired(r, t, headers))
  {
  }

  lemma FromTheStart(valid: Headers -> bool, inputs: seq<Input>)
    ensures After(valid, inputs[..0]) == INITIAL
  {
    assert inputs[..0] == [];
  }

  /** One request, its stream, its headers: it is answered. */
  lemma AnswerArrives(valid: Headers -> bool, headers: Headers)
    requires valid(headers)
    ensures Fires(valid, [ClientRequest(0, true), NewOutboundRequest(4, 0), IncomingHeaders(4, headers)], 2)
            == Some(Fired(0, 4, headers))
  {
    hide After, Step;
    var inputs := [ClientRequest(0, true), NewOutboundRequest(4, 0), IncomingHeaders(4, headers)];
    FromTheStart(valid, inputs);
    AfterNext(valid, inputs, 0);
    AfterNext(valid, inputs, 1);
    TakesRequest(valid, After(valid, inputs[..0]));
    BindsRequest(valid, After(valid, inputs[..1]), 4, 0);
    Answers(valid, After(valid, inputs[..2]), 4, 0, headers);
  }
}
