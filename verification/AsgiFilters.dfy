/** The message filters of backend/http_middleware.py, over unbounded ASGI message sequences. */
module AsgiFilters {
  import opened Wrappers

  datatype Message =
    | Start(status: int, contentLength: Option<nat>)
    | Body(bytes: seq<int>, more: bool)
    | Other(kind: string)

  /** suppress: the response may carry no body; finished: its one empty body was sent. */
  datatype Gate = Gate(suppress: bool, finished: bool)

  predicate Bodiless(status: int) {
    status == 204 || status == 304
  }

  // ---- response framing ---------------------------------------------------------------------

  /** One message through ResponseIntegrityMiddleware; stable marks a path with a fixed static body. */
  function IntegrityStep(stable: bool, g: Gate, m: Message): (Gate, seq<Message>) {
    match m
    case Start(status, length) =>
      var g' := g.(suppress := g.suppress || Bodiless(status));
      (g', [Start(status, if !g'.suppress && !stable then None else length)])
    case Body(_, _) =>
      if !g.suppress then (g, [m])
      else if g.finished then (g, [])
      else (g.(finished := true), [Body([], false)])
    case Other(_) => (g, [m])
  }

  /** One message through SecurityHeadersMiddleware, leaving out the security headers themselves. */
  function SecurityStep(g: Gate, m: Message): (Gate, seq<Message>) {
    match m
    case Start(status, length) =>
      (g.(suppress := g.suppress || Bodiless(status)), [Start(status, if status == 204 then None else length)])
    case Body(_, _) =>
      if !g.suppress then (g, [m])
      else if g.finished then (g, [])
      else (g.(finished := true), [Body([], false)])
    case Other(_) => (g, [m])
  }

  function Integrity(stable: bool, g: Gate, ms: seq<Message>): seq<Message>
    decreases ms
  {
    if ms == [] then [] else
      var (g', out) := IntegrityStep(stable, g, ms[0]);
      out + Integrity(stable, g', ms[1..])
  }

  function Security(g: Gate, ms: seq<Message>): seq<Message>
    decreases ms
  {
    if ms == [] then [] else
      var (g', out) := SecurityStep(g, ms[0]);
      out + Security(g', ms[1..])
  }

  function Bodies(ms: seq<Message>): seq<Message> {
    if ms == [] then [] else (if ms[0].Body? then [ms[0]] else []) + Bodies(ms[1..])
  }

  /** The gate after a prefix of the response. */
  function GateAfter(g: Gate, ms: seq<Message>): Gate
    decreases ms
  {
    if ms == [] then g else GateAfter(SecurityStep(g, ms[0]).0, ms[1..])
  }

  class ResponseIntegrity {
    const stable: bool
    var gate: Gate

    constructor (head: bool, stableBody: bool)
      ensures gate == Gate(head, false) && stable == stableBody
    {
      stable, gate := stableBody, Gate(head, false);
    }

    method Send(m: Message) returns (out: seq<Message>)
      modifies this
      ensures (gate, out) == IntegrityStep(stable, old(gate), m)
    {
      match m {
        case Start(status, length) =>
          gate := gate.(suppress := gate.suppress || status == 204 || status == 304);
          var kept := length;
          if !gate.suppress && length.Some? && !stable {
            kept := None;
          }
          return [Start(status, kept)];
        case Body(_, _) =>
          if gate.suppress {
            if gate.finished {
              return [];
            }
            gate := gate.(finished := true);
            return [Body([], false)];
          }
          return [m];
        case Other(_) =>
          return [m];
      }
    }

    /** A whole response, message by message. */
    method SendAll(ms: seq<Message>) returns (out: seq<Message>)
      modifies this
      ensures out == Integrity(stable, old(gate), ms)
    {
      out := [];
      ghost var g0 := gate;
      for i := 0 to |ms|
        invariant out + Integrity(stable, gate, ms[i..]) == Integrity(stable, g0, ms)
      {
        assert ms[i..][0] == ms[i] && ms[i..][1..] == ms[i + 1..];
        ghost var before := gate;
        var sent := Send(ms[i]);
        assert Integrity(stable, before, ms[i..]) == sent + Integrity(stable, gate, ms[i + 1..]);
        out := out + sent;
      }
    }
  }

  // ---- what the filters guarantee -----------------------------------------------------------

  /** At most one body message, empty and final, and none once it has been sent. */
  ghost predicate OneEmptyBody(g: Gate, bodies: seq<Message>) {
    bodies == [] || (!g.finished && bodies == [Body([], false)])
  }

  lemma {:induction false} BodiesConcat(a: seq<Message>, b: seq<Message>)
    ensures Bodies(a + b) == Bodies(a) + Bodies(b)
  {
    if a == [] {
      assert a + b == b;
    } else {
      assert (a + b)[0] == a[0] && (a + b)[1..] == a[1..] + b;
      BodiesConcat(a[1..], b);
    }
  }

  lemma {:induction false} SuppressedRun(stable: bool, g: Gate, ms: seq<Message>)
    requires g.suppress
    ensures OneEmptyBody(g, Bodies(Integrity(stable, g, ms)))
    decreases ms
  {
    if ms != [] {
      var (g', out) := IntegrityStep(stable, g, ms[0]);
      SuppressedRun(stable, g', ms[1..]);
      BodiesConcat(out, Integrity(stable, g', ms[1..]));
      assert Bodies(out) == if out != [] && out[0].Body? then out else [];
    }
  }

  lemma {:induction false} IntegritySplit(stable: bool, g: Gate, a: seq<Message>, b: seq<Message>)
    ensures Integrity(stable, g, a + b) == Integrity(stable, g, a) + Integrity(stable, GateAfter(g, a), b)
    decreases a
  {
    if a == [] {
      assert a + b == b;
    } else {
      assert (a + b)[0] == a[0] && (a + b)[1..] == a[1..] + b;
      var (g', out) := IntegrityStep(stable, g, a[0]);
      assert g' == SecurityStep(g, a[0]).0;
      IntegritySplit(stable, g', a[1..], b);
      assert Integrity(stable, g, a + b) == out + Integrity(stable, g', a[1..] + b);
      assert Integrity(stable, g, a) == out + Integrity(stable, g', a[1..]);
    }
  }

  /** Section 6.3 of RFC 9112: a HEAD response carries at most one body message, empty and final. */
  lemma HeadHasNoBody(stable: bool, ms: seq<Message>)
    ensures OneEmptyBody(Gate(true, false), Bodies(Integrity(stable, Gate(true, false), ms)))
  {
    SuppressedRun(stable, Gate(true, false), ms);
  }

  /** So does everything after the start of a 204 or 304 response, whatever came before it. */
  lemma BodilessStatusHasNoBody(stable: bool, g: Gate, before: seq<Message>, start: Message, after: seq<Message>)
    requires start.Start? && (start.status == 204 || start.status == 304)
    ensures var g' := GateAfter(g, before + [start]);
            && Integrity(stable, g, before + [start] + after) ==
                Integrity(stable, g, before + [start]) + Integrity(stable, g', after)
            && OneEmptyBody(g', Bodies(Integrity(stable, g', after)))
  {
    var g' := GateAfter(g, before + [start]);
    IntegritySplit(stable, g, before + [start], after);
    GateSplit(g, before, [start]);
    assert GateAfter(GateAfter(g, before), [start]).suppress;
    SuppressedRun(stable, g', after);
  }

  lemma {:induction false} GateSplit(g: Gate, a: seq<Message>, b: seq<Message>)
    ensures GateAfter(g, a + b) == GateAfter(GateAfter(g, a), b)
    decreases a
  {
    if a == [] {
      assert a + b == b;
    } else {
      assert (a + b)[0] == a[0] && (a + b)[1..] == a[1..] + b;
      GateSplit(SecurityStep(g, a[0]).0, a[1..], b);
    }
  }

  /** A response that is never suppressed keeps every body message as it was. */
  lemma {:induction false} OpenRunKeepsBodies(stable: bool, g: Gate, ms: seq<Message>)
    requires !g.suppress && forall m | m in ms && m.Start? :: m.status != 204 && m.status != 304
    ensures Bodies(Integrity(stable, g, ms)) == Bodies(ms)
  {
    if ms != [] {
      var (g', out) := IntegrityStep(stable, g, ms[0]);
      assert ms[0] in ms && forall m | m in ms[1..] :: m in ms;
      OpenRunKeepsBodies(stable, g', ms[1..]);
      BodiesConcat(out, Integrity(stable, g', ms[1..]));
    }
  }

  /** Applying the filter twice equals applying it once. */
  lemma {:induction false} IntegrityTwice(stable: bool, g: Gate, ms: seq<Message>)
    ensures Integrity(stable, g, Integrity(stable, g, ms)) == Integrity(stable, g, ms)
    decreases ms
  {
    if ms != [] {
      var (g', out) := IntegrityStep(stable, g, ms[0]);
      var rest := Integrity(stable, g', ms[1..]);
      IntegrityTwice(stable, g', ms[1..]);
      if out == [] {
        assert g' == g && out + rest == rest;
      } else {
        assert |out| == 1 && (out + rest)[0] == out[0] && (out + rest)[1..] == rest;
        assert IntegrityStep(stable, g, out[0]) == (g', out);
      }
    }
  }

  /** The stack of both filters frames exactly like the outer one alone, up to the 204 content length. */
  lemma {:induction false} StackFramesLikeOne(stable: bool, g: Gate, ms: seq<Message>)
    ensures Integrity(stable, g, Security(g, ms)) == WithoutLengthOn204(Integrity(stable, g, ms))
    ensures Bodies(Integrity(stable, g, Security(g, ms))) == Bodies(Integrity(stable, g, ms))
    decreases ms
  {
    if ms != [] {
      var (g', passed) := SecurityStep(g, ms[0]);
      var out := IntegrityStep(stable, g, ms[0]).1;
      assert IntegrityStep(stable, g, ms[0]).0 == g';
      StackFramesLikeOne(stable, g', ms[1..]);
      var inner := Security(g', ms[1..]);
      if passed == [] {
        assert passed + inner == inner && out + Integrity(stable, g', ms[1..]) == Integrity(stable, g', ms[1..]);
      } else {
        assert (passed + inner)[0] == passed[0] && (passed + inner)[1..] == inner;
        var rest := Integrity(stable, g', ms[1..]);
        assert (out + rest)[0] == out[0] && (out + rest)[1..] == rest;
      }
    }
    SameBodies(Integrity(stable, g, ms));
  }

  function WithoutLengthOn204(ms: seq<Message>): seq<Message> {
    if ms == [] then [] else
      var first := if ms[0].Start? && ms[0].status == 204 then ms[0].(contentLength := None) else ms[0];
      [first] + WithoutLengthOn204(ms[1..])
  }

  lemma {:induction false} SameBodies(ms: seq<Message>)
    ensures Bodies(WithoutLengthOn204(ms)) == Bodies(ms)
  {
    if ms != [] {
      SameBodies(ms[1..]);
      assert WithoutLengthOn204(ms)[1..] == WithoutLengthOn204(ms[1..]);
    }
  }

  // ---- the stack of both filters ------------------------------------------------------------

  /** The outer filter over what the inner one sends. */
  function Stack(stable: bool, g: Gate, ms: seq<Message>): seq<Message> {
    Integrity(stable, g, Security(g, ms))
  }

  /** Leaving out the length header of a 204 commutes with the outer filter. */
  lemma {:induction false} LengthCommutes(stable: bool, g: Gate, ms: seq<Message>)
    ensures Integrity(stable, g, WithoutLengthOn204(ms)) == WithoutLengthOn204(Integrity(stable, g, ms))
    decreases ms
  {
    if ms != [] {
      var (g', out) := IntegrityStep(stable, g, ms[0]);
      var rest := Integrity(stable, g', ms[1..]);
      LengthCommutes(stable, g', ms[1..]);
      var short := WithoutLengthOn204(ms);
      assert short[1..] == WithoutLengthOn204(ms[1..]);
      assert IntegrityStep(stable, g, short[0]).0 == g';
      if out == [] {
        assert out + rest == rest;
      } else {
        assert |out| == 1 && (out + rest)[0] == out[0] && (out + rest)[1..] == rest;
      }
    }
  }

  lemma {:induction false} LengthTwice(ms: seq<Message>)
    ensures WithoutLengthOn204(WithoutLengthOn204(ms)) == WithoutLengthOn204(ms)
  {
    if ms != [] {
      LengthTwice(ms[1..]);
      assert WithoutLengthOn204(ms)[1..] == WithoutLengthOn204(ms[1..]);
    }
  }

  /** Applying the stack twice equals applying it once. */
  lemma StackTwice(stable: bool, g: Gate, ms: seq<Message>)
    ensures Stack(stable, g, Stack(stable, g, ms)) == Stack(stable, g, ms)
  {
    var framed := Integrity(stable, g, ms);
    StackFramesLikeOne(stable, g, ms);
    StackFramesLikeOne(stable, g, Stack(stable, g, ms));
    LengthCommutes(stable, g, framed);
    IntegrityTwice(stable, g, ms);
    LengthTwice(framed);
  }

  /** Section 6.3 of RFC 9112 for the stack: a HEAD response carries at most one body, empty and final. */
  lemma StackHeadHasNoBody(stable: bool, ms: seq<Message>)
    ensures OneEmptyBody(Gate(true, false), Bodies(Stack(stable, Gate(true, false), ms)))
  {
    StackFramesLikeOne(stable, Gate(true, false), ms);
    HeadHasNoBody(stable, ms);
  }

  /** Nor does a 204 or 304 response, after what was sent before its start. */
  lemma StackBodilessHasNoBody(stable: bool, g: Gate, before: seq<Message>, start: Message, after: seq<Message>)
    returns (rest: seq<Message>)
    requires start.Start? && (start.status == 204 || start.status == 304)
    ensures Bodies(Stack(stable, g, before + [start] + after)) == Bodies(Stack(stable, g, before + [start])) + rest
    ensures OneEmptyBody(GateAfter(g, before + [start]), rest)
  {
    var head := before + [start];
    BodilessStatusHasNoBody(stable, g, before, start, after);
    rest := Bodies(Integrity(stable, GateAfter(g, head), after));
    StackFramesLikeOne(stable, g, head + after);
    StackFramesLikeOne(stable, g, head);
    BodiesConcat(Integrity(stable, g, head), Integrity(stable, GateAfter(g, head), after));
  }

  // ---- request body limit -------------------------------------------------------------------

  datatype Request = Chunk(bytes: seq<int>) | Disconnect | OtherRequest

  /**
   What the application does: ask for a request message, send a response message, or let the last signal it was
   given propagate. A signal is raised inside the application's own receive, so it may also catch it and go on.
   */
  datatype Event = Receive(request: Request) | Respond(message: Message) | Propagate

  datatype Signal = TooLarge | Incomplete

  datatype Limiter = Limiter(received: nat, started: bool, raised: Option<Signal>)

  /** The limiter after a request message, and the signal raised instead of delivering it. */
  function ReceiveStep(limit: nat, s: Limiter, r: Request): (Limiter, Option<Signal>) {
    match r
    case Disconnect => if s.started then (s, None) else (s.(raised := Some(Incomplete)), Some(Incomplete))
    case Chunk(bytes) =>
      var s' := s.(received := s.received + |bytes|);
      if s'.received > limit then (s'.(raised := Some(TooLarge)), Some(TooLarge)) else (s', None)
    case OtherRequest => (s, None)
  }

  function RespondStep(s: Limiter, m: Message): Limiter {
    if m.Start? then s.(started := true) else s
  }

  /**
   delivered: what reached the application; signal: the one that ended it; rejected: the limiter's own answer was
   sent.
   */
  datatype Exchange = Exchange(delivered: seq<Request>, sent: seq<Message>, signal: Option<Signal>, rejected: bool)

  function Serve(limit: nat, s: Limiter, events: seq<Event>): Exchange
    decreases events
  {
    if events == [] then Exchange([], [], None, false) else
      match events[0]
      case Receive(r) =>
        var (s', signal) := ReceiveStep(limit, s, r);
        var rest := Serve(limit, s', events[1..]);
        if signal.Some? then rest else rest.(delivered := [r] + rest.delivered)
      case Respond(m) =>
        var rest := Serve(limit, RespondStep(s, m), events[1..]);
        rest.(sent := [m] + rest.sent)
      case Propagate =>
        if s.raised.Some? then Exchange([], [], s.raised, !s.started) else Serve(limit, s, events[1..])
  }

  class BodyLimiter {
    const limit: nat
    var receivedSize: nat
    var responseStarted: bool

    constructor (maximum: nat)
      ensures limit == maximum && receivedSize == 0 && !responseStarted
    {
      limit, receivedSize, responseStarted := maximum, 0, false;
    }

    /** `limited_receive`: None delivers the message, Some raises the signal. */
    method LimitedReceive(r: Request) returns (signal: Option<Signal>)
      modifies this`receivedSize
      ensures var (s, raised) := ReceiveStep(limit, Limiter(old(receivedSize), responseStarted, None), r);
              signal == raised && receivedSize == s.received
    {
      if r.Disconnect? && !responseStarted {
        return Some(Incomplete);
      }
      if r.Chunk? {
        receivedSize := receivedSize + |r.bytes|;
        if receivedSize > limit {
          return Some(TooLarge);
        }
      }
      return None;
    }

    /** Runs an application's events; the try/except around the application. */
    method Handle(events: seq<Event>) returns (x: Exchange)
      modifies this
      ensures x == Serve(limit, Limiter(old(receivedSize), old(responseStarted), None), events)
    {
      var delivered, sent := [], [];
      var raised: Option<Signal> := None;
      ghost var goal := Serve(limit, Limiter(receivedSize, responseStarted, None), events);
      for i := 0 to |events|
        invariant goal == Prepend(delivered, sent,
            Serve(limit, Limiter(receivedSize, responseStarted, raised), events[i..]))
      {
        assert events[i..][0] == events[i] && events[i..][1..] == events[i + 1..];
        match events[i] {
          case Receive(r) =>
            var signal := LimitedReceive(r);
            if signal.Some? {
              raised := signal;
            } else {
              PrependReceived(
                delivered, sent, r, Serve(limit, Limiter(receivedSize, responseStarted, raised), events[i + 1..]));
              delivered := delivered + [r];
            }
          case Respond(m) =>
            responseStarted := responseStarted || m.Start?;
            PrependSent(delivered, sent, m,
                Serve(limit, Limiter(receivedSize, responseStarted, raised), events[i + 1..]));
            sent := sent + [m];
          case Propagate =>
            if raised.Some? {
              return Exchange(delivered, sent, raised, !responseStarted);
            }
        }
      }
      return Exchange(delivered, sent, None, false);
    }
  }

  /** x after what has already been delivered and sent. */
  function Prepend(delivered: seq<Request>, sent: seq<Message>, x: Exchange): Exchange {
    x.(delivered := delivered + x.delivered, sent := sent + x.sent)
  }

  lemma PrependReceived(delivered: seq<Request>, sent: seq<Message>, r: Request, x: Exchange)
    ensures Prepend(delivered, sent, x.(delivered := [r] + x.delivered)) == Prepend(delivered + [r], sent, x)
  {
    assert delivered + ([r] + x.delivered) == delivered + [r] + x.delivered;
  }

  lemma PrependSent(delivered: seq<Request>, sent: seq<Message>, m: Message, x: Exchange)
    ensures Prepend(delivered, sent, x.(sent := [m] + x.sent)) == Prepend(delivered, sent + [m], x)
  {
    assert sent + ([m] + x.sent) == sent + [m] + x.sent;
  }

  function BytesIn(rs: seq<Request>): nat {
    if rs == [] then 0 else (if rs[0].Chunk? then |rs[0].bytes| else 0) + BytesIn(rs[1..])
  }

  ghost predicate HasStart(ms: seq<Message>) {
    exists m | m in ms :: m.Start?
  }

  /**
   Never more than limit bytes reach the application, even one that catches the signals and reads on; the limiter
   answers itself exactly when a signal propagates before a response starts.
   */
  lemma {:induction false} LimitHolds(limit: nat, s: Limiter, events: seq<Event>)
    requires s.received <= limit
    ensures var x := Serve(limit, s, events);
            && s.received + BytesIn(x.delivered) <= limit
            && (x.rejected <==> x.signal.Some? && !s.started && !HasStart(x.sent))
    decreases events
  {
    if events != [] {
      match events[0]
      case Receive(r) =>
        var (s', signal) := ReceiveStep(limit, s, r);
        var rest := Serve(limit, s', events[1..]);
        if s'.received > limit {
          ClosedForGood(limit, s', events[1..]);
        } else {
          LimitHolds(limit, s', events[1..]);
        }
        assert ([r] + rest.delivered)[1..] == rest.delivered;
      case Respond(m) =>
        LimitHolds(limit, RespondStep(s, m), events[1..]);
        var rest := Serve(limit, RespondStep(s, m), events[1..]);
        assert forall y :: y in [m] + rest.sent <==> y == m || y in rest.sent;
      case Propagate =>
        if s.raised.None? { LimitHolds(limit, s, events[1..]); }
    }
  }

  /** Once the limit is passed, no chunk is delivered any more, whatever the application catches. */
  lemma {:induction false} ClosedForGood(limit: nat, s: Limiter, events: seq<Event>)
    requires s.received > limit
    ensures var x := Serve(limit, s, events);
            && BytesIn(x.delivered) == 0 && (forall r | r in x.delivered :: !r.Chunk?)
            && (x.rejected <==> x.signal.Some? && !s.started && !HasStart(x.sent))
    decreases events
  {
    if events != [] {
      match events[0]
      case Receive(r) =>
        var (s', signal) := ReceiveStep(limit, s, r);
        ClosedForGood(limit, s', events[1..]);
        var rest := Serve(limit, s', events[1..]);
        assert ([r] + rest.delivered)[1..] == rest.delivered;
      case Respond(m) =>
        ClosedForGood(limit, RespondStep(s, m), events[1..]);
        var rest := Serve(limit, RespondStep(s, m), events[1..]);
        assert forall y :: y in [m] + rest.sent <==> y == m || y in rest.sent;
      case Propagate =>
        if s.raised.None? { ClosedForGood(limit, s, events[1..]); }
    }
  }

  lemma ReceivedStep(events: seq<Event>)
    requires events != []
    ensures events[0].Receive? ==>
              && Received(events) == [events[0].request] + Received(events[1..])
              && BytesIn(Received(events)) == BytesIn([events[0].request]) + BytesIn(Received(events[1..]))
    ensures !events[0].Receive? ==> Received(events) == Received(events[1..])
    ensures Responses(events) == (if events[0].Respond? then [events[0].message] else []) + Responses(events[1..])
  {
    if events[0].Receive? {
      assert ([events[0].request] + Received(events[1..]))[1..] == Received(events[1..]);
    }
  }

  lemma ServeReceive(limit: nat, s: Limiter, events: seq<Event>)
    requires events != [] && events[0].Receive? && ReceiveStep(limit, s, events[0].request).1.None?
    ensures var rest := Serve(limit, ReceiveStep(limit, s, events[0].request).0, events[1..]);
            Serve(limit, s, events) == rest.(delivered := [events[0].request] + rest.delivered)
  {
  }

  lemma ServeOther(limit: nat, s: Limiter, events: seq<Event>)
    requires events != [] && !events[0].Receive? && s.raised.None?
    ensures var rest := Serve(limit, if events[0].Respond? then RespondStep(s, events[0].message) else s, events[1..]);
            Serve(limit, s, events)
            == rest.(sent := (if events[0].Respond? then [events[0].message] else []) + rest.sent)
  {
  }

  /** A request within the limit that stays connected passes through untouched. */
  lemma {:induction false} SmallRequestsPass(limit: nat, s: Limiter, events: seq<Event>)
    requires s.received + BytesIn(Received(events)) <= limit && Receive(Disconnect) !in events && s.raised.None?
    ensures Serve(limit, s, events) == Exchange(Received(events), Responses(events), None, false)
    decreases events
  {
    if events != [] {
      var tail := events[1..];
      assert events[0] in events && forall e | e in tail :: e in events;
      ReceivedStep(events);
      if events[0].Receive? {
        ServeReceive(limit, s, events);
        SmallRequestsPass(limit, ReceiveStep(limit, s, events[0].request).0, tail);
      } else {
        ServeOther(limit, s, events);
        SmallRequestsPass(limit, if events[0].Respond? then RespondStep(s, events[0].message) else s, tail);
      }
    }
  }

  function Received(events: seq<Event>): seq<Request> {
    if events == [] then [] else (if events[0].Receive? then [events[0].request] else []) + Received(events[1..])
  }

  function Responses(events: seq<Event>): seq<Message> {
    if events == [] then [] else (if events[0].Respond? then [events[0].message] else []) + Responses(events[1..])
  }
}
