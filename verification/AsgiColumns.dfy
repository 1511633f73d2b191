/** What the filters send, message by message. */
module AsgiColumns {
  import opened Wrappers
  import opened AsgiFilters

  // ---- starts and other messages ------------------------------------------------------------

  /** The messages that carry no body bytes. */
  function Heads(ms: seq<Message>): seq<Message> {
    if ms == [] then [] else (if ms[0].Body? then [] else [ms[0]]) + Heads(ms[1..])
  }

  /** One of the first n messages starts a 204 or 304 response. */
  predicate ClosedBy(heads: seq<Message>, n: nat) {
    exists j :: 0 <= j < n && j < |heads| && heads[j].Start? && (heads[j].status == 204 || heads[j].status == 304)
  }

  /** Starts keep their status; the content length goes unless the response has no body or a fixed one. */
  ghost predicate SentAs(m: Message, o: Message, keepLength: bool) {
    match m
    case Start(status, length) => o == Start(status, if keepLength then length else None)
    case _ => o == m
  }

  lemma {:induction false} HeadsConcat(a: seq<Message>, b: seq<Message>)
    ensures Heads(a + b) == Heads(a) + Heads(b)
  {
    if a == [] {
      assert a + b == b;
    } else {
      assert (a + b)[0] == a[0] && (a + b)[1..] == a[1..] + b;
      HeadsConcat(a[1..], b);
    }
  }

  lemma ClosedLater(m: Message, heads: seq<Message>, n: nat)
    requires n > 0
    ensures ClosedBy([m] + heads, n) <==>
              (m.Start? && (m.status == 204 || m.status == 304)) || ClosedBy(heads, n - 1)
  {
    var all := [m] + heads;
    assert all[0] == m && forall j | 0 <= j < |heads| :: all[j + 1] == heads[j];
    if j :| 0 <= j < n - 1 && j < |heads| && heads[j].Start? && (heads[j].status == 204 || heads[j].status == 304) {
      assert all[j + 1] == heads[j];
    }
    if j :| 0 <= j < n && j < |all| && all[j].Start? && (all[j].status == 204 || all[j].status == 304) {
      if j > 0 { assert heads[j - 1] == all[j]; }
    }
  }

  /** Every start and every other message is sent once and in order; only content lengths are left out. */
  lemma {:induction false} HeadsSent(stable: bool, g: Gate, ms: seq<Message>)
    ensures var heads, sent := Heads(ms), Heads(Integrity(stable, g, ms));
            && |sent| == |heads|
            && forall i | 0 <= i < |heads| ::
                 SentAs(heads[i], sent[i], stable || g.suppress || ClosedBy(heads, i + 1))
    decreases ms
  {
    if ms != [] {
      var m := ms[0];
      var (g', out) := IntegrityStep(stable, g, m);
      var later := Integrity(stable, g', ms[1..]);
      HeadsSent(stable, g', ms[1..]);
      HeadsConcat(out, later);
      if m.Body? {
        assert Heads(out) == [] && Heads(ms) == Heads(ms[1..]);
        assert Heads(out) + Heads(later) == Heads(later);
      } else {
        FirstHead(stable, g, ms, g', out[0], Heads(later));
        assert out == [out[0]] && out[1..] == [] && Heads(out) == [out[0]];
      }
    }
  }

  lemma FirstHead(stable: bool, g: Gate, ms: seq<Message>, g': Gate, o: Message, sent: seq<Message>)
    requires ms != [] && !ms[0].Body?
    requires g'.suppress <==> g.suppress || (ms[0].Start? && (ms[0].status == 204 || ms[0].status == 304))
    requires SentAs(ms[0], o, stable || g'.suppress)
    requires var rest := Heads(ms[1..]);
             |sent| == |rest| && forall i | 0 <= i < |rest| ::
               SentAs(rest[i], sent[i], stable || g'.suppress || ClosedBy(rest, i + 1))
    ensures var heads, all := Heads(ms), [o] + sent;
            |all| == |heads| && forall i | 0 <= i < |heads| ::
              SentAs(heads[i], all[i], stable || g.suppress || ClosedBy(heads, i + 1))
  {
    var rest, heads := Heads(ms[1..]), Heads(ms);
    assert heads == [ms[0]] + rest;
    forall i | 0 <= i < |heads|
      ensures SentAs(heads[i], ([o] + sent)[i], stable || g.suppress || ClosedBy(heads, i + 1))
    {
      ClosedLater(ms[0], rest, i + 1);
      if i == 0 {
        assert !ClosedBy(rest, 0);
      } else {
        assert SentAs(rest[i - 1], sent[i - 1], stable || g'.suppress || ClosedBy(rest, i - 1 + 1));
      }
    }
  }

  /** The same through the stack of both filters, where a 204 never has a content length. */
  lemma StackHeadsSent(stable: bool, g: Gate, ms: seq<Message>)
    ensures var heads, sent := Heads(ms), Heads(Stack(stable, g, ms));
            && |sent| == |heads|
            && forall i | 0 <= i < |heads| ::
                 SentAs(heads[i], sent[i], (stable || g.suppress || ClosedBy(heads, i + 1))
                                           && !(heads[i].Start? && heads[i].status == 204))
  {
    var once := Integrity(stable, g, ms);
    StackFramesLikeOne(stable, g, ms);
    HeadsSent(stable, g, ms);
    ShortHeads(once);
    forall i | 0 <= i < |Heads(ms)|
      ensures SentAs(Heads(ms)[i], Heads(WithoutLengthOn204(once))[i],
                (stable || g.suppress || ClosedBy(Heads(ms), i + 1))
                && !(Heads(ms)[i].Start? && Heads(ms)[i].status == 204))
    {
      assert SentAs(Heads(ms)[i], Heads(once)[i], stable || g.suppress || ClosedBy(Heads(ms), i + 1));
    }
  }

  lemma {:induction false} ShortHeads(ms: seq<Message>)
    ensures var heads, short := Heads(ms), Heads(WithoutLengthOn204(ms));
            && |short| == |heads|
            && forall i | 0 <= i < |heads| ::
                 SentAs(heads[i], short[i], !(heads[i].Start? && heads[i].status == 204))
  {
    if ms != [] {
      ShortHeads(ms[1..]);
      var short := WithoutLengthOn204(ms);
      assert short[1..] == WithoutLengthOn204(ms[1..]);
    }
  }

  // ---- bodies -------------------------------------------------------------------------------

  /** A response without a body sends one empty final body for all that come, unless it was sent before. */
  lemma {:induction false} SuppressedBodies(stable: bool, g: Gate, ms: seq<Message>)
    requires g.suppress
    ensures Bodies(Integrity(stable, g, ms)) == if g.finished || Bodies(ms) == [] then [] else [Body([], false)]
    decreases ms
  {
    if ms != [] {
      var (g', out) := IntegrityStep(stable, g, ms[0]);
      SuppressedBodies(stable, g', ms[1..]);
      BodiesConcat(out, Integrity(stable, g', ms[1..]));
      assert Bodies(out) == if out != [] && out[0].Body? then out else [];
    }
  }

  /** Bodies before the first 204 or 304 start are kept, those after it are replaced by one empty final body. */
  lemma {:induction false} BodiesSent(stable: bool, ms: seq<Message>, start: Message, after: seq<Message>)
    requires forall m | m in ms && m.Start? :: m.status != 204 && m.status != 304
    requires start.Start? && (start.status == 204 || start.status == 304)
    ensures Bodies(Integrity(stable, Gate(false, false), ms)) == Bodies(ms)
    ensures Bodies(Integrity(stable, Gate(false, false), ms + [start] + after)) ==
              Bodies(ms) + if Bodies(after) == [] then [] else [Body([], false)]
  {
    OpenRunKeepsBodies(stable, Gate(false, false), ms);
    OpenGate(ms);
    var tail := [start] + after;
    assert ms + [start] + after == ms + tail;
    IntegritySplit(stable, Gate(false, false), ms, tail);
    BodiesConcat(Integrity(stable, Gate(false, false), ms), Integrity(stable, Gate(false, false), tail));
    var (g', out) := IntegrityStep(stable, Gate(false, false), start);
    assert tail[0] == start && tail[1..] == after;
    SuppressedBodies(stable, g', after);
    BodiesConcat(out, Integrity(stable, g', after));
    assert Bodies(out) == [] by { assert out[1..] == []; }
  }

  lemma {:induction false} OpenGate(ms: seq<Message>)
    requires forall m | m in ms && m.Start? :: m.status != 204 && m.status != 304
    ensures GateAfter(Gate(false, false), ms) == Gate(false, false)
  {
    if ms != [] {
      assert ms[0] in ms && forall m | m in ms[1..] :: m in ms;
      OpenGate(ms[1..]);
    }
  }

  // ---- the request body limit ---------------------------------------------------------------

  /** What one request message does: a chunk is counted, and refused once the total is beyond the limit. */
  lemma ReceiveMeaning(limit: nat, s: Limiter, r: Request)
    ensures var (t, signal) := ReceiveStep(limit, s, r);
            && t.started == s.started
            && t.received == s.received + (if r.Chunk? then |r.bytes| else 0)
            && (signal == Some(TooLarge) <==> r.Chunk? && t.received > limit)
            && (signal == Some(Incomplete) <==> r.Disconnect? && !s.started)
            && (t.raised == if signal.Some? then signal else s.raised)
  {
  }

  /** An oversized request is answered as too large, a broken one as incomplete: each signal has its cause. */
  lemma {:induction false} SignalMeaning(limit: nat, s: Limiter, events: seq<Event>)
    requires s.raised.None?
    ensures var x := Serve(limit, s, events);
            && (x.signal == Some(TooLarge) ==> s.received + BytesIn(Received(events)) > limit)
            && (x.signal == Some(Incomplete) ==> Receive(Disconnect) in events && !s.started)
  {
    CauseKnown(limit, s, events, s.received > limit, false);
  }

  /** The causes seen so far stand for the signal raised last. */
  lemma {:induction false} CauseKnown(limit: nat, s: Limiter, events: seq<Event>, large: bool, broken: bool)
    requires s.raised == Some(TooLarge) ==> large
    requires s.raised == Some(Incomplete) ==> broken
    requires large ==> s.received > limit
    ensures var x := Serve(limit, s, events);
            && (x.signal == Some(TooLarge) ==> s.received + BytesIn(Received(events)) > limit)
            && (x.signal == Some(Incomplete) ==> broken || (Receive(Disconnect) in events && !s.started))
    decreases events
  {
    if events != [] {
      ReceivedStep(events);
      match events[0]
      case Receive(r) =>
        var (t, signal) := ReceiveStep(limit, s, r);
        CauseKnown(limit, t, events[1..], t.received > limit, broken || signal == Some(Incomplete));
        assert BytesIn([r]) == (if r.Chunk? then |r.bytes| else 0) by { assert [r][1..] == []; }
      case Respond(m) =>
        CauseKnown(limit, RespondStep(s, m), events[1..], large, broken);
      case Propagate =>
        if s.raised.None? { CauseKnown(limit, s, events[1..], large, broken); }
    }
  }
}
