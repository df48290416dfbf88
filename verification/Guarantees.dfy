/** The guarantees of the response pipeline, stated over every run from a fresh connection. */
module Guarantees {
  import opened Bytes
  import opened Buffers
  import opened ResponseContexts
  import opened Coordinator
  import opened Pipeline
  import opened Delivery

  /** The state after a run of environment steps, in any order and of any length. */
  function After(capacity: nat, limit: nat, events: seq<Event>): (s: Conn)
    requires limit > 0
    ensures WellFormed(s)
  {
    Run(Init(capacity, limit), events)
  }

  ghost predicate Reached(s: Conn) {
    exists capacity: nat, limit: nat, events: seq<Event> :: limit > 0 && s == After(capacity, limit, events)
  }

  lemma StepIsReached(s: Conn, e: Event)
    requires Reached(s) && WellFormed(s)
    ensures Reached(Step(s, e))
  {
    var capacity: nat, limit: nat, events: seq<Event> :| limit > 0 && s == After(capacity, limit, events);
    var longer := events + [e];
    assert longer[..|longer| - 1] == events;
    assert Step(s, e) == After(capacity, limit, longer);
  }

  lemma {:induction false} RunIsReached(s: Conn, events: seq<Event>)
    requires Reached(s) && WellFormed(s)
    ensures Reached(Run(s, events))
    decreases |events|
  {
    if |events| > 0 {
      RunIsReached(s, events[..|events| - 1]);
      StepIsReached(Run(s, events[..|events| - 1]), events[|events| - 1]);
    }
  }

  lemma ReachedInv(s: Conn)
    requires Reached(s)
    ensures Inv(s) && Settled(s)
  {
    var capacity: nat, limit: nat, events: seq<Event> :| limit > 0 && s == After(capacity, limit, events);
    RunInv(capacity, limit, events);
  }

  predicate FinalAndClosing(log: seq<Submission>, k: nat) {
    FlagsOf(log, k).final && FlagsOf(log, k).close
  }

  /** Section 6.3.2 of RFC 7230: whatever the order and the pieces in which handlers answer, the wire
      carries a prefix of the responses in request order; when a byte after response k is on it, then
      response k was marked final and is on it completely; nothing follows a final response that
      closes the connection. */
  lemma {:induction false} ResponsesInOrder(capacity: nat, limit: nat, events: seq<Event>, k: nat)
    requires limit > 0
    ensures var s := After(capacity, limit, events);
            && s.h.wire <= FirstResponses(s.h.log, s.coord.nextId)
            && (|s.h.wire| > |FirstResponses(s.h.log, k + 1)| ==>
                  FlagsOf(s.h.log, k).final && FirstResponses(s.h.log, k + 1) <= s.h.wire)
            && (FinalAndClosing(s.h.log, k) ==> s.h.wire <= FirstResponses(s.h.log, k + 1))
  {
    RunInv(capacity, limit, events);
    var s := After(capacity, limit, events);
    WireInOrder(s);
    NothingBeforeFinal(s, k);
    if FinalAndClosing(s.h.log, k) {
      NothingAfterClosing(s, k);
    }
  }

  lemma {:induction false} WireInOrder(s: Conn)
    requires Inv(s)
    ensures s.h.wire <= FirstResponses(s.h.log, s.coord.nextId)
  {
    if s.h.head < s.coord.nextId {
      WireWithin(s, s.coord.nextId);
    } else {
      WireWithin(s, s.h.head + 1);
      NothingBeyond(s.h.log, s.coord.nextId, s.h.head);
      assert FirstResponses(s.h.log, s.h.head + 1) == FirstResponses(s.h.log, s.h.head) + [];
    }
  }

  /** The wire is within the first k responses, for every k behind the head. */
  lemma {:induction false} WireWithin(s: Conn, k: nat)
    requires Inv(s) && s.h.head < k
    ensures s.h.wire <= FirstResponses(s.h.log, k)
  {
    var given := FirstResponses(s.h.log, s.h.head) + s.h.taken;
    WireWithinHead(s);
    FirstResponsesGrow(s.h.log, s.h.head + 1, k);
    PrefixTransitive(s.h.wire, given, FirstResponses(s.h.log, s.h.head + 1));
    PrefixTransitive(s.h.wire, FirstResponses(s.h.log, s.h.head + 1), FirstResponses(s.h.log, k));
  }

  lemma {:induction false} NothingBeforeFinal(s: Conn, k: nat)
    requires Inv(s)
    ensures |s.h.wire| > |FirstResponses(s.h.log, k + 1)| ==>
              FlagsOf(s.h.log, k).final && FirstResponses(s.h.log, k + 1) <= s.h.wire
  {
    if k >= s.h.head {
      WireWithin(s, k + 1);
    } else if |s.h.wire| > |FirstResponses(s.h.log, k + 1)| {
      var given := FirstResponses(s.h.log, s.h.head) + s.h.taken;
      WireWithinHead(s);
      FirstResponsesGrow(s.h.log, k + 1, s.h.head);
      PrefixTransitive(FirstResponses(s.h.log, k + 1), FirstResponses(s.h.log, s.h.head), given);
      PrefixByLength(FirstResponses(s.h.log, k + 1), s.h.wire, given);
    }
  }

  lemma {:induction false} NothingAfterClosing(s: Conn, k: nat)
    requires Inv(s) && FinalAndClosing(s.h.log, k)
    ensures s.h.wire <= FirstResponses(s.h.log, k + 1)
  {
    if k >= s.h.head {
      WireWithin(s, k + 1);
    } else {
      WireWithinHead(s);
    }
  }

  /** The wire carries the first `head` responses and perhaps a part of the next one. */
  lemma {:induction false} WireWithinHead(s: Conn)
    requires Inv(s)
    ensures s.h.wire <= FirstResponses(s.h.log, s.h.head) + s.h.taken
    ensures FirstResponses(s.h.log, s.h.head) + s.h.taken <= FirstResponses(s.h.log, s.h.head + 1)
    ensures s.coord.closed ==> s.h.wire <= FirstResponses(s.h.log, s.h.head)
  {
    assert FirstResponses(s.h.log, s.h.head + 1)
        == FirstResponses(s.h.log, s.h.head) + Response(s.h.log, s.h.head);
  }

  /** A response marked final never changes again: "final and fully sent" is for good. */
  lemma {:induction false} FinalResponseIsFrozen(capacity: nat, limit: nat, events: seq<Event>,
      more: seq<Event>, k: nat)
    requires limit > 0 && FlagsOf(After(capacity, limit, events).h.log, k).final
    ensures var s, r := After(capacity, limit, events), After(capacity, limit, events + more);
            Response(r.h.log, k) == Response(s.h.log, k) && FlagsOf(r.h.log, k) == FlagsOf(s.h.log, k)
    decreases |more|
  {
    if |more| == 0 {
      assert events + more == events;
    } else {
      var n := |more| - 1;
      assert events + more == (events + more[..n]) + [more[n]];
      FinalResponseIsFrozen(capacity, limit, events, more[..n], k);
      RunInv(capacity, limit, events + more[..n]);
      var s := After(capacity, limit, events + more[..n]);
      assert (events + more)[..|events + more| - 1] == events + more[..n];
      StepKeepsFinal(s, more[n], k);
    }
  }

  lemma {:induction false} StepKeepsFinal(s: Conn, e: Event, k: nat)
    requires Inv(s) && FlagsOf(s.h.log, k).final
    ensures Response(Step(s, e).h.log, k) == Response(s.h.log, k)
    ensures FlagsOf(Step(s, e).h.log, k) == FlagsOf(s.h.log, k)
  {
    StepLog(s, e);
    if e.Parts? {
      AcceptedIsNotFinal(s, e.id);
      Grow(s.h.log, Submission(s.coord.Resolve(e.id), e.flags, e.items, e.notify, Accepts(s, e.id)), k);
    }
  }

  lemma {:induction false} AcceptedIsNotFinal(s: Conn, id: nat)
    requires WellFormed(s) && Contexts(s)
    ensures Accepts(s, id) ==> !FlagsOf(s.h.log, s.coord.Resolve(id)).final
  {
    if Accepts(s, id) {
      var request := s.coord.Resolve(id);
      assert s.coord.queue[request - s.coord.FirstId()].id == request;
    }
  }

  predicate Accepts(s: Conn, id: nat)
    requires s.coord.Ok()
  {
    s.open && !s.coord.closed && AppendCheck(s.coord, id).Appended?
  }

  lemma {:induction false} AcceptsUnlessFinal(s: Conn, k: nat)
    requires WellFormed(s) && Heads(s) && Contexts(s) && s.open && !s.coord.closed
    requires s.h.head <= k < s.coord.nextId && |s.coord.queue| <= ID_LIMIT
    requires !Crosses(s.coord.FirstId(), |s.coord.queue|)
    ensures s.coord.Resolve(k % ID_LIMIT) == k
    ensures Accepts(s, k % ID_LIMIT) <==> !FlagsOf(s.h.log, k).final
  {
    OutstandingAnswer(s.coord, k);
    assert s.coord.queue[k - s.coord.FirstId()].flags == FlagsOf(s.h.log, k);
  }

  /** Whatever the order in which handlers answer: on an open connection that is not closing, parts for
      any request whose response is not complete are taken, for the request that they name; parts for a
      complete response are refused. */
  lemma {:induction false} OpenResponseIsTaken(s: Conn, k: nat, e: Event)
    requires WellFormed(s) && Reached(s) && s.open && !s.coord.closed
    requires |s.coord.queue| <= ID_LIMIT && !Crosses(s.coord.FirstId(), |s.coord.queue|)
    requires s.h.head <= k < s.coord.nextId && e.Parts? && e.id == k % ID_LIMIT
    ensures Step(s, e).h.log
         == s.h.log + [Submission(k, e.flags, e.items, e.notify, !FlagsOf(s.h.log, k).final)]
  {
    ReachedInv(s);
    AcceptsUnlessFinal(s, k);
    StepLog(s, e);
  }

  /** Parts that an open coordinator refuses close the connection, and nothing of them is kept. */
  lemma {:induction false} RefusalCloses(s: Conn, e: Event)
    requires WellFormed(s) && s.open && !s.coord.closed && e.Parts? && !Accepts(s, e.id)
    ensures var r := Step(s, e);
            && !r.open && r.coord.queue == [] && r.out == s.out && r.h.wire == s.h.wire
            && r.h.log == s.h.log + [Submission(s.coord.Resolve(e.id), e.flags, e.items, e.notify, false)]
  {
    var x := Submission(s.coord.Resolve(e.id), e.flags, e.items, e.notify, false);
    FireAllOnlyFires(Reject(s, x, DestroyedPassively).h, QueueTokens(s.coord.queue), NotExecuted);
  }

  /** A request is given a context while there is room; otherwise the connection is closed. */
  lemma {:induction false} RequestIsRegistered(s: Conn)
    requires WellFormed(s)
    ensures var r := Step(s, NewRequest);
            if |s.coord.queue| < s.coord.capacity then
              && r == s.(coord := r.coord)
              && r.coord == s.coord.(queue := r.coord.queue, nextId := s.coord.nextId + 1)
              && r.coord.queue == s.coord.queue + [Context(s.coord.nextId, [], Flags(false, false))]
            else !r.open && r.coord.queue == [] && r.coord.nextId == s.coord.nextId
  {
  }

  /** While the outstanding ids cross a multiple of 2^32, any submission is refused and closes the
      connection. */
  lemma {:induction false} RefusedAcrossTheLimit(s: Conn, e: Event)
    requires WellFormed(s) && s.open && !s.coord.closed && e.Parts? && e.id < ID_LIMIT
    requires 0 < |s.coord.queue| <= ID_LIMIT && Crosses(s.coord.FirstId(), |s.coord.queue|)
    ensures AppendCheck(s.coord, e.id) == UnknownRequest && !Step(s, e).open
  {
    FoundUnlessIdsWrap(s.coord, e.id);
  }

  /** Only calls of `write_response_parts` are logged, one entry each. */
  lemma {:induction false} StepLog(s: Conn, e: Event)
    requires WellFormed(s)
    ensures Step(s, e).h.log
         == if e.Parts? then s.h.log + [Submission(s.coord.Resolve(e.id), e.flags, e.items, e.notify, Accepts(s, e.id))]
            else s.h.log
  {
    CloseLog(s);
    if Enabled(s, e) {
      match e
      case Parts(id, flags, items, statusLine, notify) =>
        CloseLog(Reject(s, Submission(s.coord.Resolve(id), flags, items, notify, false), DestroyedPassively));
        if Accepts(s, id) {
          var t := Accept(s, s.coord.Resolve(id), flags, items, statusLine, notify);
          if t.out.current.None? {
            InitWriteLog(t);
          }
        }
      case OperationDone =>
        HandleCurrentLog(OperationWritten(s));
      case OperationFailed(n) =>
        CloseLog(PutOnWire(s, n));
      case _ =>
    }
  }

  lemma CloseLog(s: Conn)
    ensures Close(s).h.log == s.h.log
  {
    FireAllOnlyFires(s.h, QueueTokens(s.coord.queue), NotExecuted);
  }

  lemma {:induction false} HandleCurrentLog(s: Conn)
    requires WellFormed(s) && s.out.current.Some? && s.out.inFlight == 0
    ensures HandleCurrent(s).h.log == s.h.log
    decreases QueuedGroups(s.coord.queue), 1
  {
    if s.out.index == |s.out.current.value.items| {
      var f := FinishGroup(s);
      if f.coord.closed {
        CloseLog(f);
      } else {
        InitWriteLog(f);
      }
    }
  }

  lemma {:induction false} InitWriteLog(s: Conn)
    requires WellFormed(s) && s.out.current.None?
    ensures InitWrite(s).h.log == s.h.log
    decreases QueuedGroups(s.coord.queue), 0
  {
    if HasReady(s.coord) {
      PopKeepsOk(s.coord);
      PopShrinks(s.coord);
      HandleCurrentLog(StartGroup(s));
    }
  }

  /** At any time every callback ever submitted is in exactly one place and there once: queued, in
      the group in transmission, or invoked; and nothing else is. */
  lemma {:induction false} CallbacksConserved(capacity: nat, limit: nat, events: seq<Event>, t: nat)
    requires limit > 0
    ensures var s := After(capacity, limit, events);
            QueueHolds(s.coord.queue, t) + CurrentHolds(s.out, t) + FiredTimes(s.h.fired, t)
            == if t < |s.h.log| && s.h.log[t].notify then 1 else 0
  {
    RunInv(capacity, limit, events);
  }

  /** When the connection object goes away, every callback has been invoked exactly once. */
  lemma {:induction false} DestructionInvokesTheRest(capacity: nat, limit: nat, events: seq<Event>, t: nat)
    requires limit > 0
    ensures var s := After(capacity, limit, events);
            FiredTimes(Destroy(s).h.fired, t) == if t < |s.h.log| && s.h.log[t].notify then 1 else 0
  {
    RunInv(capacity, limit, events);
    var s := After(capacity, limit, events);
    var tokens := QueueTokens(s.coord.queue);
    var h := FireAll(s.h, tokens, DestroyedPassively);
    var notificator := if s.out.current.Some? then s.out.current.value.notificator else None;
    FireAllCount(s.h, tokens, DestroyedPassively, t);
    QueueTokensCount(s.coord.queue, t);
    FireCount(h, notificator, DestroyedPassively, t);
  }

  /** A callback invoked with success was invoked when exactly the earlier responses and the parts of
      its own response up to its own call had been written, and not a byte of a later call. */
  lemma {:induction false} SuccessMeansExactlyWritten(capacity: nat, limit: nat, events: seq<Event>, i: nat)
    requires limit > 0
    requires i < |After(capacity, limit, events).h.fired|
    requires After(capacity, limit, events).h.fired[i].status.Written?
    ensures var s := After(capacity, limit, events);
            var f := s.h.fired[i];
            && f.at <= |s.h.wire| && f.token < |s.h.log| && s.h.log[f.token].accepted
            && s.h.wire[..f.at]
            == FirstResponses(s.h.log, s.h.log[f.token].id)
             + Response(s.h.log[..f.token + 1], s.h.log[f.token].id)
  {
    RunInv(capacity, limit, events);
  }

  ghost predicate Idle(s: Conn) {
    s.open && s.out.current.None?
  }

  /** The write side never stalls. When the socket is open and no group is in transmission, the
      coordinator is not closed, the oldest response has nothing queued, and all that may be sent has
      been sent: the wire carries all responses up to the oldest one not yet final, completely. Every
      outstanding response marked final still has a queued group that will release it. */
  lemma {:induction false} NeverStalls(capacity: nat, limit: nat, events: seq<Event>)
    requires limit > 0
    ensures var s := After(capacity, limit, events);
            && (s.open ==> forall j | 0 <= j < |s.coord.queue| ::
                  s.coord.queue[j].flags.final ==> s.coord.queue[j].groups != [])
            && (Idle(s) ==>
                  && !s.coord.closed && !HasReady(s.coord)
                  && s.h.wire == FirstResponses(s.h.log, s.h.head + 1)
                  && (forall k | 0 <= k < s.h.head :: FlagsOf(s.h.log, k).final)
                  && !FlagsOf(s.h.log, s.h.head).final)
  {
    RunInv(capacity, limit, events);
    var s := After(capacity, limit, events);
    if Idle(s) {
      IdleWire(s);
    }
  }

  lemma IdleWire(s: Conn)
    requires WellFormed(s) && Heads(s) && Contexts(s) && Content(s) && Idle(s) && !HasReady(s.coord)
    ensures s.h.wire == FirstResponses(s.h.log, s.h.head + 1) && !FlagsOf(s.h.log, s.h.head).final
  {
    assert s.h.wire + Rest(s.out) == s.h.wire;
    if |s.coord.queue| == 0 {
      NothingBeyond(s.h.log, s.coord.nextId, s.h.head);
    } else {
      assert Filled(s.coord.queue[0], Base(s.h.taken, 0), s.h.log);
    }
  }

  lemma {:induction false} HeldSomewhere(groups: seq<Group>, t: nat) returns (i: nat)
    requires HeldBy(groups, t) > 0
    ensures i < |groups| && groups[i].notificator == Some(t)
    decreases |groups|
  {
    if Holds(groups[0].notificator, t) == 1 {
      i := 0;
    } else {
      i := HeldSomewhere(groups[1..], t);
      i := i + 1;
    }
  }

  lemma {:induction false} QueuedSomewhere(q: seq<Context>, t: nat) returns (j: nat, i: nat)
    requires QueueHolds(q, t) > 0
    ensures j < |q| && i < |q[j].groups| && q[j].groups[i].notificator == Some(t)
    decreases |q|
  {
    if HeldBy(q[0].groups, t) > 0 {
      j := 0;
      i := HeldSomewhere(q[0].groups, t);
    } else {
      j, i := QueuedSomewhere(q[1..], t);
      j := j + 1;
    }
  }

  lemma {:induction false} FiredSomewhere(fired: seq<Firing>, t: nat) returns (i: nat)
    requires FiredTimes(fired, t) > 0
    ensures i < |fired| && fired[i].token == t
    decreases |fired|
  {
    if fired[|fired| - 1].token == t {
      i := |fired| - 1;
    } else {
      i := FiredSomewhere(fired[..|fired| - 1], t);
    }
  }

  /** On an idle connection only later responses have callbacks queued. */
  lemma QueuedIsLater(s: Conn, t: nat)
    requires Inv(s) && Settled(s) && Idle(s) && QueueHolds(s.coord.queue, t) > 0
    ensures t < |s.h.log| && s.h.log[t].id > s.h.head
  {
    var j, i := QueuedSomewhere(s.coord.queue, t);
    var ctx := s.coord.queue[j];
    assert GroupsPlaced(ctx.groups, Base(s.h.taken, j), s.h.log, ctx.id);
    assert j > 0 && ctx.id == s.h.head + j;
    var bytes := Base(s.h.taken, j) + GroupsFlat(ctx.groups[..i + 1]);
    assert PlacedAt(ctx.groups[i].notificator.value, bytes, s.h.log, ctx.id);
  }

  /** The callback of call `t` has been told of success. */
  ghost predicate Told(h: History, t: nat) {
    exists i | 0 <= i < |h.fired| :: h.fired[i].token == t && h.fired[i].status.Written?
  }

  /** On an idle connection every callback of the responses sent so far has been told of success. */
  lemma {:induction false} IdleMeansNotified(capacity: nat, limit: nat, events: seq<Event>, t: nat)
    requires limit > 0
    requires var s := After(capacity, limit, events);
             && Idle(s) && t < |s.h.log| && s.h.log[t].notify && s.h.log[t].accepted
             && s.h.log[t].id <= s.h.head
    ensures Told(After(capacity, limit, events).h, t)
  {
    RunInv(capacity, limit, events);
    IdleIsTold(After(capacity, limit, events), t);
  }

  lemma {:induction false} IdleIsTold(s: Conn, t: nat)
    requires Inv(s) && Settled(s) && Idle(s)
    requires t < |s.h.log| && s.h.log[t].notify && s.h.log[t].accepted && s.h.log[t].id <= s.h.head
    ensures Told(s.h, t)
  {
    if QueueHolds(s.coord.queue, t) > 0 {
      QueuedIsLater(s, t);
    }
    assert Submitted(s.h.log, t) == 1;
    var i := FiredSomewhere(s.h.fired, t);
    assert s.h.fired[i].status.Written?;
  }
}
