/** The converse of truthful notification: no byte of a later call is written before the callback of an
    earlier one was told of success, on open connections and on closed ones. */
module Timeliness {
  import opened Bytes
  import opened Buffers
  import opened ResponseContexts
  import opened Coordinator
  import opened Pipeline
  import opened Delivery
  import opened Guarantees

  /** How many bytes are written when the parts of call `t`, and all before them, are. */
  function EndOf(log: seq<Submission>, t: nat): nat
    requires t < |log|
  {
    |FirstResponses(log, log[t].id)| + |Response(log[..t + 1], log[t].id)|
  }

  /** How far the group in transmission will bring the wire. */
  function Reach(s: Conn): nat
    requires WellFormed(s)
  {
    |s.h.wire| + |Rest(s.out)|
  }

  /** Call `t` was not taken, or its parts end at or behind `reach`. */
  ghost predicate EndsBehind(log: seq<Submission>, t: nat, reach: nat) {
    t < |log| && (log[t].accepted ==> EndOf(log, t) >= reach)
  }

  /** Errors are reported only for parts whose end the wire does not pass. */
  ghost predicate ErrorsAhead(s: Conn)
    requires WellFormed(s)
  {
    forall i | 0 <= i < |s.h.fired| && !s.h.fired[i].status.Written? ::
      EndsBehind(s.h.log, s.h.fired[i].token, Reach(s))
  }

  lemma OpenHasErrorsAhead(s: Conn)
    requires Inv(s) && s.open
    ensures ErrorsAhead(s)
  {
  }

  lemma ReachIsGivenOut(s: Conn)
    requires WellFormed(s) && Content(s) && s.open
    ensures Reach(s) == |FirstResponses(s.h.log, s.h.head)| + |s.h.taken|
  {
    assert Reach(s) == |s.h.wire + Rest(s.out)|;
  }

  lemma {:induction false} LaterStartsBehind(log: seq<Submission>, head: nat, taken: seq<byte>, k: nat)
    requires head < k && taken <= Response(log, head)
    ensures |FirstResponses(log, k)| >= |FirstResponses(log, head)| + |taken|
  {
    FirstResponsesGrow(log, head + 1, k);
  }

  lemma {:induction false} PlacedEndsBehind(log: seq<Submission>, t: nat, head: nat, taken: seq<byte>, id: nat,
                                            base: seq<byte>, bytes: seq<byte>)
    requires PlacedAt(t, base + bytes, log, id) && taken <= Response(log, head)
    requires if id == head then base == taken else head < id
    ensures EndsBehind(log, t, |FirstResponses(log, head)| + |taken|)
  {
    if head < id {
      LaterStartsBehind(log, head, taken, id);
    } else {
      assert |base + bytes| == |taken| + |bytes|;
    }
  }

  /** A queued callback belongs to parts behind the group in transmission. */
  lemma {:induction false} QueuedEndsBehind(s: Conn, t: nat)
    requires Inv(s) && QueueHolds(s.coord.queue, t) > 0
    ensures EndsBehind(s.h.log, t, Reach(s))
  {
    var j, i := QueuedSomewhere(s.coord.queue, t);
    QueuedAt(s, j, i);
  }

  lemma {:induction false} QueuedAt(s: Conn, j: nat, i: nat)
    requires WellFormed(s) && Heads(s) && Contexts(s) && Content(s) && QueuePlaced(s)
    requires j < |s.coord.queue| && i < |s.coord.queue[j].groups| && s.coord.queue[j].groups[i].notificator.Some?
    ensures EndsBehind(s.h.log, s.coord.queue[j].groups[i].notificator.value, Reach(s))
  {
    var ctx := s.coord.queue[j];
    assert s.open && ctx.id == s.h.head + j;
    var bytes := GroupsFlat(ctx.groups[..i + 1]);
    assert GroupsPlaced(ctx.groups, Base(s.h.taken, j), s.h.log, ctx.id);
    assert PlacedAt(ctx.groups[i].notificator.value, Base(s.h.taken, j) + bytes, s.h.log, ctx.id);
    ReachIsGivenOut(s);
    PlacedEndsBehind(s.h.log, ctx.groups[i].notificator.value, s.h.head, s.h.taken, ctx.id, Base(s.h.taken, j), bytes);
  }

  lemma CurrentEndsAtReach(s: Conn, t: nat)
    requires Inv(s) && CurrentHolds(s.out, t) > 0
    ensures t < |s.h.log| && EndOf(s.h.log, t) == Reach(s)
  {
  }

  lemma {:induction false} FireAllTokens(h: History, tokens: seq<nat>, status: Status, i: nat)
    requires |h.fired| <= i < |FireAll(h, tokens, status).fired|
    ensures CountTokens(tokens, FireAll(h, tokens, status).fired[i].token) > 0
    decreases |tokens|
  {
    if |tokens| > 0 {
      var f := Fire(h, Some(tokens[0]), status);
      if i == |h.fired| {
        FireAllAddsErrors(f, tokens[1..], status);
      } else {
        FireAllTokens(f, tokens[1..], status, i);
      }
    }
  }

  lemma CloseAhead(s: Conn)
    requires Inv(s) && ErrorsAhead(s)
    ensures WellFormed(Close(s)) && ErrorsAhead(Close(s))
  {
    var r := Close(s);
    var tokens := QueueTokens(s.coord.queue);
    FireAllOnlyFires(s.h, tokens, NotExecuted);
    FireAllAddsErrors(s.h, tokens, NotExecuted);
    forall i | 0 <= i < |r.h.fired| && !r.h.fired[i].status.Written?
      ensures EndsBehind(r.h.log, r.h.fired[i].token, Reach(r))
    {
      if i < |s.h.fired| {
        assert r.h.fired[i] == s.h.fired[i];
      } else {
        FireAllTokens(s.h, tokens, NotExecuted, i);
        QueueTokensCount(s.coord.queue, r.h.fired[i].token);
        QueuedEndsBehind(s, r.h.fired[i].token);
      }
    }
  }

  lemma {:induction false} EndsBehindGrow(log: seq<Submission>, x: Submission, t: nat, reach: nat)
    requires EndsBehind(log, t, reach) && !x.accepted
    ensures EndsBehind(log + [x], t, reach)
  {
    GrowLater(log, x, log[t].id);
    assert (log + [x])[..t + 1] == log[..t + 1];
  }

  lemma {:induction false} RejectAhead(s: Conn, x: Submission, status: Status)
    requires Inv(s) && ErrorsAhead(s) && !x.accepted
    ensures WellFormed(Reject(s, x, status)) && ErrorsAhead(Reject(s, x, status))
  {
    var r := Reject(s, x, status);
    forall i | 0 <= i < |r.h.fired| && !r.h.fired[i].status.Written?
      ensures EndsBehind(r.h.log, r.h.fired[i].token, Reach(r))
    {
      if i < |s.h.fired| {
        EndsBehindGrow(s.h.log, x, s.h.fired[i].token, Reach(s));
      }
    }
  }

  lemma {:induction false} HandleCurrentAhead(s: Conn)
    requires Inv(s) && ErrorsAhead(s) && s.out.current.Some? && s.out.inFlight == 0
    ensures ErrorsAhead(HandleCurrent(s))
    decreases QueuedGroups(s.coord.queue), 1
  {
    if s.out.index < |s.out.current.value.items| {
      assert Rest(StartOperation(s).out) == Rest(s.out);
    } else {
      FinishInv(s);
      var f := FinishGroup(s);
      assert Rest(s.out) == [] == Rest(f.out);
      if f.coord.closed {
        CloseAhead(f);
      } else {
        InitWriteAhead(f);
      }
    }
  }

  lemma {:induction false} InitWriteAhead(s: Conn)
    requires Inv(s) && ErrorsAhead(s) && s.out.current.None? && !s.coord.closed
    ensures ErrorsAhead(InitWrite(s))
    decreases QueuedGroups(s.coord.queue), 0
  {
    if HasReady(s.coord) {
      PopKeepsOk(s.coord);
      PopShrinks(s.coord);
      StartGroupInv(s);
      OpenHasErrorsAhead(StartGroup(s));
      HandleCurrentAhead(StartGroup(s));
    }
  }

  /** The end of transmission: what is told an error then was queued or in transmission. */
  lemma GiveUpAhead(s: Conn, h: History, r: Conn, tokens: seq<nat>)
    requires Inv(s) && ErrorsAhead(s) && s.out.current.Some? && WellFormed(r) && r.out.current.None?
    requires r.h.log == s.h.log && |r.h.wire| <= Reach(s)
    requires h.fired == s.h.fired && (tokens == QueueTokens(s.coord.queue) || tokens == [])
    requires r.h.fired == Fire(FireAll(h, tokens, NotExecuted), s.out.current.value.notificator, WriteFailed).fired
    ensures ErrorsAhead(r)
  {
    FireAllAddsErrors(h, tokens, NotExecuted);
    var all := FireAll(h, tokens, NotExecuted).fired;
    assert Reach(r) == |r.h.wire|;
    forall i | 0 <= i < |r.h.fired| && !r.h.fired[i].status.Written?
      ensures EndsBehind(r.h.log, r.h.fired[i].token, Reach(r))
    {
      var t := r.h.fired[i].token;
      if i < |s.h.fired| {
        assert r.h.fired[i] == all[i] == s.h.fired[i];
        assert EndsBehind(s.h.log, t, Reach(s));
      } else if i < |all| {
        assert r.h.fired[i] == all[i];
        FireAllTokens(h, tokens, NotExecuted, i);
        QueueTokensCount(s.coord.queue, t);
        QueuedEndsBehind(s, t);
      } else {
        CurrentEndsAtReach(s, t);
      }
    }
  }

  lemma FailedAhead(s: Conn, n: nat)
    requires Inv(s) && ErrorsAhead(s) && s.out.current.Some? && n <= |Flat(InFlight(s.out))|
    ensures WellFormed(FailGroup(Close(PutOnWire(s, n)))) && ErrorsAhead(FailGroup(Close(PutOnWire(s, n))))
  {
    var p := PutOnWire(s, n);
    PutOnWireWithinRest(s, n);
    FireAllOnlyFires(p.h, QueueTokens(s.coord.queue), NotExecuted);
    GiveUpAhead(s, p.h, FailGroup(Close(p)), QueueTokens(s.coord.queue));
  }

  lemma AbortedAhead(s: Conn, n: nat)
    requires Inv(s) && ErrorsAhead(s) && s.out.current.Some? && n <= |Flat(InFlight(s.out))| && !s.open
    ensures WellFormed(FailGroup(PutOnWire(s, n))) && ErrorsAhead(FailGroup(PutOnWire(s, n)))
  {
    PutOnWireWithinRest(s, n);
    GiveUpAhead(s, PutOnWire(s, n).h, FailGroup(PutOnWire(s, n)), []);
  }

  lemma OperationDoneAhead(s: Conn)
    requires Inv(s) && ErrorsAhead(s) && s.out.current.Some?
    ensures ErrorsAhead(HandleCurrent(OperationWritten(s)))
  {
    OperationDoneInv(s);
    RestSplits(s);
    assert Reach(OperationWritten(s)) == Reach(s);
    HandleCurrentAhead(OperationWritten(s));
  }

  lemma {:induction false} StepAhead(s: Conn, e: Event)
    requires Inv(s) && Settled(s) && ErrorsAhead(s)
    ensures ErrorsAhead(Step(s, e))
  {
    if Enabled(s, e) {
      match e
      case NewRequest =>
        if |s.coord.queue| >= s.coord.capacity {
          CloseAhead(s);
        }
      case Parts(id, flags, items, statusLine, notify) =>
        PartsAhead(s, id, flags, items, statusLine, notify);
      case OperationDone =>
        OperationDoneAhead(s);
      case OperationFailed(n) =>
        FailedAhead(s, n);
      case OperationAborted(n) =>
        AbortedAhead(s, n);
      case CloseNow =>
        CloseAhead(s);
    }
  }

  lemma PartsAhead(s: Conn, id: nat, flags: Flags, items: seq<Item>, statusLine: nat, notify: bool)
    requires Inv(s) && Settled(s) && ErrorsAhead(s)
    ensures WellFormed(OnParts(s, id, flags, items, statusLine, notify))
    ensures ErrorsAhead(OnParts(s, id, flags, items, statusLine, notify))
  {
    var request := s.coord.Resolve(id);
    var x := Submission(request, flags, items, notify, false);
    if !s.open || s.coord.closed {
      RejectAhead(s, x, NotExecuted);
    } else if !AppendCheck(s.coord, id).Appended? {
      RejectAhead(s, x, DestroyedPassively);
      RejectInv(s, x, DestroyedPassively);
      CloseAhead(Reject(s, x, DestroyedPassively));
    } else {
      AcceptInv(s, request, flags, items, statusLine, notify);
      var t := Accept(s, request, flags, items, statusLine, notify);
      OpenHasErrorsAhead(t);
      if t.out.current.None? {
        InitWriteAhead(t);
      }
    }
  }

  lemma {:induction false} RunAhead(capacity: nat, limit: nat, events: seq<Event>)
    requires limit > 0
    ensures ErrorsAhead(After(capacity, limit, events))
    decreases |events|
  {
    if |events| > 0 {
      var before := events[..|events| - 1];
      RunAhead(capacity, limit, before);
      RunInv(capacity, limit, before);
      StepAhead(After(capacity, limit, before), events[|events| - 1]);
    }
  }

  /** In every reachable state: when what is written and what is in transmission go beyond all that was to
      be sent up to and including the parts of call `t`, then the callback of that call has been told of
      success. So it is told before any operation with later bytes is started. */
  lemma {:induction false} LaterBytesMeanSuccess(capacity: nat, limit: nat, events: seq<Event>, t: nat)
    requires limit > 0
    requires var s := After(capacity, limit, events);
             && t < |s.h.log| && s.h.log[t].notify && s.h.log[t].accepted
             && Reach(s) > EndOf(s.h.log, t)
    ensures Told(After(capacity, limit, events).h, t)
  {
    RunInv(capacity, limit, events);
    RunAhead(capacity, limit, events);
    var s := After(capacity, limit, events);
    if QueueHolds(s.coord.queue, t) > 0 {
      QueuedEndsBehind(s, t);
    }
    if CurrentHolds(s.out, t) > 0 {
      CurrentEndsAtReach(s, t);
    }
    assert Submitted(s.h.log, t) == 1;
    var i := FiredSomewhere(s.h.fired, t);
    assert s.h.fired[i].status.Written? || EndsBehind(s.h.log, s.h.fired[i].token, Reach(s));
  }
}
