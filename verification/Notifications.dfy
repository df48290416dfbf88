/** What the callbacks are told: which error stands for what. */
module Notifications {
  import opened Bytes
  import opened Buffers
  import opened ResponseContexts
  import opened Coordinator
  import opened Pipeline
  import opened Delivery
  import opened Guarantees
  import opened Timeliness

  /** The callbacks invoked by a step: success, or "not executed" for something that was queued. */
  ghost predicate ToldOnTheWay(f: Firing, q: seq<Context>) {
    f.status == Written || (f.status == NotExecuted && QueueHolds(q, f.token) > 0)
  }

  /** `r` has invoked what `s` had, and then callbacks of the kind above only. */
  ghost predicate TellsOnly(s: History, r: History, q: seq<Context>) {
    s.fired <= r.fired && forall i | |s.fired| <= i < |r.fired| :: ToldOnTheWay(r.fired[i], q)
  }

  lemma TellsTransitive(a: History, b: History, c: History, q: seq<Context>)
    requires TellsOnly(a, b, q) && TellsOnly(b, c, q)
    ensures TellsOnly(a, c, q)
  {
    PrefixTransitive(a.fired, b.fired, c.fired);
    forall i | |a.fired| <= i < |c.fired|
      ensures ToldOnTheWay(c.fired[i], q)
    {
      if i < |b.fired| {
        assert c.fired[i] == b.fired[i];
      }
    }
  }

  lemma {:induction false} CloseTells(s: Conn)
    ensures TellsOnly(s.h, Close(s).h, s.coord.queue)
    ensures forall i | |s.h.fired| <= i < |Close(s).h.fired| :: Close(s).h.fired[i].status == NotExecuted
  {
    var tokens := QueueTokens(s.coord.queue);
    FireAllAddsErrors(s.h, tokens, NotExecuted);
    forall i | |s.h.fired| <= i < |Close(s).h.fired|
      ensures ToldOnTheWay(Close(s).h.fired[i], s.coord.queue)
    {
      FireAllTokens(s.h, tokens, NotExecuted, i);
      QueueTokensCount(s.coord.queue, Close(s).h.fired[i].token);
    }
  }

  /** What a shorter queue holds, the longer one does. */
  ghost predicate HoldsLess(p: seq<Context>, q: seq<Context>) {
    forall t: nat :: QueueHolds(p, t) <= QueueHolds(q, t)
  }

  lemma TellsLess(a: History, b: History, p: seq<Context>, q: seq<Context>)
    requires TellsOnly(a, b, p) && HoldsLess(p, q)
    ensures TellsOnly(a, b, q)
  {
  }

  lemma {:induction false} PopHoldsLess(c: Coord)
    requires HasReady(c)
    ensures HoldsLess(Pop(c).queue, c.queue)
  {
    var ctx := c.queue[0].(groups := c.queue[0].groups[1..]);
    forall t: nat
      ensures QueueHolds(Pop(c).queue, t) <= QueueHolds(c.queue, t)
    {
      assert c.queue[0 := ctx][1..] == c.queue[1..];
      assert HeldBy(ctx.groups, t) <= HeldBy(c.queue[0].groups, t);
    }
  }

  lemma {:induction false} HandleCurrentTells(s: Conn)
    requires WellFormed(s) && s.out.current.Some? && s.out.inFlight == 0
    ensures TellsOnly(s.h, HandleCurrent(s).h, s.coord.queue)
    decreases QueuedGroups(s.coord.queue), 1
  {
    if s.out.index == |s.out.current.value.items| {
      var f := FinishGroup(s);
      assert TellsOnly(s.h, f.h, s.coord.queue);
      if f.coord.closed {
        CloseTells(f);
        TellsTransitive(s.h, f.h, Close(f).h, s.coord.queue);
      } else {
        InitWriteTells(f);
        TellsTransitive(s.h, f.h, InitWrite(f).h, s.coord.queue);
      }
    }
  }

  lemma {:induction false} InitWriteTells(s: Conn)
    requires WellFormed(s) && s.out.current.None?
    ensures TellsOnly(s.h, InitWrite(s).h, s.coord.queue)
    decreases QueuedGroups(s.coord.queue), 0
  {
    if HasReady(s.coord) {
      PopKeepsOk(s.coord);
      PopShrinks(s.coord);
      PopHoldsLess(s.coord);
      var g := StartGroup(s);
      HandleCurrentTells(g);
      TellsLess(g.h, HandleCurrent(g).h, g.coord.queue, s.coord.queue);
      assert g.h.fired == s.h.fired;
    }
  }

  lemma {:induction false} AcceptHolds(s: Conn, id: nat, flags: Flags, items: seq<Item>, statusLine: nat, notify: bool,
      t: nat)
    requires WellFormed(s) && s.open && CanAppend(s.coord, id)
    ensures QueueHolds(Accept(s, id, flags, items, statusLine, notify).coord.queue, t)
         == QueueHolds(s.coord.queue, t) + Holds(TokenOf(notify, |s.h.log|), t)
  {
    var k, g := id - s.coord.FirstId(), Group(items, statusLine, TokenOf(notify, |s.h.log|));
    var ctx := Context(id, Enqueue(s.coord.queue[k].groups, g), flags);
    QueueHoldsUpdate(s.coord.queue, k, ctx, t);
    EnqueueConserves(s.coord.queue[k].groups, g, t);
  }

  /** Why a callback is told what it is told: success when operations end or parts are taken;
      "write failed" for the group whose operation failed; "destroyed" for parts that the coordinator
      refused; "not executed" for what was queued when the connection closed, and for parts submitted
      afterwards. */
  ghost predicate SaysWhy(f: Firing, s: Conn, e: Event)
    requires WellFormed(s)
  {
    match f.status
    case Written => e.OperationDone? || (e.Parts? && Accepts(s, e.id))
    case WriteFailed => (e.OperationFailed? || e.OperationAborted?) && CurrentHolds(s.out, f.token) > 0
    case DestroyedPassively =>
      e.Parts? && f.token == |s.h.log| && s.open && !s.coord.closed && !Accepts(s, e.id)
    case NotExecuted =>
      || QueueHolds(s.coord.queue, f.token) > 0
      || (e.Parts? && f.token == |s.h.log| && (Accepts(s, e.id) || !s.open || s.coord.closed))
  }

  lemma {:induction false} PartsSayWhy(s: Conn, e: Event, i: nat)
    requires WellFormed(s) && e.Parts? && |s.h.fired| <= i < |Step(s, e).h.fired|
    ensures s.h.fired <= Step(s, e).h.fired && SaysWhy(Step(s, e).h.fired[i], s, e)
  {
    var id := s.coord.Resolve(e.id);
    var x := Submission(id, e.flags, e.items, e.notify, false);
    if Accepts(s, e.id) {
      var t := Accept(s, id, e.flags, e.items, e.statusLine, e.notify);
      if t.out.current.None? {
        InitWriteTells(t);
        AcceptHolds(s, id, e.flags, e.items, e.statusLine, e.notify, InitWrite(t).h.fired[i].token);
      }
    } else if s.open && !s.coord.closed {
      CloseTells(Reject(s, x, DestroyedPassively));
    }
  }

  lemma {:induction false} FailureSaysWhy(s: Conn, e: Event, i: nat)
    requires WellFormed(s) && (e.OperationFailed? || e.OperationAborted?) && |s.h.fired| <= i < |Step(s, e).h.fired|
    ensures s.h.fired <= Step(s, e).h.fired && SaysWhy(Step(s, e).h.fired[i], s, e)
  {
    if Enabled(s, e) {
      var put := PutOnWire(s, e.written);
      var before := if e.OperationFailed? then Close(put) else put;
      CloseTells(put);
      GroupIsTold(before, put.h, i);
    }
  }

  /** The failed group is told last. */
  lemma GroupIsTold(before: Conn, h: History, i: nat)
    requires before.out.current.Some? && h.fired <= before.h.fired && |h.fired| <= i < |FailGroup(before).h.fired|
    ensures var r := FailGroup(before).h.fired;
            && h.fired <= r
            && if i < |before.h.fired| then r[i] == before.h.fired[i]
               else r[i].status == WriteFailed && CurrentHolds(before.out, r[i].token) > 0
  {
  }

  /** Every callback invoked by a step, whatever the step, is told why. */
  lemma {:induction false} CallbacksAreToldWhy(s: Conn, e: Event, i: nat)
    requires WellFormed(s) && |s.h.fired| <= i < |Step(s, e).h.fired|
    ensures s.h.fired <= Step(s, e).h.fired && SaysWhy(Step(s, e).h.fired[i], s, e)
  {
    match e
    case Parts(_, _, _, _, _) => PartsSayWhy(s, e, i);
    case OperationFailed(_) => FailureSaysWhy(s, e, i);
    case OperationAborted(_) => FailureSaysWhy(s, e, i);
    case OperationDone =>
      if Enabled(s, e) {
        HandleCurrentTells(OperationWritten(s));
      }
    case NewRequest => CloseTells(s);
    case CloseNow => CloseTells(s);
  }

  /** The group whose operation fails is told of it, and refused parts are told of the refusal. */
  lemma {:induction false} FailuresAreTold(s: Conn, e: Event)
    requires WellFormed(s) && Enabled(s, e)
    ensures (e.OperationFailed? || e.OperationAborted?) && s.out.current.value.notificator.Some? ==>
              var fired := Step(s, e).h.fired;
              && |fired| > |s.h.fired| && fired[|fired| - 1].status == WriteFailed
              && fired[|fired| - 1].token == s.out.current.value.notificator.value
    ensures e.Parts? && e.notify && !Accepts(s, e.id) ==>
              var fired := Step(s, e).h.fired;
              && |fired| > |s.h.fired| && fired[|s.h.fired|].token == |s.h.log|
              && fired[|s.h.fired|].status == if s.open && !s.coord.closed then DestroyedPassively else NotExecuted
  {
    if e.OperationFailed? {
      CloseTells(PutOnWire(s, e.written));
      FireAllOnlyFires(PutOnWire(s, e.written).h, QueueTokens(s.coord.queue), NotExecuted);
    } else if e.Parts? && s.open && !s.coord.closed {
      var x := Submission(s.coord.Resolve(e.id), e.flags, e.items, e.notify, false);
      CloseTells(Reject(s, x, DestroyedPassively));
    }
  }

  // --- the order ---

  function TokensOf(g: Group): seq<nat> {
    if g.notificator.Some? then [g.notificator.value] else []
  }

  lemma {:induction false} GroupTokensConcat(a: seq<Group>, b: seq<Group>)
    ensures GroupTokens(a + b) == GroupTokens(a) + GroupTokens(b)
    decreases |a|
  {
    if |a| == 0 {
      assert a + b == b;
    } else {
      GroupTokensConcat(a[1..], b);
      FirstGroupTokens(a[0], a[1..] + b);
      FirstGroupTokens(a[0], a[1..]);
      assert a == [a[0]] + a[1..] && a + b == [a[0]] + (a[1..] + b);
      Associative(TokensOf(a[0]), GroupTokens(a[1..]), GroupTokens(b));
    }
  }

  lemma FirstGroupTokens(g: Group, rest: seq<Group>)
    ensures GroupTokens([g] + rest) == TokensOf(g) + GroupTokens(rest)
  {
    assert ([g] + rest)[1..] == rest;
  }

  lemma {:induction false} QueueTokensConcat(p: seq<Context>, q: seq<Context>)
    ensures QueueTokens(p + q) == QueueTokens(p) + QueueTokens(q)
    decreases |p|
  {
    if |p| == 0 {
      assert p + q == q;
    } else {
      QueueTokensConcat(p[1..], q);
      FirstQueueTokens(p[0], p[1..] + q);
      FirstQueueTokens(p[0], p[1..]);
      assert p == [p[0]] + p[1..] && p + q == [p[0]] + (p[1..] + q);
      Associative(GroupTokens(p[0].groups), QueueTokens(p[1..]), QueueTokens(q));
    }
  }

  lemma FirstQueueTokens(ctx: Context, rest: seq<Context>)
    ensures QueueTokens([ctx] + rest) == GroupTokens(ctx.groups) + QueueTokens(rest)
  {
    assert ([ctx] + rest)[1..] == rest;
  }

  /** The callbacks of older responses come first, and within a response those of older groups. */
  lemma {:induction false} TokensInOrder(p: seq<Context>, q: seq<Context>, a: seq<Group>, b: seq<Group>)
    ensures QueueTokens(p + q) == QueueTokens(p) + QueueTokens(q)
    ensures GroupTokens(a + b) == GroupTokens(a) + GroupTokens(b)
  {
    QueueTokensConcat(p, q);
    GroupTokensConcat(a, b);
  }

  /** The callbacks are invoked in the order given. */
  lemma {:induction false} FiredInOrder(h: History, tokens: seq<nat>, status: Status)
    ensures FireAll(h, tokens, status).fired
         == h.fired + seq(|tokens|, i requires 0 <= i < |tokens| => Firing(tokens[i], status, |h.wire|))
    decreases |tokens|
  {
    if |tokens| > 0 {
      FiredInOrder(Fire(h, Some(tokens[0]), status), tokens[1..], status);
    }
  }

  /** A close tells the queued callbacks, oldest first, and no others. */
  lemma {:induction false} CloseTellsOldestFirst(s: Conn)
    ensures var tokens := QueueTokens(s.coord.queue);
            Close(s).h.fired
            == s.h.fired + seq(|tokens|, i requires 0 <= i < |tokens| => Firing(tokens[i], NotExecuted, |s.h.wire|))
  {
    FiredInOrder(s.h, QueueTokens(s.coord.queue), NotExecuted);
  }

  /** What is left when the connection object goes away is told of its destruction. */
  lemma {:induction false} DestructionIsTold(s: Conn, i: nat)
    requires |s.h.fired| <= i < |Destroy(s).h.fired|
    ensures s.h.fired <= Destroy(s).h.fired && Destroy(s).h.fired[i].status == DestroyedPassively
  {
    FireAllAddsErrors(s.h, QueueTokens(s.coord.queue), DestroyedPassively);
  }
}
