/** The write half of `connection_t`: imperative code over the coordinator and the output context,
    proved to perform exactly the steps of the transition system. */
module Connection {
  import opened Bytes
  import opened Buffers
  import opened ResponseContexts
  import opened Coordinator
  import opened WriteOutput
  import opened Pipeline
  import opened Delivery
  import opened Guarantees
  import opened Progress

  /** The operation writes the items right before `index`. */
  ghost predicate EndsAt(op: Operation, items: seq<Item>, index: nat) {
    && |OpItems(op)| <= index <= |items|
    && OpItems(op) == items[index - |OpItems(op)|..index]
  }

  lemma NextOperationEndsAt(items: seq<Item>, index: nat, limit: nat)
    requires index < |items| && limit > 0
    ensures var op, n := NextOperation(items, index, limit), NextLength(items, index, limit);
            |OpItems(op)| == n && EndsAt(op, items, index + n)
  {
    NextOperationTakesNextItems(items, index, limit);
  }

  class WriteSide {
    const coordinator: ResponseCoordinator
    const output: OutputCtx
    var socketOpen: bool
    /** The asynchronous operation handed to the socket, until its completion handler is called. */
    var pending: Operation
    ghost var h: History

    ghost function Repr(): set<object>
      reads this
    {
      {this, coordinator, coordinator.table, coordinator.table.contexts, output}
    }

    ghost predicate Valid()
      reads Repr()
    {
      && coordinator.Valid()
      && output.Valid()
      && (output.current.Some? ==> EndsAt(pending, output.current.value.items, output.nextIndex))
      && (output.current.None? ==> pending == NoOperation)
      && WellFormed(State())
    }

    ghost function State(): Conn
      reads this, coordinator, coordinator.table, coordinator.table.contexts, output
      requires coordinator.Valid()
    {
      Conn(coordinator.Abs(),
           Out(output.current, output.nextIndex, |OpItems(pending)|),
           socketOpen, output.limit, h)
    }

    ghost function Abs(): Conn
      requires Valid()
      reads Repr()
    {
      State()
    }

    /** The connection as callers see it between their calls: some run has led here. */
    ghost predicate Reachable()
      reads Repr()
    {
      Valid() && Reached(Abs())
    }

    constructor (maxReqCount: nat, maxIovLen: nat)
      requires 0 < maxIovLen
      ensures Reachable() && fresh(Repr())
      ensures Abs() == Init(maxReqCount, if maxIovLen < 64 then maxIovLen else 64)
    {
      coordinator := new ResponseCoordinator(maxReqCount);
      output := new OutputCtx(maxIovLen);
      socketOpen, pending := true, NoOperation;
      h := History([], [], [], 0, []);
      new;
      assert Abs() == After(maxReqCount, output.limit, []);
    }

    /** `close`. */
    method Close()
      requires Valid()
      modifies Repr()
      ensures Valid() && Abs() == Pipeline.Close(old(Abs()))
    {
      ghost var after := Pipeline.Close(Abs());
      CloseIsWellFormed(Abs());
      socketOpen := false;
      var notified := coordinator.Reset();
      FireAllOnlyFires(h, notified, NotExecuted);
      h := FireAll(h, notified, NotExecuted);
      assert State() == after;
    }

    /** `register_new_request` as called for an incoming request. */
    method OnNewRequest()
      requires Valid()
      modifies Repr()
      ensures Valid() && Abs() == Pipeline.OnNewRequest(old(Abs()))
    {
      var ok, _ := coordinator.RegisterNewRequest();
      if !ok {
        Close();
      }
    }

    /** `write_response_parts` and `write_response_parts_impl`. The callback, an opaque function object
        in the source, is named by the number of the call. */
    method WriteResponseParts(id: nat, flags: Flags, items: seq<Item>, statusLine: nat, notificator: Option<nat>)
      requires Valid() && (notificator.Some? ==> notificator.value == |h.log|)
      modifies Repr()
      ensures Valid() && Abs() == OnParts(old(Abs()), id, flags, items, statusLine, notificator.Some?)
    {
      if !socketOpen || coordinator.closed {
        h := Reject(Abs(), Refused(Abs(), id, flags, items, notificator.Some?), NotExecuted).h;
      } else {
        var ok := AppendParts(id, flags, items, statusLine, notificator);
        if !ok {
          Close();
        } else if output.current.None? {
          InitWrite();
        }
      }
    }

    static ghost function Refused(s: Conn, id: nat, flags: Flags, items: seq<Item>, notify: bool): Submission
      requires WellFormed(s)
    {
      Submission(s.coord.Resolve(id), flags, items, notify, false)
    }

    /** The call of `append_response`; not `ok` stands for its exception, which destroys the group. */
    method AppendParts(id: nat, flags: Flags, items: seq<Item>, statusLine: nat, notificator: Option<nat>)
      returns (ok: bool)
      requires Valid() && socketOpen && !coordinator.closed
      requires notificator == TokenOf(notificator.Some?, |h.log|)
      modifies Repr()
      ensures Valid() && ok == AppendCheck(old(Abs()).coord, id).Appended?
      ensures ok ==>
                Abs() == Accept(old(Abs()), old(Abs()).coord.Resolve(id), flags, items, statusLine, notificator.Some?)
      ensures !ok ==>
                Abs() == Reject(old(Abs()), Refused(old(Abs()), id, flags, items, notificator.Some?), DestroyedPassively)
    {
      ghost var before := Abs();
      var outcome := coordinator.AppendResponse(id, flags, Group(items, statusLine, notificator));
      ok := outcome.Appended?;
      ghost var after :=
        if ok then Accept(before, before.coord.Resolve(id), flags, items, statusLine, notificator.Some?)
        else Reject(before, Refused(before, id, flags, items, notificator.Some?), DestroyedPassively);
      h := after.h;
      assert State() == after;
    }

    /** `init_write`; the coordinator is not closed here, so `pop_ready_buffers` does not throw. */
    method InitWrite()
      requires Valid() && output.current.None? && !coordinator.closed
      modifies Repr()
      ensures Valid() && Abs() == Pipeline.InitWrite(old(Abs()))
      decreases QueuedGroups(Abs().coord.queue), 0
    {
      ghost var before := Abs();
      var started := StartNextGroup();
      if started {
        PopShrinks(before.coord);
        HandleCurrentWriteCtx();
      }
    }

    method StartNextGroup() returns (started: bool)
      requires Valid() && output.current.None? && !coordinator.closed
      modifies this`h, coordinator, coordinator.table, coordinator.table.contexts, output`current
      ensures Valid() && started == HasReady(old(Abs()).coord)
      ensures Abs() == if started then StartGroup(old(Abs())) else old(Abs())
    {
      ghost var before := Abs();
      if HasReady(before.coord) {
        StartGroupIsWellFormed(before);
      }
      var _, next := coordinator.PopReadyBuffers();
      started := next.Some?;
      if started {
        output.StartNextWriteGroup(next.value);
        h := StartGroup(before).h;
        assert State() == StartGroup(before);
      }
    }

    /** `handle_current_write_ctx`. */
    method HandleCurrentWriteCtx()
      requires Valid() && output.current.Some? && pending == NoOperation
      modifies Repr()
      ensures Valid() && Abs() == HandleCurrent(old(Abs()))
      decreases QueuedGroups(Abs().coord.queue), 2
    {
      ghost var before := Abs();
      var op := ExtractOperation();
      if op.NoOperation? {
        FinishHandlingCurrentWriteCtx();
      } else {
        BeginOperation(op, before, |OpItems(op)|);
      }
    }

    method ExtractOperation() returns (op: Operation)
      requires Valid() && output.current.Some? && pending == NoOperation
      modifies output`nextIndex, output`asioBufs
      ensures coordinator.Valid() && output.Valid() && old(Abs()) == State().(out := old(Abs()).out)
      ensures op.NoOperation? <==> old(output.nextIndex) == |output.current.value.items|
      ensures op.NoOperation? ==> Valid() && Abs() == old(Abs())
      ensures !op.NoOperation? ==>
                && |OpItems(op)| == NextLength(output.current.value.items, old(output.nextIndex), output.limit)
                && output.nextIndex == old(output.nextIndex) + |OpItems(op)|
                && EndsAt(op, output.current.value.items, output.nextIndex)
    {
      ghost var index := output.nextIndex;
      op := output.ExtractNextWriteOperation();
      if index < |output.current.value.items| {
        NextOperationEndsAt(output.current.value.items, index, output.limit);
      }
    }

    /** The asynchronous operation, `n` items long, is handed to the socket. */
    method BeginOperation(op: Operation, ghost before: Conn, ghost n: nat)
      requires coordinator.Valid() && output.Valid() && output.current.Some?
      requires WellFormed(before) && before == State().(out := before.out)
      requires before.out.current == output.current
      requires n == NextLength(output.current.value.items, before.out.index, before.limit)
      requires output.nextIndex == before.out.index + n
      requires |OpItems(op)| == n && EndsAt(op, output.current.value.items, output.nextIndex)
      modifies this`pending
      ensures Valid() && Abs() == StartOperation(before)
    {
      StartOperationIsWellFormed(before);
      pending := op;
      assert State() == StartOperation(before);
    }

    /** `finish_handling_current_write_ctx`. */
    method FinishHandlingCurrentWriteCtx()
      requires Valid() && output.current.Some? && pending == NoOperation
      requires output.nextIndex == |output.current.value.items|
      modifies Repr()
      ensures Valid() && Abs() == HandleCurrent(old(Abs()))
      decreases QueuedGroups(Abs().coord.queue), 1
    {
      ghost var before := Abs();
      var notified := output.FinishWriteGroup();
      h := Fire(h, notified, Written);
      assert State() == FinishGroup(before);
      if coordinator.closed {
        Close();
      } else {
        InitWrite();
      }
    }

    /** `after_write` without an error: the whole operation has reached the wire. */
    method AfterWriteSucceeded()
      requires Valid() && Enabled(Abs(), OperationDone)
      modifies Repr()
      ensures Valid() && Abs() == Step(old(Abs()), OperationDone)
    {
      EndOperation();
      HandleCurrentWriteCtx();
    }

    /** What was handed to the socket is what the transition system has in flight. */
    lemma PendingIsInFlight()
      requires Valid() && output.current.Some?
      ensures InFlight(Abs().out) == OpItems(pending)
    {
    }

    method EndOperation()
      requires Valid() && output.current.Some?
      modifies this`pending, this`h
      ensures Valid() && pending == NoOperation && Abs() == OperationWritten(old(Abs()))
    {
      ghost var after := OperationWritten(Abs());
      PendingIsInFlight();
      h := h.(wire := h.wire + Flat(OpItems(pending)));
      pending := NoOperation;
      assert State() == after;
    }

    /** How a write ends with an error: after a close, or with one. */
    static ghost function WriteError(aborted: bool, written: nat): Event {
      if aborted then OperationAborted(written) else OperationFailed(written)
    }

    /** `after_write` with an error, after `written` bytes of the operation. */
    method AfterWriteFailed(aborted: bool, ghost written: nat)
      requires Valid() && Enabled(Abs(), WriteError(aborted, written))
      modifies Repr()
      ensures Valid() && Abs() == Step(old(Abs()), WriteError(aborted, written))
    {
      PutBytes(written);
      if !aborted {
        Close();
      }
      Fail();
    }

    /** Some bytes of an operation reach the wire before it fails. */
    ghost method PutBytes(written: nat)
      requires Valid() && output.current.Some? && written <= |Flat(InFlight(Abs().out))|
      modifies this`h
      ensures Valid() && Abs() == PutOnWire(old(Abs()), written)
    {
      ghost var after := PutOnWire(Abs(), written);
      PendingIsInFlight();
      h := h.(wire := h.wire + Flat(OpItems(pending))[..written]);
      assert State() == after;
    }

    /** `fail_write_group`, then the operation is over. */
    method Fail()
      requires Valid() && output.current.Some? && !socketOpen
      modifies output`current, this`pending, this`h
      ensures Valid() && Abs() == FailGroup(old(Abs()))
    {
      ghost var after := FailGroup(Abs());
      var notified := output.FailWriteGroup();
      pending := NoOperation;
      h := Fire(h, notified, WriteFailed);
      assert State() == after;
    }

    /** Every entry from outside is one step of the transition system. `token` names the callback of
        submitted parts. */
    method Perform(e: Event, token: nat)
      requires Reachable() && Enabled(Abs(), e) && token == |h.log|
      modifies Repr()
      ensures Reachable() && Abs() == Step(old(Abs()), e)
    {
      StepIsReached(Abs(), e);
      match e
      case NewRequest => OnNewRequest();
      case Parts(id, flags, items, statusLine, notify) =>
        WriteResponseParts(id, flags, items, statusLine, TokenOf(notify, token));
      case OperationDone => AfterWriteSucceeded();
      case OperationFailed(written) => AfterWriteFailed(false, written);
      case OperationAborted(written) => AfterWriteFailed(true, written);
      case CloseNow => Close();
    }

    /** What callers rely on: order on the wire, and each callback in one place or invoked once. */
    lemma {:induction false} KeepsItsPromises(k: nat, t: nat)
      requires Reachable()
      ensures h.wire <= FirstResponses(h.log, Abs().coord.nextId)
      ensures |h.wire| > |FirstResponses(h.log, k + 1)| ==>
                FlagsOf(h.log, k).final && FirstResponses(h.log, k + 1) <= h.wire
      ensures FinalAndClosing(h.log, k) ==> h.wire <= FirstResponses(h.log, k + 1)
      ensures QueueHolds(Abs().coord.queue, t) + CurrentHolds(Abs().out, t) + FiredTimes(h.fired, t)
           == if t < |h.log| && h.log[t].notify then 1 else 0
    {
      var capacity, limit, run :| limit > 0 && Abs() == After(capacity, limit, run);
      ResponsesInOrder(capacity, limit, run, k);
      CallbacksConserved(capacity, limit, run, t);
    }

    /** A callback told of success was told at exactly the right byte. */
    lemma {:induction false} TellsTheTruth(i: nat)
      requires Reachable() && i < |h.fired| && h.fired[i].status.Written?
      ensures h.fired[i].at <= |h.wire| && ExactlyUpTo(h.log, h.fired[i].token, h.wire[..h.fired[i].at])
    {
      ReachedInv(Abs());
    }

    /** Nothing is on the wire but what may be sent; when nothing is in transmission, all of it is. */
    lemma {:induction false} SendsAllItMay()
      requires Reachable()
      ensures h.wire <= Sendable(h.log, Abs().coord.nextId)
      ensures socketOpen && output.current.None? ==>
                && !coordinator.closed && !HasReady(Abs().coord)
                && h.wire == Sendable(h.log, Abs().coord.nextId) == FirstResponses(h.log, h.head + 1)
    {
      OnlySendableIsSent(Abs());
      ReachedInv(Abs());
      if Idle(Abs()) {
        IdleWire(Abs());
        IdleSent(Abs());
      }
    }

    /** As many completions as there are items left bring the wire of an open connection to exactly what
        may be sent. */
    lemma {:induction false} CompletionsSendAll(events: seq<Event>)
      requires Reachable() && socketOpen && OnlyCompletions(events) && |events| >= Work(Abs())
      ensures Run(Abs(), events).out.current.None?
      ensures Run(Abs(), events).h.wire == Sendable(h.log, Abs().coord.nextId)
    {
      CompletionsDrain(Abs(), events);
      AllSendableIsSent(Abs(), events);
    }
  }
}
