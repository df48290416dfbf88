/** The write half makes progress: when the socket completes its operations, everything that may be sent
    is sent. What may be sent is said by the calls alone. */
module Progress {
  import opened Bytes
  import opened Buffers
  import opened ResponseContexts
  import opened Coordinator
  import opened Pipeline
  import opened Delivery
  import opened Guarantees

  // --- the reference ---

  /** The response is complete and others may follow it. */
  predicate Passed(log: seq<Submission>, k: nat) {
    FlagsOf(log, k).final && !FlagsOf(log, k).close
  }

  /** How many of the first `n` responses may be sent: all up to and including the first one, from `k` on,
      that is not final or closes the connection. */
  function Allowed(log: seq<Submission>, k: nat, n: nat): (r: nat)
    requires k <= n
    ensures k <= r <= n
    decreases n - k
  {
    if k == n then n else if Passed(log, k) then Allowed(log, k + 1, n) else k + 1
  }

  /** All that may be sent. */
  function Sendable(log: seq<Submission>, n: nat): seq<byte> {
    FirstResponses(log, Allowed(log, 0, n))
  }

  lemma {:induction false} AllowedSkips(log: seq<Submission>, k: nat, m: nat, n: nat)
    requires k <= m <= n && forall j | k <= j < m :: Passed(log, j)
    ensures Allowed(log, k, n) == Allowed(log, m, n)
    decreases m - k
  {
    if k < m {
      AllowedSkips(log, k + 1, m, n);
    }
  }

  // --- how much is left to do ---

  function GroupItems(groups: seq<Group>): nat
    decreases |groups|
  {
    if |groups| == 0 then 0 else |groups[0].items| + GroupItems(groups[1..])
  }

  function QueueItems(q: seq<Context>): nat
    decreases |q|
  {
    if |q| == 0 then 0 else GroupItems(q[0].groups) + QueueItems(q[1..])
  }

  /** The items that are queued, waiting in the current group, or in flight. */
  function Work(s: Conn): nat
    requires WellFormed(s)
  {
    QueueItems(s.coord.queue)
    + if s.out.current.None? then 0 else |s.out.current.value.items| - s.out.index + s.out.inFlight
  }

  lemma {:induction false} PopTakesItems(c: Coord)
    requires HasReady(c)
    ensures QueueItems(Pop(c).queue) + |Ready(c).items| == QueueItems(c.queue)
  {
    var ctx := c.queue[0].(groups := c.queue[0].groups[1..]);
    assert GroupItems(c.queue[0].groups) == |Ready(c).items| + GroupItems(ctx.groups);
    assert c.queue[0 := ctx][1..] == c.queue[1..];
  }

  lemma {:induction false} HandleCurrentWork(s: Conn)
    requires WellFormed(s) && s.out.current.Some? && s.out.inFlight == 0
    ensures Work(HandleCurrent(s)) <= Work(s)
    decreases QueuedGroups(s.coord.queue), 1
  {
    if s.out.index == |s.out.current.value.items| && !s.coord.closed {
      InitWriteWork(FinishGroup(s));
    }
  }

  lemma {:induction false} InitWriteWork(s: Conn)
    requires WellFormed(s) && s.out.current.None? && (HasReady(s.coord) ==> s.out.index == 0)
    ensures Work(InitWrite(s)) <= Work(s)
    decreases QueuedGroups(s.coord.queue), 0
  {
    if HasReady(s.coord) {
      PopKeepsOk(s.coord);
      PopShrinks(s.coord);
      PopTakesItems(s.coord);
      HandleCurrentWork(StartGroup(s));
    }
  }

  /** Every finished operation leaves less to do. */
  lemma {:induction false} OperationDoneWork(s: Conn)
    requires WellFormed(s) && Enabled(s, OperationDone)
    ensures Work(Step(s, OperationDone)) < Work(s)
  {
    HandleCurrentWork(OperationWritten(s));
  }

  // --- what the socket's completions lead to ---

  /** The socket finishes one operation after another, and nothing else happens. */
  predicate OnlyCompletions(events: seq<Event>) {
    forall i | 0 <= i < |events| :: events[i].OperationDone?
  }

  lemma {:induction false} StepWork(s: Conn, e: Event)
    requires WellFormed(s) && Reached(s) && e.OperationDone?
    ensures var r := Step(s, e);
            r.out.current.Some? ==> s.out.current.Some? && Work(r) < Work(s)
  {
    ReachedInv(s);
    if s.out.current.Some? {
      OperationDoneWork(s);
    }
  }

  lemma {:induction false} WorkShrinks(s: Conn, events: seq<Event>)
    requires WellFormed(s) && Reached(s) && OnlyCompletions(events)
    ensures var r := Run(s, events);
            r.out.current.Some? ==> Work(r) + |events| <= Work(s)
    decreases |events|
  {
    if |events| > 0 {
      var before := events[..|events| - 1];
      WorkShrinks(s, before);
      RunIsReached(s, before);
      StepWork(Run(s, before), events[|events| - 1]);
    }
  }

  lemma WorkInTransmission(s: Conn)
    requires WellFormed(s) && Settled(s) && s.out.current.Some?
    ensures Work(s) > 0
  {
  }

  /** From every reachable state, as many completions as there are items left to send leave nothing in
      transmission. */
  lemma {:induction false} CompletionsDrain(s: Conn, events: seq<Event>)
    requires WellFormed(s) && Reached(s) && OnlyCompletions(events) && |events| >= Work(s)
    ensures Run(s, events).out.current.None?
  {
    WorkShrinks(s, events);
    RunIsReached(s, events);
    ReachedInv(Run(s, events));
    if Run(s, events).out.current.Some? {
      WorkInTransmission(Run(s, events));
    }
  }

  // --- what has been sent then ---

  /** All callbacks of the responses given out completely have been told of success. */
  ghost predicate HeadsTold(h: History) {
    forall t: nat | t < |h.log| && h.log[t].accepted && h.log[t].notify && h.log[t].id < h.head :: Told(h, t)
  }

  /** The connection has closed itself after a closing response, which is written completely. */
  ghost predicate ClosedAfterAll(s: Conn) {
    && !s.open && s.coord.closed && s.out.current.None?
    && s.h.wire == FirstResponses(s.h.log, s.h.head) && HeadsTold(s.h)
  }

  lemma QueuedIsOutstanding(s: Conn, t: nat)
    requires Inv(s) && s.open && QueueHolds(s.coord.queue, t) > 0
    ensures t < |s.h.log| && s.h.log[t].id >= s.h.head
  {
    var j, i := QueuedSomewhere(s.coord.queue, t);
    var ctx := s.coord.queue[j];
    assert GroupsPlaced(ctx.groups, Base(s.h.taken, j), s.h.log, ctx.id);
    var bytes := Base(s.h.taken, j) + GroupsFlat(ctx.groups[..i + 1]);
    assert PlacedAt(ctx.groups[i].notificator.value, bytes, s.h.log, ctx.id);
  }

  lemma OpenIsTold(s: Conn)
    requires Inv(s) && s.open && s.out.current.None?
    ensures HeadsTold(s.h)
  {
    forall t: nat | t < |s.h.log| && s.h.log[t].accepted && s.h.log[t].notify && s.h.log[t].id < s.h.head
      ensures Told(s.h, t)
    {
      if QueueHolds(s.coord.queue, t) > 0 {
        QueuedIsOutstanding(s, t);
      }
      assert Submitted(s.h.log, t) == 1;
      var i := FiredSomewhere(s.h.fired, t);
      assert s.h.fired[i].status.Written?;
    }
  }

  lemma ClosesAfterAll(s: Conn)
    requires Inv(s) && s.open && s.out.current.None? && s.coord.closed
    ensures ClosedAfterAll(Close(s))
  {
    OpenIsTold(s);
    var tokens := QueueTokens(s.coord.queue);
    FireAllOnlyFires(s.h, tokens, NotExecuted);
    FireAllAddsErrors(s.h, tokens, NotExecuted);
    forall t: nat | t < |s.h.log| && s.h.log[t].accepted && s.h.log[t].notify && s.h.log[t].id < s.h.head
      ensures Told(Close(s).h, t)
    {
      var i :| 0 <= i < |s.h.fired| && s.h.fired[i].token == t && s.h.fired[i].status.Written?;
      assert Close(s).h.fired[i] == s.h.fired[i];
    }
    assert s.h.wire + Rest(s.out) == s.h.wire;
  }

  predicate SameTable(c: Coord, d: Coord) {
    d.nextId == c.nextId && d.capacity == c.capacity
  }

  lemma {:induction false} HandleCurrentStaysOpen(s: Conn)
    requires Inv(s) && s.open && s.out.current.Some? && s.out.inFlight == 0
    ensures var r := HandleCurrent(s); (r.open || ClosedAfterAll(r)) && SameTable(s.coord, r.coord)
    decreases QueuedGroups(s.coord.queue), 1
  {
    if s.out.index == |s.out.current.value.items| {
      FinishInv(s);
      if s.coord.closed {
        ClosesAfterAll(FinishGroup(s));
      } else {
        InitWriteStaysOpen(FinishGroup(s));
      }
    }
  }

  lemma {:induction false} InitWriteStaysOpen(s: Conn)
    requires Inv(s) && s.open && s.out.current.None? && !s.coord.closed
    ensures var r := InitWrite(s); (r.open || ClosedAfterAll(r)) && SameTable(s.coord, r.coord)
    decreases QueuedGroups(s.coord.queue), 0
  {
    if HasReady(s.coord) {
      PopKeepsOk(s.coord);
      PopShrinks(s.coord);
      StartGroupInv(s);
      HandleCurrentStaysOpen(StartGroup(s));
    }
  }

  /** Nothing was submitted or registered between `s` and `r`, and nobody else closed the connection. */
  ghost predicate Undisturbed(s: Conn, r: Conn) {
    r.h.log == s.h.log && r.coord.nextId == s.coord.nextId && (r.open || ClosedAfterAll(r))
  }

  lemma {:induction false} StepIsUndisturbed(s: Conn, r: Conn, e: Event)
    requires WellFormed(r) && Reached(r) && Undisturbed(s, r) && e.OperationDone?
    ensures Undisturbed(s, Step(r, e))
  {
    ReachedInv(r);
    StepLog(r, e);
    if Enabled(r, e) {
      OperationDoneInv(r);
      HandleCurrentStaysOpen(OperationWritten(r));
    }
  }

  lemma {:induction false} CompletionsAreUndisturbed(s: Conn, events: seq<Event>)
    requires WellFormed(s) && Reached(s) && s.open && OnlyCompletions(events)
    ensures Undisturbed(s, Run(s, events))
    decreases |events|
  {
    if |events| > 0 {
      var before := events[..|events| - 1];
      CompletionsAreUndisturbed(s, before);
      RunIsReached(s, before);
      StepIsUndisturbed(s, Run(s, before), events[|events| - 1]);
    }
  }

  lemma PassedHeads(s: Conn)
    requires Heads(s) && Closing(s)
    ensures forall k | 0 <= k < s.h.head && (s.coord.closed ==> k < s.h.head - 1) :: Passed(s.h.log, k)
  {
  }

  lemma {:induction false} AllowedIsHead(s: Conn)
    requires Heads(s) && Closing(s)
    ensures s.coord.closed ==> Allowed(s.h.log, 0, s.coord.nextId) == s.h.head
    ensures !s.coord.closed ==>
              Allowed(s.h.log, 0, s.coord.nextId) == Allowed(s.h.log, s.h.head, s.coord.nextId)
  {
    PassedHeads(s);
    if s.coord.closed {
      AllowedSkips(s.h.log, 0, s.h.head - 1, s.coord.nextId);
    } else {
      AllowedSkips(s.h.log, 0, s.h.head, s.coord.nextId);
    }
  }

  /** In every reachable state the wire carries nothing but what may be sent. */
  lemma {:induction false} OnlySendableIsSent(s: Conn)
    requires Reached(s)
    ensures s.h.wire <= Sendable(s.h.log, s.coord.nextId)
  {
    ReachedInv(s);
    AllowedIsHead(s);
    WireWithinHead(s);
    if s.h.head == s.coord.nextId {
      WireInOrder(s);
    } else if !s.coord.closed {
      WireWithin(s, Allowed(s.h.log, s.h.head, s.coord.nextId));
    }
  }

  lemma {:induction false} IdleSent(s: Conn)
    requires Inv(s) && Settled(s) && Idle(s)
    ensures s.h.wire == Sendable(s.h.log, s.coord.nextId)
    ensures Allowed(s.h.log, 0, s.coord.nextId) <= s.h.head + 1
  {
    AllowedIsHead(s);
    IdleWire(s);
    if s.h.head == s.coord.nextId {
      NothingBeyond(s.h.log, s.coord.nextId, s.h.head);
    }
  }

  /** On a connection that is open, whatever happened before, the socket's completions bring the wire to
      exactly what may be sent, and every callback of these responses is told of success. */
  lemma {:induction false} AllSendableIsSent(s: Conn, events: seq<Event>)
    requires WellFormed(s) && Reached(s) && s.open && OnlyCompletions(events) && |events| >= Work(s)
    ensures var r := Run(s, events);
            && r.h.log == s.h.log
            && r.h.wire == Sendable(s.h.log, s.coord.nextId)
            && forall t: nat | t < |s.h.log| && s.h.log[t].accepted && s.h.log[t].notify
                            && s.h.log[t].id < Allowed(s.h.log, 0, s.coord.nextId) :: Told(r.h, t)
  {
    var r := Run(s, events);
    CompletionsDrain(s, events);
    CompletionsAreUndisturbed(s, events);
    RunIsReached(s, events);
    ReachedInv(r);
    if r.open {
      IdleSent(r);
      forall t: nat | t < |r.h.log| && r.h.log[t].accepted && r.h.log[t].notify && r.h.log[t].id <= r.h.head
        ensures Told(r.h, t)
      {
        IdleIsTold(r, t);
      }
    } else {
      AllowedIsHead(r);
    }
  }
}
