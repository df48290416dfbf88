/** Handlers that answer in any order: whatever the schedule of requests, calls and completed socket
    operations, every call is taken, and the client reads what every handler appended. */
module Serving {
  import opened Bytes
  import opened ResponseContexts
  import opened Pipeline
  import opened Delivery
  import opened Guarantees
  import opened Progress
  import opened ResponseBuilder
  import opened Capstone

  function Requests(events: seq<Event>): nat
    decreases |events|
  {
    if |events| == 0 then 0
    else Requests(events[..|events| - 1]) + if events[|events| - 1].NewRequest? then 1 else 0
  }

  /** The parts submitted for request `k`, in order. */
  function PartsFor(events: seq<Event>, k: nat): seq<Event>
    decreases |events|
  {
    if |events| == 0 then []
    else
      var e := events[|events| - 1];
      PartsFor(events[..|events| - 1], k) + if e.Parts? && e.id == k then [e] else []
  }

  /** What may come next: a request, parts for a known request, or the end of an operation. */
  predicate MayCome(e: Event, requests: nat) {
    e.NewRequest? || e.OperationDone? || (e.Parts? && e.id < requests)
  }

  /** The calls made so far for request `k` are the first ones of its handler. */
  ghost predicate Follows(hd: Handler, events: seq<Event>, k: nat) {
    hd.keepAlive && PartsFor(events, k) <= hd.Built(k).sent
  }

  ghost predicate AllFollow(handlers: seq<Handler>, events: seq<Event>) {
    forall k | 0 <= k < |handlers| :: Follows(handlers[k], events, k)
  }

  /** Requests, interleaved in any way with the calls of their handlers and with finished operations. No
      handler closes the connection, and there is room for all requests. */
  ghost predicate Schedule(handlers: seq<Handler>, events: seq<Event>, capacity: nat) {
    && Requests(events) <= |handlers| && Requests(events) <= capacity && Requests(events) <= ID_LIMIT
    && AllFollow(handlers, events)
    && forall i | 0 <= i < |events| :: MayCome(events[i], Requests(events[..i]))
  }

  lemma {:induction false} ScheduleBefore(handlers: seq<Handler>, events: seq<Event>, capacity: nat)
    requires |events| > 0 && Schedule(handlers, events, capacity)
    ensures Schedule(handlers, events[..|events| - 1], capacity)
    ensures MayCome(events[|events| - 1], Requests(events[..|events| - 1]))
  {
    var before := events[..|events| - 1];
    forall k | 0 <= k < |handlers|
      ensures Follows(handlers[k], before, k)
    {
      assert Follows(handlers[k], events, k);
      assert PartsFor(before, k) <= PartsFor(events, k);
      PrefixTransitive(PartsFor(before, k), PartsFor(events, k), handlers[k].Built(k).sent);
    }
    forall i | 0 <= i < |before|
      ensures MayCome(before[i], Requests(before[..i]))
    {
      assert before[..i] == events[..i];
      assert MayCome(events[i], Requests(events[..i]));
    }
  }

  /** What all flags of a handler's calls have in common. */
  lemma {:induction false} CallFlags(hd: Handler, k: nat, i: nat)
    requires hd.keepAlive && i < |hd.Built(k).sent|
    ensures var sent := hd.Built(k).sent;
            && sent[i].Parts? && !sent[i].flags.close
            && (sent[i].flags.final ==> i == |sent| - 1)
  {
    ApplyAllInv(k, hd.header, hd.statusLine, hd.keepAlive, hd.calls);
  }

  /** The connection knows all calls made so far, and took them. */
  ghost predicate Served(s: Conn, events: seq<Event>) {
    && WellFormed(s) && Reached(s) && s.open && s.coord.nextId == Requests(events)
    && forall k: nat :: Matches(s.h.log, k, PartsFor(events, k))
  }

  /** Until its handler has made its last call, a response is not final; it never closes. */
  lemma {:induction false} FlagsSoFar(hd: Handler, log: seq<Submission>, events: seq<Event>, k: nat)
    requires Follows(hd, events, k) && Matches(log, k, PartsFor(events, k))
    ensures !FlagsOf(log, k).close
    ensures FlagsOf(log, k).final ==> PartsFor(events, k) == hd.Built(k).sent
  {
    var calls, sent := PartsFor(events, k), hd.Built(k).sent;
    forall i | 0 <= i < |calls|
      ensures calls[i].Parts?
    {
      CallFlags(hd, k, i);
    }
    if |calls| == 0 {
      NoFlags(log, k);
    } else {
      MatchesResponse(log, k, calls);
      CallFlags(hd, k, |calls| - 1);
    }
  }

  lemma {:induction false} NoFlags(log: seq<Submission>, k: nat)
    requires Matches(log, k, [])
    ensures FlagsOf(log, k) == INITIAL_FLAGS
    decreases |log|
  {
    if |log| > 0 {
      NoFlags(log[..|log| - 1], k);
    }
  }

  /** The flags alone say that the connection is not closing. */
  lemma {:induction false} NotClosing(r: Conn, handlers: seq<Handler>, events: seq<Event>)
    requires WellFormed(r) && Reached(r) && AllFollow(handlers, events) && r.coord.nextId <= |handlers|
    requires forall k: nat :: Matches(r.h.log, k, PartsFor(events, k))
    ensures !r.coord.closed
  {
    ReachedInv(r);
    if r.coord.closed {
      var k := r.h.head - 1;
      assert Follows(handlers[k], events, k);
      FlagsSoFar(handlers[k], r.h.log, events, k);
    }
  }

  lemma {:induction false} DoneStaysOpen(s: Conn)
    requires WellFormed(s) && Reached(s) && s.open
    ensures var r := Step(s, OperationDone);
            (r.open || r.coord.closed) && SameTable(s.coord, r.coord) && r.h.log == s.h.log
  {
    StepLog(s, OperationDone);
    if Enabled(s, OperationDone) {
      ReachedInv(s);
      OperationDoneInv(s);
      HandleCurrentStaysOpen(OperationWritten(s));
    }
  }

  lemma {:induction false} PartsStayOpen(s: Conn, e: Event)
    requires WellFormed(s) && Reached(s) && e.Parts? && Accepts(s, e.id)
    ensures var r := Step(s, e);
            (r.open || r.coord.closed) && SameTable(s.coord, r.coord)
  {
    ReachedInv(s);
    var k := s.coord.Resolve(e.id);
    AcceptInv(s, k, e.flags, e.items, e.statusLine, e.notify);
    var t := Accept(s, k, e.flags, e.items, e.statusLine, e.notify);
    if t.out.current.None? {
      InitWriteStaysOpen(t);
    }
  }

  /** One more submission in the log. */
  lemma {:induction false} MatchesMore(log: seq<Submission>, x: Submission, calls: seq<Event>, e: Event, k: nat)
    requires Matches(log, k, calls) && e.Parts? && x.accepted && x.flags == e.flags && x.items == e.items
    ensures Matches(log + [x], k, if x.id == k then calls + [e] else calls)
  {
    assert (log + [x])[..|log|] == log;
    assert (calls + [e])[..|calls|] == calls;
  }

  /** Before every step: the connection has served the schedule so far. */
  ghost predicate ServedWith(s: Conn, events: seq<Event>, capacity: nat) {
    Served(s, events) && s.coord.capacity == capacity
  }

  lemma NoCrossing(first: nat, count: nat)
    requires first + count <= ID_LIMIT
    ensures !Crosses(first, count)
    ensures first < ID_LIMIT ==> first % ID_LIMIT == first
  {
  }

  lemma {:induction false} AcceptsUnfinished(s: Conn, id: nat)
    requires WellFormed(s) && Heads(s) && Contexts(s) && s.open && !s.coord.closed && s.coord.nextId <= ID_LIMIT
    requires id < s.coord.nextId && !FlagsOf(s.h.log, id).final
    ensures Accepts(s, id) && s.coord.Resolve(id) == id
  {
    NoCrossing(s.coord.FirstId(), |s.coord.queue|);
    NoCrossing(id, 0);
    AcceptsUnlessFinal(s, id);
  }

  lemma {:induction false} UnfinishedIsTaken(s: Conn, e: Event)
    requires WellFormed(s) && Reached(s) && s.open && !s.coord.closed && s.coord.nextId <= ID_LIMIT
    requires e.Parts? && e.id < s.coord.nextId && !FlagsOf(s.h.log, e.id).final
    ensures Accepts(s, e.id)
    ensures Step(s, e).h.log == s.h.log + [Submission(e.id, e.flags, e.items, e.notify, true)]
  {
    ReachedInv(s);
    AcceptsUnfinished(s, e.id);
    StepLog(s, e);
  }

  /** The next call of a handler is taken. */
  lemma {:induction false} CallIsServed(s: Conn, hd: Handler, events: seq<Event>, e: Event, capacity: nat)
    requires ServedWith(s, events, capacity) && !s.coord.closed && e.Parts? && e.id < s.coord.nextId <= ID_LIMIT
    requires Follows(hd, events, e.id) && Follows(hd, events + [e], e.id)
    ensures var r := Step(s, e);
            && (r.open || r.coord.closed) && SameTable(s.coord, r.coord)
            && r.h.log == s.h.log + [Submission(e.id, e.flags, e.items, e.notify, true)]
  {
    assert (events + [e])[..|events|] == events;
    FlagsSoFar(hd, s.h.log, events, e.id);
    UnfinishedIsTaken(s, e);
    PartsStayOpen(s, e);
  }

  lemma {:induction false} MatchesAll(log: seq<Submission>, events: seq<Event>, e: Event, k: nat)
    requires Matches(log, k, PartsFor(events, k))
    ensures e.Parts? ==> Matches(log + [Submission(e.id, e.flags, e.items, e.notify, true)], k,
                                 PartsFor(events + [e], k))
    ensures !e.Parts? ==> Matches(log, k, PartsFor(events + [e], k))
  {
    assert (events + [e])[..|events|] == events;
    assert PartsFor(events, k) + [] == PartsFor(events, k);
    if e.Parts? {
      MatchesMore(log, Submission(e.id, e.flags, e.items, e.notify, true), PartsFor(events, k), e, k);
    }
  }

  /** The log after one more event of a schedule. */
  function LogAfter(log: seq<Submission>, e: Event): seq<Submission> {
    if e.Parts? then log + [Submission(e.id, e.flags, e.items, e.notify, true)] else log
  }

  lemma {:induction false} StepIsServed(s: Conn, handlers: seq<Handler>, events: seq<Event>, e: Event, capacity: nat)
    requires ServedWith(s, events, capacity) && !s.coord.closed
    requires MayCome(e, Requests(events)) && Requests(events + [e]) <= capacity
    requires Requests(events + [e]) <= |handlers| && Requests(events + [e]) <= ID_LIMIT
    requires AllFollow(handlers, events) && AllFollow(handlers, events + [e])
    ensures var r := Step(s, e);
            && (r.open || r.coord.closed) && r.coord.capacity == capacity
            && r.coord.nextId == Requests(events + [e]) && r.h.log == LogAfter(s.h.log, e)
  {
    assert (events + [e])[..|events|] == events;
    match e
    case NewRequest => RequestIsRegistered(s);
    case OperationDone => DoneStaysOpen(s);
    case Parts(id, _, _, _, _) =>
      assert Follows(handlers[id], events, id) && Follows(handlers[id], events + [e], id);
      CallIsServed(s, handlers[id], events, e, capacity);
  }

  lemma {:induction false} ServedNext(s: Conn, handlers: seq<Handler>, events: seq<Event>, e: Event, capacity: nat)
    requires ServedWith(s, events, capacity) && Schedule(handlers, events + [e], capacity)
    ensures ServedWith(Step(s, e), events + [e], capacity)
  {
    var longer := events + [e];
    assert longer[..|longer| - 1] == events && longer[|longer| - 1] == e;
    ScheduleBefore(handlers, longer, capacity);
    NotClosing(s, handlers, events);
    StepIsServed(s, handlers, events, e, capacity);
    StepIsReached(s, e);
    forall k: nat
      ensures Matches(LogAfter(s.h.log, e), k, PartsFor(longer, k))
    {
      MatchesAll(s.h.log, events, e, k);
    }
    NotClosing(Step(s, e), handlers, longer);
  }

  lemma {:induction false} ScheduleIsServed(capacity: nat, limit: nat, handlers: seq<Handler>, events: seq<Event>)
    requires limit > 0 && Schedule(handlers, events, capacity)
    ensures ServedWith(After(capacity, limit, events), events, capacity)
    decreases |events|
  {
    if |events| == 0 {
      assert After(capacity, limit, events) == Init(capacity, limit);
    } else {
      var before, e := events[..|events| - 1], events[|events| - 1];
      ScheduleBefore(handlers, events, capacity);
      ScheduleIsServed(capacity, limit, handlers, before);
      assert events == before + [e];
      ServedNext(After(capacity, limit, before), handlers, before, e, capacity);
    }
  }

  /** The handler of request `k` has made all its calls, the last one with `done`. */
  ghost predicate Finished(hd: Handler, events: seq<Event>, k: nat) {
    DoneIn(hd.calls) && PartsFor(events, k) == hd.Built(k).sent
  }

  /** Whatever the order in which handlers answer, in whatever pieces, and however their calls fall between
      the requests and the socket's completions: when all have finished and the socket has completed its
      operations, the client reads what each of them appended, in request order, and nothing else. */
  lemma {:induction false} EveryHandlerIsServed(
    capacity: nat, limit: nat, handlers: seq<Handler>, events: seq<Event>, done: seq<Event>)
    requires limit > 0 && Schedule(handlers, events, capacity) && Requests(events) == |handlers|
    requires forall k | 0 <= k < |handlers| :: Finished(handlers[k], events, k)
    requires OnlyCompletions(done) && |done| >= Work(After(capacity, limit, events))
    ensures ReadResponses(Run(After(capacity, limit, events), done).h.wire, handlers)
         == Decoded(AppendedBy(handlers), [])
  {
    var s := After(capacity, limit, events);
    ScheduleIsServed(capacity, limit, handlers, events);
    forall k | 0 <= k < |handlers|
      ensures Accepted(handlers[k], s.h.log, 0 + k) && handlers[k].keepAlive
    {
      assert Finished(handlers[k], events, k) && Follows(handlers[k], events, k);
    }
    ClientGetsEverything(s, handlers, done);
    assert handlers[..|handlers|] == handlers;
  }

  lemma OneMoreEvent(events: seq<Event>, e: Event, k: nat)
    ensures Requests(events + [e]) == Requests(events) + if e.NewRequest? then 1 else 0
    ensures PartsFor(events + [e], k) == PartsFor(events, k) + if e.Parts? && e.id == k then [e] else []
  {
    assert (events + [e])[..|events|] == events;
  }

  /** The counts for two requests answered in reverse. */
  lemma TwoInReverse(first: Event, second: Event, k: nat)
    requires first.Parts? && first.id == 0 && second.Parts? && second.id == 1
    ensures var events := [NewRequest, NewRequest, second, first];
            && Requests(events) == Requests(events[..3]) == Requests(events[..2]) == 2
            && PartsFor(events, k) == if k == 0 then [first] else if k == 1 then [second] else []
  {
    var events := [NewRequest, NewRequest, second, first];
    OneMoreEvent([], NewRequest, k);
    OneMoreEvent([NewRequest], NewRequest, k);
    OneMoreEvent([NewRequest, NewRequest], second, k);
    OneMoreEvent([NewRequest, NewRequest, second], first, k);
    assert [] + [NewRequest] == [NewRequest] && [NewRequest] + [NewRequest] == [NewRequest, NewRequest];
    assert [NewRequest, NewRequest] + [second] == [NewRequest, NewRequest, second] == events[..3];
    assert [NewRequest, NewRequest, second] + [first] == events;
    assert events[..2] == [NewRequest, NewRequest];
  }

  /** A schedule: two requests, the second one answered first. */
  lemma {:induction false} AnsweredInReverse(a: Handler, b: Handler)
    requires a.calls == b.calls == [CallDone(false)] && a.keepAlive && b.keepAlive
    ensures var events := [NewRequest, NewRequest] + b.Built(1).sent + a.Built(0).sent;
            && Schedule([a, b], events, 2) && Requests(events) == 2
            && Finished(a, events, 0) && Finished(b, events, 1)
  {
    OnlyDone(a, 0);
    OnlyDone(b, 1);
    var first, second := a.Built(0).sent[0], b.Built(1).sent[0];
    TwoInReverse(first, second, 0);
    TwoInReverse(first, second, 1);
    assert [NewRequest, NewRequest] + [second] + [first] == [NewRequest, NewRequest, second, first];
    assert b.Built(1).sent == [second] && a.Built(0).sent == [first];
  }
}
