/** What the write half of a connection promises over every run: response order, callback
    conservation, and no stall. */
module Delivery {
  import opened Bytes
  import opened Buffers
  import opened ResponseContexts
  import opened Coordinator
  import opened Pipeline

  // ---------------------------------------------------------------------------------------------
  // The reference: what the calls alone say about the bytes to be sent.
  // ---------------------------------------------------------------------------------------------

  predicate For(x: Submission, id: nat) {
    x.accepted && x.id == id
  }

  /** The response of request `id`: all parts accepted for it, in the order of the calls. */
  function Response(log: seq<Submission>, id: nat): seq<byte>
    decreases |log|
  {
    if |log| == 0 then []
    else
      var n := |log| - 1;
      Response(log[..n], id) + (if For(log[n], id) then Flat(log[n].items) else [])
  }

  /** The responses of the first k requests, in request order. */
  function FirstResponses(log: seq<Submission>, k: nat): seq<byte> {
    if k == 0 then [] else FirstResponses(log, k - 1) + Response(log, k - 1)
  }

  /** The flags of the last part accepted for a request. */
  function FlagsOf(log: seq<Submission>, id: nat): Flags
    decreases |log|
  {
    if |log| == 0 then INITIAL_FLAGS
    else if For(log[|log| - 1], id) then log[|log| - 1].flags
    else FlagsOf(log[..|log| - 1], id)
  }

  lemma Grow(log: seq<Submission>, x: Submission, id: nat)
    ensures Response(log + [x], id) == Response(log, id) + (if For(x, id) then Flat(x.items) else [])
    ensures FlagsOf(log + [x], id) == if For(x, id) then x.flags else FlagsOf(log, id)
  {
    assert (log + [x])[..|log|] == log;
  }

  /** Parts for later requests, and rejected parts, leave earlier responses alone. */
  lemma {:induction false} GrowLater(log: seq<Submission>, x: Submission, k: nat)
    requires !x.accepted || x.id >= k
    ensures FirstResponses(log + [x], k) == FirstResponses(log, k)
  {
    if k > 0 {
      GrowLater(log, x, k - 1);
      Grow(log, x, k - 1);
    }
  }

  lemma {:induction false} FirstResponsesGrow(log: seq<Submission>, j: nat, k: nat)
    requires j <= k
    ensures FirstResponses(log, j) <= FirstResponses(log, k)
    decreases k
  {
    if j < k {
      FirstResponsesGrow(log, j, k - 1);
    }
  }

  lemma {:induction false} NothingBeyond(log: seq<Submission>, nextId: nat, id: nat)
    requires id >= nextId && forall i | 0 <= i < |log| && log[i].accepted :: log[i].id < nextId
    ensures Response(log, id) == [] && FlagsOf(log, id) == INITIAL_FLAGS
    decreases |log|
  {
    if |log| > 0 {
      NothingBeyond(log[..|log| - 1], nextId, id);
    }
  }

  // ---------------------------------------------------------------------------------------------
  // The invariant, one aspect at a time.
  // ---------------------------------------------------------------------------------------------

  /** What is still to be written of the group in transmission. */
  function Rest(out: Out): seq<byte>
    requires out.current.Some? ==> out.inFlight <= out.index <= |out.current.value.items|
  {
    if out.current.None? then [] else Flat(out.current.value.items[out.index - out.inFlight..])
  }

  /** Accepted parts are for known requests; the first `head` responses are final; while the socket
      is open the outstanding responses are the ones after them. */
  ghost predicate Heads(s: Conn) {
    && (forall i | 0 <= i < |s.h.log| && s.h.log[i].accepted :: s.h.log[i].id < s.coord.nextId)
    && s.h.head <= s.coord.nextId
    && (s.open ==> s.h.head == s.coord.FirstId())
    && (forall k | 0 <= k < s.h.head :: FlagsOf(s.h.log, k).final)
  }

  /** A context knows its flags, and a final one still has something to give out. */
  ghost predicate Contexts(s: Conn) {
    forall j | 0 <= j < |s.coord.queue| ::
      var ctx := s.coord.queue[j];
      if s.open then
        ctx.flags == FlagsOf(s.h.log, ctx.id) && (ctx.flags.final ==> ctx.groups != [])
      else
        ctx.groups == []
  }

  /** The bytes of the j-th outstanding response that were given out already. */
  function Base(taken: seq<byte>, j: nat): seq<byte> {
    if j == 0 then taken else []
  }

  /** The bytes given out before and the queued ones are the response so far. */
  ghost predicate Filled(ctx: Context, base: seq<byte>, log: seq<Submission>) {
    base + GroupsFlat(ctx.groups) == Response(log, ctx.id)
  }

  /** Every byte accepted is where it has to be. */
  ghost predicate Content(s: Conn)
    requires WellFormed(s)
  {
    && s.h.taken <= Response(s.h.log, s.h.head)
    && (s.open ==>
          && s.h.wire + Rest(s.out) == FirstResponses(s.h.log, s.h.head) + s.h.taken
          && forall j | 0 <= j < |s.coord.queue| :: Filled(s.coord.queue[j], Base(s.h.taken, j), s.h.log))
    && (!s.open ==> s.h.wire + Rest(s.out) <= FirstResponses(s.h.log, s.h.head) + s.h.taken)
  }

  /** The coordinator is closed exactly when the last response given out asked for it. */
  ghost predicate Closing(s: Conn) {
    && (s.coord.closed ==> s.h.head > 0 && FlagsOf(s.h.log, s.h.head - 1).close && s.h.taken == [])
    && (forall k | 0 <= k < s.h.head && FlagsOf(s.h.log, k).close :: s.coord.closed && k == s.h.head - 1)
  }

  function QueueHolds(q: seq<Context>, t: nat): nat
    decreases |q|
  {
    if |q| == 0 then 0 else HeldBy(q[0].groups, t) + QueueHolds(q[1..], t)
  }

  function CurrentHolds(out: Out, t: nat): nat {
    if out.current.Some? then Holds(out.current.value.notificator, t) else 0
  }

  function FiredTimes(fired: seq<Firing>, t: nat): nat
    decreases |fired|
  {
    if |fired| == 0 then 0
    else FiredTimes(fired[..|fired| - 1], t) + (if fired[|fired| - 1].token == t then 1 else 0)
  }

  function Submitted(log: seq<Submission>, t: nat): nat {
    if t < |log| && log[t].notify then 1 else 0
  }

  /** Every submitted callback is in exactly one place, once: queued, in transmission, or invoked. */
  ghost predicate Conserved(s: Conn) {
    forall t: nat ::
      QueueHolds(s.coord.queue, t) + CurrentHolds(s.out, t) + FiredTimes(s.h.fired, t)
      == Submitted(s.h.log, t)
  }

  /** `bytes` is all that was to be sent up to and including the parts of call `t`, nothing more. */
  ghost predicate ExactlyUpTo(log: seq<Submission>, t: nat, bytes: seq<byte>) {
    && t < |log| && log[t].accepted
    && bytes == FirstResponses(log, log[t].id) + Response(log[..t + 1], log[t].id)
  }

  /** The callbacks of queued groups sit right behind the bytes they belong to. */
  ghost predicate GroupsPlaced(groups: seq<Group>, base: seq<byte>, log: seq<Submission>, id: nat) {
    forall i | 0 <= i < |groups| && groups[i].notificator.Some? ::
      PlacedAt(groups[i].notificator.value, base + GroupsFlat(groups[..i + 1]), log, id)
  }

  ghost predicate PlacedAt(t: nat, bytes: seq<byte>, log: seq<Submission>, id: nat) {
    t < |log| && For(log[t], id) && bytes == Response(log[..t + 1], id)
  }

  ghost predicate QueuePlaced(s: Conn) {
    s.open ==> forall j | 0 <= j < |s.coord.queue| ::
      GroupsPlaced(s.coord.queue[j].groups, Base(s.h.taken, j), s.h.log, s.coord.queue[j].id)
  }

  ghost predicate CurrentPlaced(s: Conn)
    requires WellFormed(s)
  {
    s.out.current.Some? && s.out.current.value.notificator.Some? ==>
      var t := s.out.current.value.notificator.value;
      ExactlyUpTo(s.h.log, t, s.h.wire + Rest(s.out)) && s.h.log[t].id <= s.h.head
  }

  /** A callback invoked with success was invoked when exactly its bytes had been written. */
  ghost predicate FiredPlaced(s: Conn) {
    forall i | 0 <= i < |s.h.fired| && s.h.fired[i].status.Written? ::
      var f := s.h.fired[i];
      && f.at <= |s.h.wire|
      && ExactlyUpTo(s.h.log, f.token, s.h.wire[..f.at]) && s.h.log[f.token].id <= s.h.head
  }

  /** While the socket is open, errors are reported for rejected parts only. */
  ghost predicate Truthful(s: Conn) {
    s.open ==> forall i | 0 <= i < |s.h.fired| && !s.h.fired[i].status.Written? ::
      s.h.fired[i].token < |s.h.log| && !s.h.log[s.h.fired[i].token].accepted
  }

  ghost predicate Inv(s: Conn) {
    && WellFormed(s)
    && Heads(s) && Contexts(s) && Content(s) && Closing(s)
    && Conserved(s) && Truthful(s)
    && QueuePlaced(s) && CurrentPlaced(s) && FiredPlaced(s)
  }

  // ---------------------------------------------------------------------------------------------
  // Each primitive step keeps the invariant.
  // ---------------------------------------------------------------------------------------------

  lemma InitInv(capacity: nat, limit: nat)
    requires limit > 0
    ensures Inv(Init(capacity, limit))
  {
  }

  lemma RegisterHeads(s: Conn)
    requires WellFormed(s) && Heads(s) && Contexts(s) && |s.coord.queue| < s.coord.capacity
    ensures var r := s.(coord := Register(s.coord));
            WellFormed(r) && Heads(r) && Contexts(r)
  {
    NothingBeyond(s.h.log, s.coord.nextId, s.coord.nextId);
  }

  lemma RegisterContent(s: Conn)
    requires WellFormed(s) && Heads(s) && Content(s) && |s.coord.queue| < s.coord.capacity
    requires WellFormed(s.(coord := Register(s.coord)))
    ensures Content(s.(coord := Register(s.coord)))
  {
    var r, id := s.(coord := Register(s.coord)), s.coord.nextId;
    NothingBeyond(s.h.log, id, id);
    forall j | 0 <= j < |r.coord.queue| && s.open
      ensures Filled(r.coord.queue[j], Base(r.h.taken, j), s.h.log)
    {
      if j < |s.coord.queue| {
        assert Filled(s.coord.queue[j], Base(s.h.taken, j), s.h.log);
      } else {
        assert Base(r.h.taken, j) <= [];
      }
    }
  }

  lemma RegisterInv(s: Conn)
    requires Inv(s) && |s.coord.queue| < s.coord.capacity
    ensures Inv(s.(coord := Register(s.coord)))
  {
    var r := s.(coord := Register(s.coord));
    RegisterHeads(s);
    RegisterContent(s);
    forall t: nat
      ensures QueueHolds(r.coord.queue, t) == QueueHolds(s.coord.queue, t)
    {
      QueueHoldsSnoc(s.coord.queue, Context(s.coord.nextId, [], INITIAL_FLAGS), t);
    }
    RegisterPlaced(s);
  }

  lemma RegisterPlaced(s: Conn)
    requires QueuePlaced(s)
    ensures QueuePlaced(s.(coord := Register(s.coord)))
  {
    var r := s.(coord := Register(s.coord));
    forall j | 0 <= j < |r.coord.queue| && s.open
      ensures GroupsPlaced(r.coord.queue[j].groups, Base(s.h.taken, j), s.h.log, r.coord.queue[j].id)
    {
      if j < |s.coord.queue| {
        assert GroupsPlaced(s.coord.queue[j].groups, Base(s.h.taken, j), s.h.log, s.coord.queue[j].id);
      }
    }
  }

  lemma {:induction false} QueueHoldsSnoc(q: seq<Context>, ctx: Context, t: nat)
    ensures QueueHolds(q + [ctx], t) == QueueHolds(q, t) + HeldBy(ctx.groups, t)
    decreases |q|
  {
    if |q| == 0 {
      assert (q + [ctx])[1..] == [];
    } else {
      QueueHoldsSnoc(q[1..], ctx, t);
      assert (q + [ctx])[1..] == q[1..] + [ctx];
    }
  }

  lemma ExactlyUpToGrow(log: seq<Submission>, x: Submission, t: nat, bytes: seq<byte>)
    requires ExactlyUpTo(log, t, bytes) && (!x.accepted || x.id >= log[t].id)
    ensures ExactlyUpTo(log + [x], t, bytes)
  {
    GrowLater(log, x, log[t].id);
    assert (log + [x])[..t + 1] == log[..t + 1];
  }

  lemma {:induction false} GroupsPlacedGrow(groups: seq<Group>, base: seq<byte>, log: seq<Submission>,
      x: Submission, id: nat)
    requires GroupsPlaced(groups, base, log, id)
    ensures GroupsPlaced(groups, base, log + [x], id)
  {
    forall i | 0 <= i < |groups| && groups[i].notificator.Some?
      ensures PlacedAt(groups[i].notificator.value, base + GroupsFlat(groups[..i + 1]), log + [x], id)
    {
      PlacedAtGrow(groups[i].notificator.value, base + GroupsFlat(groups[..i + 1]), log, x, id);
    }
  }

  lemma {:induction false} PlacedAtGrow(t: nat, bytes: seq<byte>, log: seq<Submission>, x: Submission, id: nat)
    requires PlacedAt(t, bytes, log, id)
    ensures PlacedAt(t, bytes, log + [x], id)
  {
    assert (log + [x])[..t + 1] == log[..t + 1];
  }

  /** A new call for an outstanding request, or a rejected one, leaves the callbacks of the past alone. */
  lemma PlacedGrow(s: Conn, x: Submission)
    requires WellFormed(s) && CurrentPlaced(s) && FiredPlaced(s) && (!x.accepted || x.id >= s.h.head)
    ensures CurrentPlaced(Record(s, x)) && FiredPlaced(Record(s, x))
  {
    var r := Record(s, x);
    if s.out.current.Some? && s.out.current.value.notificator.Some? {
      ExactlyUpToGrow(s.h.log, x, s.out.current.value.notificator.value, s.h.wire + Rest(s.out));
    }
    forall i | 0 <= i < |s.h.fired| && s.h.fired[i].status.Written?
      ensures ExactlyUpTo(r.h.log, s.h.fired[i].token, s.h.wire[..s.h.fired[i].at])
      ensures r.h.log[s.h.fired[i].token].id <= s.h.head
    {
      ExactlyUpToGrow(s.h.log, x, s.h.fired[i].token, s.h.wire[..s.h.fired[i].at]);
    }
  }

  lemma RejectedKeepsHeads(s: Conn, x: Submission)
    requires Heads(s) && Contexts(s) && Closing(s) && !x.accepted
    ensures Heads(Record(s, x)) && Contexts(Record(s, x)) && Closing(Record(s, x))
  {
    forall id: nat
      ensures FlagsOf(s.h.log + [x], id) == FlagsOf(s.h.log, id)
    {
      Grow(s.h.log, x, id);
    }
  }

  lemma RejectedKeepsContent(s: Conn, x: Submission)
    requires WellFormed(s) && Content(s) && !x.accepted
    ensures Content(Record(s, x))
  {
    Grow(s.h.log, x, s.h.head);
    GrowLater(s.h.log, x, s.h.head);
    forall j | 0 <= j < |s.coord.queue| && s.open
      ensures Filled(s.coord.queue[j], Base(s.h.taken, j), s.h.log + [x])
    {
      assert Filled(s.coord.queue[j], Base(s.h.taken, j), s.h.log);
      Grow(s.h.log, x, s.coord.queue[j].id);
    }
  }

  /** Everything but the callback of the rejected call itself. */
  lemma RecordRejected(s: Conn, x: Submission)
    requires Inv(s) && !x.accepted
    ensures var r := Record(s, x);
            && WellFormed(r) && Heads(r) && Contexts(r) && Content(r) && Closing(r)
            && QueuePlaced(r) && CurrentPlaced(r) && FiredPlaced(r)
  {
    RejectedKeepsHeads(s, x);
    RejectedKeepsContent(s, x);
    PlacedGrow(s, x);
    RejectedKeepsQueuePlaced(s, x);
  }

  lemma RejectedKeepsQueuePlaced(s: Conn, x: Submission)
    requires QueuePlaced(s)
    ensures QueuePlaced(Record(s, x))
  {
    forall j | 0 <= j < |s.coord.queue| && s.open
      ensures GroupsPlaced(s.coord.queue[j].groups, Base(s.h.taken, j), s.h.log + [x], s.coord.queue[j].id)
    {
      GroupsPlacedGrow(s.coord.queue[j].groups, Base(s.h.taken, j), s.h.log, x, s.coord.queue[j].id);
    }
  }

  lemma FiredTimesSnoc(fired: seq<Firing>, f: Firing, t: nat)
    ensures FiredTimes(fired + [f], t) == FiredTimes(fired, t) + (if f.token == t then 1 else 0)
  {
    assert (fired + [f])[..|fired|] == fired;
  }

  /** A rejected call: its callback is invoked with an error at once. */
  lemma {:induction false} RejectInv(s: Conn, x: Submission, status: Status)
    requires Inv(s) && !x.accepted && !status.Written?
    ensures Inv(Reject(s, x, status))
  {
    RecordRejected(s, x);
    RejectConserves(s, x, status);
    SameButFired(Record(s, x), Reject(s, x, status));
    RejectFired(s, x, status);
  }

  /** Most of the invariant does not look at the callbacks invoked. */
  lemma {:induction false} SameButFired(r: Conn, f: Conn)
    requires f == r.(h := r.h.(fired := f.h.fired))
    requires WellFormed(r) && Heads(r) && Contexts(r) && Content(r) && Closing(r) && QueuePlaced(r) && CurrentPlaced(r)
    ensures WellFormed(f) && Heads(f) && Contexts(f) && Content(f) && Closing(f) && QueuePlaced(f) && CurrentPlaced(f)
  {
  }

  lemma {:induction false} RejectFired(s: Conn, x: Submission, status: Status)
    requires FiredPlaced(Record(s, x)) && Truthful(s) && !x.accepted && !status.Written?
    ensures FiredPlaced(Reject(s, x, status)) && Truthful(Reject(s, x, status))
  {
  }

  lemma {:induction false} RejectConserves(s: Conn, x: Submission, status: Status)
    requires Conserved(s)
    ensures Conserved(Reject(s, x, status))
  {
    var f := Reject(s, x, status);
    forall t: nat
      ensures QueueHolds(f.coord.queue, t) + CurrentHolds(f.out, t) + FiredTimes(f.h.fired, t)
           == Submitted(f.h.log, t)
    {
      FiredTimesSnoc(s.h.fired, Firing(|s.h.log|, status, |s.h.wire|), t);
      assert Submitted(f.h.log, t) == Submitted(s.h.log, t) + (if x.notify && t == |s.h.log| then 1 else 0);
    }
  }

  // --- close ---

  function CountTokens(tokens: seq<nat>, t: nat): nat
    decreases |tokens|
  {
    if |tokens| == 0 then 0 else (if tokens[0] == t then 1 else 0) + CountTokens(tokens[1..], t)
  }

  lemma {:induction false} CountTokensConcat(a: seq<nat>, b: seq<nat>, t: nat)
    ensures CountTokens(a + b, t) == CountTokens(a, t) + CountTokens(b, t)
    decreases |a|
  {
    if |a| == 0 {
      assert a + b == b;
    } else {
      CountTokensConcat(a[1..], b, t);
      assert (a + b)[1..] == a[1..] + b;
    }
  }

  lemma {:induction false} GroupTokensCount(groups: seq<Group>, t: nat)
    ensures CountTokens(GroupTokens(groups), t) == HeldBy(groups, t)
    decreases |groups|
  {
    if |groups| > 0 {
      var first := if groups[0].notificator.Some? then [groups[0].notificator.value] else [];
      GroupTokensCount(groups[1..], t);
      CountTokensConcat(first, GroupTokens(groups[1..]), t);
      assert CountTokens(first, t) == Holds(groups[0].notificator, t);
    }
  }

  lemma {:induction false} QueueTokensCount(q: seq<Context>, t: nat)
    ensures CountTokens(QueueTokens(q), t) == QueueHolds(q, t)
    decreases |q|
  {
    if |q| > 0 {
      QueueTokensCount(q[1..], t);
      GroupTokensCount(q[0].groups, t);
      CountTokensConcat(GroupTokens(q[0].groups), QueueTokens(q[1..]), t);
    }
  }

  lemma {:induction false} FireAllCount(h: History, tokens: seq<nat>, status: Status, t: nat)
    ensures FiredTimes(FireAll(h, tokens, status).fired, t) == FiredTimes(h.fired, t) + CountTokens(tokens, t)
    decreases |tokens|
  {
    if |tokens| > 0 {
      var f := Fire(h, Some(tokens[0]), status);
      FireAllCount(f, tokens[1..], status, t);
      FiredTimesSnoc(h.fired, Firing(tokens[0], status, |h.wire|), t);
    }
  }

  /** Invoking callbacks with an error adds no success. */
  lemma {:induction false} FireAllAddsErrors(h: History, tokens: seq<nat>, status: Status)
    ensures h.fired <= FireAll(h, tokens, status).fired
    ensures forall i | |h.fired| <= i < |FireAll(h, tokens, status).fired| ::
              FireAll(h, tokens, status).fired[i].status == status
    decreases |tokens|
  {
    if |tokens| > 0 {
      FireAllAddsErrors(Fire(h, Some(tokens[0]), status), tokens[1..], status);
    }
  }

  lemma CloseInv(s: Conn)
    requires Inv(s)
    ensures Inv(Close(s))
  {
    var r := Close(s);
    var tokens := QueueTokens(s.coord.queue);
    FireAllOnlyFires(s.h, tokens, NotExecuted);
    FireAllAddsErrors(s.h, tokens, NotExecuted);
    forall t: nat
      ensures QueueHolds(r.coord.queue, t) + CurrentHolds(r.out, t) + FiredTimes(r.h.fired, t)
           == Submitted(r.h.log, t)
    {
      FireAllCount(s.h, tokens, NotExecuted, t);
      QueueTokensCount(s.coord.queue, t);
    }
  }

  // --- the group in transmission ---

  ghost predicate GroupWritten(s: Conn) {
    && WellFormed(s) && s.out.current.Some? && s.out.inFlight == 0
    && s.out.index == |s.out.current.value.items|
  }

  lemma FinishPlaced(s: Conn)
    requires GroupWritten(s) && CurrentPlaced(s) && FiredPlaced(s)
    ensures FiredPlaced(FinishGroup(s))
  {
    assert Rest(s.out) == [];
    assert s.h.wire + [] == s.h.wire;
    assert s.h.wire[..|s.h.wire|] == s.h.wire;
  }

  lemma FinishConserves(s: Conn)
    requires GroupWritten(s) && Conserved(s)
    ensures Conserved(FinishGroup(s))
  {
    var r := FinishGroup(s);
    forall t: nat
      ensures QueueHolds(r.coord.queue, t) + CurrentHolds(r.out, t) + FiredTimes(r.h.fired, t)
           == Submitted(r.h.log, t)
    {
      FireCount(s.h, s.out.current.value.notificator, Written, t);
    }
  }

  lemma FinishContent(s: Conn)
    requires GroupWritten(s) && Content(s)
    ensures WellFormed(FinishGroup(s)) && Content(FinishGroup(s))
  {
    assert Rest(s.out) == [] && Rest(FinishGroup(s).out) == [];
    forall j | 0 <= j < |s.coord.queue| && s.open
      ensures Filled(s.coord.queue[j], Base(s.h.taken, j), s.h.log)
    {
      assert Filled(s.coord.queue[j], Base(s.h.taken, j), s.h.log);
    }
  }

  /** Steps that touch only the group in transmission, the wire and the callbacks. */
  lemma QueueUntouched(s: Conn, r: Conn)
    requires r.coord == s.coord && r.open == s.open
    requires r.h.log == s.h.log && r.h.head == s.h.head && r.h.taken == s.h.taken
    requires Heads(s) && Contexts(s) && Closing(s) && QueuePlaced(s)
    ensures Heads(r) && Contexts(r) && Closing(r) && QueuePlaced(r)
  {
  }

  lemma FireKeepsTruthful(s: Conn, r: Conn, notificator: Option<nat>)
    requires Truthful(s) && r.h == Fire(s.h, notificator, Written) && r.open == s.open
    ensures Truthful(r)
  {
  }

  lemma FinishInv(s: Conn)
    requires Inv(s) && GroupWritten(s)
    ensures Inv(FinishGroup(s))
  {
    QueueUntouched(s, FinishGroup(s));
    FinishContent(s);
    FinishPlaced(s);
    FinishConserves(s);
    FireKeepsTruthful(s, FinishGroup(s), s.out.current.value.notificator);
  }

  lemma {:induction false} StartOperationInv(s: Conn)
    requires Inv(s) && s.out.current.Some? && s.out.inFlight == 0
    ensures Inv(StartOperation(s))
  {
    assert Rest(StartOperation(s).out) == Rest(s.out);
    SameButPosition(s, StartOperation(s));
  }

  /** The invariant looks at the items still to be written, not at where the next operation starts. */
  lemma {:induction false} SameButPosition(s: Conn, r: Conn)
    requires Inv(s) && WellFormed(r) && r == s.(out := r.out) && r.out.current == s.out.current
    requires Rest(r.out) == Rest(s.out)
    ensures Inv(r)
  {
    QueueUntouched(s, r);
  }

  /** Some bytes of the operation in flight reach the wire. */
  lemma RestSplits(s: Conn)
    requires WellFormed(s) && s.out.current.Some?
    ensures Rest(s.out) == Flat(InFlight(s.out)) + Rest(s.out.(inFlight := 0))
  {
    var items, from, to := s.out.current.value.items, s.out.index - s.out.inFlight, s.out.index;
    FlatConcat(items[from..to], items[to..]);
    assert items[from..to] + items[to..] == items[from..];
  }

  lemma FiredPlacedOnLongerWire(s: Conn, r: Conn)
    requires FiredPlaced(s) && r.h == s.h.(wire := r.h.wire) && s.h.wire <= r.h.wire
    ensures FiredPlaced(r)
  {
    forall i | 0 <= i < |s.h.fired| && s.h.fired[i].status.Written?
      ensures r.h.wire[..s.h.fired[i].at] == s.h.wire[..s.h.fired[i].at]
    {
    }
  }

  lemma OperationDoneInv(s: Conn)
    requires Inv(s) && s.out.current.Some?
    ensures Inv(OperationWritten(s))
  {
    var sent := Flat(InFlight(s.out));
    var r := OperationWritten(s);
    RestSplits(s);
    assert sent[..|sent|] == sent;
    assert s.h.wire + (sent + Rest(r.out)) == (s.h.wire + sent) + Rest(r.out);
    FiredPlacedOnLongerWire(s, r);
  }

  /** The end of transmission on a closed socket: the current group is given up, what it put on the
      wire stays within what was to be sent, and only errors are reported. */
  lemma GiveUpInv(s: Conn, r: Conn)
    requires Inv(s) && WellFormed(r) && !r.open && r.out.current.None?
    requires r.coord.nextId == s.coord.nextId && r.coord.closed == s.coord.closed
    requires forall j | 0 <= j < |r.coord.queue| :: r.coord.queue[j].groups == []
    requires r.h == s.h.(wire := r.h.wire, fired := r.h.fired)
    requires s.h.wire <= r.h.wire <= s.h.wire + Rest(s.out)
    requires s.h.fired <= r.h.fired
    requires forall i | |s.h.fired| <= i < |r.h.fired| :: !r.h.fired[i].status.Written?
    requires Conserved(r)
    ensures Inv(r)
  {
    assert r.h.wire + Rest(r.out) == r.h.wire;
    var p := s.(h := s.h.(wire := r.h.wire));
    FiredPlacedOnLongerWire(s, p);
    assert FiredPlaced(r) by {
      forall i | 0 <= i < |r.h.fired| && r.h.fired[i].status.Written?
        ensures i < |s.h.fired| && r.h.fired[i] == p.h.fired[i]
      {
      }
    }
  }

  lemma FireCount(h: History, notificator: Option<nat>, status: Status, t: nat)
    ensures FiredTimes(Fire(h, notificator, status).fired, t) == FiredTimes(h.fired, t) + Holds(notificator, t)
  {
    if notificator.Some? {
      FiredTimesSnoc(h.fired, Firing(notificator.value, status, |h.wire|), t);
    }
  }

  lemma PutOnWireWithinRest(s: Conn, written: nat)
    requires WellFormed(s) && s.out.current.Some? && written <= |Flat(InFlight(s.out))|
    ensures s.h.wire <= PutOnWire(s, written).h.wire <= s.h.wire + Rest(s.out)
  {
    RestSplits(s);
  }

  lemma AbortedInv(s: Conn, written: nat)
    requires Inv(s) && s.out.current.Some? && written <= |Flat(InFlight(s.out))| && !s.open
    ensures Inv(FailGroup(PutOnWire(s, written)))
  {
    var p := PutOnWire(s, written);
    var r := FailGroup(p);
    PutOnWireWithinRest(s, written);
    forall t: nat
      ensures QueueHolds(r.coord.queue, t) + CurrentHolds(r.out, t) + FiredTimes(r.h.fired, t)
           == Submitted(r.h.log, t)
    {
      FireCount(p.h, s.out.current.value.notificator, WriteFailed, t);
    }
    GiveUpInv(s, r);
  }

  lemma FailedInv(s: Conn, written: nat)
    requires Inv(s) && s.out.current.Some? && written <= |Flat(InFlight(s.out))|
    ensures Inv(FailGroup(Close(PutOnWire(s, written))))
  {
    var p := PutOnWire(s, written);
    var c := Close(p);
    var r := FailGroup(c);
    var tokens := QueueTokens(s.coord.queue);
    PutOnWireWithinRest(s, written);
    FireAllOnlyFires(p.h, tokens, NotExecuted);
    FireAllAddsErrors(p.h, tokens, NotExecuted);
    forall t: nat
      ensures QueueHolds(r.coord.queue, t) + CurrentHolds(r.out, t) + FiredTimes(r.h.fired, t)
           == Submitted(r.h.log, t)
    {
      FireAllCount(p.h, tokens, NotExecuted, t);
      QueueTokensCount(s.coord.queue, t);
      FireCount(c.h, s.out.current.value.notificator, WriteFailed, t);
    }
    GiveUpInv(s, r);
  }

  // --- the next group of the oldest response ---

  lemma DequeueSplits(groups: seq<Group>, t: nat)
    requires groups != []
    ensures GroupsFlat(groups) == Flat(groups[0].items) + GroupsFlat(groups[1..])
    ensures HeldBy(groups, t) == Holds(groups[0].notificator, t) + HeldBy(groups[1..], t)
  {
  }

  /** Giving out the first group moves its bytes from the queue to the base. */
  lemma DequeuePlaced(groups: seq<Group>, base: seq<byte>, log: seq<Submission>, id: nat)
    requires groups != [] && GroupsPlaced(groups, base, log, id)
    ensures GroupsPlaced(groups[1..], base + Flat(groups[0].items), log, id)
  {
    var tail := groups[1..];
    forall i | 0 <= i < |tail| && tail[i].notificator.Some?
      ensures (base + Flat(groups[0].items)) + GroupsFlat(tail[..i + 1]) == base + GroupsFlat(groups[..i + 2])
    {
      assert groups[..i + 2][1..] == tail[..i + 1];
    }
  }

  lemma StartGroupConserves(s: Conn)
    requires WellFormed(s) && Conserved(s) && HasReady(s.coord) && s.out.current.None?
    ensures Conserved(StartGroup(s))
  {
    var r := StartGroup(s);
    forall t: nat
      ensures QueueHolds(r.coord.queue, t) + CurrentHolds(r.out, t) == QueueHolds(s.coord.queue, t)
    {
      DequeueSplits(s.coord.queue[0].groups, t);
      assert |r.coord.queue| == |s.coord.queue| ==> r.coord.queue[1..] == s.coord.queue[1..];
    }
  }

  lemma StartGroupHeads(s: Conn)
    requires WellFormed(s) && Heads(s) && Contexts(s) && Closing(s)
    requires HasReady(s.coord) && s.out.current.None? && !s.coord.closed
    ensures var r := StartGroup(s);
            WellFormed(r) && Heads(r) && Contexts(r) && Closing(r)
  {
    var r := StartGroup(s);
    PopKeepsOk(s.coord);
    assert s.coord.queue[0].id == s.h.head;
    if |r.coord.queue| < |s.coord.queue| {
      assert forall j | 0 <= j < |r.coord.queue| :: r.coord.queue[j] == s.coord.queue[j + 1];
    }
  }

  /** The bytes of the group just given out come right after those written so far. */
  lemma StartGroupRest(s: Conn)
    requires WellFormed(s) && Heads(s) && Content(s) && HasReady(s.coord) && s.out.current.None?
    ensures WellFormed(StartGroup(s)) && Rest(StartGroup(s).out) == Flat(Ready(s.coord).items)
    ensures s.h.wire + Rest(StartGroup(s).out)
         == FirstResponses(s.h.log, s.h.head) + (s.h.taken + Flat(Ready(s.coord).items))
    ensures (s.h.taken + Flat(Ready(s.coord).items)) + GroupsFlat(s.coord.queue[0].groups[1..])
         == Response(s.h.log, s.h.head)
  {
    PopKeepsOk(s.coord);
    var g, ctx := Ready(s.coord), s.coord.queue[0];
    assert g.items[0..] == g.items;
    assert s.h.wire + [] == s.h.wire;
    assert s.h.wire == FirstResponses(s.h.log, s.h.head) + s.h.taken;
    Associative(FirstResponses(s.h.log, s.h.head), s.h.taken, Flat(g.items));
    assert ctx.id == s.h.head;
    assert Filled(ctx, Base(s.h.taken, 0), s.h.log);
    DequeueSplits(ctx.groups, 0);
    Associative(s.h.taken, Flat(g.items), GroupsFlat(ctx.groups[1..]));
  }

  lemma StartGroupQueueContent(s: Conn, j: nat)
    requires WellFormed(s) && Heads(s) && Content(s) && HasReady(s.coord) && s.out.current.None?
    requires j < |StartGroup(s).coord.queue|
    ensures var r := StartGroup(s);
            Filled(r.coord.queue[j], Base(r.h.taken, j), s.h.log)
  {
    var r := StartGroup(s);
    if |r.coord.queue| < |s.coord.queue| {
      assert Filled(s.coord.queue[j + 1], Base(s.h.taken, j + 1), s.h.log);
    } else if j > 0 {
      assert Filled(s.coord.queue[j], Base(s.h.taken, j), s.h.log);
    } else {
      StartGroupRest(s);
      assert s.coord.queue[0].id == s.h.head;
    }
  }

  lemma StartGroupContent(s: Conn)
    requires WellFormed(s) && Heads(s) && Content(s) && HasReady(s.coord) && s.out.current.None?
    ensures WellFormed(StartGroup(s)) && Content(StartGroup(s))
  {
    var r := StartGroup(s);
    StartGroupRest(s);
    if |r.coord.queue| < |s.coord.queue| {
      assert s.coord.queue[0].groups[1..] == [];
      assert FirstResponses(s.h.log, r.h.head) == FirstResponses(s.h.log, s.h.head) + Response(s.h.log, s.h.head);
    }
    forall j | 0 <= j < |r.coord.queue|
      ensures Filled(r.coord.queue[j], Base(r.h.taken, j), s.h.log)
    {
      StartGroupQueueContent(s, j);
    }
  }

  lemma StartGroupPlaced(s: Conn)
    requires WellFormed(s) && Heads(s) && Content(s) && HasReady(s.coord) && s.out.current.None?
    requires QueuePlaced(s) && FiredPlaced(s)
    ensures var r := StartGroup(s);
            WellFormed(r) && QueuePlaced(r) && CurrentPlaced(r) && FiredPlaced(r)
  {
    var r := StartGroup(s);
    StartGroupRest(s);
    var groups, g := s.coord.queue[0].groups, Ready(s.coord);
    assert GroupsPlaced(groups, Base(s.h.taken, 0), s.h.log, s.coord.queue[0].id);
    DequeuePlaced(groups, s.h.taken, s.h.log, s.h.head);
    forall j | 0 <= j < |r.coord.queue|
      ensures GroupsPlaced(r.coord.queue[j].groups, Base(r.h.taken, j), s.h.log, r.coord.queue[j].id)
    {
      if |r.coord.queue| < |s.coord.queue| {
        assert r.coord.queue[j] == s.coord.queue[j + 1] && Base(r.h.taken, j) == Base(s.h.taken, j + 1);
      } else if j > 0 {
        assert r.coord.queue[j] == s.coord.queue[j] && Base(r.h.taken, j) == Base(s.h.taken, j);
      }
    }
    if g.notificator.Some? {
      assert groups[..1][1..] == [];
      assert GroupsFlat(groups[..1]) == Flat(g.items);
    }
  }

  lemma StartGroupInv(s: Conn)
    requires Inv(s) && HasReady(s.coord) && s.out.current.None? && !s.coord.closed
    ensures Inv(StartGroup(s))
  {
    StartGroupHeads(s);
    StartGroupContent(s);
    StartGroupPlaced(s);
    StartGroupConserves(s);
  }

  // --- accepted parts ---

  /** The new group's callback comes right after all bytes accepted for the response so far. */
  lemma EnqueuePlaced(groups: seq<Group>, g: Group, base: seq<byte>, log: seq<Submission>, x: Submission, id: nat)
    requires GroupsPlaced(groups, base, log, id)
    requires base + GroupsFlat(groups) == Response(log, id)
    requires For(x, id) && g.items == x.items && g.notificator == TokenOf(x.notify, |log|)
    ensures GroupsPlaced(Enqueue(groups, g), base, log + [x], id)
  {
    var after := Enqueue(groups, g);
    GroupsPlacedGrow(groups, base, log, x, id);
    EnqueuedAtTheEnd(groups, g, base, log, x, id);
    forall i | 0 <= i < |after| && after[i].notificator.Some?
      ensures PlacedAt(after[i].notificator.value, base + GroupsFlat(after[..i + 1]), log + [x], id)
    {
      if i < |after| - 1 {
        assert after[i] == groups[i] && after[..i + 1] == groups[..i + 1];
      } else {
        assert after[i].notificator == g.notificator;
        assert after[..i + 1] == after && (log + [x])[..|log| + 1] == log + [x];
      }
    }
  }

  lemma EnqueuedAtTheEnd(groups: seq<Group>, g: Group, base: seq<byte>, log: seq<Submission>, x: Submission, id: nat)
    requires base + GroupsFlat(groups) == Response(log, id) && For(x, id) && g.items == x.items
    ensures base + GroupsFlat(Enqueue(groups, g)) == Response(log + [x], id)
  {
    Grow(log, x, id);
    EnqueueConserves(groups, g, 0);
    Associative(base, GroupsFlat(groups), Flat(g.items));
  }

  lemma AcceptHeads(s: Conn, id: nat, flags: Flags, items: seq<Item>, statusLine: nat, notify: bool)
    requires WellFormed(s) && Heads(s) && Contexts(s) && Closing(s) && s.open && CanAppend(s.coord, id)
    ensures var r := Accept(s, id, flags, items, statusLine, notify);
            Heads(r) && Contexts(r) && Closing(r)
  {
    var r := Accept(s, id, flags, items, statusLine, notify);
    var x := Submission(id, flags, items, notify, true);
    var g := Group(items, statusLine, TokenOf(notify, |s.h.log|));
    forall k: nat
      ensures FlagsOf(r.h.log, k) == if k == id then flags else FlagsOf(s.h.log, k)
    {
      Grow(s.h.log, x, k);
    }
    EnqueueConserves(s.coord.queue[id - s.coord.FirstId()].groups, g, 0);
  }

  lemma EnqueuedFilled(ctx: Context, g: Group, flags: Flags, base: seq<byte>, log: seq<Submission>, x: Submission)
    requires Filled(ctx, base, log) && For(x, ctx.id) && g.items == x.items
    ensures Filled(Context(ctx.id, Enqueue(ctx.groups, g), flags), base, log + [x])
  {
    EnqueuedAtTheEnd(ctx.groups, g, base, log, x, ctx.id);
  }

  lemma OtherFilled(ctx: Context, base: seq<byte>, log: seq<Submission>, x: Submission)
    requires Filled(ctx, base, log) && !For(x, ctx.id)
    ensures Filled(ctx, base, log + [x])
  {
    Grow(log, x, ctx.id);
  }

  /** The queue after parts `x` were appended to its context number `at`. */
  function WithParts(q: seq<Context>, at: nat, g: Group, flags: Flags): seq<Context>
    requires at < |q|
  {
    q[at := Context(q[at].id, Enqueue(q[at].groups, g), flags)]
  }

  lemma {:induction false} AppendedFilled(
    q: seq<Context>, at: nat, g: Group, flags: Flags, taken: seq<byte>, log: seq<Submission>, x: Submission)
    requires at < |q| && g.items == x.items
    requires forall j | 0 <= j < |q| :: Filled(q[j], Base(taken, j), log)
    requires forall j | 0 <= j < |q| :: For(x, q[j].id) <==> j == at
    ensures forall j | 0 <= j < |q| :: Filled(WithParts(q, at, g, flags)[j], Base(taken, j), log + [x])
  {
    forall j | 0 <= j < |q|
      ensures Filled(WithParts(q, at, g, flags)[j], Base(taken, j), log + [x])
    {
      if j == at {
        EnqueuedFilled(q[j], g, flags, Base(taken, j), log, x);
      } else {
        OtherFilled(q[j], Base(taken, j), log, x);
      }
    }
  }

  lemma {:induction false} AppendedPlaced(
    q: seq<Context>, at: nat, g: Group, flags: Flags, taken: seq<byte>, log: seq<Submission>, x: Submission)
    requires at < |q| && g.items == x.items && g.notificator == TokenOf(x.notify, |log|) && For(x, q[at].id)
    requires Filled(q[at], Base(taken, at), log)
    requires forall j | 0 <= j < |q| :: GroupsPlaced(q[j].groups, Base(taken, j), log, q[j].id)
    ensures var p := WithParts(q, at, g, flags);
            forall j | 0 <= j < |q| :: GroupsPlaced(p[j].groups, Base(taken, j), log + [x], p[j].id)
  {
    var p := WithParts(q, at, g, flags);
    forall j | 0 <= j < |q|
      ensures GroupsPlaced(p[j].groups, Base(taken, j), log + [x], p[j].id)
    {
      if j == at {
        EnqueuedPlaced(q[j], g, Base(taken, j), log, x);
      } else {
        GroupsPlacedGrow(q[j].groups, Base(taken, j), log, x, q[j].id);
      }
    }
  }

  /** `r` is `s` with the parts `x`, as group `g`, appended to context number `at`. */
  ghost predicate Took(s: Conn, r: Conn, at: nat, g: Group, flags: Flags, x: Submission) {
    && at < |s.coord.queue| && r.coord.queue == WithParts(s.coord.queue, at, g, flags)
    && r.h == s.h.(log := s.h.log + [x]) && r.out == s.out && r.open == s.open
    && g.items == x.items && g.notificator == TokenOf(x.notify, |s.h.log|)
    && x.accepted && x.id == s.coord.queue[at].id
  }

  lemma {:induction false} AcceptTakes(s: Conn, id: nat, flags: Flags, items: seq<Item>, statusLine: nat, notify: bool)
    returns (at: nat, g: Group, x: Submission)
    requires WellFormed(s) && s.open && CanAppend(s.coord, id)
    ensures Took(s, Accept(s, id, flags, items, statusLine, notify), at, g, flags, x) && at == id - s.coord.FirstId()
  {
    at, x := id - s.coord.FirstId(), Submission(id, flags, items, notify, true);
    g := Group(items, statusLine, TokenOf(notify, |s.h.log|));
  }

  lemma {:induction false} TookContent(s: Conn, r: Conn, at: nat, g: Group, flags: Flags, x: Submission)
    requires WellFormed(s) && WellFormed(r) && Heads(s) && Content(s) && s.open && Took(s, r, at, g, flags, x)
    ensures Content(r)
  {
    GrowLater(s.h.log, x, s.h.head);
    Grow(s.h.log, x, s.h.head);
    AppendedFilled(s.coord.queue, at, g, flags, s.h.taken, s.h.log, x);
  }

  lemma {:induction false} TookQueuePlaced(s: Conn, r: Conn, at: nat, g: Group, flags: Flags, x: Submission)
    requires WellFormed(s) && Content(s) && QueuePlaced(s) && s.open && Took(s, r, at, g, flags, x)
    ensures QueuePlaced(r)
  {
    AppendedPlaced(s.coord.queue, at, g, flags, s.h.taken, s.h.log, x);
  }

  lemma EnqueuedPlaced(ctx: Context, g: Group, base: seq<byte>, log: seq<Submission>, x: Submission)
    requires GroupsPlaced(ctx.groups, base, log, ctx.id) && Filled(ctx, base, log)
    requires For(x, ctx.id) && g.items == x.items && g.notificator == TokenOf(x.notify, |log|)
    ensures GroupsPlaced(Enqueue(ctx.groups, g), base, log + [x], ctx.id)
  {
    EnqueuePlaced(ctx.groups, g, base, log, x, ctx.id);
  }

  lemma AcceptPlaced(s: Conn, id: nat, flags: Flags, items: seq<Item>, statusLine: nat, notify: bool)
    requires WellFormed(s) && Heads(s) && CurrentPlaced(s) && FiredPlaced(s)
    requires s.open && CanAppend(s.coord, id)
    ensures var r := Accept(s, id, flags, items, statusLine, notify);
            CurrentPlaced(r) && FiredPlaced(r)
  {
    PlacedGrow(s, Submission(id, flags, items, notify, true));
  }

  lemma {:induction false} QueueHoldsUpdate(q: seq<Context>, k: nat, ctx: Context, t: nat)
    requires k < |q|
    ensures QueueHolds(q[k := ctx], t) + HeldBy(q[k].groups, t) == QueueHolds(q, t) + HeldBy(ctx.groups, t)
    decreases |q|
  {
    if k > 0 {
      assert q[k := ctx][1..] == q[1..][k - 1 := ctx];
      QueueHoldsUpdate(q[1..], k - 1, ctx, t);
    } else {
      assert q[k := ctx][1..] == q[1..];
    }
  }

  lemma AcceptConserves(s: Conn, id: nat, flags: Flags, items: seq<Item>, statusLine: nat, notify: bool)
    requires WellFormed(s) && Conserved(s) && s.open && CanAppend(s.coord, id)
    ensures Conserved(Accept(s, id, flags, items, statusLine, notify))
  {
    var r := Accept(s, id, flags, items, statusLine, notify);
    var g := Group(items, statusLine, TokenOf(notify, |s.h.log|));
    var at := id - s.coord.FirstId();
    forall t: nat
      ensures QueueHolds(r.coord.queue, t) + CurrentHolds(r.out, t) + FiredTimes(r.h.fired, t)
           == Submitted(r.h.log, t)
    {
      QueueHoldsUpdate(s.coord.queue, at, r.coord.queue[at], t);
      EnqueueConserves(s.coord.queue[at].groups, g, t);
      assert Submitted(r.h.log, t) == Submitted(s.h.log, t) + Holds(g.notificator, t);
    }
  }

  lemma AcceptInv(s: Conn, id: nat, flags: Flags, items: seq<Item>, statusLine: nat, notify: bool)
    requires Inv(s) && s.open && CanAppend(s.coord, id)
    ensures Inv(Accept(s, id, flags, items, statusLine, notify))
  {
    AcceptHeads(s, id, flags, items, statusLine, notify);
    var at, g, x := AcceptTakes(s, id, flags, items, statusLine, notify);
    TookContent(s, Accept(s, id, flags, items, statusLine, notify), at, g, flags, x);
    TookQueuePlaced(s, Accept(s, id, flags, items, statusLine, notify), at, g, flags, x);
    AcceptPlaced(s, id, flags, items, statusLine, notify);
    AcceptConserves(s, id, flags, items, statusLine, notify);
  }

  // ---------------------------------------------------------------------------------------------
  // Whole steps and whole runs.
  // ---------------------------------------------------------------------------------------------

  /** Between two steps nothing that could be sent is left lying: an operation is in flight, or the
      oldest response has nothing queued, or the socket is closed. */
  ghost predicate Settled(s: Conn) {
    && (s.out.current.Some? ==> s.out.inFlight > 0)
    && (s.open && s.out.current.None? ==> !s.coord.closed && !HasReady(s.coord))
  }

  lemma {:induction false} HandleCurrentInv(s: Conn)
    requires Inv(s) && s.out.current.Some? && s.out.inFlight == 0
    ensures Inv(HandleCurrent(s)) && Settled(HandleCurrent(s))
    decreases QueuedGroups(s.coord.queue), 1
  {
    if s.out.index < |s.out.current.value.items| {
      StartOperationInv(s);
    } else {
      FinishInv(s);
      var f := FinishGroup(s);
      if f.coord.closed {
        CloseInv(f);
      } else {
        InitWriteInv(f);
      }
    }
  }

  lemma {:induction false} InitWriteInv(s: Conn)
    requires Inv(s) && s.out.current.None? && !s.coord.closed
    ensures Inv(InitWrite(s)) && Settled(InitWrite(s))
    decreases QueuedGroups(s.coord.queue), 0
  {
    if HasReady(s.coord) {
      PopKeepsOk(s.coord);
      PopShrinks(s.coord);
      StartGroupInv(s);
      HandleCurrentInv(StartGroup(s));
    }
  }

  lemma {:induction false} StepInv(s: Conn, e: Event)
    requires Inv(s) && Settled(s)
    ensures Inv(Step(s, e)) && Settled(Step(s, e))
  {
    if Enabled(s, e) {
      match e
      case NewRequest =>
        if |s.coord.queue| < s.coord.capacity {
          RegisterInv(s);
        } else {
          CloseInv(s);
        }
      case Parts(id, flags, items, statusLine, notify) =>
        PartsInv(s, id, flags, items, statusLine, notify);
      case OperationDone =>
        OperationDoneInv(s);
        HandleCurrentInv(OperationWritten(s));
      case OperationFailed(n) =>
        FailedInv(s, n);
      case OperationAborted(n) =>
        AbortedInv(s, n);
      case CloseNow =>
        CloseInv(s);
    }
  }

  lemma PartsInv(s: Conn, id: nat, flags: Flags, items: seq<Item>, statusLine: nat, notify: bool)
    requires Inv(s) && Settled(s)
    ensures var r := OnParts(s, id, flags, items, statusLine, notify);
            Inv(r) && Settled(r)
  {
    var request := s.coord.Resolve(id);
    var x := Submission(request, flags, items, notify, false);
    if !s.open || s.coord.closed {
      RejectInv(s, x, NotExecuted);
    } else if !AppendCheck(s.coord, id).Appended? {
      RejectInv(s, x, DestroyedPassively);
      CloseInv(Reject(s, x, DestroyedPassively));
    } else {
      AcceptInv(s, request, flags, items, statusLine, notify);
      var t := Accept(s, request, flags, items, statusLine, notify);
      if t.out.current.None? {
        InitWriteInv(t);
      }
    }
  }

  lemma {:induction false} RunInv(capacity: nat, limit: nat, events: seq<Event>)
    requires limit > 0
    ensures WellFormed(Init(capacity, limit))
    ensures var r := Run(Init(capacity, limit), events);
            Inv(r) && Settled(r)
    decreases |events|
  {
    InitInv(capacity, limit);
    if |events| > 0 {
      RunInv(capacity, limit, events[..|events| - 1]);
      StepInv(Run(Init(capacity, limit), events[..|events| - 1]), events[|events| - 1]);
    }
  }
}
