/** The response coordinator: collects the parts of pipelined responses and gives out, group by
    group, those of the oldest response only. */
module Coordinator {
  import opened Bytes
  import opened Buffers
  import opened ResponseContexts

  /** What the coordinator is, ring and id width aside. */
  datatype Coord = Coord(capacity: nat, queue: seq<Context>, nextId: nat, closed: bool) {

    /** The outstanding ids are the last `|queue|` ids handed out. */
    predicate Ok() {
      && |queue| <= capacity && |queue| <= nextId
      && forall k | 0 <= k < |queue| :: queue[k].id == FirstId() + k
    }

    function FirstId(): int {
      nextId - |queue|
    }

    predicate Outstanding(id: nat) {
      FirstId() <= id < nextId
    }

    /** The request that a 32-bit id stands for now. */
    function Resolve(id: nat): nat
      requires |queue| <= nextId
    {
      FirstId() - FirstId() % ID_LIMIT + id
    }

    /** The lookup of a 32-bit id succeeds. */
    predicate Found(id: nat) {
      queue != [] && FirstId() % ID_LIMIT <= id <= (nextId - 1) % ID_LIMIT
    }
  }

  /** What is found is outstanding. */
  lemma FoundIsOutstanding(c: Coord, id: nat)
    requires c.Ok() && c.Found(id)
    ensures c.Outstanding(c.Resolve(id))
  {
    var first, last := c.FirstId(), c.nextId - 1;
    assert first / ID_LIMIT <= last / ID_LIMIT;
    assert first == first / ID_LIMIT * ID_LIMIT + first % ID_LIMIT;
    assert last == last / ID_LIMIT * ID_LIMIT + last % ID_LIMIT;
  }

  /** Every outstanding request is found by its 32-bit id, and nothing else is, unless the outstanding
      ids cross a multiple of 2^32; then nothing is found until the window has passed. */
  lemma {:induction false} FoundUnlessIdsWrap(c: Coord, id: nat)
    requires c.Ok() && c.queue != [] && |c.queue| <= ID_LIMIT && id < ID_LIMIT
    ensures !Crosses(c.FirstId(), |c.queue|) ==> (c.Found(id) <==> c.Outstanding(c.Resolve(id)))
    ensures Crosses(c.FirstId(), |c.queue|) ==> !c.Found(id)
  {
    ModShift(c.FirstId(), |c.queue| - 1);
  }

  datatype AppendOutcome = Appended | CoordinatorClosed | UnknownRequest | AlreadyComplete

  /** Parts can be appended to this request's response. */
  predicate CanAppend(c: Coord, id: nat)
    requires c.Ok()
  {
    !c.closed && c.Outstanding(id) && !c.queue[id - c.FirstId()].flags.final
  }

  /** `append_response` with a 32-bit id: which of its exceptions is thrown, if any. */
  function AppendCheck(c: Coord, id: nat): (r: AppendOutcome)
    requires c.Ok()
    ensures r.Appended? ==> CanAppend(c, c.Resolve(id))
  {
    if c.closed then CoordinatorClosed
    else if !c.Found(id) then UnknownRequest
    else
      FoundIsOutstanding(c, id);
      if c.queue[c.Resolve(id) - c.FirstId()].flags.final then AlreadyComplete else Appended
  }

  lemma ResolveOutstanding(c: Coord, k: nat)
    requires c.Ok() && |c.queue| <= ID_LIMIT && c.Outstanding(k) && !Crosses(c.FirstId(), |c.queue|)
    ensures c.Resolve(k % ID_LIMIT) == k && c.Found(k % ID_LIMIT)
  {
    ModShift(c.FirstId(), k - c.FirstId());
    ModShift(c.FirstId(), |c.queue| - 1);
  }

  lemma {:induction false} OutstandingAnswer(c: Coord, k: nat)
    requires c.Ok() && |c.queue| <= ID_LIMIT && c.Outstanding(k) && !Crosses(c.FirstId(), |c.queue|)
    ensures c.Resolve(k % ID_LIMIT) == k
    ensures AppendCheck(c, k % ID_LIMIT) == if c.closed then CoordinatorClosed
                                            else if c.queue[k - c.FirstId()].flags.final then AlreadyComplete
                                            else Appended
  {
    ResolveOutstanding(c, k);
  }

  /** Parts for any outstanding request, be it the oldest or not, are refused only when the response is
      complete or the coordinator is closed; parts for no outstanding request are refused as unknown. */
  lemma {:induction false} OutstandingIsTaken(c: Coord, id: nat)
    requires c.Ok() && |c.queue| <= ID_LIMIT && !Crosses(c.FirstId(), |c.queue|) && id < ID_LIMIT
    ensures forall k: nat | c.Outstanding(k) && k % ID_LIMIT == id ::
              && c.Resolve(id) == k
              && AppendCheck(c, id) == if c.closed then CoordinatorClosed
                                       else if c.queue[k - c.FirstId()].flags.final then AlreadyComplete
                                       else Appended
    ensures (forall k: nat | c.Outstanding(k) :: k % ID_LIMIT != id) ==>
              AppendCheck(c, id) == if c.closed then CoordinatorClosed else UnknownRequest
  {
    forall k: nat | c.Outstanding(k) && k % ID_LIMIT == id
      ensures c.Resolve(id) == k
      ensures AppendCheck(c, id) == if c.closed then CoordinatorClosed
                                    else if c.queue[k - c.FirstId()].flags.final then AlreadyComplete
                                    else Appended
    {
      OutstandingAnswer(c, k);
    }
    if c.Found(id) {
      FoundIsOutstanding(c, id);
      assert c.Resolve(id) % ID_LIMIT == id;
    }
  }

  function Append(c: Coord, id: nat, flags: Flags, g: Group): Coord
    requires c.Ok() && CanAppend(c, id)
  {
    var k := id - c.FirstId();
    var ctx := c.queue[k];
    c.(queue := c.queue[k := Context(id, Enqueue(ctx.groups, g), flags)])
  }

  function Register(c: Coord): Coord {
    c.(queue := c.queue + [Context(c.nextId, [], INITIAL_FLAGS)], nextId := c.nextId + 1)
  }

  predicate HasReady(c: Coord) {
    c.queue != [] && c.queue[0].groups != []
  }

  /** The group that `pop_ready_buffers` gives out, and the coordinator after it. */
  function Ready(c: Coord): Group
    requires HasReady(c)
  {
    c.queue[0].groups[0]
  }

  function Pop(c: Coord): Coord
    requires HasReady(c)
  {
    var ctx := c.queue[0].(groups := c.queue[0].groups[1..]);
    if ctx.Complete() then
      c.(queue := c.queue[1..], closed := ctx.flags.close)
    else
      c.(queue := c.queue[0 := ctx])
  }

  /** The callbacks queued in some groups and in some contexts, oldest first. */
  function GroupTokens(groups: seq<Group>): seq<nat>
    decreases |groups|
  {
    if |groups| == 0 then []
    else (if groups[0].notificator.Some? then [groups[0].notificator.value] else []) + GroupTokens(groups[1..])
  }

  function QueueTokens(q: seq<Context>): seq<nat>
    decreases |q|
  {
    if |q| == 0 then [] else GroupTokens(q[0].groups) + QueueTokens(q[1..])
  }

  /** How many groups wait: the measure for chains of groups handled without any I/O. */
  function QueuedGroups(q: seq<Context>): nat
    decreases |q|
  {
    if |q| == 0 then 0 else |q[0].groups| + QueuedGroups(q[1..])
  }

  lemma {:induction false} PopShrinks(c: Coord)
    requires HasReady(c)
    ensures QueuedGroups(Pop(c).queue) == QueuedGroups(c.queue) - 1
  {
    var ctx := c.queue[0].(groups := c.queue[0].groups[1..]);
    assert c.queue[0 := ctx][1..] == c.queue[1..];
  }

  /** `response_coordinator_t`. */
  class ResponseCoordinator {
    const table: ContextTable
    var counter: nat
    var closed: bool
    ghost var registered: nat

    ghost predicate Valid()
      reads this, table, table.contexts
    {
      && table.Valid() && table.Clean()
      && counter == registered % ID_LIMIT
      && table.count <= registered
      && IdsFrom(table.Queue(), registered - table.count)
    }

    /** The abstract coordinator, with ids as the unbounded numbers that the 32-bit ones stand for. */
    ghost function Abs(): (c: Coord)
      requires Valid()
      reads this, table, table.contexts
      ensures c.Ok()
    {
      Coord(table.contexts.Length, TrueIds(table.Queue(), registered - table.count), registered, closed)
    }

    static ghost function TrueIds(q: seq<Context>, firstId: nat): (r: seq<Context>)
      ensures |r| == |q|
      ensures forall k | 0 <= k < |q| :: r[k] == q[k].(id := firstId + k)
    {
      seq(|q|, k requires 0 <= k < |q| => q[k].(id := firstId + k))
    }

    static lemma TailIds(q: seq<Context>, firstId: nat)
      requires q != [] && IdsFrom(q, firstId)
      ensures IdsFrom(q[1..], firstId + 1)
      ensures TrueIds(q[1..], firstId + 1) == TrueIds(q, firstId)[1..]
    {
      IdsKept(q, firstId, q[0]);
    }

    static lemma PushIds(q: seq<Context>, firstId: nat, ctx: Context)
      requires IdsFrom(q, firstId) && ctx.id == (firstId + |q|) % ID_LIMIT
      ensures IdsFrom(q + [ctx], firstId)
      ensures TrueIds(q + [ctx], firstId) == TrueIds(q, firstId) + [ctx.(id := firstId + |q|)]
    {
      IdsKept(q, firstId, ctx);
    }

    constructor (maxReqCount: nat)
      ensures Valid() && fresh(table) && fresh(table.contexts)
      ensures Abs() == Coord(maxReqCount, [], 0, false)
    {
      table := new ContextTable(maxReqCount);
      counter, closed, registered := 0, false, 0;
    }

    /** The ring lookup finds the context opened for the request that the 32-bit id stands for. */
    lemma {:induction false} LookupFindsTheContext(id: nat)
      requires Valid()
      ensures Lookup(table.Queue(), id).Some? <==> Abs().Found(id)
      ensures Abs().Found(id) ==> Lookup(table.Queue(), id).value == Abs().Resolve(id) - Abs().FirstId()
    {
      if table.count > 0 {
        var q, first := table.Queue(), registered - table.count;
        assert q[0].id == (first + 0) % ID_LIMIT;
        assert q[table.count - 1].id == (first + (table.count - 1)) % ID_LIMIT;
      }
    }

    /** `register_new_request`; false stands for the exception of a full table. */
    method RegisterNewRequest() returns (ok: bool, id: nat)
      requires Valid()
      modifies this, table, table.contexts
      ensures Valid() && ok == (|old(Abs()).queue| < old(Abs()).capacity)
      ensures Abs() == if ok then Register(old(Abs())) else old(Abs())
      ensures ok ==> id == old(Abs()).nextId % ID_LIMIT
    {
      PushIds(table.Queue(), registered - table.count, Context(counter, [], INITIAL_FLAGS));
      ok := table.PushResponseContext(counter);
      id := counter;
      if ok {
        ModShift(registered, 1);
        counter := (counter + 1) % ID_LIMIT;
        registered := registered + 1;
      }
    }

    /** Rewrites the k-th context in its slot. */
    method PutContext(slot: nat, ghost k: nat, ctx: Context)
      requires Valid() && k < table.count && slot == table.Slot(k) && ctx.id == table.Queue()[k].id
      modifies table.contexts
      ensures Valid()
      ensures Abs() == old(Abs()).(queue := old(Abs()).queue[k := ctx.(id := old(Abs()).FirstId() + k)])
      ensures table.Queue()[k] == ctx
    {
      ghost var before := Abs();
      table.Put(slot, k, ctx);
      assert Abs().queue == before.queue[k := ctx.(id := before.FirstId() + k)];
    }

    /** Gives up the drained oldest context. */
    method DropFront()
      requires Valid() && table.count > 0 && table.Queue()[0].groups == []
      modifies table
      ensures Valid() && Abs() == old(Abs()).(queue := old(Abs()).queue[1..])
    {
      TailIds(table.Queue(), registered - table.count);
      var _ := table.PopResponseContext();
    }

    /** The slot of a request's context and its place among the outstanding ones. */
    method FindContext(reqId: nat) returns (slot: Option<nat>, ghost k: nat)
      requires Valid()
      ensures slot.Some? <==> Abs().Found(reqId)
      ensures slot.Some? ==> k < table.count && slot.value == table.Slot(k)
      ensures slot.Some? ==> k == Abs().Resolve(reqId) - Abs().FirstId()
    {
      LookupFindsTheContext(reqId);
      slot := table.GetByReqId(reqId, registered - table.count);
      k := if slot.Some? then Lookup(table.Queue(), reqId).value else 0;
    }

    /** The flags and the group are stored in the k-th context. */
    method StoreParts(slot: nat, ghost k: nat, flags: Flags, g: Group)
      requires Valid() && k < table.count && slot == table.Slot(k)
      requires CanAppend(Abs(), Abs().FirstId() + k)
      modifies table.contexts
      ensures Valid() && Abs() == Append(old(Abs()), old(Abs()).FirstId() + k, flags, g)
    {
      var ctx := table.contexts[slot];
      assert ctx == table.Queue()[k];
      ctx := ctx.(flags := flags);
      ctx := ctx.(groups := Enqueue(ctx.groups, g));
      PutContext(slot, k, ctx);
    }

    /** `append_response`. */
    method AppendResponse(reqId: nat, flags: Flags, g: Group) returns (outcome: AppendOutcome)
      requires Valid()
      modifies table.contexts
      ensures Valid() && registered == old(registered)
      ensures outcome == AppendCheck(old(Abs()), reqId)
      ensures Abs() == if outcome.Appended? then Append(old(Abs()), old(Abs()).Resolve(reqId), flags, g) else old(Abs())
    {
      if closed {
        return CoordinatorClosed;
      }
      var slot, k := FindContext(reqId);
      if slot.None? {
        return UnknownRequest;
      }
      var ctx := table.contexts[slot.value];
      assert ctx == table.Queue()[k];
      if ctx.flags.final {
        return AlreadyComplete;
      }
      StoreParts(slot.value, k, flags, g);
      return Appended;
    }

    /** `pop_ready_buffers`; not `ok` stands for the exception of a closed coordinator. */
    method PopReadyBuffers() returns (ok: bool, result: Option<Group>)
      requires Valid()
      modifies this, table, table.contexts
      ensures Valid() && registered == old(registered)
      ensures ok == !old(Abs()).closed
      ensures result == if ok && HasReady(old(Abs())) then Some(Ready(old(Abs()))) else None
      ensures Abs() == if ok && HasReady(old(Abs())) then Pop(old(Abs())) else old(Abs())
    {
      if closed {
        return false, None;
      }
      if table.count == 0 {
        return true, None;
      }
      var slot := table.first;
      var ctx := table.contexts[slot];
      assert ctx == table.Queue()[0];
      if ctx.groups == [] {
        return true, None;
      }
      ok, result := true, Some(ctx.groups[0]);
      ctx := ctx.(groups := ctx.groups[1..]);
      PutContext(slot, 0, ctx);
      if ctx.Complete() {
        closed := ctx.flags.final && ctx.flags.close;
        DropFront();
      }
    }

    /** The inner loop of `reset`: drains the oldest context. */
    method DrainFront() returns (notified: seq<nat>)
      requires Valid() && table.count > 0
      modifies table.contexts
      ensures Valid() && table.Queue()[0].groups == []
      ensures Abs() == WithFront(old(Abs()), [])
      ensures notified == GroupTokens(old(Abs()).queue[0].groups)
    {
      notified := [];
      var slot := table.first;
      var ctx := table.contexts[slot];
      ghost var start := Abs();
      assert ctx == table.Queue()[0] && start == WithFront(start, ctx.groups);
      while ctx.groups != []
        invariant Valid() && table.Queue()[0] == ctx && Abs() == WithFront(start, ctx.groups)
        invariant notified + GroupTokens(ctx.groups) == GroupTokens(start.queue[0].groups)
        decreases |ctx.groups|
      {
        TokensOfFirst(notified, ctx.groups);
        var wg := ctx.groups[0];
        ctx := ctx.(groups := ctx.groups[1..]);
        PutContext(slot, 0, ctx);
        if wg.notificator.Some? {
          notified := notified + [wg.notificator.value];
        }
      }
    }

    /** The coordinator with other groups in its oldest context. */
    static ghost function WithFront(c: Coord, groups: seq<Group>): Coord
      requires c.queue != []
    {
      c.(queue := c.queue[0 := c.queue[0].(groups := groups)])
    }

    static lemma TokensOfFirst(done: seq<nat>, groups: seq<Group>)
      requires groups != []
      ensures done + GroupTokens(groups)
           == (if groups[0].notificator.Some? then done + [groups[0].notificator.value] else done)
              + GroupTokens(groups[1..])
    {
    }

    /** `reset`: drops every context; the returned callbacks are invoked with "not executed". */
    method Reset() returns (notified: seq<nat>)
      requires Valid()
      modifies this, table, table.contexts
      ensures Valid() && registered == old(registered)
      ensures Abs() == old(Abs()).(queue := [])
      ensures notified == QueueTokens(old(Abs()).queue)
    {
      notified := [];
      ghost var start := Abs();
      ghost var rest := start.queue;
      while table.count > 0
        invariant Valid() && registered == old(registered)
        invariant Abs() == start.(queue := rest)
        invariant notified + QueueTokens(rest) == QueueTokens(start.queue)
        decreases table.count
      {
        var fromFront := DrainFront();
        DropFront();
        UnfoldTokens(notified, rest);
        notified, rest := notified + fromFront, rest[1..];
      }
    }

    static lemma UnfoldTokens(done: seq<nat>, q: seq<Context>)
      requires q != []
      ensures done + QueueTokens(q) == (done + GroupTokens(q[0].groups)) + QueueTokens(q[1..])
    {
    }
  }
}
