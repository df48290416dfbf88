/** The contexts of outstanding responses: a ring of slots indexed by request id. */
module ResponseContexts {
  import opened Bytes
  import opened Buffers

  /** Request ids are 32-bit unsigned numbers: the counter wraps here. */
  const ID_LIMIT: nat := 0x1_0000_0000

  /** `response_output_flags_t`: is this the final part, and does the connection close after it? */
  datatype Flags = Flags(final: bool, close: bool)

  const INITIAL_FLAGS := Flags(false, false)

  /** `response_context_t`: the unsent groups of one response. */
  datatype Context = Context(id: nat, groups: seq<Group>, flags: Flags) {

    /** `is_complete`. */
    predicate Complete() {
      groups == [] && flags.final
    }
  }

  /** The stored ids are the 32-bit images of `first`, `first + 1`, and so on. */
  predicate IdsFrom(q: seq<Context>, first: nat) {
    forall k | 0 <= k < |q| :: q[k].id == (first + k) % ID_LIMIT
  }

  /** The reference for `get_by_req_id`: search the outstanding contexts one by one. */
  function LinearSearch(q: seq<Context>, id: nat): (r: Option<nat>)
    ensures r.Some? ==> r.value < |q| && q[r.value].id == id
    ensures r.None? ==> forall k | 0 <= k < |q| :: q[k].id != id
    decreases |q|
  {
    if |q| == 0 then None
    else if q[|q| - 1].id == id then Some(|q| - 1)
    else LinearSearch(q[..|q| - 1], id)
  }

  /** What `get_by_req_id` computes: two comparisons and a subtraction. */
  function Lookup(q: seq<Context>, id: nat): Option<nat> {
    if q == [] || id < q[0].id || id > q[|q| - 1].id then None else Some(id - q[0].id)
  }

  /** The ids of the outstanding requests cross a multiple of 2^32. */
  predicate Crosses(first: nat, count: nat) {
    first % ID_LIMIT + count > ID_LIMIT
  }

  lemma LookupInRange(q: seq<Context>, first: nat, id: nat)
    requires q != [] && IdsFrom(q, first) && Lookup(q, id).Some?
    ensures Lookup(q, id).value < |q| && q[0].id == first % ID_LIMIT
  {
    assert q[0].id == (first + 0) % ID_LIMIT;
    assert q[|q| - 1].id == (first + (|q| - 1)) % ID_LIMIT;
  }

  lemma IdsWithoutCrossing(q: seq<Context>, first: nat)
    requires IdsFrom(q, first) && !Crosses(first, |q|)
    ensures forall k | 0 <= k < |q| :: q[k].id == first % ID_LIMIT + k
  {
    forall k | 0 <= k < |q|
      ensures q[k].id == first % ID_LIMIT + k
    {
      ModShift(first, k);
    }
  }

  /** When the ids cross the limit, the ring lookup finds nothing at all. */
  lemma {:induction false} LookupFailsWhenIdsCross(q: seq<Context>, first: nat, id: nat)
    requires q != [] && IdsFrom(q, first) && |q| <= ID_LIMIT && Crosses(first, |q|)
    ensures Lookup(q, id) == None
  {
    ModShift(first, |q| - 1);
    assert q[0].id == (first + 0) % ID_LIMIT;
    assert q[|q| - 1].id == (first + (|q| - 1)) % ID_LIMIT == first % ID_LIMIT + (|q| - 1) - ID_LIMIT;
  }

  /** The ring lookup agrees with the linear search for every id exactly when the ids of the
      outstanding requests do not wrap around the 32-bit range. */
  lemma {:induction false} LookupAgreesUnlessIdsWrap(q: seq<Context>, first: nat)
    requires q != [] && IdsFrom(q, first) && |q| <= ID_LIMIT
    ensures (forall id :: Lookup(q, id) == LinearSearch(q, id)) <==> !Crosses(first, |q|)
  {
    if Crosses(first, |q|) {
      LookupFailsWhenIdsCross(q, first, q[0].id);
      assert LinearSearch(q, q[0].id).Some?;
    } else {
      IdsWithoutCrossing(q, first);
      forall id
        ensures Lookup(q, id) == LinearSearch(q, id)
      {
        assert Lookup(q, id).Some? ==> q[Lookup(q, id).value].id == id;
      }
    }
  }

  /** Two requests around the limit: neither is found. */
  lemma {:induction false} TwoRequestsAcrossTheLimit()
    ensures var q := [Context(0xFFFF_FFFF, [], INITIAL_FLAGS), Context(0, [], INITIAL_FLAGS)];
            IdsFrom(q, 0xFFFF_FFFF) && Lookup(q, 0xFFFF_FFFF) == Lookup(q, 0) == None
            && LinearSearch(q, 0xFFFF_FFFF) == Some(0) && LinearSearch(q, 0) == Some(1)
  {
    var q := [Context(0xFFFF_FFFF, [], INITIAL_FLAGS), Context(0, [], INITIAL_FLAGS)];
    assert q[..1] == [q[0]];
  }

  /** Ids stay in a row when the oldest context is popped and when the next id is pushed. */
  lemma {:induction false} IdsKept(q: seq<Context>, first: nat, next: Context)
    requires IdsFrom(q, first)
    ensures q != [] ==> IdsFrom(q[1..], first + 1)
    ensures next.id == (first + |q|) % ID_LIMIT ==> IdsFrom(q + [next], first)
  {
    if q != [] {
      forall k | 0 <= k < |q| - 1
        ensures q[1..][k].id == (first + 1 + k) % ID_LIMIT
      {
        assert q[k + 1].id == (first + (k + 1)) % ID_LIMIT;
      }
    }
  }

  lemma ModShift(a: nat, k: nat)
    ensures (a % ID_LIMIT + k) % ID_LIMIT == (a + k) % ID_LIMIT
  {
  }

  /** `response_context_table_t`. */
  class ContextTable {
    const contexts: array<Context>
    var first: nat
    var count: nat

    ghost predicate Valid()
      reads this
    {
      && count <= contexts.Length
      && (if contexts.Length == 0 then first == 0 else first < contexts.Length)
    }

    /** The slot of the k-th outstanding context; `SlotIsRemainder` relates it to the remainder
        the code computes. */
    ghost function Slot(k: nat): (slot: nat)
      requires Valid() && k < contexts.Length
      reads this
      ensures slot < contexts.Length
    {
      if first + k < contexts.Length then first + k else first + k - contexts.Length
    }

    lemma {:induction false} SlotIsRemainder(k: nat)
      requires Valid() && k < contexts.Length
      ensures Slot(k) == (first + k) % contexts.Length
    {
      var n := contexts.Length;
      if first + k < n {
        SmallRemainder(first + k, n);
      } else {
        SmallRemainder(first + k - n, n);
        assert (first + k) % n == (first + k - n) % n;
      }
    }

    static lemma SmallRemainder(a: nat, n: nat)
      requires a < n
      ensures a % n == a && (a + n) % n == a
    {
    }

    /** The outstanding contexts, oldest first. */
    ghost function Queue(): (q: seq<Context>)
      requires Valid()
      reads this, contexts
      ensures |q| == count
    {
      seq(count, k requires 0 <= k < count && Valid() reads this, contexts => contexts[Slot(k)])
    }

    /** Slots not in use hold no groups; `reinit` relies on it, because it does not clear them. */
    ghost predicate Clean()
      requires Valid()
      reads this, contexts
    {
      forall k | count <= k < contexts.Length :: contexts[Slot(k)].groups == []
    }

    constructor (capacity: nat)
      ensures Valid() && Clean()
      ensures fresh(contexts) && contexts.Length == capacity && Queue() == []
    {
      contexts := new Context[capacity](_ => Context(0, [], INITIAL_FLAGS));
      first, count := 0, 0;
    }

    /** `get_by_req_id`: the slot, or nothing. */
    method GetByReqId(reqId: nat, ghost firstId: nat) returns (slot: Option<nat>)
      requires Valid() && IdsFrom(Queue(), firstId)
      ensures slot.Some? <==> Lookup(Queue(), reqId).Some?
      ensures slot.Some? ==> Lookup(Queue(), reqId).value < count
      ensures slot.Some? ==> slot.value == Slot(Lookup(Queue(), reqId).value)
    {
      if count == 0 {
        return None;
      }
      SlotIsRemainder(count - 1);
      var front := contexts[first];
      var back := contexts[(first + (count - 1)) % contexts.Length];
      assert front == Queue()[0] && back == Queue()[count - 1];
      if reqId < front.id || reqId > back.id {
        return None;
      }
      LookupInRange(Queue(), firstId, reqId);
      SlotIsRemainder(reqId - front.id);
      return Some((first + (reqId - front.id)) % contexts.Length);
    }

    /** The coordinator works on a context through the pointer that the lookup gave it. */
    method Put(slot: nat, ghost k: nat, ctx: Context)
      requires Valid() && k < count && slot == Slot(k)
      modifies contexts
      ensures Valid() && Queue() == old(Queue())[k := ctx]
      ensures old(Clean()) ==> Clean()
    {
      contexts[slot] := ctx;
    }

    /** `push_response_context`; false stands for the exception of a full table. */
    method PushResponseContext(reqId: nat) returns (ok: bool)
      requires Valid()
      modifies this, contexts
      ensures Valid() && ok == (old(count) < contexts.Length)
      ensures !ok ==> Queue() == old(Queue())
      ensures ok ==> exists leftover ::
                       Queue() == old(Queue()) + [Context(reqId, leftover, INITIAL_FLAGS)]
      ensures ok && old(Clean()) ==> Queue() == old(Queue()) + [Context(reqId, [], INITIAL_FLAGS)]
      ensures old(Clean()) ==> Clean()
    {
      if contexts.Length == count {
        return false;
      }
      SlotIsRemainder(count);
      var slot := (first + count) % contexts.Length;
      contexts[slot] := contexts[slot].(id := reqId, flags := INITIAL_FLAGS);
      ghost var leftover := contexts[slot].groups;
      count := count + 1;
      assert Queue() == old(Queue()) + [Context(reqId, leftover, INITIAL_FLAGS)];
      if old(Clean()) {
        forall k | count <= k < contexts.Length
          ensures contexts[Slot(k)].groups == []
        {
          assert Slot(k) == old(Slot(k)) && Slot(k) != slot;
        }
      }
      return true;
    }

    /** `pop_response_context`; false stands for the exception of an empty table. */
    method PopResponseContext() returns (ok: bool)
      requires Valid()
      modifies this
      ensures Valid() && ok == (old(count) > 0)
      ensures Queue() == if ok then old(Queue())[1..] else old(Queue())
      ensures old(Clean()) && (ok ==> old(Queue())[0].groups == []) ==> Clean()
    {
      if count == 0 {
        return false;
      }
      ghost var drained := old(Clean()) && contexts[first].groups == [];
      count := count - 1;
      first := first + 1;
      if contexts.Length == first {
        first := 0;
      }
      if drained {
        forall k | count <= k < contexts.Length
          ensures contexts[Slot(k)].groups == []
        {
          assert k + 1 < contexts.Length ==> Slot(k) == old(Slot(k + 1));
          assert k + 1 == contexts.Length ==> Slot(k) == old(first);
        }
      }
      return true;
    }
  }
}
