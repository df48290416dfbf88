/** Writable items and write groups: what a handler hands over to the connection. */
module Buffers {
  import opened Bytes

  /** A piece of output: an ordinary buffer, or a file part sent with sendfile.
      `data` is what the piece puts on the wire. */
  datatype Item = Trivial(data: seq<byte>) | Sendfile(data: seq<byte>)

  /** A write group is owned by value wherever it lives, so a moved-from group is simply gone.
      `notificator` names the after-write callback, if the group still holds one. */
  datatype Group = Group(items: seq<Item>, statusLine: nat, notificator: Option<nat>)

  /** The bytes of some items, in order. */
  function Flat(items: seq<Item>): seq<byte>
    decreases |items|
  {
    if |items| == 0 then [] else items[0].data + Flat(items[1..])
  }

  /** The bytes of some groups, in order. */
  function GroupsFlat(groups: seq<Group>): seq<byte>
    decreases |groups|
  {
    if |groups| == 0 then [] else Flat(groups[0].items) + GroupsFlat(groups[1..])
  }

  /** How often callback `t` is held: by one group, and by a list of groups. */
  function Holds(notificator: Option<nat>, t: nat): nat {
    if notificator == Some(t) then 1 else 0
  }

  function HeldBy(groups: seq<Group>, t: nat): nat
    decreases |groups|
  {
    if |groups| == 0 then 0 else Holds(groups[0].notificator, t) + HeldBy(groups[1..], t)
  }

  /** `write_group_t::merge`: the second group's items go to the end, its callback replaces the first's. */
  function Merge(first: Group, second: Group): Group {
    Group(first.items + second.items, first.statusLine, second.notificator)
  }

  predicate CanMergeInto(groups: seq<Group>, g: Group) {
    groups != [] && groups[|groups| - 1].notificator.None? && g.statusLine == 0
  }

  /** `response_context_t::enqueue_group`. */
  function Enqueue(groups: seq<Group>, g: Group): seq<Group> {
    if CanMergeInto(groups, g) then
      groups[..|groups| - 1] + [Merge(groups[|groups| - 1], g)]
    else
      groups + [g]
  }

  lemma {:induction false} FlatConcat(a: seq<Item>, b: seq<Item>)
    ensures Flat(a + b) == Flat(a) + Flat(b)
    decreases |a|
  {
    if |a| == 0 {
      assert a + b == b;
    } else {
      FlatConcat(a[1..], b);
      assert (a + b)[1..] == a[1..] + b;
    }
  }

  lemma {:induction false} GroupsFlatConcat(a: seq<Group>, b: seq<Group>)
    ensures GroupsFlat(a + b) == GroupsFlat(a) + GroupsFlat(b)
    decreases |a|
  {
    if |a| == 0 {
      assert a + b == b;
    } else {
      GroupsFlatConcat(a[1..], b);
      assert (a + b)[1..] == a[1..] + b;
    }
  }

  lemma {:induction false} HeldByConcat(a: seq<Group>, b: seq<Group>, t: nat)
    ensures HeldBy(a + b, t) == HeldBy(a, t) + HeldBy(b, t)
    decreases |a|
  {
    if |a| == 0 {
      assert a + b == b;
    } else {
      HeldByConcat(a[1..], b, t);
      assert (a + b)[1..] == a[1..] + b;
    }
  }

  lemma {:induction false} OneMoreGroup(front: seq<Group>, g: Group, t: nat)
    ensures GroupsFlat(front + [g]) == GroupsFlat(front) + Flat(g.items)
    ensures HeldBy(front + [g], t) == HeldBy(front, t) + Holds(g.notificator, t)
  {
    GroupsFlatConcat(front, [g]);
    HeldByConcat(front, [g], t);
    assert [g][1..] == [];
    assert GroupsFlat([g]) == Flat(g.items) + [];
  }

  /** Merging loses no callback exactly when the first group has none: the condition that
      `enqueue_group` tests before it merges. */
  lemma {:induction false} MergeConservesCallbacks(first: Group, second: Group)
    ensures Flat(Merge(first, second).items) == Flat(first.items) + Flat(second.items)
    ensures (forall t :: Holds(Merge(first, second).notificator, t)
                      == Holds(first.notificator, t) + Holds(second.notificator, t))
       <==> first.notificator.None?
  {
    FlatConcat(first.items, second.items);
    if first.notificator.Some? {
      assert Holds(first.notificator, first.notificator.value) == 1;
    }
  }

  /** A group joins the last one exactly when that one has no callback and the new one has no status line;
      otherwise it stands behind them, as it is. */
  lemma {:induction false} MergesExactlyWhen(groups: seq<Group>, g: Group)
    ensures var r := Enqueue(groups, g);
            if |groups| > 0 && groups[|groups| - 1].notificator == None && g.statusLine == 0
            then
              var last := groups[|groups| - 1];
              && |r| == |groups| && r[..|groups| - 1] == groups[..|groups| - 1]
              && r[|groups| - 1] == Group(last.items + g.items, last.statusLine, g.notificator)
            else |r| == |groups| + 1 && r[..|groups|] == groups && r[|groups|] == g
  {
  }

  /** Whether it merges or appends, enqueueing adds exactly the group's bytes at the end and
      exactly its callback. */
  lemma {:induction false} EnqueueConserves(groups: seq<Group>, g: Group, t: nat)
    ensures GroupsFlat(Enqueue(groups, g)) == GroupsFlat(groups) + Flat(g.items)
    ensures HeldBy(Enqueue(groups, g), t) == HeldBy(groups, t) + Holds(g.notificator, t)
    ensures Enqueue(groups, g) != []
  {
    if CanMergeInto(groups, g) {
      var n := |groups| - 1;
      var front, last := groups[..n], groups[n];
      assert groups == front + [last] && Enqueue(groups, g) == front + [Merge(last, g)];
      OneMoreGroup(front, last, t);
      OneMoreGroup(front, Merge(last, g), t);
      MergeConservesCallbacks(last, g);
      Associative(GroupsFlat(front), Flat(last.items), Flat(g.items));
    } else {
      OneMoreGroup(groups, g, t);
    }
  }
}
