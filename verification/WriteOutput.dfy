/** Cutting a write group into gather writes and sendfile operations. */
module WriteOutput {
  import opened Bytes
  import opened Buffers

  /** One piece of output given to the socket at once. */
  datatype Operation =
    | NoOperation
    | Gather(bufs: seq<seq<byte>>, total: nat)
    | SendFile(data: seq<byte>)

  /** The items that an operation writes. */
  function OpItems(op: Operation): seq<Item> {
    match op
    case NoOperation => []
    case Gather(bufs, _) => seq(|bufs|, i requires 0 <= i < |bufs| => Trivial(bufs[i]))
    case SendFile(data) => [Sendfile(data)]
  }

  /** How many items, from index `from` on, the next gather write takes when it may take `limit`. */
  function GatherLength(items: seq<Item>, from: nat, limit: nat): (n: nat)
    requires from <= |items|
    ensures n <= limit && from + n <= |items|
    ensures forall i | from <= i < from + n :: items[i].Trivial?
    ensures n == limit || from + n == |items| || items[from + n].Sendfile?
    decreases limit
  {
    if limit == 0 || from == |items| || items[from].Sendfile? then 0
    else 1 + GatherLength(items, from + 1, limit - 1)
  }

  /** How many items the next operation takes. */
  function NextLength(items: seq<Item>, from: nat, limit: nat): (n: nat)
    requires limit > 0
    ensures (n == 0 <==> from >= |items|) && (n > 0 ==> from + n <= |items|)
  {
    if from >= |items| then 0
    else if items[from].Sendfile? then 1
    else GatherLength(items, from, limit)
  }

  /** The buffers of some items. */
  function Datas(items: seq<Item>): (bufs: seq<seq<byte>>)
    ensures |bufs| == |items| && forall i | 0 <= i < |items| :: bufs[i] == items[i].data
  {
    seq(|items|, i requires 0 <= i < |items| => items[i].data)
  }

  /** The operation that comes next. */
  function NextOperation(items: seq<Item>, from: nat, limit: nat): Operation
    requires limit > 0
  {
    if from >= |items| then NoOperation
    else if items[from].Sendfile? then SendFile(items[from].data)
    else
      var piece := items[from..from + GatherLength(items, from, limit)];
      Gather(Datas(piece), |Flat(piece)|)
  }

  /** All operations of a group from item `from` on, extracted until none is left. */
  function Extraction(items: seq<Item>, from: nat, limit: nat): seq<Operation>
    requires limit > 0
    decreases |items| - from
  {
    if from >= |items| then []
    else
      [NextOperation(items, from, limit)]
      + Extraction(items, from + NextLength(items, from, limit), limit)
  }

  function AllItems(ops: seq<Operation>): seq<Item>
    decreases |ops|
  {
    if |ops| == 0 then [] else OpItems(ops[0]) + AllItems(ops[1..])
  }

  /** What is promised of every operation: a gather write is not empty, is within the limit, says its
      size, and is as long as it can be, so that a shorter one is followed by a file part or the end. */
  predicate WellCut(ops: seq<Operation>, limit: nat) {
    forall i | 0 <= i < |ops| ::
      && !ops[i].NoOperation?
      && (ops[i].Gather? ==> 0 < |ops[i].bufs| <= limit && ops[i].total == |Flat(OpItems(ops[i]))|)
      && (ops[i].Gather? && |ops[i].bufs| < limit && i + 1 < |ops| ==> ops[i + 1].SendFile?)
  }

  lemma NextOperationTakesNextItems(items: seq<Item>, from: nat, limit: nat)
    requires from < |items| && limit > 0
    ensures OpItems(NextOperation(items, from, limit)) == items[from..from + NextLength(items, from, limit)]
  {
    var n := NextLength(items, from, limit);
    var op := NextOperation(items, from, limit);
    assert |OpItems(op)| == n;
    forall i | 0 <= i < n
      ensures OpItems(op)[i] == items[from..from + n][i]
    {
      assert items[from..from + n][i] == items[from + i];
    }
  }

  /** The extracted operations are exactly the group's items, in order. */
  lemma {:induction false} ExtractionCoversTheGroup(items: seq<Item>, from: nat, limit: nat)
    requires from <= |items| && limit > 0
    ensures AllItems(Extraction(items, from, limit)) == items[from..]
    decreases |items| - from
  {
    if from < |items| {
      var op, next := FirstOperation(items, from, limit);
      ExtractionCoversTheGroup(items, next, limit);
      CoversStep(op, Extraction(items, next, limit), items, from, next);
    }
  }

  lemma FirstOperation(items: seq<Item>, from: nat, limit: nat) returns (op: Operation, next: nat)
    requires from < |items| && limit > 0
    ensures from < next <= |items| && OpItems(op) == items[from..next]
    ensures Extraction(items, from, limit) == [op] + Extraction(items, next, limit)
  {
    op, next := NextOperation(items, from, limit), from + NextLength(items, from, limit);
    NextOperationTakesNextItems(items, from, limit);
  }

  lemma CoversStep(op: Operation, rest: seq<Operation>, items: seq<Item>, from: nat, next: nat)
    requires from <= next <= |items| && OpItems(op) == items[from..next] && AllItems(rest) == items[next..]
    ensures AllItems([op] + rest) == items[from..]
  {
    AllItemsCons(op, rest);
    assert items[from..] == items[from..next] + items[next..];
  }

  lemma {:induction false} ExtractionIsWellCut(items: seq<Item>, from: nat, limit: nat)
    requires from <= |items| && limit > 0
    ensures WellCut(Extraction(items, from, limit), limit)
    decreases |items| - from
  {
    if from < |items| {
      var next := from + NextLength(items, from, limit);
      ExtractionIsWellCut(items, next, limit);
      FirstIsWellCut(items, from, limit);
      WellCutCons(NextOperation(items, from, limit), Extraction(items, next, limit), limit);
    }
  }

  lemma AllItemsCons(op: Operation, rest: seq<Operation>)
    ensures AllItems([op] + rest) == OpItems(op) + AllItems(rest)
  {
    assert ([op] + rest)[1..] == rest;
  }

  lemma FirstIsWellCut(items: seq<Item>, from: nat, limit: nat)
    requires from < |items| && limit > 0
    ensures var op := NextOperation(items, from, limit);
            var rest := Extraction(items, from + NextLength(items, from, limit), limit);
            && !op.NoOperation?
            && (op.Gather? ==> 0 < |op.bufs| <= limit && op.total == |Flat(OpItems(op))|)
            && (op.Gather? && |op.bufs| < limit && rest != [] ==> rest[0].SendFile?)
  {
    NextOperationTakesNextItems(items, from, limit);
  }

  lemma WellCutCons(op: Operation, rest: seq<Operation>, limit: nat)
    requires WellCut(rest, limit) && !op.NoOperation?
    requires op.Gather? ==> 0 < |op.bufs| <= limit && op.total == |Flat(OpItems(op))|
    requires op.Gather? && |op.bufs| < limit && rest != [] ==> rest[0].SendFile?
    ensures WellCut([op] + rest, limit)
  {
    var ops := [op] + rest;
    forall i | 1 <= i < |ops|
      ensures ops[i] == rest[i - 1] && (i + 1 < |ops| ==> ops[i + 1] == rest[i])
    {
    }
  }

  lemma FlatSnoc(items: seq<Item>, from: nat, to: nat)
    requires from <= to < |items|
    ensures Flat(items[from..to + 1]) == Flat(items[from..to]) + items[to].data
  {
    FlatConcat(items[from..to], [items[to]]);
    assert items[from..to + 1] == items[from..to] + [items[to]];
    assert Flat([items[to]]) == items[to].data + Flat([items[to]][1..]);
  }

  /** The buffers of the items from `from` up to `end`, and their total size. */
  ghost predicate Collected(bufs: seq<seq<byte>>, total: nat, items: seq<Item>, from: nat, end: nat) {
    && from <= end <= |items| && |bufs| == end - from
    && (forall i | from <= i < end :: items[i].Trivial?)
    && bufs == Datas(items[from..end])
    && total == |Flat(items[from..end])|
  }

  lemma CollectNext(bufs: seq<seq<byte>>, total: nat, items: seq<Item>, from: nat, end: nat)
    requires Collected(bufs, total, items, from, end) && end < |items| && items[end].Trivial?
    ensures Collected(bufs + [items[end].data], total + |items[end].data|, items, from, end + 1)
  {
    FlatSnoc(items, from, end);
    assert items[from..end + 1] == items[from..end] + [items[end]];
    assert Datas(items[from..end + 1]) == Datas(items[from..end]) + [items[end].data];
  }

  /** Where the loop that fills the buffer vector stops, the operation is complete. */
  lemma CollectedAll(bufs: seq<seq<byte>>, total: nat, items: seq<Item>, from: nat, end: nat, limit: nat)
    requires Collected(bufs, total, items, from, end) && 0 < |bufs| <= limit
    requires |bufs| == limit || end == |items| || items[end].Sendfile?
    ensures NextOperation(items, from, limit) == Gather(bufs, total)
    ensures NextLength(items, from, limit) == end - from
  {
    assert end - from == GatherLength(items, from, limit);
  }

  /** `write_group_output_ctx_t`. */
  class OutputCtx {
    /** min( asio's max_iov_len, 64 ). */
    const limit: nat
    var current: Option<Group>
    var nextIndex: nat
    var asioBufs: seq<seq<byte>>

    ghost predicate Valid()
      reads this
    {
      0 < limit <= 64
    }

    constructor (maxIovLen: nat)
      requires 0 < maxIovLen
      ensures Valid() && current == None && nextIndex == 0
      ensures limit == if maxIovLen < 64 then maxIovLen else 64
    {
      limit := if maxIovLen < 64 then maxIovLen else 64;
      current, nextIndex, asioBufs := None, 0, [];
    }

    method StartNextWriteGroup(next: Group)
      requires Valid()
      modifies this`current
      ensures Valid() && current == Some(next)
    {
      current := Some(next);
    }

    /** `extract_next_write_operation`. */
    method ExtractNextWriteOperation() returns (op: Operation)
      requires Valid() && current.Some?
      modifies this`nextIndex, this`asioBufs
      ensures Valid()
      ensures op == NextOperation(current.value.items, old(nextIndex), limit)
      ensures nextIndex == old(nextIndex) + NextLength(current.value.items, old(nextIndex), limit)
    {
      if nextIndex < |current.value.items| {
        if current.value.items[nextIndex].Trivial? {
          op := PrepareTrivialBuffers();
        } else {
          op := SendFile(current.value.items[nextIndex].data);
          nextIndex := nextIndex + 1;
        }
      } else {
        op := NoOperation;
      }
    }

    /** `prepare_trivial_buffers_wo`: the loop that fills the buffer vector. */
    method PrepareTrivialBuffers() returns (op: Operation)
      requires Valid() && current.Some?
      requires nextIndex < |current.value.items| && current.value.items[nextIndex].Trivial?
      modifies this`nextIndex, this`asioBufs
      ensures Valid() && op.Gather?
      ensures op == NextOperation(current.value.items, old(nextIndex), limit)
      ensures nextIndex == old(nextIndex) + NextLength(current.value.items, old(nextIndex), limit)
    {
      asioBufs := [];
      var items := current.value.items;
      var totalSize: nat := 0;
      ghost var from := nextIndex;
      while nextIndex < |items| && items[nextIndex].Trivial? && limit > |asioBufs|
        invariant Collected(asioBufs, totalSize, items, from, nextIndex) && |asioBufs| <= limit
        decreases |items| - nextIndex
      {
        CollectNext(asioBufs, totalSize, items, from, nextIndex);
        var item := items[nextIndex];
        asioBufs := asioBufs + [item.data];
        totalSize := totalSize + |item.data|;
        nextIndex := nextIndex + 1;
      }
      op := Gather(asioBufs, totalSize);
      CollectedAll(asioBufs, totalSize, items, from, nextIndex, limit);
    }

    /** `finish_write_group`: the callback invoked with success, and everything reset. */
    method FinishWriteGroup() returns (notified: Option<nat>)
      requires Valid() && current.Some?
      modifies this`current, this`nextIndex
      ensures Valid() && current == None && nextIndex == 0
      ensures notified == old(current).value.notificator
    {
      notified := current.value.notificator;
      current, nextIndex := None, 0;
    }

    /** `fail_write_group`: the callback invoked with the error; the item index stays where it was. */
    method FailWriteGroup() returns (notified: Option<nat>)
      requires Valid() && current.Some?
      modifies this`current
      ensures Valid() && current == None
      ensures notified == old(current).value.notificator
    {
      notified := current.value.notificator;
      current := None;
    }
  }

  /** Extracting until no operation is left, as the loop that drives a group does. */
  method ExtractAll(out: OutputCtx) returns (ops: seq<Operation>)
    requires out.Valid() && out.current.Some?
    modifies out`nextIndex, out`asioBufs
    ensures out.Valid() && out.nextIndex >= |out.current.value.items|
    ensures ops == Extraction(out.current.value.items, old(out.nextIndex), out.limit)
    decreases |out.current.value.items| - out.nextIndex
  {
    var op := out.ExtractNextWriteOperation();
    if op.NoOperation? {
      ops := [];
    } else {
      var rest := ExtractAll(out);
      ops := [op] + rest;
    }
  }

  /** A whole group, from start to finish: its operations are its items, and the next group starts
      again at item 0. */
  method HandleWholeGroup(out: OutputCtx, wg: Group) returns (ops: seq<Operation>, notified: Option<nat>)
    requires out.Valid() && out.nextIndex == 0
    modifies out
    ensures out.Valid() && out.current == None && out.nextIndex == 0
    ensures AllItems(ops) == wg.items && WellCut(ops, out.limit) && notified == wg.notificator
  {
    out.StartNextWriteGroup(wg);
    ops := ExtractAll(out);
    ExtractionIsWellCut(wg.items, 0, out.limit);
    ExtractionCoversTheGroup(wg.items, 0, out.limit);
    assert wg.items[0..] == wg.items;
    notified := out.FinishWriteGroup();
  }
}
