/** The response builder for chunked output: chunks are collected, and every flush hands a write group
    with the encoded chunks to the connection. */
module ResponseBuilder {
  import opened Bytes
  import opened Buffers
  import opened ResponseContexts
  import opened Pipeline
  import opened Chunked

  /** What a builder is: its request, the header text it will send first, the chunks waiting, and the
      calls of `write_response_parts` made so far. `flushed` remembers the chunks already handed over. */
  datatype Builder = Builder(
    id: nat, header: seq<byte>, statusLine: nat, keepAlive: bool,
    chunks: seq<seq<byte>>, headerSent: bool, connected: bool,
    flushed: seq<seq<byte>>, sent: seq<Event>)

  function NewBuilder(id: nat, header: seq<byte>, statusLine: nat, keepAlive: bool): Builder {
    Builder(id, header, statusLine, keepAlive, [], false, true, [], [])
  }

  function OneChunkBufs(data: seq<byte>, first: bool): seq<Item> {
    [Trivial((if first then [] else CRLF) + Hex(|data|) + CRLF), Trivial(data)]
  }

  /** The buffers for the chunks: each size line but the first also ends the chunk before it. */
  function ChunkBufs(chunks: seq<seq<byte>>): seq<Item>
    decreases |chunks|
  {
    if |chunks| == 0 then []
    else
      var n := |chunks| - 1;
      ChunkBufs(chunks[..n]) + OneChunkBufs(chunks[n], n == 0)
  }

  function Appendix(chunks: seq<seq<byte>>, addZeroChunk: bool): seq<byte> {
    (if chunks == [] then [] else CRLF) + (if addZeroChunk then LAST_CHUNK else [])
  }

  function AppendixBufs(chunks: seq<seq<byte>>, addZeroChunk: bool): seq<Item> {
    if Appendix(chunks, addZeroChunk) == [] then [] else [Trivial(Appendix(chunks, addZeroChunk))]
  }

  /** `create_bufs`. */
  function Bufs(b: Builder, addZeroChunk: bool): seq<Item> {
    (if b.headerSent then [] else [Trivial(b.header)])
    + ChunkBufs(b.chunks) + AppendixBufs(b.chunks, addZeroChunk)
  }

  /** `append_chunk`: empty chunks are ignored. */
  function AppendChunk(b: Builder, data: seq<byte>): Builder {
    if |data| == 0 then b else b.(chunks := b.chunks + [data])
  }

  /** `send_ready_data`. */
  function SendReadyData(b: Builder, final: bool, notify: bool): Builder {
    var bufs := Bufs(b, final);
    var statusLine := if b.headerSent then 0 else b.statusLine;
    b.(chunks := [], flushed := b.flushed + b.chunks, headerSent := true,
       sent := if bufs != [] || notify
               then b.sent + [Parts(b.id, Flags(final, !b.keepAlive), bufs, statusLine, notify)]
               else b.sent)
  }

  function Flush(b: Builder, notify: bool): Builder {
    if b.connected then SendReadyData(b, false, notify) else b
  }

  /** `done`; it throws when it is called a second time, and changes nothing then. */
  function Done(b: Builder, notify: bool): Builder {
    if b.connected then SendReadyData(b, true, notify).(connected := false) else b
  }

  datatype Call = CallAppendChunk(data: seq<byte>) | CallFlush(notify: bool) | CallDone(notify: bool)

  function Apply(b: Builder, c: Call): Builder {
    match c
    case CallAppendChunk(data) => AppendChunk(b, data)
    case CallFlush(notify) => Flush(b, notify)
    case CallDone(notify) => Done(b, notify)
  }

  function ApplyAll(b: Builder, calls: seq<Call>): Builder
    decreases |calls|
  {
    if |calls| == 0 then b else Apply(ApplyAll(b, calls[..|calls| - 1]), calls[|calls| - 1])
  }

  /** The data of the calls before the first `done`, joined. */
  function Appended(calls: seq<Call>): seq<byte>
    decreases |calls|
  {
    if |calls| == 0 || calls[0].CallDone? then []
    else (if calls[0].CallAppendChunk? then calls[0].data else []) + Appended(calls[1..])
  }

  /** All bytes handed over by some calls of `write_response_parts`. */
  function SentBytes(sent: seq<Event>): seq<byte>
    requires forall i | 0 <= i < |sent| :: sent[i].Parts?
    decreases |sent|
  {
    if |sent| == 0 then []
    else SentBytes(sent[..|sent| - 1]) + Flat(sent[|sent| - 1].items)
  }

  // --- what is handed over ---

  lemma FlatPair(a: seq<byte>, b: seq<byte>)
    ensures Flat([Trivial(a), Trivial(b)]) == a + b
  {
    assert [Trivial(a), Trivial(b)][1..] == [Trivial(b)];
    FlatOne(b);
  }

  lemma FlatOne(a: seq<byte>)
    ensures Flat([Trivial(a)]) == a
  {
    assert [Trivial(a)][1..] == [];
    assert a + [] == a;
  }

  lemma {:induction false} ChunksSnoc(datas: seq<seq<byte>>, data: seq<byte>)
    ensures Chunks(datas + [data]) == Chunks(datas) + Chunk(data)
    decreases |datas|
  {
    if |datas| == 0 {
      assert (datas + [data])[1..] == [];
      assert Chunk(data) + [] == Chunk(data);
      assert [] + Chunk(data) == Chunk(data);
    } else {
      ChunksSnoc(datas[1..], data);
      assert (datas + [data])[1..] == datas[1..] + [data];
      Associative(Chunk(datas[0]), Chunks(datas[1..]), Chunk(data));
    }
  }

  lemma {:induction false} ChunksConcat(a: seq<seq<byte>>, b: seq<seq<byte>>)
    ensures Chunks(a + b) == Chunks(a) + Chunks(b)
    decreases |a|
  {
    if |a| == 0 {
      assert a + b == b;
      assert [] + Chunks(b) == Chunks(b);
    } else {
      ChunksConcat(a[1..], b);
      assert (a + b)[1..] == a[1..] + b;
      Associative(Chunk(a[0]), Chunks(a[1..]), Chunks(b));
    }
  }

  /** The size lines, the data and the pending line end together are the encoded chunks. */
  lemma {:induction false} ChunkBufsAreChunks(chunks: seq<seq<byte>>)
    ensures Flat(ChunkBufs(chunks)) + (if chunks == [] then [] else CRLF) == Chunks(chunks)
    decreases |chunks|
  {
    if |chunks| > 0 {
      var n := |chunks| - 1;
      var front, data := chunks[..n], chunks[n];
      assert chunks == front + [data];
      ChunkBufsAreChunks(front);
      ChunksSnoc(front, data);
      FlatConcat(ChunkBufs(front), OneChunkBufs(data, n == 0));
      var line := (if n == 0 then [] else CRLF) + Hex(|data|) + CRLF;
      FlatPair(line, data);
      OneMoreChunk(Flat(ChunkBufs(front)), if n == 0 then [] else CRLF, data);
      assert front == [] <==> n == 0;
    }
  }

  lemma OneMoreChunk(before: seq<byte>, pending: seq<byte>, data: seq<byte>)
    ensures (before + ((pending + Hex(|data|) + CRLF) + data)) + CRLF == (before + pending) + Chunk(data)
  {
    var size := Hex(|data|) + CRLF;
    Associative(pending, Hex(|data|), CRLF);
    Associative(pending, size, data);
    Associative(before, pending + (size + data), CRLF);
    Associative(pending, size + data, CRLF);
    Associative(before, pending, (size + data) + CRLF);
  }

  lemma {:induction false} BufsAreEncoding(b: Builder, addZeroChunk: bool)
    ensures Flat(Bufs(b, addZeroChunk))
         == (if b.headerSent then [] else b.header)
          + (Chunks(b.chunks) + (if addZeroChunk then LAST_CHUNK else []))
  {
    var head := if b.headerSent then [] else [Trivial(b.header)];
    var pending := if b.chunks == [] then [] else CRLF;
    var last := if addZeroChunk then LAST_CHUNK else [];
    FlatConcat(head + ChunkBufs(b.chunks), AppendixBufs(b.chunks, addZeroChunk));
    FlatConcat(head, ChunkBufs(b.chunks));
    FlatOne(b.header);
    FlatOne(Appendix(b.chunks, addZeroChunk));
    ChunkBufsAreChunks(b.chunks);
    var headBytes, chunkBytes := if b.headerSent then [] else b.header, Flat(ChunkBufs(b.chunks));
    assert Flat(head) == headBytes;
    Associative(headBytes, chunkBytes, pending + last);
    Associative(chunkBytes, pending, last);
  }

  // --- every run of calls ---

  /** Calls for this request only; what was handed over so far is the header, the flushed chunks, and
      the last chunk exactly when the response is done; waiting chunks are not empty. */
  ghost predicate Inv(b: Builder) {
    && (forall i | 0 <= i < |b.sent| :: b.sent[i].Parts? && b.sent[i].id == b.id)
    && SentBytes(b.sent)
    == (if b.headerSent then b.header else [])
     + (Chunks(b.flushed) + (if b.connected then [] else LAST_CHUNK))
    && (forall i | 0 <= i < |b.chunks| :: b.chunks[i] != [])
    && (forall i | 0 <= i < |b.flushed| :: b.flushed[i] != [])
    && (!b.headerSent ==> b.flushed == [] && b.connected)
    && (forall i | 0 <= i < |b.sent| :: b.sent[i].flags.final <==> (!b.connected && i == |b.sent| - 1))
    && (!b.connected ==> b.sent != [])
    && (forall i | 0 <= i < |b.sent| :: b.sent[i].flags.close <==> !b.keepAlive)
  }

  lemma SentBytesSnoc(sent: seq<Event>, e: Event)
    requires (forall i | 0 <= i < |sent| :: sent[i].Parts?) && e.Parts?
    ensures SentBytes(sent + [e]) == SentBytes(sent) + Flat(e.items)
  {
    assert (sent + [e])[..|sent|] == sent;
  }

  lemma SendBytes(b: Builder, final: bool, notify: bool)
    requires Inv(b) && b.connected
    ensures var r := SendReadyData(b, final, notify);
            && (forall i | 0 <= i < |r.sent| :: r.sent[i].Parts? && r.sent[i].id == b.id)
            && SentBytes(r.sent) == b.header + (Chunks(r.flushed) + (if final then LAST_CHUNK else []))
  {
    var r := SendReadyData(b, final, notify);
    var bufs, last := Bufs(b, final), if final then LAST_CHUNK else [];
    BufsAreEncoding(b, final);
    if bufs != [] || notify {
      SentBytesSnoc(b.sent, r.sent[|b.sent|]);
    } else {
      assert Flat(bufs) == [];
      assert SentBytes(b.sent) + [] == SentBytes(b.sent);
    }
    assert SentBytes(r.sent) == SentBytes(b.sent) + Flat(bufs);
    ChunksConcat(b.flushed, b.chunks);
    Joined(b.header, b.headerSent, Chunks(b.flushed), Chunks(b.chunks), last);
  }

  lemma Joined(header: seq<byte>, headerSent: bool, flushed: seq<byte>, chunks: seq<byte>, last: seq<byte>)
    requires !headerSent ==> flushed == []
    ensures ((if headerSent then header else []) + (flushed + []))
          + ((if headerSent then [] else header) + (chunks + last))
         == header + ((flushed + chunks) + last)
  {
    assert flushed + [] == flushed;
    if headerSent {
      assert [] + (chunks + last) == chunks + last;
      Associative(header, flushed, chunks + last);
      Associative(flushed, chunks, last);
    } else {
      assert flushed + chunks == chunks;
    }
  }

  lemma AppendChunkInv(b: Builder, data: seq<byte>)
    requires Inv(b)
    ensures Inv(AppendChunk(b, data))
  {
  }

  lemma FlushInv(b: Builder, notify: bool)
    requires Inv(b) && b.connected
    ensures Inv(SendReadyData(b, false, notify))
  {
    var r := SendReadyData(b, false, notify);
    SendBytes(b, false, notify);
    assert forall i | 0 <= i < |b.sent| :: r.sent[i] == b.sent[i];
  }

  lemma DoneInv(b: Builder, notify: bool)
    requires Inv(b) && b.connected
    ensures Inv(SendReadyData(b, true, notify).(connected := false))
  {
    var r := SendReadyData(b, true, notify);
    SendBytes(b, true, notify);
    BufsNotEmpty(b);
    assert forall i | 0 <= i < |b.sent| :: r.sent[i] == b.sent[i];
  }

  lemma ApplyInv(b: Builder, c: Call)
    requires Inv(b)
    ensures Inv(Apply(b, c))
  {
    match c
    case CallAppendChunk(data) =>
      AppendChunkInv(b, data);
    case CallFlush(notify) =>
      if b.connected {
        FlushInv(b, notify);
      }
    case CallDone(notify) =>
      if b.connected {
        DoneInv(b, notify);
      }
  }

  lemma BufsNotEmpty(b: Builder)
    ensures Bufs(b, true) != []
  {
    assert Appendix(b.chunks, true) != [] by {
      assert |LAST_CHUNK| == 5;
    }
    assert |AppendixBufs(b.chunks, true)| == 1;
  }

  lemma {:induction false} ApplyAllInv(id: nat, header: seq<byte>, statusLine: nat, keepAlive: bool, calls: seq<Call>)
    ensures var b := ApplyAll(NewBuilder(id, header, statusLine, keepAlive), calls);
            Inv(b) && b.keepAlive == keepAlive
    decreases |calls|
  {
    if |calls| > 0 {
      ApplyAllInv(id, header, statusLine, keepAlive, calls[..|calls| - 1]);
      ApplyInv(ApplyAll(NewBuilder(id, header, statusLine, keepAlive), calls[..|calls| - 1]), calls[|calls| - 1]);
    }
  }

  lemma ConcatSnoc(datas: seq<seq<byte>>, data: seq<byte>)
    ensures Concat(datas + [data]) == Concat(datas) + data
    decreases |datas|
  {
    if |datas| == 0 {
      assert (datas + [data])[1..] == [];
      assert data + [] == data;
    } else {
      ConcatSnoc(datas[1..], data);
      assert (datas + [data])[1..] == datas[1..] + [data];
      Associative(datas[0], Concat(datas[1..]), data);
    }
  }

  predicate DoneIn(calls: seq<Call>) {
    exists i | 0 <= i < |calls| :: calls[i].CallDone?
  }

  lemma {:induction false} AppendedSnoc(calls: seq<Call>, c: Call)
    ensures Appended(calls + [c])
         == Appended(calls) + (if !DoneIn(calls) && c.CallAppendChunk? then c.data else [])
    decreases |calls|
  {
    if |calls| == 0 {
      assert (calls + [c])[1..] == [];
    } else {
      assert (calls + [c])[1..] == calls[1..] + [c];
      if !calls[0].CallDone? {
        AppendedSnoc(calls[1..], c);
        assert DoneIn(calls) <==> DoneIn(calls[1..]) by {
          if DoneIn(calls) {
            var i :| 0 <= i < |calls| && calls[i].CallDone?;
            assert calls[1..][i - 1].CallDone?;
          }
        }
      }
    }
  }

  /** The chunks, flushed and waiting, are the data appended before `done`. */
  ghost predicate Carries(b: Builder, calls: seq<Call>) {
    && b.connected == !DoneIn(calls)
    && (b.connected ==> Concat(b.flushed + b.chunks) == Appended(calls))
    && (!b.connected ==> Concat(b.flushed) == Appended(calls))
  }

  lemma {:induction false} DoneInSnoc(calls: seq<Call>, c: Call)
    ensures DoneIn(calls + [c]) <==> DoneIn(calls) || c.CallDone?
  {
    if DoneIn(calls) {
      var i :| 0 <= i < |calls| && calls[i].CallDone?;
      assert (calls + [c])[i].CallDone?;
    }
    assert (calls + [c])[|calls|] == c;
  }

  lemma {:induction false} CarriesMore(b: Builder, calls: seq<Call>, c: Call)
    requires Carries(b, calls)
    ensures Carries(Apply(b, c), calls + [c])
    ensures Apply(b, c).id == b.id && Apply(b, c).header == b.header
  {
    AppendedSnoc(calls, c);
    DoneInSnoc(calls, c);
    if c.CallAppendChunk? {
      ConcatSnoc(b.flushed + b.chunks, c.data);
      assert (b.flushed + b.chunks) + [c.data] == b.flushed + (b.chunks + [c.data]);
    } else {
      assert (b.flushed + b.chunks) + [] == b.flushed + b.chunks;
    }
  }

  lemma {:induction false} ChunksAreAppended(id: nat, header: seq<byte>, statusLine: nat, keepAlive: bool,
      calls: seq<Call>)
    ensures var b := ApplyAll(NewBuilder(id, header, statusLine, keepAlive), calls);
            Carries(b, calls) && b.id == id && b.header == header
    decreases |calls|
  {
    if |calls| > 0 {
      var n := |calls| - 1;
      assert calls == calls[..n] + [calls[n]];
      ChunksAreAppended(id, header, statusLine, keepAlive, calls[..n]);
      CarriesMore(ApplyAll(NewBuilder(id, header, statusLine, keepAlive), calls[..n]), calls[..n], calls[n]);
    }
  }

  /** Section 4.1 of RFC 7230, for every sequence of `append_chunk` and `flush` calls that contains a
      `done`: the buffers handed over are the header and a body that reads, under the chunked grammar,
      as the appended data in order, with no empty chunk before the last one and nothing after it. */
  lemma {:induction false} DecodesToAppendedData(
    id: nat, header: seq<byte>, statusLine: nat, keepAlive: bool, calls: seq<Call>, rest: seq<byte>)
    requires DoneIn(calls)
    ensures var b := ApplyAll(NewBuilder(id, header, statusLine, keepAlive), calls);
            && (forall i | 0 <= i < |b.sent| :: b.sent[i].Parts?)
            && header <= SentBytes(b.sent)
            && var body := ReadBody(SentBytes(b.sent)[|header|..] + rest);
               && body.Body? && body.rest == rest
               && Concat(body.datas) == Appended(calls)
               && forall i | 0 <= i < |body.datas| :: body.datas[i] != []
  {
    var b := ApplyAll(NewBuilder(id, header, statusLine, keepAlive), calls);
    ApplyAllInv(id, header, statusLine, keepAlive, calls);
    ChunksAreAppended(id, header, statusLine, keepAlive, calls);
    ReadBackChunks(b.flushed, rest);
    assert SentBytes(b.sent)[|header|..] == Chunks(b.flushed) + LAST_CHUNK;
  }

  /** A flush leaves nothing waiting: all that was appended so far is handed over, behind the header. */
  lemma {:induction false} FlushSendsAll(
    id: nat, header: seq<byte>, statusLine: nat, keepAlive: bool, calls: seq<Call>, notify: bool)
    requires !DoneIn(calls)
    ensures var b := ApplyAll(NewBuilder(id, header, statusLine, keepAlive), calls + [CallFlush(notify)]);
            && (forall i | 0 <= i < |b.sent| :: b.sent[i].Parts? && !b.sent[i].flags.final)
            && b.chunks == [] && Concat(b.flushed) == Appended(calls)
            && SentBytes(b.sent) == header + Chunks(b.flushed)
  {
    var longer := calls + [CallFlush(notify)];
    assert longer[..|calls|] == calls;
    ApplyAllInv(id, header, statusLine, keepAlive, longer);
    ChunksAreAppended(id, header, statusLine, keepAlive, calls);
    ChunksAreAppended(id, header, statusLine, keepAlive, longer);
    AppendedSnoc(calls, CallFlush(notify));
    DoneInSnoc(calls, CallFlush(notify));
    var b := ApplyAll(NewBuilder(id, header, statusLine, keepAlive), longer);
    assert b.flushed + [] == b.flushed && Chunks(b.flushed) + [] == Chunks(b.flushed);
  }

  /** How many callbacks were asked for, up to and including the first `done`. */
  function AskedFor(calls: seq<Call>): nat
    decreases |calls|
  {
    if |calls| == 0 then 0
    else
      var c, front := calls[|calls| - 1], calls[..|calls| - 1];
      AskedFor(front) + if !DoneIn(front) && !c.CallAppendChunk? && c.notify then 1 else 0
  }

  function HandedOver(sent: seq<Event>): nat
    decreases |sent|
  {
    if |sent| == 0 then 0
    else
      var e := sent[|sent| - 1];
      HandedOver(sent[..|sent| - 1]) + if e.Parts? && e.notify then 1 else 0
  }

  lemma HandedOverSnoc(sent: seq<Event>, e: Event)
    ensures HandedOver(sent + [e]) == HandedOver(sent) + if e.Parts? && e.notify then 1 else 0
  {
    assert (sent + [e])[..|sent|] == sent;
  }

  lemma HandOver(b: Builder, c: Call)
    ensures HandedOver(Apply(b, c).sent)
         == HandedOver(b.sent) + if b.connected && !c.CallAppendChunk? && c.notify then 1 else 0
  {
    var r := Apply(b, c);
    if |r.sent| > |b.sent| {
      HandedOverSnoc(b.sent, r.sent[|b.sent|]);
    }
  }

  /** No callback is lost and none is added: each one asked for comes with a submission of its own. */
  lemma {:induction false} CallbacksAreHandedOver(
    id: nat, header: seq<byte>, statusLine: nat, keepAlive: bool, calls: seq<Call>)
    ensures HandedOver(ApplyAll(NewBuilder(id, header, statusLine, keepAlive), calls).sent) == AskedFor(calls)
    decreases |calls|
  {
    if |calls| > 0 {
      var c, front := calls[|calls| - 1], calls[..|calls| - 1];
      CallbacksAreHandedOver(id, header, statusLine, keepAlive, front);
      ChunksAreAppended(id, header, statusLine, keepAlive, front);
      HandOver(ApplyAll(NewBuilder(id, header, statusLine, keepAlive), front), c);
    }
  }

  /** The status line goes with the first submission only. */
  ghost predicate Labelled(b: Builder) {
    && (b.headerSent <==> b.sent != [])
    && forall i | 0 <= i < |b.sent| ::
         b.sent[i].Parts? && b.sent[i].statusLine == if i == 0 then b.statusLine else 0
  }

  lemma LabelledNext(b: Builder, c: Call)
    requires Labelled(b)
    ensures Labelled(Apply(b, c)) && Apply(b, c).statusLine == b.statusLine
  {
    var r := Apply(b, c);
    assert b.sent <= r.sent;
    assert !b.headerSent ==> Bufs(b, true) != [] && Bufs(b, false) != [];
  }

  lemma {:induction false} StatusLineComesFirst(
    id: nat, header: seq<byte>, statusLine: nat, keepAlive: bool, calls: seq<Call>)
    ensures var b := ApplyAll(NewBuilder(id, header, statusLine, keepAlive), calls);
            Labelled(b) && b.statusLine == statusLine
    decreases |calls|
  {
    if |calls| > 0 {
      var front := calls[..|calls| - 1];
      StatusLineComesFirst(id, header, statusLine, keepAlive, front);
      LabelledNext(ApplyAll(NewBuilder(id, header, statusLine, keepAlive), front), calls[|calls| - 1]);
    }
  }
}
