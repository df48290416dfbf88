/** The builder object for chunked output, proved against the builder functions. */
module ChunkedOutput {
  import opened Bytes
  import opened Buffers
  import opened ResponseContexts
  import opened Pipeline
  import opened Chunked
  import ResponseBuilder

  /** `response_builder_t< chunked_output_t >`. */
  class ChunkedBuilder {
    const id: nat
    const header: seq<byte>
    const statusLine: nat
    const keepAlive: bool
    var chunks: seq<seq<byte>>
    var headerWasSent: bool
    var connected: bool
    /** The calls of `write_response_parts` made on the connection. */
    var sent: seq<Event>
    ghost var flushed: seq<seq<byte>>

    ghost function Abs(): ResponseBuilder.Builder
      reads this
    {
      ResponseBuilder.Builder(id, header, statusLine, keepAlive, chunks, headerWasSent, connected, flushed, sent)
    }

    constructor (id: nat, header: seq<byte>, statusLine: nat, keepAlive: bool)
      ensures Abs() == ResponseBuilder.NewBuilder(id, header, statusLine, keepAlive)
    {
      this.id, this.header, this.statusLine, this.keepAlive := id, header, statusLine, keepAlive;
      chunks, headerWasSent, connected, sent, flushed := [], false, true, [], [];
    }

    method AppendChunk(data: seq<byte>)
      modifies this
      ensures Abs() == ResponseBuilder.AppendChunk(old(Abs()), data)
    {
      if 0 != |data| {
        chunks := chunks + [data];
      }
    }

    method Flush(notify: bool)
      modifies this
      ensures Abs() == ResponseBuilder.Flush(old(Abs()), notify)
    {
      if connected {
        SendReadyData(false, notify);
      }
    }

    /** Not `ok` stands for the exception of a second call. */
    method Done(notify: bool) returns (ok: bool)
      modifies this
      ensures Abs() == ResponseBuilder.Done(old(Abs()), notify) && ok == old(connected)
    {
      ok := connected;
      if connected {
        connected := false;
        SendReadyData(true, notify);
      }
    }

    method SendReadyData(final: bool, notify: bool)
      modifies this
      ensures Abs() == ResponseBuilder.SendReadyData(old(Abs()), final, notify)
    {
      var size := if headerWasSent then 0 else statusLine;
      ghost var ready := chunks;
      var bufs := CreateBufs(final);
      headerWasSent := true;
      flushed := flushed + ready;
      if bufs != [] || notify {
        sent := sent + [Parts(id, Flags(final, !keepAlive), bufs, size, notify)];
      }
    }

    /** `create_bufs`. */
    method CreateBufs(addZeroChunk: bool) returns (bufs: seq<Item>)
      modifies this`chunks
      ensures chunks == [] && bufs == ResponseBuilder.Bufs(old(Abs()), addZeroChunk)
    {
      bufs := if headerWasSent then [] else [Trivial(header)];
      bufs := PushChunks(bufs, chunks);
      var appendix: seq<byte> := if chunks == [] then [] else CRLF;
      if addZeroChunk {
        appendix := appendix + LAST_CHUNK;
      }
      assert appendix == ResponseBuilder.Appendix(chunks, addZeroChunk);
      if appendix != [] {
        bufs := bufs + [Trivial(appendix)];
      }
      chunks := [];
    }
  }

  /** The loop of `create_bufs`: it switches to the format with a leading CRLF after the first chunk. */
  method PushChunks(head: seq<Item>, chunks: seq<seq<byte>>) returns (bufs: seq<Item>)
    ensures bufs == head + ResponseBuilder.ChunkBufs(chunks)
  {
    bufs := head;
    var formatPrefix: seq<byte> := [];
    for i := 0 to |chunks|
      invariant bufs == head + ResponseBuilder.ChunkBufs(chunks[..i])
      invariant formatPrefix == if i == 0 then [] else CRLF
    {
      ChunkBufsSnoc(chunks, i);
      ghost var before := ResponseBuilder.ChunkBufs(chunks[..i]);
      bufs := bufs + [Trivial(formatPrefix + Hex(|chunks[i]|) + CRLF), Trivial(chunks[i])];
      assert bufs == head + (before + ResponseBuilder.OneChunkBufs(chunks[i], i == 0));
      formatPrefix := CRLF;
    }
    assert chunks[..|chunks|] == chunks;
  }

  lemma ChunkBufsSnoc(chunks: seq<seq<byte>>, i: nat)
    requires i < |chunks|
    ensures ResponseBuilder.ChunkBufs(chunks[..i + 1])
         == ResponseBuilder.ChunkBufs(chunks[..i]) + ResponseBuilder.OneChunkBufs(chunks[i], i == 0)
  {
    assert chunks[..i + 1][..i] == chunks[..i];
  }
}
