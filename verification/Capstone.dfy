/** The layers together: handlers answer pipelined requests with chunked responses, their calls reach
    the connection interleaved in any way, and the client reads back what each of them appended. */
module Capstone {
  import opened Bytes
  import opened Pipeline
  import opened Delivery
  import opened Guarantees
  import opened Progress
  import opened Chunked
  import opened ResponseBuilder

  /** One handler: the header it sends and the calls it makes on its builder. */
  datatype Handler = Handler(header: seq<byte>, statusLine: nat, keepAlive: bool, calls: seq<Call>) {
    function Built(id: nat): Builder {
      ApplyAll(NewBuilder(id, header, statusLine, keepAlive), calls)
    }
  }

  /** The parts accepted for request `id` are exactly `sent`, in order, whatever lies between them. */
  ghost predicate Matches(log: seq<Submission>, id: nat, sent: seq<Event>)
    decreases |log|
  {
    if |log| == 0 then sent == []
    else
      var x, front := log[|log| - 1], log[..|log| - 1];
      if For(x, id) then
        && sent != []
        && var e := sent[|sent| - 1];
           e.Parts? && e.flags == x.flags && e.items == x.items && Matches(front, id, sent[..|sent| - 1])
      else
        Matches(front, id, sent)
  }

  lemma {:induction false} MatchesResponse(log: seq<Submission>, id: nat, sent: seq<Event>)
    requires Matches(log, id, sent) && forall i | 0 <= i < |sent| :: sent[i].Parts?
    ensures Response(log, id) == SentBytes(sent)
    ensures sent != [] ==> FlagsOf(log, id) == sent[|sent| - 1].flags
    decreases |log|
  {
    if |log| > 0 {
      var x, front := log[|log| - 1], log[..|log| - 1];
      if For(x, id) {
        MatchesResponse(front, id, sent[..|sent| - 1]);
      } else {
        MatchesResponse(front, id, sent);
      }
    }
  }

  datatype Reading = Undecodable | Decoded(bodies: seq<seq<byte>>, rest: seq<byte>)

  function PrependBody(body: seq<byte>, r: Reading): Reading {
    if r.Decoded? then Decoded([body] + r.bodies, r.rest) else r
  }

  /** What a client does: after each expected header, read one chunked body. */
  function ReadResponses(wire: seq<byte>, handlers: seq<Handler>): Reading
    decreases |handlers|
  {
    if |handlers| == 0 then Decoded([], wire)
    else if !(handlers[0].header <= wire) then Undecodable
    else
      match ReadBody(wire[|handlers[0].header|..])
      case Malformed => Undecodable
      case Body(datas, rest) => PrependBody(Concat(datas), ReadResponses(rest, handlers[1..]))
  }

  function AppendedBy(handlers: seq<Handler>): (r: seq<seq<byte>>)
    ensures |r| == |handlers|
    decreases |handlers|
  {
    if |handlers| == 0 then [] else [Appended(handlers[0].calls)] + AppendedBy(handlers[1..])
  }

  /** The handler of request `k` is done, and the connection accepted all its calls. */
  ghost predicate Accepted(hd: Handler, log: seq<Submission>, k: nat) {
    DoneIn(hd.calls) && Matches(log, k, hd.Built(k).sent)
  }

  /** The same for the handlers of the requests from `from` on. */
  ghost predicate AllAccepted(handlers: seq<Handler>, log: seq<Submission>, from: nat) {
    forall k | 0 <= k < |handlers| :: Accepted(handlers[k], log, from + k)
  }

  lemma HandlerIsFinal(hd: Handler, log: seq<Submission>, k: nat)
    requires Accepted(hd, log, k)
    ensures FlagsOf(log, k).final && (FlagsOf(log, k).close <==> !hd.keepAlive)
  {
    ApplyAllInv(k, hd.header, hd.statusLine, hd.keepAlive, hd.calls);
    ChunksAreAppended(k, hd.header, hd.statusLine, hd.keepAlive, hd.calls);
    DecodesToAppendedData(k, hd.header, hd.statusLine, hd.keepAlive, hd.calls, []);
    MatchesResponse(log, k, hd.Built(k).sent);
  }

  lemma HandlerResponse(hd: Handler, log: seq<Submission>, k: nat, rest: seq<byte>)
    requires Accepted(hd, log, k)
    ensures hd.header <= Response(log, k)
    ensures var body := ReadBody((Response(log, k) + rest)[|hd.header|..]);
            body.Body? && body.rest == rest && Concat(body.datas) == Appended(hd.calls)
  {
    DecodesToAppendedData(k, hd.header, hd.statusLine, hd.keepAlive, hd.calls, rest);
    MatchesResponse(log, k, hd.Built(k).sent);
    DropFromSum(Response(log, k), |hd.header|, rest);
  }

  lemma DropFromSum(a: seq<byte>, n: nat, rest: seq<byte>)
    requires n <= |a|
    ensures (a + rest)[n..] == a[n..] + rest
  {
  }

  /** One response and what follows it, read by a client. */
  lemma ReadNext(handlers: seq<Handler>, log: seq<Submission>, k: nat, tail: seq<byte>)
    requires |handlers| > 0 && Accepted(handlers[0], log, k)
    ensures ReadResponses(Response(log, k) + tail, handlers)
         == PrependBody(Appended(handlers[0].calls), ReadResponses(tail, handlers[1..]))
  {
    HandlerResponse(handlers[0], log, k, tail);
  }

  /** The responses from `from` on, read one after another. */
  function From(log: seq<Submission>, from: nat, upTo: nat): seq<byte>
    requires from <= upTo
    decreases upTo - from
  {
    if from == upTo then [] else Response(log, from) + From(log, from + 1, upTo)
  }

  lemma {:induction false} FromSnoc(log: seq<Submission>, from: nat, upTo: nat)
    requires from <= upTo
    ensures From(log, from, upTo + 1) == From(log, from, upTo) + Response(log, upTo)
    decreases upTo - from
  {
    if from < upTo {
      FromSnoc(log, from + 1, upTo);
      Associative(Response(log, from), From(log, from + 1, upTo), Response(log, upTo));
    } else {
      assert Response(log, upTo) + [] == [] + Response(log, upTo);
    }
  }

  lemma {:induction false} FromIsFirst(log: seq<Submission>, k: nat)
    ensures From(log, 0, k) == FirstResponses(log, k)
  {
    if k > 0 {
      FromIsFirst(log, k - 1);
      FromSnoc(log, 0, k - 1);
    }
  }

  lemma ReadStep(handlers: seq<Handler>, log: seq<Submission>, k: nat, later: seq<byte>, rest: seq<byte>)
    requires |handlers| > 0 && Accepted(handlers[0], log, k)
    requires ReadResponses(later + rest, handlers[1..]) == Decoded(AppendedBy(handlers[1..]), rest)
    ensures ReadResponses(Response(log, k) + later + rest, handlers) == Decoded(AppendedBy(handlers), rest)
  {
    ReadNext(handlers, log, k, later + rest);
    Associative(Response(log, k), later, rest);
  }

  lemma {:induction false} ReadFrom(handlers: seq<Handler>, log: seq<Submission>, from: nat, upTo: nat, rest: seq<byte>)
    requires upTo == from + |handlers| && AllAccepted(handlers, log, from)
    ensures ReadResponses(From(log, from, upTo) + rest, handlers) == Decoded(AppendedBy(handlers), rest)
    decreases |handlers|
  {
    if |handlers| == 0 {
      assert [] + rest == rest;
    } else {
      TailAccepted(handlers, log, from);
      ReadFrom(handlers[1..], log, from + 1, upTo, rest);
      ReadStep(handlers, log, from, From(log, from + 1, upTo), rest);
    }
  }

  lemma TailAccepted(handlers: seq<Handler>, log: seq<Submission>, from: nat)
    requires |handlers| > 0 && AllAccepted(handlers, log, from)
    ensures AllAccepted(handlers[1..], log, from + 1) && Accepted(handlers[0], log, from)
  {
    assert Accepted(handlers[0], log, from + 0);
    var tail := handlers[1..];
    forall k | 0 <= k < |tail|
      ensures Accepted(tail[k], log, from + 1 + k)
    {
      assert Accepted(handlers[k + 1], log, from + (k + 1));
    }
  }

  lemma FirstAccepted(handlers: seq<Handler>, log: seq<Submission>, m: nat)
    requires m <= |handlers| && AllAccepted(handlers, log, 0)
    ensures AllAccepted(handlers[..m], log, 0)
  {
  }

  lemma {:induction false} ReadWire(handlers: seq<Handler>, log: seq<Submission>, wire: seq<byte>, m: nat)
    requires m <= |handlers| && AllAccepted(handlers, log, 0) && FirstResponses(log, m) <= wire
    ensures ReadResponses(wire, handlers[..m])
         == Decoded(AppendedBy(handlers[..m]), wire[|FirstResponses(log, m)|..])
  {
    FromIsFirst(log, m);
    var rest := wire[|FirstResponses(log, m)|..];
    FirstAccepted(handlers, log, m);
    ReadFrom(handlers[..m], log, 0, m, rest);
    assert wire == FirstResponses(log, m) + rest;
  }

  /** Handlers whose calls were accepted have a request. */
  lemma {:induction false} OnlyKnownRequests(s: Conn, handlers: seq<Handler>, m: nat)
    requires Heads(s) && m <= |handlers| && AllAccepted(handlers, s.h.log, 0)
    ensures m <= s.coord.nextId
  {
    if m > s.coord.nextId {
      assert Accepted(handlers[m - 1], s.h.log, 0 + (m - 1));
      HandlerIsFinal(handlers[m - 1], s.h.log, m - 1);
      NothingBeyond(s.h.log, s.coord.nextId, m - 1);
    }
  }

  /** In every reachable state: as soon as the first m responses are on the wire, the client reads from
      it, in request order, exactly what the first m handlers appended. */
  lemma {:induction false} ClientReadsWhatHandlersAppended(
    capacity: nat, limit: nat, events: seq<Event>, handlers: seq<Handler>, m: nat)
    requires limit > 0 && m <= |handlers|
    requires AllAccepted(handlers, After(capacity, limit, events).h.log, 0)
    requires var h := After(capacity, limit, events).h;
             |h.wire| >= |FirstResponses(h.log, m)|
    ensures var h := After(capacity, limit, events).h;
            ReadResponses(h.wire, handlers[..m])
            == Decoded(AppendedBy(handlers[..m]), h.wire[|FirstResponses(h.log, m)|..])
  {
    var s := After(capacity, limit, events);
    var log, wire := s.h.log, s.h.wire;
    ResponsesInOrder(capacity, limit, events, 0);
    RunInv(capacity, limit, events);
    OnlyKnownRequests(s, handlers, m);
    FirstResponsesGrow(log, m, s.coord.nextId);
    PrefixByLength(FirstResponses(log, m), wire, FirstResponses(log, s.coord.nextId));
    ReadWire(handlers, log, wire, m);
  }

  /** When all requests are answered and the connection is idle, the wire is exactly these responses. */
  lemma {:induction false} IdleClientReadsEverything(capacity: nat, limit: nat, events: seq<Event>,
      handlers: seq<Handler>)
    requires limit > 0 && Idle(After(capacity, limit, events))
    requires |handlers| == After(capacity, limit, events).coord.nextId
    requires AllAccepted(handlers, After(capacity, limit, events).h.log, 0)
    ensures ReadResponses(After(capacity, limit, events).h.wire, handlers) == Decoded(AppendedBy(handlers), [])
  {
    var s := After(capacity, limit, events);
    var log, n := s.h.log, |handlers|;
    NeverStalls(capacity, limit, events);
    RunInv(capacity, limit, events);
    if s.h.head < n {
      assert Accepted(handlers[s.h.head], log, 0 + s.h.head);
      HandlerIsFinal(handlers[s.h.head], log, s.h.head);
    }
    assert s.h.head == n;
    NothingBeyond(log, n, n);
    assert FirstResponses(log, n + 1) == FirstResponses(log, n) + [];
    ClientReadsWhatHandlersAppended(capacity, limit, events, handlers, n);
    assert handlers[..n] == handlers;
  }

  /** How many handlers are heard: all up to and including the first one that closes the connection. */
  function Heard(handlers: seq<Handler>): (r: nat)
    ensures r <= |handlers|
    ensures (forall i | 0 <= i < |handlers| :: handlers[i].keepAlive) ==> r == |handlers|
    decreases |handlers|
  {
    if |handlers| == 0 then 0 else if handlers[0].keepAlive then 1 + Heard(handlers[1..]) else 1
  }

  lemma {:induction false} HeardIsAllowed(handlers: seq<Handler>, log: seq<Submission>, k: nat)
    requires AllAccepted(handlers, log, k)
    ensures Allowed(log, k, k + |handlers|) == k + Heard(handlers)
    decreases |handlers|
  {
    if |handlers| > 0 {
      TailAccepted(handlers, log, k);
      HandlerIsFinal(handlers[0], log, k);
      HeardIsAllowed(handlers[1..], log, k + 1);
    }
  }

  /** All that may be sent, read by a client. */
  lemma {:induction false} SendableIsHeard(handlers: seq<Handler>, log: seq<Submission>)
    requires AllAccepted(handlers, log, 0)
    ensures var heard := handlers[..Heard(handlers)];
            ReadResponses(Sendable(log, |handlers|), heard) == Decoded(AppendedBy(heard), [])
  {
    HeardIsAllowed(handlers, log, 0);
    var wire := FirstResponses(log, Heard(handlers));
    assert Sendable(log, |handlers|) == wire && wire[|wire|..] == [];
    ReadWire(handlers, log, wire, Heard(handlers));
  }

  /** From any state of an open connection in which all requests are answered: when the socket completes
      its operations, the client reads exactly what the handlers appended, in request order, up to and
      including the first handler that closes the connection. */
  lemma {:induction false} ClientGetsEverything(s: Conn, handlers: seq<Handler>, events: seq<Event>)
    requires WellFormed(s) && Reached(s) && s.open && OnlyCompletions(events) && |events| >= Work(s)
    requires |handlers| == s.coord.nextId && AllAccepted(handlers, s.h.log, 0)
    ensures var wire, heard := Run(s, events).h.wire, handlers[..Heard(handlers)];
            ReadResponses(wire, heard) == Decoded(AppendedBy(heard), [])
  {
    AllSendableIsSent(s, events);
    SendableIsHeard(handlers, s.h.log);
  }

  lemma OnlyDone(hd: Handler, k: nat)
    requires hd.calls == [CallDone(false)]
    ensures var sent := hd.Built(k).sent;
            && |sent| == 1 && sent[0].Parts? && sent[0].id == k && sent[0].items != [] && DoneIn(hd.calls)
  {
    assert hd.calls[..0] == [];
    var b := NewBuilder(k, hd.header, hd.statusLine, hd.keepAlive);
    assert ApplyAll(b, hd.calls[..0]) == b;
    assert hd.Built(k) == Done(b, false);
    assert |Bufs(b, true)| > 0;
  }

  lemma FirstRequest(capacity: nat, limit: nat)
    requires capacity > 0 && limit > 0
    ensures After(capacity, limit, [NewRequest]) == OnNewRequest(Init(capacity, limit))
  {
    assert [NewRequest][..0] == [];
    assert Run(Init(capacity, limit), []) == Init(capacity, limit);
  }

  lemma FirstPartsAreTaken(s: Conn, e: Event)
    requires e.Parts? && e.id == 0 && e.items != []
    requires s.limit > 0 && s.coord.capacity > 0 && s == OnNewRequest(Init(s.coord.capacity, s.limit))
    ensures var r := Step(s, e);
            && r.open && r.coord.nextId == 1
            && r.h.log == [Submission(0, e.flags, e.items, e.notify, true)]
  {
    StepLog(s, e);
    var t := Accept(s, 0, e.flags, e.items, e.statusLine, e.notify);
    assert StartGroup(t).out.current.value.items == e.items;
    assert Step(s, e) == InitWrite(t) == HandleCurrent(StartGroup(t)) == StartOperation(StartGroup(t));
  }

  /** A handler that only calls `done`, answering the first request of a connection. */
  lemma {:induction false} OneHandlerIsAccepted(capacity: nat, limit: nat, hd: Handler)
    requires capacity > 0 && limit > 0 && hd.calls == [CallDone(false)]
    ensures var s := After(capacity, limit, [NewRequest] + hd.Built(0).sent);
            s.open && s.coord.nextId == 1 && AllAccepted([hd], s.h.log, 0)
  {
    OnlyDone(hd, 0);
    var e := hd.Built(0).sent[0];
    var run := [NewRequest] + hd.Built(0).sent;
    assert run[..|run| - 1] == [NewRequest] && run[|run| - 1] == e;
    FirstRequest(capacity, limit);
    FirstPartsAreTaken(After(capacity, limit, [NewRequest]), e);
    var x := Submission(0, e.flags, e.items, e.notify, true);
    assert hd.Built(0).sent[..0] == [] && [x][..0] == [];
    assert Matches([x], 0, hd.Built(0).sent);
  }
}
