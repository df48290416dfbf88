/** The write half of a connection as a transition system: what every environment step does to the
    coordinator, to the group in transmission, and to the history that the properties speak of. */
module Pipeline {
  import opened Bytes
  import opened Buffers
  import opened ResponseContexts
  import opened Coordinator
  import opened WriteOutput

  /** One call of `write_response_parts` for request `id`, counted without a limit. Its after-write callback,
      if there is one, is named by the number of the call. `accepted` says that the coordinator took the parts. */
  datatype Submission =
    Submission(id: nat, flags: Flags, items: seq<Item>, notify: bool, accepted: bool)

  /** How a callback was invoked: with success, or with one of the errors. */
  datatype Status = Written | NotExecuted | DestroyedPassively | WriteFailed

  /** An invoked callback, and how many bytes had been written by then. */
  datatype Firing = Firing(token: nat, status: Status, at: nat)

  /** The group in transmission, the next item to extract, and how many items are in flight. */
  datatype Out = Out(current: Option<Group>, index: nat, inFlight: nat)

  /** What happened: all calls, the bytes written to the socket, the callbacks invoked, how many
      responses were given out completely, and the bytes given out of the one after them. */
  datatype History =
    History(log: seq<Submission>, wire: seq<byte>, fired: seq<Firing>, head: nat, taken: seq<byte>)

  datatype Conn = Conn(coord: Coord, out: Out, open: bool, limit: nat, h: History)

  function Init(capacity: nat, limit: nat): Conn {
    Conn(Coord(capacity, [], 0, false), Out(None, 0, 0), true, limit, History([], [], [], 0, []))
  }

  function Fire(h: History, notificator: Option<nat>, status: Status): History {
    if notificator.Some? then h.(fired := h.fired + [Firing(notificator.value, status, |h.wire|)]) else h
  }

  function FireAll(h: History, tokens: seq<nat>, status: Status): History
    decreases |tokens|
  {
    if |tokens| == 0 then h else FireAll(Fire(h, Some(tokens[0]), status), tokens[1..], status)
  }

  function Record(s: Conn, x: Submission): Conn {
    s.(h := s.h.(log := s.h.log + [x]))
  }

  function TokenOf(notify: bool, t: nat): Option<nat> {
    if notify then Some(t) else None
  }

  /** Parts that are not taken: their callback gets an error at once. */
  function Reject(s: Conn, x: Submission, status: Status): Conn {
    s.(h := Fire(s.h.(log := s.h.log + [x]), TokenOf(x.notify, |s.h.log|), status))
  }

  /** `close`: the socket is closed, all contexts are dropped, their callbacks get an error. */
  function Close(s: Conn): Conn {
    s.(open := false,
       coord := s.coord.(queue := []),
       h := FireAll(s.h, QueueTokens(s.coord.queue), NotExecuted))
  }

  /** The bytes of the operation in flight. */
  function InFlight(out: Out): seq<Item>
    requires out.current.Some? && out.inFlight <= out.index <= |out.current.value.items|
  {
    out.current.value.items[out.index - out.inFlight..out.index]
  }

  /** The first half of `init_write`: the oldest response's next group becomes the current one. */
  function StartGroup(s: Conn): Conn
    requires HasReady(s.coord)
  {
    var g, after := Ready(s.coord), Pop(s.coord);
    s.(coord := after,
       out := s.out.(current := Some(g)),
       h := if |after.queue| < |s.coord.queue| then s.h.(head := s.h.head + 1, taken := [])
            else s.h.(taken := s.h.taken + Flat(g.items)))
  }

  /** An operation is extracted and handed to the socket. */
  function StartOperation(s: Conn): Conn
    requires s.limit > 0 && s.out.current.Some? && s.out.index <= |s.out.current.value.items|
  {
    var n := NextLength(s.out.current.value.items, s.out.index, s.limit);
    s.(out := s.out.(index := s.out.index + n, inFlight := n))
  }

  /** `finish_write_group`. */
  function FinishGroup(s: Conn): Conn
    requires s.out.current.Some?
  {
    s.(out := Out(None, 0, 0), h := Fire(s.h, s.out.current.value.notificator, Written))
  }

  /** `fail_write_group`: the item index is not reset. */
  function FailGroup(s: Conn): Conn
    requires s.out.current.Some?
  {
    s.(out := s.out.(current := None, inFlight := 0),
       h := Fire(s.h, s.out.current.value.notificator, WriteFailed))
  }

  ghost predicate WellFormed(s: Conn) {
    && s.limit > 0
    && s.coord.Ok()
    && (s.out.current.Some? ==> s.out.inFlight <= s.out.index <= |s.out.current.value.items|)
    && (s.out.current.None? ==> s.out.inFlight == 0)
    && (HasReady(s.coord) ==> s.open)
    && (s.open && s.out.current.None? ==> s.out.index == 0)
  }

  lemma PopKeepsOk(c: Coord)
    requires c.Ok() && HasReady(c)
    ensures Pop(c).Ok() && Pop(c).nextId == c.nextId && Pop(c).capacity == c.capacity
    ensures |Pop(c).queue| == |c.queue| || Pop(c).queue == c.queue[1..]
  {
  }

  lemma StartGroupIsWellFormed(s: Conn)
    requires WellFormed(s) && HasReady(s.coord) && s.out.current.None?
    ensures WellFormed(StartGroup(s))
  {
    PopKeepsOk(s.coord);
  }

  lemma {:induction false} FireAllOnlyFires(h: History, tokens: seq<nat>, status: Status)
    ensures FireAll(h, tokens, status) == h.(fired := FireAll(h, tokens, status).fired)
    decreases |tokens|
  {
    if |tokens| > 0 {
      FireAllOnlyFires(Fire(h, Some(tokens[0]), status), tokens[1..], status);
    }
  }

  lemma CloseIsWellFormed(s: Conn)
    requires WellFormed(s)
    ensures WellFormed(Close(s))
  {
  }

  lemma StartOperationIsWellFormed(s: Conn)
    requires WellFormed(s) && s.out.current.Some?
    ensures WellFormed(StartOperation(s))
  {
  }

  /** `handle_current_write_ctx`: start the next operation, or finish the group and go on. Groups
      without items are handled one after another with no I/O; every one of them shortens the queue. */
  function HandleCurrent(s: Conn): (r: Conn)
    requires WellFormed(s) && s.out.current.Some? && s.out.inFlight == 0
    ensures WellFormed(r)
    decreases QueuedGroups(s.coord.queue), 1
  {
    if s.out.index < |s.out.current.value.items| then StartOperation(s)
    else
      var f := FinishGroup(s);
      if f.coord.closed then Close(f) else InitWrite(f)
  }

  /** `init_write`. */
  function InitWrite(s: Conn): (r: Conn)
    requires WellFormed(s) && s.out.current.None?
    ensures WellFormed(r)
    decreases QueuedGroups(s.coord.queue), 0
  {
    if HasReady(s.coord) then
      PopKeepsOk(s.coord);
      PopShrinks(s.coord);
      HandleCurrent(StartGroup(s))
    else s
  }

  datatype Event =
    | NewRequest
    | Parts(id: nat, flags: Flags, items: seq<Item>, statusLine: nat, notify: bool)
    | OperationDone
    | OperationFailed(written: nat)
    | OperationAborted(written: nat)
    | CloseNow

  /** `register_new_request`; on a full table it throws, and the connection is closed. */
  function OnNewRequest(s: Conn): (r: Conn)
    ensures WellFormed(s) ==> WellFormed(r)
  {
    if |s.coord.queue| < s.coord.capacity then s.(coord := Register(s.coord)) else Close(s)
  }

  /** `write_response_parts`, with the exception handler around it. The caller has a 32-bit id; the
      history names the request it stands for. */
  function OnParts(s: Conn, id: nat, flags: Flags, items: seq<Item>, statusLine: nat, notify: bool): (r: Conn)
    requires WellFormed(s)
    ensures WellFormed(r)
  {
    var request := s.coord.Resolve(id);
    if !s.open || s.coord.closed then
      Reject(s, Submission(request, flags, items, notify, false), NotExecuted)
    else if !AppendCheck(s.coord, id).Appended? then
      Close(Reject(s, Submission(request, flags, items, notify, false), DestroyedPassively))
    else
      var t := Accept(s, request, flags, items, statusLine, notify);
      if t.out.current.None? then InitWrite(t) else t
  }

  function Accept(s: Conn, id: nat, flags: Flags, items: seq<Item>, statusLine: nat, notify: bool): (t: Conn)
    requires WellFormed(s) && s.open && CanAppend(s.coord, id)
    ensures WellFormed(t)
  {
    var g := Group(items, statusLine, TokenOf(notify, |s.h.log|));
    Record(s.(coord := Append(s.coord, id, flags, g)), Submission(id, flags, items, notify, true))
  }

  /** Bytes reach the wire: all of the operation's, or those written before it failed. */
  function PutOnWire(s: Conn, written: nat): Conn
    requires WellFormed(s) && s.out.current.Some? && written <= |Flat(InFlight(s.out))|
  {
    s.(h := s.h.(wire := s.h.wire + Flat(InFlight(s.out))[..written]))
  }

  function OperationWritten(s: Conn): (r: Conn)
    requires WellFormed(s) && s.out.current.Some?
    ensures WellFormed(r)
  {
    PutOnWire(s, |Flat(InFlight(s.out))|).(out := s.out.(inFlight := 0))
  }

  /** The operation fails after some bytes: the connection is closed, then the group is given up. */
  function Failed(s: Conn, written: nat): (r: Conn)
    requires WellFormed(s) && s.out.current.Some? && written <= |Flat(InFlight(s.out))|
    ensures WellFormed(r)
  {
    FailGroup(Close(PutOnWire(s, written)))
  }

  /** The operation is aborted by an earlier close. */
  function Aborted(s: Conn, written: nat): (r: Conn)
    requires WellFormed(s) && s.out.current.Some? && written <= |Flat(InFlight(s.out))| && !s.open
    ensures WellFormed(r)
  {
    FailGroup(PutOnWire(s, written))
  }

  /** An asynchronous operation ends only when one is in flight; it is aborted only after `close`. */
  predicate Enabled(s: Conn, e: Event)
    requires WellFormed(s)
  {
    var busy := s.out.current.Some? && s.out.inFlight > 0;
    match e
    case OperationDone => busy
    case OperationFailed(n) => busy && n <= |Flat(InFlight(s.out))|
    case OperationAborted(n) => busy && !s.open && n <= |Flat(InFlight(s.out))|
    case _ => true
  }

  /** One step; a step that is not enabled changes nothing. */
  function Step(s: Conn, e: Event): (r: Conn)
    requires WellFormed(s)
    ensures WellFormed(r)
  {
    if !Enabled(s, e) then s
    else
      match e
      case NewRequest => OnNewRequest(s)
      case Parts(id, flags, items, statusLine, notify) => OnParts(s, id, flags, items, statusLine, notify)
      case OperationDone => HandleCurrent(OperationWritten(s))
      case OperationFailed(n) => Failed(s, n)
      case OperationAborted(n) => Aborted(s, n)
      case CloseNow => Close(s)
  }

  function Run(s: Conn, events: seq<Event>): (r: Conn)
    requires WellFormed(s)
    ensures WellFormed(r)
    decreases |events|
  {
    if |events| == 0 then s else Step(Run(s, events[..|events| - 1]), events[|events| - 1])
  }

  /** The connection object goes away: whatever callback is still held is invoked by a destructor. */
  function Destroy(s: Conn): Conn {
    var h := FireAll(s.h, QueueTokens(s.coord.queue), DestroyedPassively);
    var notificator := if s.out.current.Some? then s.out.current.value.notificator else None;
    s.(open := false, coord := s.coord.(queue := []), out := Out(None, 0, 0),
       h := Fire(h, notificator, DestroyedPassively))
  }
}
