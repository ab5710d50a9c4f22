/** The socket's state machine on values: what each tick does to the state, the queues and the callbacks. */
module SocketSpec {

  datatype Option<+T> = None | Some(value: T)

  datatype IOStatus = Ok | WouldBlock | Fatal | Error | Eof

  datatype Phase = Idle | BindWait | Bound | ConnectWait | Connected | CloseWait | Closed {

    predicate Over() {
      CloseWait? || Closed?
    }
  }

  /** A request is known by the number of the tick that brought it. */
  type Id = nat

  type Peer = string

  type Data = seq<nat>

  /** One call of a request's callback; `about` is the endpoint or peer it is told. */
  datatype Answer = Answer(status: IOStatus, data: Data, about: string)

  function Plain(status: IOStatus): Answer {
    Answer(status, [], "")
  }

  /** All calls of callbacks so far, by request. */
  type Answers = map<Id, seq<Answer>>

  function Calls(answers: Answers, id: Id): seq<Answer> {
    if id in answers then answers[id] else []
  }

  function Give(answers: Answers, id: Id, a: Answer): Answers {
    answers[id := Calls(answers, id) + [a]]
  }

  function GiveEach(answers: Answers, ids: set<Id>, a: Answer): Answers {
    map id | id in answers.Keys + ids :: Calls(answers, id) + (if id in ids then [a] else [])
  }

  lemma CallsGiven(answers: Answers, ids: set<Id>, a: Answer, i: Id)
    ensures Calls(GiveEach(answers, ids, a), i) == Calls(answers, i) + if i in ids then [a] else []
  {
  }

  lemma GiveNone(answers: Answers, a: Answer)
    ensures GiveEach(answers, {}, a) == answers
  {
    var m := GiveEach(answers, {}, a);
    assert forall i <- answers :: m[i] == answers[i] + [] == answers[i];
  }

  lemma GiveOneMore(answers: Answers, ids: set<Id>, a: Answer, id: Id)
    requires id !in ids
    ensures Give(GiveEach(answers, ids, a), id, a) == GiveEach(answers, ids + {id}, a)
  {
    var m, n := Give(GiveEach(answers, ids, a), id, a), GiveEach(answers, ids + {id}, a);
    assert m.Keys == n.Keys;
    forall i | i in n
      ensures m[i] == n[i]
    {
      CallsGiven(answers, ids, a, i);
      CallsGiven(answers, ids + {id}, a, i);
    }
  }

  /** What the transport answers to one `resumeRead`: `n` is a `size_t`, so its `-1` is a large count. */
  datatype ReadResult = ReadResult(n: nat, status: IOStatus, data: Data, peer: Peer)

  const NOTHING := ReadResult(0, WouldBlock, [], "")

  const READ_LIMIT: nat := 1024

  /**
   * `readsIn` and `readsOut` record the reads accepted and the reads taken out of the queue, `dropped` those taken
   * out without an answer, `again` the writes answered a second time, and `shut` whether a close was carried out.
   */
  datatype Sock = Sock(
    phase: Phase, bindQ: seq<Id>, connectQ: seq<Id>, readQ: seq<Id>, writeQ: map<Peer, Id>, answers: Answers,
    readsIn: seq<Id>, readsOut: seq<Id>, dropped: seq<Id>, again: set<Id>, shut: bool)

  const NEW := Sock(Idle, [], [], [], map[], map[], [], [], [], {}, false)

  function Reply(s: Sock, id: Id, a: Answer): Sock {
    s.(answers := Give(s.answers, id, a))
  }

  // ---------- bind and connect ----------

  function OnBindReq(s: Sock, id: Id): Sock {
    if !s.phase.Idle? then Reply(s, id, Plain(Fatal))
    else s.(phase := BindWait, bindQ := s.bindQ + [id])
  }

  function OnBindRep(s: Sock, status: IOStatus, endpoint: string): Sock {
    if !s.phase.BindWait? || s.bindQ == [] then s
    else
      var popped := s.(bindQ := s.bindQ[1..], phase := if status.Ok? then Bound else Closed);
      Reply(popped, s.bindQ[0], Answer(status, [], if status.Ok? then endpoint else ""))
  }

  function OnConnectReq(s: Sock, id: Id): Sock {
    if !s.phase.Idle? then Reply(s, id, Plain(Fatal))
    else s.(phase := ConnectWait, connectQ := s.connectQ + [id])
  }

  function OnConnectRep(s: Sock, status: IOStatus): Sock {
    if !s.phase.ConnectWait? || s.connectQ == [] then s
    else
      var popped := s.(connectQ := s.connectQ[1..], phase := if status.Ok? then Connected else Closed);
      Reply(popped, s.connectQ[0], Plain(status))
  }

  // ---------- close ----------

  function Elements(ids: seq<Id>): set<Id> {
    set id | id in ids
  }

  function Head(ids: seq<Id>): set<Id> {
    if ids == [] then {} else {ids[0]}
  }

  /** The requests a close fails: those at the front of their queue, all queued reads, all pending writes. */
  function Pending(s: Sock): set<Id> {
    Head(s.bindQ) + Head(s.connectQ) + Elements(s.readQ) + s.writeQ.Values
  }

  /** Everything pending is answered with an error; bind, connect and write requests are not removed. */
  function FailPending(s: Sock): Sock {
    s.(answers := GiveEach(s.answers, Pending(s), Plain(Error)), readQ := [], readsOut := s.readsOut + s.readQ)
  }

  /** No request is pending twice; true of every run, as each request comes with a tick of its own. */
  ghost predicate PendingOnce(s: Sock) {
    && (forall j, k :: 0 <= j < k < |s.readQ| ==> s.readQ[j] != s.readQ[k])
    && (forall p, q :: p in s.writeQ && q in s.writeQ && s.writeQ[p] == s.writeQ[q] ==> p == q)
    && (forall i <- s.readQ :: i !in s.bindQ && i !in s.connectQ && i !in s.writeQ.Values)
    && (forall i <- s.bindQ :: i !in s.connectQ && i !in s.writeQ.Values)
    && (forall i <- s.connectQ :: i !in s.writeQ.Values)
  }

  /** The close of an end of file has no callback. */
  function OnCloseReq(s: Sock, callback: Option<Id>): Sock {
    var after := if s.phase.Over() then s else FailPending(s).(phase := Closed, shut := true);
    if callback.Some? then Reply(after, callback.value, Plain(Ok)) else after
  }

  // ---------- reads ----------

  function AnswerRead(s: Sock, a: Answer): Sock
    requires s.readQ != []
  {
    Reply(s.(readQ := s.readQ[1..], readsOut := s.readsOut + [s.readQ[0]]), s.readQ[0], a)
  }

  function DropRead(s: Sock): Sock
    requires s.readQ != []
  {
    s.(readQ := s.readQ[1..], readsOut := s.readsOut + [s.readQ[0]], dropped := s.dropped + [s.readQ[0]])
  }

  /** How many transport results are used up, each by one queued read, until one says "would block". */
  function TransportRead(s: Sock, results: seq<ReadResult>): Sock
    decreases |s.readQ|
  {
    if s.readQ == [] then s
    else
      var r, rest := if results == [] then NOTHING else results[0], if results == [] then [] else results[1..];
      if r.n == 0 then
        if r.status.WouldBlock? then s
        else if r.status.Eof? && s.phase.Connected? then OnCloseReq(DropRead(s), None)
        else TransportRead(AnswerRead(s, Answer(r.status, [], r.peer)), rest)
      else TransportRead(AnswerRead(s, Answer(Ok, r.data, r.peer)), rest)
  }

  function OnReadReq(s: Sock, id: Id, results: seq<ReadResult>): Sock {
    if s.phase.Over() then Reply(s, id, Plain(Error))
    else if |s.readQ| >= READ_LIMIT then Reply(s, id, Plain(WouldBlock))
    else TransportRead(s.(readQ := s.readQ + [id], readsIn := s.readsIn + [id]), results)
  }

  // ---------- writes ----------

  /** A connected socket looks for the write of the empty peer, whatever peer is named. */
  function WriteKey(s: Sock, peer: Peer): Peer {
    if s.phase.Connected? then "" else peer
  }

  function TransportWrite(s: Sock, peer: Peer, result: IOStatus): Sock {
    var key := WriteKey(s, peer);
    if key !in s.writeQ || result.WouldBlock? then s
    else
      var id := s.writeQ[key];
      Reply(s.(writeQ := s.writeQ - {key}, again := s.again + (if s.shut then {id} else {})), id, Plain(result))
  }

  function OnWriteReq(s: Sock, id: Id, peer: Peer, data: Data, result: IOStatus): Sock {
    if s.phase.Over() then Reply(s, id, Plain(Error))
    else if s.phase.Bound? && peer == "" then Reply(s, id, Plain(Error))
    else if data == [] then Reply(s, id, Plain(Fatal))
    else if peer in s.writeQ then Reply(s, id, Plain(WouldBlock))
    else TransportWrite(s.(writeQ := s.writeQ[peer := id]), peer, result)
  }

  // ---------- ticks and runs ----------

  /** A tick, with what the transport answers when it is asked. */
  datatype Event =
    | BindReq
    | BindRep(status: IOStatus, endpoint: string)
    | ConnectReq
    | ConnectRep(status: IOStatus)
    | ReadReq(results: seq<ReadResult>)
    | ReadReadyRep(results: seq<ReadResult>)
    | WriteReq(peer: Peer, data: Data, result: IOStatus)
    | WriteReadyRep(peer: Peer, result: IOStatus)
    | CloseReq

  function Tick(s: Sock, id: Id, e: Event): Sock {
    match e
    case BindReq => OnBindReq(s, id)
    case BindRep(status, endpoint) => OnBindRep(s, status, endpoint)
    case ConnectReq => OnConnectReq(s, id)
    case ConnectRep(status) => OnConnectRep(s, status)
    case ReadReq(results) => OnReadReq(s, id, results)
    case ReadReadyRep(results) => TransportRead(s, results)
    case WriteReq(peer, data, result) => OnWriteReq(s, id, peer, data, result)
    case WriteReadyRep(peer, result) => TransportWrite(s, peer, result)
    case CloseReq => OnCloseReq(s, Some(id))
  }

  /** The socket after a run of ticks from its construction. */
  function Run(events: seq<Event>): Sock {
    if events == [] then NEW
    else
      var n := |events| - 1;
      Tick(Run(events[..n]), n, events[n])
  }
}
