/** What a bind or connect request is told, against what the socket became. */
module SocketSetup {
  import opened SocketSpec
  import opened SocketRuns

  /** Server and client come up in the same way: one by a bind, the other by a connect. */
  predicate Asks(e: Event, server: bool) {
    if server then e.BindReq? else e.ConnectReq?
  }

  predicate Up(p: Phase, server: bool) {
    if server then p.Bound? else p.Connected?
  }

  function Waiting(s: Sock, server: bool): seq<Id> {
    if server then s.bindQ else s.connectQ
  }

  /** The request was told "ok". */
  ghost predicate ToldOk(answers: Answers, i: Id) {
    exists a <- Calls(answers, i) :: a.status.Ok?
  }

  lemma GiveOk(answers: Answers, id: Id, a: Answer, i: Id)
    ensures ToldOk(Give(answers, id, a), i) <==> ToldOk(answers, i) || (i == id && a.status.Ok?)
  {
  }

  lemma CloseOk(s: Sock, callback: Option<Id>, i: Id)
    requires callback != Some(i)
    ensures ToldOk(OnCloseReq(s, callback).answers, i) <==> ToldOk(s.answers, i)
  {
  }

  /** The transport's results tell a request that is no queued read nothing good. */
  lemma {:induction false} ReadOk(s: Sock, results: seq<ReadResult>, i: Id)
    requires i !in s.readQ
    ensures ToldOk(TransportRead(s, results).answers, i) <==> ToldOk(s.answers, i)
    decreases |s.readQ|
  {
    if s.readQ != [] {
      var r, rest := if results == [] then NOTHING else results[0], if results == [] then [] else results[1..];
      var a := if r.n == 0 then Answer(r.status, [], r.peer) else Answer(Ok, r.data, r.peer);
      if r.n == 0 && r.status.WouldBlock? {
      } else if r.n == 0 && r.status.Eof? && s.phase.Connected? {
        CloseOk(DropRead(s), None, i);
      } else {
        GiveOk(s.answers, s.readQ[0], a, i);
        ReadOk(AnswerRead(s, a), rest, i);
      }
    }
  }

  lemma WriteOk(s: Sock, peer: Peer, result: IOStatus, i: Id)
    requires i !in s.writeQ.Values
    ensures ToldOk(TransportWrite(s, peer, result).answers, i) <==> ToldOk(s.answers, i)
  {
  }

  lemma OnlyReadsQueued(s: Sock, events: seq<Event>, i: Id)
    requires Reads(s, events)
    ensures i in s.readQ ==> i < |events| && events[i].ReadReq?
  {
    if i in s.readQ {
      QueuedIsDue(s, events, i);
    }
  }

  lemma RequestOk(s: Sock, events: seq<Event>, e: Event, i: Id)
    requires Inv(s, events) && i <= |events|
    requires (events + [e])[i].BindReq? || (events + [e])[i].ConnectReq?
    requires !e.BindRep? && !e.ConnectRep?
    ensures ToldOk(Tick(s, |events|, e).answers, i) <==> ToldOk(s.answers, i)
  {
    var n := |events|;
    assert i < n ==> (events + [e])[i] == events[i];
    OnlyReadsQueued(s, events, i);
    assert i !in s.writeQ.Values;
    match e
    case BindReq => GiveOk(s.answers, n, Plain(Fatal), i);
    case ConnectReq => GiveOk(s.answers, n, Plain(Fatal), i);
    case ReadReq(results) =>
      GiveOk(s.answers, n, Plain(Error), i);
      GiveOk(s.answers, n, Plain(WouldBlock), i);
      ReadOk(s.(readQ := s.readQ + [n], readsIn := s.readsIn + [n]), results, i);
    case ReadReadyRep(results) => ReadOk(s, results, i);
    case WriteReq(peer, data, result) => WriteReqOk(s, n, peer, data, result, i);
    case WriteReadyRep(peer, result) => WriteOk(s, peer, result, i);
    case CloseReq => CloseOk(s, Some(n), i);
  }

  lemma WriteReqOk(s: Sock, n: Id, peer: Peer, data: Data, result: IOStatus, i: Id)
    requires i != n && i !in s.writeQ.Values
    ensures ToldOk(OnWriteReq(s, n, peer, data, result).answers, i) <==> ToldOk(s.answers, i)
  {
    GiveOk(s.answers, n, Plain(Error), i);
    GiveOk(s.answers, n, Plain(Fatal), i);
    GiveOk(s.answers, n, Plain(WouldBlock), i);
    WriteOk(s.(writeQ := s.writeQ[peer := n]), peer, result, i);
  }

  /** A tick tells a request "ok" exactly when it brings the socket up and the request was the one waiting. */
  lemma TickOk(s: Sock, events: seq<Event>, e: Event, i: Id, server: bool)
    requires Inv(s, events) && i <= |events| && Asks((events + [e])[i], server)
    ensures var t := Tick(s, |events|, e);
            ToldOk(t.answers, i) <==>
            ToldOk(s.answers, i) || (Up(t.phase, server) && !Up(s.phase, server) && i in Waiting(s, server))
  {
    assert i < |events| ==> (events + [e])[i] == events[i];
    match e
    case BindRep(status, endpoint) =>
      if s.phase.BindWait? {
        GiveOk(s.answers, s.bindQ[0], Answer(status, [], if status.Ok? then endpoint else ""), i);
      }
    case ConnectRep(status) =>
      if s.phase.ConnectWait? {
        GiveOk(s.answers, s.connectQ[0], Plain(status), i);
      }
    case _ =>
      RequestOk(s, events, e, i);
      RisesByReply(s, |events|, e, server);
  }

  /** Only a reply to a waiting request brings the socket up. */
  lemma RisesByReply(s: Sock, id: Id, e: Event, server: bool)
    ensures Up(Tick(s, id, e).phase, server) && !Up(s.phase, server) ==>
            (e.BindRep? || e.ConnectRep?) && Waiting(s, server) != []
  {
    match e
    case ReadReq(results) => TransportReadPhase(s.(readQ := s.readQ + [id], readsIn := s.readsIn + [id]), results);
    case ReadReadyRep(results) => TransportReadPhase(s, results);
    case _ =>
  }

  lemma RiseIsTold(s: Sock, events: seq<Event>, e: Event, server: bool)
    requires Inv(s, events)
    requires Up(Tick(s, |events|, e).phase, server) && !Up(s.phase, server)
    ensures exists i: nat :: i < |events| && Asks((events + [e])[i], server) && ToldOk(Tick(s, |events|, e).answers, i)
  {
    RisesByReply(s, |events|, e, server);
    var i := Waiting(s, server)[0];
    assert i in Waiting(s, server) && Asks(events[i], server) && (events + [e])[i] == events[i];
    TickOk(s, events, e, i, server);
  }

  ghost predicate SomeToldOk(events: seq<Event>, server: bool) {
    exists i: nat :: i < |events| && Asks(events[i], server) && ToldOk(Run(events).answers, i)
  }

  ghost predicate WasUp(events: seq<Event>, server: bool) {
    exists n: nat :: n <= |events| && Up(Run(events[..n]).phase, server)
  }

  lemma UpInFront(events: seq<Event>, server: bool)
    requires events != []
    ensures WasUp(events, server) <==> WasUp(events[..|events| - 1], server) || Up(Run(events).phase, server)
  {
    var front := events[..|events| - 1];
    assert events[..|events|] == events;
    forall n: nat | n <= |front|
      ensures front[..n] == events[..n]
    {
    }
    if WasUp(front, server) {
      var n: nat :| n <= |front| && Up(Run(front[..n]).phase, server);
      assert Up(Run(events[..n]).phase, server);
    }
    if WasUp(events, server) {
      var n: nat :| n <= |events| && Up(Run(events[..n]).phase, server);
      assert n < |events| ==> Up(Run(front[..n]).phase, server);
    }
  }

  lemma ToldInFront(events: seq<Event>, server: bool)
    requires events != []
    ensures var front := events[..|events| - 1];
            SomeToldOk(events, server) <==>
            SomeToldOk(front, server) || (Up(Run(events).phase, server) && !Up(Run(front).phase, server))
  {
    var n := |events| - 1;
    var front, e := events[..n], events[n];
    var s, t := Run(front), Run(events);
    InvRun(front);
    assert front + [e] == events;
    if SomeToldOk(events, server) {
      var i: nat :| i < |events| && Asks(events[i], server) && ToldOk(t.answers, i);
      TickOk(s, front, e, i, server);
      if ToldOk(s.answers, i) {
        assert i < n && front[i] == events[i];
      }
    }
    if SomeToldOk(front, server) {
      var i: nat :| i < n && Asks(front[i], server) && ToldOk(s.answers, i);
      TickOk(s, front, e, i, server);
      assert ToldOk(t.answers, i) && events[i] == front[i];
    }
    if Up(t.phase, server) && !Up(s.phase, server) {
      RiseIsTold(s, front, e, server);
    }
  }

  /**
   * The answer can be believed, over any run: some bind request has been told "ok" exactly when the socket has been
   * bound at some point, and some connect request exactly when it has been connected.
   */
  lemma {:induction false} UpIffToldOk(events: seq<Event>, server: bool)
    ensures SomeToldOk(events, server) <==> WasUp(events, server)
  {
    if events == [] {
      assert forall n: nat :: n <= 0 ==> events[..n] == [];
    } else {
      var front := events[..|events| - 1];
      UpIffToldOk(front, server);
      UpInFront(events, server);
      ToldInFront(events, server);
      if Up(Run(front).phase, server) {
        assert front[..|front|] == front;
        assert WasUp(front, server);
      }
    }
  }
}
