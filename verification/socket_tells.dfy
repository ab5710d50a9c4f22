/** What each request is told at its own tick, and what replies and closes tell the requests that wait, after any run. */
module SocketTells {
  import opened SocketSpec
  import opened SocketRuns
  import opened SocketHistory
  import opened SocketAnswers

  function Status(status: IOStatus): Answer {
    Answer(status, [], "")
  }

  lemma NewRequest(events: seq<Event>)
    ensures var s, n := Run(events), |events|;
            Calls(s.answers, n) == [] && n !in s.readQ && n !in s.writeQ.Values && n !in s.bindQ && n !in s.connectQ
  {
    InvRun(events);
    var s := Run(events);
    forall j | 0 <= j < |s.readQ|
      ensures s.readQ[j] != |events|
    {
      QueuedIsRead(events, j);
    }
  }

  lemma Answered(answers: Answers, id: Id, a: Answer, i: Id)
    ensures Calls(Give(answers, id, a), i) == Calls(answers, i) + if i == id then [a] else []
  {
  }

  // ---------- writes and reads ----------

  /**
   * What a write is told at once. It is refused as closed, without a peer on a bound socket, empty, or for a busy peer;
   * otherwise it is told the transport's outcome, unless it would block, or names a peer on a connected socket.
   */
  function WriteAnswer(s: Sock, peer: Peer, data: Data, result: IOStatus): seq<Answer> {
    if s.phase.Closed? || (s.phase.Bound? && peer == "") then [Status(Error)]
    else if data == [] then [Status(Fatal)]
    else if peer in s.writeQ then [Status(WouldBlock)]
    else if result.WouldBlock? || (s.phase.Connected? && peer != "") then []
    else [Status(result)]
  }

  lemma WriteToldAt(s: Sock, t: Sock, n: Id, peer: Peer, data: Data, result: IOStatus)
    requires Calls(s.answers, n) == [] && n !in s.writeQ.Values && !s.phase.CloseWait?
    requires t == Tick(s, n, WriteReq(peer, data, result))
    ensures Calls(t.answers, n) == WriteAnswer(s, peer, data, result)
  {
    var key := if s.phase.Connected? then "" else peer;
    assert key in s.writeQ ==> s.writeQ[key] in s.writeQ.Values;
  }

  /** That is what it is told, after any run. */
  lemma WriteTold(events: seq<Event>, peer: Peer, data: Data, result: IOStatus)
    ensures var all := events + [WriteReq(peer, data, result)];
            Calls(Run(all).answers, |events|) == WriteAnswer(Run(events), peer, data, result)
  {
    WaitingHasRequest(events);
    NewRequest(events);
    Further(events, WriteReq(peer, data, result));
    WriteToldAt(Run(events), Run(events + [WriteReq(peer, data, result)]), |events|, peer, data, result);
  }

  /**
   * What a read is told at once. It is refused as closed or for a full queue; otherwise it takes its place behind the
   * queued ones and is told the result that falls to that place, an error if an end of file came to one before it, and
   * nothing without either.
   */
  function ReadAnswer(s: Sock, results: seq<ReadResult>): seq<Answer> {
    var k, j := Usable(s.phase.Connected?, results), |s.readQ|;
    if s.phase.Closed? then [Status(Error)]
    else if j >= 1024 then [Status(WouldBlock)]
    else if j < k then [Said(results[j])]
    else if s.phase.Connected? && k < j && k < |results| && results[k].status.Eof? then [Status(Error)]
    else []
  }

  lemma ReadToldAt(s: Sock, t: Sock, n: Id, results: seq<ReadResult>)
    requires Calls(s.answers, n) == [] && !s.phase.CloseWait? && PendingOnce(s)
    requires n !in s.readQ && n !in s.writeQ.Values && n !in s.bindQ && n !in s.connectQ
    requires t == Tick(s, n, ReadReq(results))
    ensures Calls(t.answers, n) == ReadAnswer(s, results)
  {
    if !s.phase.Closed? && |s.readQ| < READ_LIMIT {
      var asking := Asking(s, n, ReadReq(results));
      assert asking.readQ[|s.readQ|] == n;
      EveryRead(asking, results, |s.readQ|);
    }
  }

  /** That is what it is told, after any run. */
  lemma ReadTold(events: seq<Event>, results: seq<ReadResult>)
    ensures Calls(Run(events + [ReadReq(results)]).answers, |events|) == ReadAnswer(Run(events), results)
  {
    WaitingHasRequest(events);
    NewRequest(events);
    PendingOnceRun(events);
    Further(events, ReadReq(results));
    ReadToldAt(Run(events), Run(events + [ReadReq(results)]), |events|, results);
  }

  // ---------- bind and connect ----------

  /** A bind or connect is refused unless the socket is new; then it waits. */
  lemma SetupTold(events: seq<Event>)
    ensures var s, n := Run(events), |events|;
            var b, c := Run(events + [BindReq]), Run(events + [ConnectReq]);
            if s.phase.Idle? then
              && b.phase.BindWait? && b.bindQ == [n] && Calls(b.answers, n) == []
              && c.phase.ConnectWait? && c.connectQ == [n] && Calls(c.answers, n) == []
            else
              && b.phase == s.phase && Calls(b.answers, n) == [Status(Fatal)]
              && c.phase == s.phase && Calls(c.answers, n) == [Status(Fatal)]
  {
    InvRun(events);
    NewRequest(events);
    Further(events, BindReq);
    Further(events, ConnectReq);
  }

  /**
   * The reply to a bind that waits tells it, and no other, the status, with the endpoint if it is "ok", and the socket
   * is bound or closed accordingly; any other reply to a bind changes nothing.
   */
  lemma BindReplyTold(events: seq<Event>, status: IOStatus, endpoint: string, i: Id)
    ensures var s, t := Run(events), Run(events + [BindRep(status, endpoint)]);
            if !s.phase.BindWait? then t == s
            else
              && |s.bindQ| == 1 && t.bindQ == [] && t.phase == (if status.Ok? then Bound else Closed)
              && Calls(t.answers, i) == if i != s.bindQ[0] then Calls(s.answers, i)
                                        else if status.Ok? then [Answer(Ok, [], endpoint)] else [Status(status)]
  {
    WaitingHasRequest(events);
    Further(events, BindRep(status, endpoint));
    if Run(events).phase.BindWait? {
      WaiterUntold(events, Run(events).bindQ[0]);
    }
  }

  lemma WaiterUntold(events: seq<Event>, i: Id)
    requires var s := Run(events); (s.phase.BindWait? && i in s.bindQ) || (s.phase.ConnectWait? && i in s.connectQ)
    ensures Calls(Run(events).answers, i) == []
  {
    InvRun(events);
    CallsDue(events, i);
  }

  /** The same for a connect. */
  lemma ConnectReplyTold(events: seq<Event>, status: IOStatus, i: Id)
    ensures var s, t := Run(events), Run(events + [ConnectRep(status)]);
            if !s.phase.ConnectWait? then t == s
            else
              && |s.connectQ| == 1 && t.connectQ == [] && t.phase == (if status.Ok? then Connected else Closed)
              && Calls(t.answers, i) == if i == s.connectQ[0] then [Status(status)] else Calls(s.answers, i)
  {
    WaitingHasRequest(events);
    Further(events, ConnectRep(status));
    if Run(events).phase.ConnectWait? {
      WaiterUntold(events, Run(events).connectQ[0]);
    }
  }

  // ---------- close ----------

  /** The request is queued, pending, or waited for. */
  predicate Waits(s: Sock, i: Id) {
    i in s.readQ || i in s.writeQ.Values || i in s.bindQ || i in s.connectQ
  }

  lemma CloseToldAt(s: Sock, t: Sock, events: seq<Event>, i: Id)
    requires Inv(s, events) && Calls(s.answers, |events|) == [] && !Waits(s, |events|)
    requires t == Tick(s, |events|, CloseReq)
    ensures t.phase.Closed? && t.readQ == if s.phase.Closed? then s.readQ else []
    ensures Calls(t.answers, i) ==
            if i == |events| then [Status(Ok)]
            else if !s.phase.Closed? && Waits(s, i) then Calls(s.answers, i) + [Status(Error)]
            else Calls(s.answers, i)
  {
    CallsGiven(s.answers, Pending(s), Plain(Error), i);
    OnlyHeads(s, events, i);
    var after := if s.phase.Over() then s.answers else GiveEach(s.answers, Pending(s), Plain(Error));
    Answered(after, |events|, Plain(Ok), i);
  }

  /** A close is told "ok"; the close of a live socket tells every request that waits, and no other, of an error. */
  lemma CloseTold(events: seq<Event>, i: Id)
    ensures var s, t := Run(events), Run(events + [CloseReq]);
            && t.phase.Closed? && t.readQ == (if s.phase.Closed? then s.readQ else [])
            && Calls(t.answers, i) ==
               if i == |events| then [Status(Ok)]
               else if !s.phase.Closed? && Waits(s, i) then Calls(s.answers, i) + [Status(Error)]
               else Calls(s.answers, i)
  {
    InvRun(events);
    NewRequest(events);
    Further(events, CloseReq);
    CloseToldAt(Run(events), Run(events + [CloseReq]), events, i);
  }
}
