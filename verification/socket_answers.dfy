/** Which answer goes to which request, and the requests that a run leaves without one. */
module SocketAnswers {
  import opened SocketSpec
  import opened SocketRuns
  import opened SocketHistory

  // ---------- reads ----------

  lemma {:induction false} Untouched(s: Sock, results: seq<ReadResult>, i: Id)
    requires i !in Pending(s)
    ensures Calls(TransportRead(s, results).answers, i) == Calls(s.answers, i)
    decreases |s.readQ|
  {
    if s.readQ != [] && results != [] {
      if EndsRound(s.phase.Connected?, results[0]) {
        CallsGiven(s.answers, Pending(DropRead(s)), Plain(Error), i);
      } else {
        Untouched(AnswerRead(s, Said(results[0])), results[1..], i);
      }
    }
  }

  lemma AnswerHead(s: Sock, a: Answer)
    requires PendingOnce(s) && s.readQ != []
    ensures PendingOnce(AnswerRead(s, a)) && s.readQ[0] !in Pending(AnswerRead(s, a))
  {
    assert forall i <- s.readQ[1..] :: i in s.readQ;
  }

  lemma EofAnswers(s: Sock, j: nat)
    requires PendingOnce(s) && j < |s.readQ| && s.phase.Connected?
    ensures Calls(OnCloseReq(DropRead(s), None).answers, s.readQ[j]) ==
            Calls(s.answers, s.readQ[j]) + if j > 0 then [Plain(Error)] else []
  {
    AnswerHead(s, Plain(Error));
    CallsGiven(s.answers, Pending(DropRead(s)), Plain(Error), s.readQ[j]);
    assert j > 0 ==> s.readQ[1..][j - 1] == s.readQ[j];
  }

  /**
   * Results go to the waiting reads one by one, in order, up to the first that ends the round: "would block", or the
   * end of file of a connected socket. The read that meets the latter is told nothing, and those behind it fail.
   */
  lemma {:induction false} EveryRead(s: Sock, results: seq<ReadResult>, j: nat)
    requires PendingOnce(s) && j < |s.readQ|
    ensures var k := Usable(s.phase.Connected?, results);
            Calls(TransportRead(s, results).answers, s.readQ[j]) == Calls(s.answers, s.readQ[j]) +
            if j < k then [Said(results[j])] else if Meets(s, results) && j > k then [Plain(Error)] else []
    decreases |s.readQ|
  {
    if results != [] {
      if !EndsRound(s.phase.Connected?, results[0]) {
        EveryReadLater(s, results, j);
      } else if results[0].status.Eof? {
        EofAnswers(s, j);
      }
    }
  }

  lemma RoundGoesOn(s: Sock, results: seq<ReadResult>)
    requires s.readQ != [] && results != [] && !EndsRound(s.phase.Connected?, results[0])
    ensures var t := AnswerRead(s, Said(results[0]));
            && TransportRead(s, results) == TransportRead(t, results[1..])
            && Usable(s.phase.Connected?, results) == 1 + Usable(t.phase.Connected?, results[1..])
            && Meets(s, results) == Meets(t, results[1..])
  {
  }

  lemma HeadRead(s: Sock, results: seq<ReadResult>)
    requires PendingOnce(s) && s.readQ != [] && results != [] && !EndsRound(s.phase.Connected?, results[0])
    ensures Calls(TransportRead(s, results).answers, s.readQ[0]) == Calls(s.answers, s.readQ[0]) + [Said(results[0])]
  {
    var t := AnswerRead(s, Said(results[0]));
    AnswerHead(s, Said(results[0]));
    RoundGoesOn(s, results);
    Untouched(t, results[1..], s.readQ[0]);
  }

  /** A read behind the head is told what it would be told once the head has its result. */
  lemma BehindHead(s: Sock, results: seq<ReadResult>, j: nat)
    requires PendingOnce(s) && 0 < j < |s.readQ| && results != [] && !EndsRound(s.phase.Connected?, results[0])
    ensures var t := AnswerRead(s, Said(results[0]));
            && PendingOnce(t) && j - 1 < |t.readQ| && t.readQ[j - 1] == s.readQ[j]
            && Calls(t.answers, s.readQ[j]) == Calls(s.answers, s.readQ[j])
  {
    AnswerHead(s, Said(results[0]));
  }

  lemma {:induction false} EveryReadLater(s: Sock, results: seq<ReadResult>, j: nat)
    requires PendingOnce(s) && j < |s.readQ| && results != [] && !EndsRound(s.phase.Connected?, results[0])
    ensures var k := Usable(s.phase.Connected?, results);
            Calls(TransportRead(s, results).answers, s.readQ[j]) == Calls(s.answers, s.readQ[j]) +
            if j < k then [Said(results[j])] else if Meets(s, results) && j > k then [Plain(Error)] else []
    decreases |s.readQ|, 0
  {
    if j == 0 {
      HeadRead(s, results);
    } else {
      RoundGoesOn(s, results);
      BehindHead(s, results, j);
      EveryRead(AnswerRead(s, Said(results[0])), results[1..], j - 1);
    }
  }

  /**
   * A read that takes a result is told the transport's own status exactly when the count is zero or the status is
   * "ok": a count of -1 is a large `size_t`, so a failed read reaches its caller as a success.
   */
  lemma ReadStatusReported(s: Sock, results: seq<ReadResult>, j: nat)
    requires PendingOnce(s) && j < |s.readQ| && j < Usable(s.phase.Connected?, results)
    ensures var calls := Calls(TransportRead(s, results).answers, s.readQ[j]);
            && calls != [] && calls[..|calls| - 1] == Calls(s.answers, s.readQ[j])
            && (calls[|calls| - 1].status == results[j].status <==> results[j].n == 0 || results[j].status.Ok?)
  {
    EveryRead(s, results, j);
  }

  // ---------- writes ----------

  /** A ready reply with an outcome answers the write it names, except on a connected socket if it names a peer. */
  lemma ReadyAnswersIff(s: Sock, id: Id, peer: Peer, result: IOStatus)
    requires PendingOnce(s) && peer in s.writeQ
    ensures var i, t := s.writeQ[peer], Tick(s, id, WriteReadyRep(peer, result));
            Calls(t.answers, i) == Calls(s.answers, i) +
            if !result.WouldBlock? && (s.phase.Connected? ==> peer == "") then [Plain(result)] else []
  {
  }

  /** While connected, a ready reply leaves a write in the map exactly if it names a peer or would block. */
  lemma ReadyLeavesIff(s: Sock, id: Id, at: Peer, result: IOStatus, peer: Peer)
    requires s.phase.Connected?
    ensures peer in Tick(s, id, WriteReadyRep(at, result)).writeQ <==>
            peer in s.writeQ && (peer != "" || result.WouldBlock?)
  {
  }

  /** The write is still stuck, or a close has been carried out. */
  predicate StuckOrShut(s: Sock, peer: Peer, i: Id) {
    (s.phase.Connected? && peer in s.writeQ && s.writeQ[peer] == i) || (s.phase.Closed? && s.shut)
  }

  lemma StuckTick(s: Sock, id: Id, e: Event, peer: Peer, i: Id)
    requires StuckOrShut(s, peer, i) && peer != ""
    ensures StuckOrShut(Tick(s, id, e), peer, i)
  {
    if Asks(s, e) {
      TransportReadSame(Asking(s, id, e), e.results);
      ReadCloses(Asking(s, id, e), e.results);
      ReadDrops(Asking(s, id, e), e.results);
    }
  }

  lemma {:induction false} StuckRun(events: seq<Event>, more: seq<Event>, peer: Peer, i: Id)
    requires StuckOrShut(Run(events), peer, i) && peer != ""
    ensures StuckOrShut(Run(events + more), peer, i)
    decreases |more|
  {
    if more == [] {
      assert events + more == events;
    } else {
      var events' := events + [more[0]];
      assert events'[..|events|] == events && events + more == events' + more[1..];
      StuckTick(Run(events), |events|, more[0], peer, i);
      StuckRun(events', more[1..], peer, i);
    }
  }

  lemma StuckCalls(t: Sock, e: Event, peer: Peer, i: Id)
    requires StuckOrShut(t, peer, i) && e.WriteReq? && |Calls(t.answers, i)| == Due(t, i, e)
    requires (t.shut ==> t.phase.Closed?) && (!t.shut ==> t.again == {})
    ensures Calls(t.answers, i) == [] <==> t.phase.Connected?
  {
    assert t.phase.Connected? ==> i in t.writeQ.Values;
  }

  /**
   * On a connected socket a write that names a peer is never tried: through any run it stays without a call exactly as
   * long as the socket is not closed, whatever the transport reports.
   */
  lemma StuckWrite(events: seq<Event>, more: seq<Event>, peer: Peer)
    requires var s := Run(events); s.phase.Connected? && peer != "" && peer in s.writeQ
    ensures var t := Run(events + more);
            Calls(t.answers, Run(events).writeQ[peer]) == [] <==> t.phase.Connected?
  {
    var i, all := Run(events).writeQ[peer], events + more;
    LogsOfRun(all);
    StuckRun(events, more, peer, i);
    PendingIsWrite(events, peer);
    assert all[i] == events[i];
    CallsDue(all, i);
    StuckCalls(Run(all), all[i], peer, i);
  }

  // ---------- after a failed bind or connect ----------

  /** How many results the transport brings, after it closed, before each round ends. */
  function Served(more: seq<Event>): nat {
    if more == [] then 0
    else
      var e := more[|more| - 1];
      Served(more[..|more| - 1]) + if e.ReadReadyRep? then Usable(false, e.results) else 0
  }

  /** The transport reports an outcome for the write to `peer`. */
  predicate Reports(e: Event, peer: Peer) {
    e.WriteReadyRep? && e.peer == peer && !e.result.WouldBlock?
  }

  ghost predicate Unreported(more: seq<Event>, peer: Peer) {
    forall e <- more :: !Reports(e, peer)
  }

  lemma UnreportedLast(more: seq<Event>, e: Event, peer: Peer)
    ensures Unreported(more + [e], peer) <==> Unreported(more, peer) && !Reports(e, peer)
  {
    assert e in more + [e] && forall d <- more :: d in more + [e];
  }

  function Drop(ids: seq<Id>, n: nat): seq<Id> {
    if n <= |ids| then ids[n..] else []
  }

  lemma {:induction false} ReadTakes(s: Sock, results: seq<ReadResult>)
    requires !s.phase.Connected?
    ensures var t := TransportRead(s, results);
            && t.readQ == Drop(s.readQ, Usable(false, results))
            && t.phase == s.phase && t.shut == s.shut && t.writeQ == s.writeQ
    decreases |s.readQ|
  {
    if s.readQ != [] && results != [] && !EndsRound(false, results[0]) {
      ReadTakes(AnswerRead(s, Said(results[0])), results[1..]);
    }
  }

  /** Closed without a close: what is queued in `s` leaves only by what the transport still brings. */
  ghost predicate Stranded(s: Sock, t: Sock, more: seq<Event>) {
    && t.phase.Closed? && !t.shut && t.readQ == Drop(s.readQ, Served(more))
    && (forall p :: p in t.writeQ <==> p in s.writeQ && Unreported(more, p))
    && (forall p <- t.writeQ :: t.writeQ[p] == s.writeQ[p])
  }

  lemma StrandedTick(s: Sock, t: Sock, u: Sock, more: seq<Event>, all: seq<Event>, id: Id, e: Event)
    requires Stranded(s, t, more) && u == Tick(t, id, e) && all == more + [e]
    ensures Stranded(s, u, all)
  {
    assert all[..|all| - 1] == more;
    if e.ReadReadyRep? {
      ReadTakes(t, e.results);
    }
    forall p: Peer
      ensures Unreported(all, p) <==> Unreported(more, p) && !Reports(e, p)
    {
      UnreportedLast(more, e, p);
    }
  }

  lemma {:induction false} StrandedRun(events: seq<Event>, done: seq<Event>, more: seq<Event>)
    requires Stranded(Run(events), Run(events + done), done)
    ensures Stranded(Run(events), Run(events + (done + more)), done + more)
    decreases |more|
  {
    if more == [] {
      assert done + more == done;
    } else {
      var done' := done + [more[0]];
      assert events + done' == (events + done) + [more[0]];
      Further(events + done, more[0]);
      StrandedTick(Run(events), Run(events + done), Run(events + done'), done, done', |events + done|, more[0]);
      assert done' + more[1..] == done + more;
      StrandedRun(events, done', more[1..]);
    }
  }

  lemma StrandedNow(s: Sock, more: seq<Event>)
    requires s.phase.Closed? && !s.shut && more == []
    ensures Stranded(s, s, more)
  {
  }

  /**
   * A failed bind or connect strands the queued reads and pending writes. Through any later run, closes included, the
   * j-th read stays without a call exactly as long as the transport has brought no more than j results, and a write
   * exactly as long as the transport has reported no outcome for its peer.
   */
  lemma FailureStrands(events: seq<Event>, more: seq<Event>, j: nat, peer: Peer)
    requires Run(events).phase.Closed? && !Ever(Closes, events)
    ensures var s, t := Run(events), Run(events + more);
            && (j < |s.readQ| ==> (Calls(t.answers, s.readQ[j]) == [] <==> j >= Served(more)))
            && (peer in s.writeQ ==> (Calls(t.answers, s.writeQ[peer]) == [] <==> Unreported(more, peer)))
  {
    ShutIffCloses(events);
    assert events + [] == events && [] + more == more;
    StrandedNow(Run(events), []);
    StrandedRun(events, [], more);
    if j < |Run(events).readQ| {
      StrandedRead(events, more, j);
    }
    if peer in Run(events).writeQ {
      StrandedWrite(events, more, peer);
    }
  }

  lemma StrandedReadCalls(s: Sock, t: Sock, more: seq<Event>, j: nat, e: Event)
    requires Stranded(s, t, more) && PendingOnce(s) && j < |s.readQ| && t.dropped == []
    requires e.ReadReq? && |Calls(t.answers, s.readQ[j])| == Due(t, s.readQ[j], e)
    ensures Calls(t.answers, s.readQ[j]) == [] <==> j >= Served(more)
  {
    var n := Served(more);
    if j >= n {
      assert t.readQ[j - n] == s.readQ[j];
    } else if n <= |s.readQ| {
      assert forall k | 0 <= k < |t.readQ| :: t.readQ[k] == s.readQ[n + k] != s.readQ[j];
    }
  }

  lemma StrandedRead(events: seq<Event>, more: seq<Event>, j: nat)
    requires j < |Run(events).readQ| && Stranded(Run(events), Run(events + more), more)
    ensures Calls(Run(events + more).answers, Run(events).readQ[j]) == [] <==> j >= Served(more)
  {
    var s, all := Run(events), events + more;
    PendingOnceRun(events);
    LogsOfRun(all);
    QueuedIsRead(events, j);
    assert all[s.readQ[j]] == events[s.readQ[j]];
    CallsDue(all, s.readQ[j]);
    StrandedReadCalls(s, Run(all), more, j, all[s.readQ[j]]);
  }

  lemma StrandedWriteCalls(s: Sock, t: Sock, more: seq<Event>, peer: Peer, e: Event)
    requires Stranded(s, t, more) && PendingOnce(s) && peer in s.writeQ && t.again == {}
    requires e.WriteReq? && |Calls(t.answers, s.writeQ[peer])| == Due(t, s.writeQ[peer], e)
    ensures Calls(t.answers, s.writeQ[peer]) == [] <==> Unreported(more, peer)
  {
    StillUnder(s.writeQ, t.writeQ, peer);
  }

  lemma StrandedWrite(events: seq<Event>, more: seq<Event>, peer: Peer)
    requires peer in Run(events).writeQ && Stranded(Run(events), Run(events + more), more)
    ensures Calls(Run(events + more).answers, Run(events).writeQ[peer]) == [] <==> Unreported(more, peer)
  {
    var s, all := Run(events), events + more;
    PendingOnceRun(events);
    LogsOfRun(all);
    PendingIsWrite(events, peer);
    assert all[s.writeQ[peer]] == events[s.writeQ[peer]];
    CallsDue(all, s.writeQ[peer]);
    StrandedWriteCalls(s, Run(all), more, peer, all[s.writeQ[peer]]);
  }

  lemma StillUnder(before: map<Peer, Id>, after: map<Peer, Id>, peer: Peer)
    requires peer in before && forall p <- after :: p in before && after[p] == before[p]
    requires forall p, q :: p in before && q in before && before[p] == before[q] ==> p == q
    ensures before[peer] in after.Values <==> peer in after
  {
  }
}
