/** What the socket's logs record, told from the ticks of a run alone, and the accounting that follows. */
module SocketHistory {
  import opened SocketSpec
  import opened SocketRuns

  // ---------- what happens at a tick, and whether it ever does ----------

  /** Something a tick may do: told from the socket before it, the tick's number, and the tick. */
  type Happening = (Sock, Id, Event) -> bool

  predicate Happens(what: Happening, events: seq<Event>, k: nat)
    requires k < |events|
  {
    what(Run(events[..k]), k, events[k])
  }

  ghost predicate Ever(what: Happening, events: seq<Event>) {
    exists k: nat :: k < |events| && Happens(what, events, k)
  }

  lemma EverLast(what: Happening, events: seq<Event>)
    requires events != []
    ensures var n := |events| - 1;
            Ever(what, events) <==> Ever(what, events[..n]) || Happens(what, events, n)
  {
    var front := events[..|events| - 1];
    forall k: nat | k < |front|
      ensures Happens(what, front, k) == Happens(what, events, k)
    {
      assert front[..k] == events[..k];
    }
    if Ever(what, front) {
      var k: nat :| k < |front| && Happens(what, front, k);
      assert Happens(what, events, k);
    }
  }

  /** A result that ends a round of reads: nothing there, or the end of file of a connected socket. */
  predicate EndsRound(connected: bool, r: ReadResult) {
    r.n == 0 && (r.status.WouldBlock? || (r.status.Eof? && connected))
  }

  /** What a read is told: a count of zero reports the transport's status, any other count is a success. */
  function Said(r: ReadResult): Answer {
    if r.n == 0 then Answer(r.status, [], r.peer) else Answer(Ok, r.data, r.peer)
  }

  /** How many results come before the first that ends the round. */
  function Usable(connected: bool, results: seq<ReadResult>): (k: nat)
    ensures k <= |results| && (k < |results| ==> EndsRound(connected, results[k]))
    ensures forall j | 0 <= j < k :: !EndsRound(connected, results[j])
  {
    if results == [] || EndsRound(connected, results[0]) then 0 else 1 + Usable(connected, results[1..])
  }

  /** A queued read meets the end of file of a connected socket. */
  predicate Meets(s: Sock, results: seq<ReadResult>) {
    var k := Usable(true, results);
    s.phase.Connected? && k < |s.readQ| && k < |results| && results[k].status.Eof?
  }

  /** The tick asks the transport for data. */
  predicate Asks(s: Sock, e: Event) {
    e.ReadReadyRep? || (e.ReadReq? && !s.phase.Over() && |s.readQ| < READ_LIMIT)
  }

  function Asking(s: Sock, id: Id, e: Event): Sock {
    if e.ReadReq? then s.(readQ := s.readQ + [id], readsIn := s.readsIn + [id]) else s
  }

  predicate Drops(s: Sock, id: Id, e: Event) {
    Asks(s, e) && Meets(Asking(s, id, e), e.results)
  }

  /** The tick takes read `i` out of the queue for an end of file. */
  function DropsRead(i: Id): Happening {
    (s: Sock, id: Id, e: Event) => Drops(s, id, e) && Asking(s, id, e).readQ[Usable(true, e.results)] == i
  }

  /** The tick carries out a close: one that is asked for, or that of an end of file. */
  predicate Closes(s: Sock, id: Id, e: Event) {
    (e.CloseReq? && !s.phase.Over()) || Drops(s, id, e)
  }

  /** The tick is the failing reply a bind or connect waits for. */
  predicate Fails(s: Sock, id: Id, e: Event) {
    || (e.BindRep? && s.phase.BindWait? && !e.status.Ok?)
    || (e.ConnectRep? && s.phase.ConnectWait? && !e.status.Ok?)
  }

  // ---------- the logs record what happens ----------

  lemma {:induction false} ReadDrops(s: Sock, results: seq<ReadResult>)
    ensures var t := TransportRead(s, results);
            && t.dropped == s.dropped + (if Meets(s, results) then [s.readQ[Usable(true, results)]] else [])
            && (t.shut <==> s.shut || Meets(s, results))
    decreases |s.readQ|
  {
    if s.readQ != [] && results != [] && !EndsRound(s.phase.Connected?, results[0]) {
      ReadDrops(AnswerRead(s, Said(results[0])), results[1..]);
    }
  }

  lemma TickDrops(s: Sock, id: Id, e: Event, i: Id)
    ensures var t := Tick(s, id, e);
            && (t.dropped ==
                  if Drops(s, id, e) then s.dropped + [Asking(s, id, e).readQ[Usable(true, e.results)]] else s.dropped)
            && (i in t.dropped <==> i in s.dropped || DropsRead(i)(s, id, e))
            && (t.shut <==> s.shut || Closes(s, id, e))
  {
    if Asks(s, e) {
      ReadDrops(Asking(s, id, e), e.results);
    }
  }

  lemma TickCloses(s: Sock, id: Id, e: Event)
    requires !s.phase.CloseWait? && (s.phase.BindWait? ==> s.bindQ != []) && (s.phase.ConnectWait? ==> s.connectQ != [])
    ensures Tick(s, id, e).phase.Closed? <==> s.phase.Closed? || Closes(s, id, e) || Fails(s, id, e)
  {
    if Asks(s, e) {
      ReadCloses(Asking(s, id, e), e.results);
    }
  }

  lemma {:induction false} ReadCloses(s: Sock, results: seq<ReadResult>)
    ensures TransportRead(s, results).phase == if Meets(s, results) then Closed else s.phase
    decreases |s.readQ|
  {
    if s.readQ != [] && results != [] && !EndsRound(s.phase.Connected?, results[0]) {
      ReadCloses(AnswerRead(s, Said(results[0])), results[1..]);
    }
  }

  /** A close was carried out exactly when some tick asked a live socket to, or met an end of file when connected. */
  lemma {:induction false} ShutIffCloses(events: seq<Event>)
    ensures Run(events).shut <==> Ever(Closes, events)
  {
    if events != [] {
      var n := |events| - 1;
      ShutIffCloses(events[..n]);
      EverLast(Closes, events);
      TickDrops(Run(events[..n]), n, events[n], 0);
    }
  }

  /** The socket is closed exactly when a close was carried out or a bind or connect failed. */
  lemma {:induction false} ClosedIff(events: seq<Event>)
    ensures Run(events).phase.Closed? <==> Ever(Closes, events) || Ever(Fails, events)
  {
    if events != [] {
      var n := |events| - 1;
      ClosedIff(events[..n]);
      EverLast(Closes, events);
      EverLast(Fails, events);
      InvRun(events[..n]);
      TickCloses(Run(events[..n]), n, events[n]);
    }
  }

  lemma {:induction false} DroppedIff(events: seq<Event>, i: Id)
    ensures i in Run(events).dropped <==> Ever(DropsRead(i), events)
  {
    if events != [] {
      var n := |events| - 1;
      DroppedIff(events[..n], i);
      EverLast(DropsRead(i), events);
      TickDrops(Run(events[..n]), n, events[n], i);
    }
  }

  /** Some read was dropped exactly when some tick let a queued read meet the end of file of a connected socket. */
  lemma {:induction false} SomeDroppedIff(events: seq<Event>)
    ensures Run(events).dropped != [] <==> Ever(Drops, events)
  {
    if events != [] {
      var n := |events| - 1;
      SomeDroppedIff(events[..n]);
      EverLast(Drops, events);
      TickDrops(Run(events[..n]), n, events[n], 0);
    }
  }

  // ---------- reads ----------

  lemma LeftForGood(s: Sock, events: seq<Event>, i: Id)
    requires Reads(s, events) && i in s.readsOut
    ensures i !in s.readQ && i in s.readsIn
  {
    var j :| 0 <= j < |s.readsOut| && s.readsOut[j] == i;
    assert s.readsIn[j] == i;
    forall k | 0 <= k < |s.readQ|
      ensures s.readQ[k] != i
    {
      assert s.readsIn[|s.readsOut| + k] == s.readQ[k];
    }
  }

  lemma LeftRead(events: seq<Event>, i: Id)
    requires i in Run(events).readsOut
    ensures |Calls(Run(events).answers, i)| == if Ever(DropsRead(i), events) then 0 else 1
  {
    var s := Run(events);
    InvRun(events);
    LeftForGood(s, events, i);
    DroppedIff(events, i);
    assert |Calls(s.answers, i)| == Due(s, i, events[i]);
  }

  lemma QueuedRead(events: seq<Event>, i: Id)
    requires i in Run(events).readQ
    ensures Calls(Run(events).answers, i) == []
  {
    var k :| 0 <= k < |Run(events).readQ| && Run(events).readQ[k] == i;
    QueuedIsRead(events, k);
    CallsDue(events, i);
  }

  lemma OneDrop(events: seq<Event>, i: Id, j: Id)
    requires Ever(DropsRead(i), events) && Ever(DropsRead(j), events)
    ensures i == j
  {
    DroppedIff(events, i);
    DroppedIff(events, j);
    LogsOfRun(events);
    OnlyOne(Run(events).dropped, i, j);
  }

  lemma OnlyOne(ids: seq<Id>, i: Id, j: Id)
    requires |ids| <= 1 && i in ids && j in ids
    ensures i == j
  {
  }

  /**
   * Read accounting. The accepted reads leave the queue in the order they came. Each that has left was answered
   * exactly once, unless it met the end of file of a connected socket, which happens to one read at most; none still
   * queued was answered; and after a close nothing is queued.
   */
  lemma ReadAccounting(events: seq<Event>)
    ensures var s := Run(events);
            && AcceptedReads(events) == s.readsOut + s.readQ
            && (forall i <- s.readsOut :: |Calls(s.answers, i)| == if Ever(DropsRead(i), events) then 0 else 1)
            && (forall i <- s.readQ :: Calls(s.answers, i) == [])
            && (forall i, j :: Ever(DropsRead(i), events) && Ever(DropsRead(j), events) ==> i == j)
            && (Ever(Closes, events) ==> s.readQ == [])
  {
    var s := Run(events);
    InvRun(events);
    RecordsAccepted(events);
    ShutIffCloses(events);
    forall i | i in s.readsOut { LeftRead(events, i); }
    forall i | i in s.readQ { QueuedRead(events, i); }
    forall i, j | Ever(DropsRead(i), events) && Ever(DropsRead(j), events) { OneDrop(events, i, j); }
  }

  // ---------- writes ----------

  /** The tick answers a write that the close had answered already. */
  predicate Strays(s: Sock, id: Id, e: Event) {
    Stray(s, e)
  }

  function StraysFor(i: Id): Happening {
    (s: Sock, id: Id, e: Event) => Stray(s, e) && s.writeQ[e.peer] == i
  }

  lemma {:induction false} AgainIff(events: seq<Event>, i: Id)
    ensures i in Run(events).again <==> Ever(StraysFor(i), events)
  {
    if events != [] {
      var n := |events| - 1;
      AgainIff(events[..n], i);
      EverLast(StraysFor(i), events);
      InvRun(events[..n]);
      AgainGrows(Run(events[..n]), n, events[n]);
    }
  }

  lemma {:induction false} SomeAgainIff(events: seq<Event>)
    ensures Run(events).again == {} <==> !Ever(Strays, events)
  {
    if events != [] {
      var n := |events| - 1;
      SomeAgainIff(events[..n]);
      EverLast(Strays, events);
      InvRun(events[..n]);
      AgainGrows(Run(events[..n]), n, events[n]);
    }
  }

  /** A stray reply: "writable", with an outcome, for a write left over by a close carried out before. */
  ghost predicate StrayAt(events: seq<Event>, k: nat)
    requires k < |events|
  {
    var s, e := Run(events[..k]), events[k];
    e.WriteReadyRep? && Ever(Closes, events[..k]) && e.peer in s.writeQ && !e.result.WouldBlock?
  }

  lemma StraysIff(events: seq<Event>)
    ensures Ever(Strays, events) <==> exists k: nat :: k < |events| && StrayAt(events, k)
  {
    forall k: nat | k < |events|
      ensures Happens(Strays, events, k) <==> StrayAt(events, k)
    {
      ShutIffCloses(events[..k]);
    }
  }

  /** No write of the run is answered twice. */
  ghost predicate WritesAtMostOnce(events: seq<Event>) {
    forall i: nat | i < |events| && events[i].WriteReq? :: |Calls(Run(events).answers, i)| <= 1
  }

  /**
   * Write accounting. A close leaves its answered writes in the map, so a later "writable" answers one again: each
   * write is answered at most once exactly when no such tick comes for a leftover with an outcome other than
   * "would block".
   */
  lemma WritesAtMostOnceIff(events: seq<Event>)
    ensures WritesAtMostOnce(events) <==> forall k: nat | k < |events| :: !StrayAt(events, k)
  {
    var s := Run(events);
    InvRun(events);
    SomeAgainIff(events);
    StraysIff(events);
    forall i: nat | i < |events| && events[i].WriteReq?
      ensures |Calls(s.answers, i)| == if i in s.again then 2 else if i in s.writeQ.Values && !s.shut then 0 else 1
    {
      assert |Calls(s.answers, i)| == Due(s, i, events[i]);
    }
    if s.again != {} {
      var i :| i in s.again;
      assert i < |events| && events[i].WriteReq? && |Calls(s.answers, i)| == 2;
    }
  }

  // ---------- what a closed socket has answered ----------

  /** After a close each request has one call; none if it met the end of file, two if a stray reply answered it again. */
  lemma ClosedAnswersAll(events: seq<Event>, i: Id)
    requires Ever(Closes, events) && i < |events| && IsRequest(events[i])
    ensures |Calls(Run(events).answers, i)| ==
            if Ever(DropsRead(i), events) then 0 else if Ever(StraysFor(i), events) then 2 else 1
  {
    var s := Run(events);
    InvRun(events);
    ShutIffCloses(events);
    DroppedIff(events, i);
    AgainIff(events, i);
    assert |Calls(s.answers, i)| == Due(s, i, events[i]);
    assert i in s.again ==> events[i].WriteReq?;
    if i in s.dropped {
      DroppedIsRead(s, events, i);
    }
  }

  lemma DroppedIsRead(s: Sock, events: seq<Event>, i: Id)
    requires Reads(s, events) && i in s.dropped
    ensures i < |events| && events[i].ReadReq?
  {
    var j :| 0 <= j < |s.readsOut| && s.readsOut[j] == i;
    assert s.readsIn[j] in s.readsIn;
  }

  /** Every request of the run has had a call. */
  ghost predicate AllAnswered(events: seq<Event>) {
    forall i: nat | i < |events| && IsRequest(events[i]) :: Calls(Run(events).answers, i) != []
  }

  lemma DroppedIsLost(s: Sock, events: seq<Event>)
    requires Inv(s, events) && s.dropped != []
    ensures exists i: nat :: i < |events| && IsRequest(events[i]) && Calls(s.answers, i) == []
  {
    var i := s.dropped[0];
    DroppedIsRead(s, events, i);
    assert |Calls(s.answers, i)| == Due(s, i, events[i]);
  }

  lemma QueuedIsLost(s: Sock, events: seq<Event>)
    requires Inv(s, events) && !s.shut && (s.readQ != [] || s.writeQ != map[])
    ensures exists i: nat :: i < |events| && IsRequest(events[i]) && Calls(s.answers, i) == []
  {
    if s.readQ != [] {
      var i := s.readQ[0];
      HeadOnce(s, events);
      assert |Calls(s.answers, i)| == Due(s, i, events[i]);
    } else {
      var p :| p in s.writeQ;
      var i := s.writeQ[p];
      assert i in s.writeQ.Values && s.again == {};
      assert |Calls(s.answers, i)| == Due(s, i, events[i]);
    }
  }

  /**
   * A closed socket has answered every request exactly when no queued read has met an end of file while connected, and
   * it was closed by a close or, closed by a failed bind or connect, has nothing left in its queues.
   */
  lemma ClosedAnswersAllIff(events: seq<Event>)
    requires Run(events).phase.Closed?
    ensures AllAnswered(events) <==>
            !Ever(Drops, events) && (Ever(Closes, events) || (Run(events).readQ == [] && Run(events).writeQ == map[]))
  {
    var s := Run(events);
    InvRun(events);
    ShutIffCloses(events);
    SomeDroppedIff(events);
    if s.dropped != [] {
      DroppedIsLost(s, events);
    } else if !s.shut && (s.readQ != [] || s.writeQ != map[]) {
      QueuedIsLost(s, events);
    } else {
      forall i: nat | i < |events| && IsRequest(events[i])
        ensures Calls(s.answers, i) != []
      {
        assert |Calls(s.answers, i)| == Due(s, i, events[i]);
      }
    }
  }
}
