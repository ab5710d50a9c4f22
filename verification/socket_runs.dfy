/** Who is answered, how often and when, over whole runs of the socket's state machine. */
module SocketRuns {
  import opened SocketSpec

  // ---------- the invariant ----------

  /** How many calls request `i`, which came with `e`, has had. */
  function Due(s: Sock, i: Id, e: Event): nat {
    match e
    case BindReq => if s.phase.BindWait? && i in s.bindQ then 0 else 1
    case ConnectReq => if s.phase.ConnectWait? && i in s.connectQ then 0 else 1
    case ReadReq(_) => if i in s.readQ || i in s.dropped then 0 else 1
    case WriteReq(_, _, _) => if i in s.again then 2 else if i in s.writeQ.Values && !s.shut then 0 else 1
    case CloseReq => 1
    case _ => 0
  }

  ghost predicate Counted(s: Sock, events: seq<Event>) {
    && (forall i: nat | i < |events| :: |Calls(s.answers, i)| == Due(s, i, events[i]))
    && (forall i <- s.answers :: i < |events|)
  }

  ghost predicate Phases(s: Sock, events: seq<Event>) {
    && !s.phase.CloseWait?
    && |s.bindQ| <= 1 && |s.connectQ| <= 1
    && (s.phase.BindWait? ==> s.bindQ != []) && (s.phase.ConnectWait? ==> s.connectQ != [])
    && (!s.phase.BindWait? && !s.phase.Closed? ==> s.bindQ == [])
    && (!s.phase.ConnectWait? && !s.phase.Closed? ==> s.connectQ == [])
    && (forall i <- s.bindQ :: i < |events| && events[i].BindReq?)
    && (forall i <- s.connectQ :: i < |events| && events[i].ConnectReq?)
    && (s.shut ==> s.phase.Closed?)
  }

  ghost predicate Increasing(ids: seq<Id>) {
    forall j, k :: 0 <= j < k < |ids| ==> ids[j] < ids[k]
  }

  ghost predicate Reads(s: Sock, events: seq<Event>) {
    && s.readsIn == s.readsOut + s.readQ
    && Increasing(s.readsIn)
    && (forall i <- s.readsIn :: i < |events| && events[i].ReadReq?)
    && |s.readQ| <= READ_LIMIT
    && |s.dropped| <= 1 && (forall i <- s.dropped :: i in s.readsOut)
    && (s.shut ==> s.readQ == []) && (s.dropped != [] ==> s.shut)
  }

  ghost predicate Writes(s: Sock, events: seq<Event>) {
    && (forall p, q :: p in s.writeQ && q in s.writeQ && s.writeQ[p] == s.writeQ[q] ==> p == q)
    && (forall p <- s.writeQ :: s.writeQ[p] < |events| && events[s.writeQ[p]].WriteReq?)
    && (forall i <- s.again :: i < |events| && events[i].WriteReq? && i !in s.writeQ.Values)
    && (s.again != {} ==> s.shut)
  }

  ghost predicate Inv(s: Sock, events: seq<Event>) {
    Phases(s, events) && Reads(s, events) && Writes(s, events) && Counted(s, events)
  }

  predicate IsRequest(e: Event) {
    e.BindReq? || e.ConnectReq? || e.ReadReq? || e.WriteReq? || e.CloseReq?
  }

  // ---------- steps that keep it ----------

  /** A request answered at once, as every refused one is. */
  lemma AnsweredAtOnce(s: Sock, events: seq<Event>, e: Event, a: Answer)
    requires Inv(s, events)
    requires IsRequest(e)
    ensures Inv(Reply(s, |events|, a), events + [e])
  {
    var n, es, s' := |events|, events + [e], Reply(s, |events|, a);
    assert n !in s.answers;
    assert n !in s.bindQ && n !in s.connectQ && n !in s.readsIn && n !in s.readsOut && n !in s.readQ && n !in s.dropped;
    assert n !in s.again && n !in s.writeQ.Values;
    forall i: nat | i < |es|
      ensures |Calls(s'.answers, i)| == Due(s', i, es[i])
    {
      if i < n {
        assert es[i] == events[i] && Calls(s'.answers, i) == Calls(s.answers, i);
      }
    }
  }

  lemma NotARequest(s: Sock, events: seq<Event>, e: Event)
    requires Inv(s, events)
    requires !IsRequest(e)
    ensures Inv(s, events + [e])
  {
  }

  /** The read at the head of the queue is in it once, and was never taken out before. */
  lemma HeadOnce(s: Sock, events: seq<Event>)
    requires Reads(s, events) && s.readQ != []
    ensures var id := s.readQ[0];
            && id !in s.readQ[1..] && id !in s.readsOut && id !in s.dropped
            && id < |events| && events[id].ReadReq?
  {
    var id, k := s.readQ[0], |s.readsOut|;
    assert s.readsIn[k] == id && id in s.readsIn;
    assert forall j | 0 < j < |s.readQ| :: s.readsIn[k + j] == s.readQ[j];
    assert forall j | 0 <= j < k :: s.readsIn[j] == s.readsOut[j];
  }

  lemma ReadsPopped(s: Sock, events: seq<Event>, s': Sock)
    requires Reads(s, events) && s.readQ != []
    requires s'.readsIn == s.readsIn && s'.readQ == s.readQ[1..] && s'.readsOut == s.readsOut + [s.readQ[0]]
    requires !s'.shut && s'.dropped == s.dropped == []
    ensures Reads(s', events)
  {
  }

  lemma InvAnswerRead(s: Sock, events: seq<Event>, a: Answer)
    requires Inv(s, events) && s.readQ != []
    ensures Inv(AnswerRead(s, a), events)
  {
    var s', id := AnswerRead(s, a), s.readQ[0];
    HeadOnce(s, events);
    ReadsPopped(s, events, s');
    assert s.readQ == [id] + s.readQ[1..];
    forall i: nat | i < |events|
      ensures |Calls(s'.answers, i)| == Due(s', i, events[i])
    {
      assert |Calls(s.answers, i)| == Due(s, i, events[i]);
    }
  }

  lemma QueuedIsDue(s: Sock, events: seq<Event>, i: Id)
    requires Reads(s, events) && i in s.readQ
    ensures i < |events| && events[i].ReadReq? && Due(s, i, events[i]) == 0
  {
    var j :| 0 <= j < |s.readQ| && s.readQ[j] == i;
    assert s.readsIn[|s.readsOut| + j] == i;
    assert i in s.readsIn;
  }

  lemma WaitingIsDue(s: Sock, events: seq<Event>, i: Id)
    requires Inv(s, events) && !s.phase.Over() && i in Head(s.bindQ) + Head(s.connectQ)
    ensures i < |events| && Due(s, i, events[i]) == 0
  {
    if i in Head(s.bindQ) {
      assert s.bindQ[0] in s.bindQ;
    } else {
      assert s.connectQ[0] in s.connectQ;
    }
  }

  lemma WriteIsDue(s: Sock, events: seq<Event>, i: Id)
    requires Inv(s, events) && !s.phase.Over() && i in s.writeQ.Values
    ensures i < |events| && events[i].WriteReq? && Due(s, i, events[i]) == 0
  {
    var p :| p in s.writeQ && s.writeQ[p] == i;
  }

  /** The requests a close would fail are exactly those still due a call. */
  lemma PendingAreDue(s: Sock, events: seq<Event>, i: Id)
    requires Inv(s, events) && !s.phase.Over()
    ensures i in Pending(s) ==> i < |events| && Due(s, i, events[i]) == 0
    ensures i < |events| && i !in Pending(s) ==>
              Due(s, i, events[i]) == Due(s.(phase := Closed, readQ := [], shut := true), i, events[i])
  {
    if i in s.readQ {
      QueuedIsDue(s, events, i);
    } else if i in s.writeQ.Values {
      WriteIsDue(s, events, i);
    } else if i in Pending(s) {
      WaitingIsDue(s, events, i);
    } else {
      OnlyHeads(s, events, i);
    }
  }

  /** A bind or connect that is waited for is at the head of its queue. */
  lemma OnlyHeads(s: Sock, events: seq<Event>, i: Id)
    requires Phases(s, events)
    ensures i in s.bindQ ==> i in Head(s.bindQ)
    ensures i in s.connectQ ==> i in Head(s.connectQ)
  {
  }

  /** Carrying out a close answers exactly the requests that were still due one call. */
  lemma InvClose(s: Sock, events: seq<Event>)
    requires Inv(s, events) && !s.phase.Over()
    ensures Inv(OnCloseReq(s, None), events)
  {
    var s' := OnCloseReq(s, None);
    assert s'.readsIn == s'.readsOut + s'.readQ;
    forall i | i in s'.answers
      ensures i < |events|
    {
      PendingAreDue(s, events, i);
    }
    forall i: nat | i < |events|
      ensures |Calls(s'.answers, i)| == Due(s', i, events[i])
    {
      PendingAreDue(s, events, i);
      CallsGiven(s.answers, Pending(s), Plain(Error), i);
      assert |Calls(s.answers, i)| == Due(s, i, events[i]);
    }
  }

  lemma PendingAfterDrop(s: Sock, events: seq<Event>)
    requires Inv(s, events) && s.readQ != []
    ensures var id := s.readQ[0];
            Pending(DropRead(s)) == Pending(s) - {id} && Calls(s.answers, id) == []
    ensures (s.readsOut + [s.readQ[0]]) + s.readQ[1..] == s.readsOut + s.readQ
  {
    var id := s.readQ[0];
    HeadOnce(s, events);
    assert |Calls(s.answers, id)| == Due(s, id, events[id]);
    assert Elements(s.readQ[1..]) == Elements(s.readQ) - {id} by {
      assert s.readQ == [id] + s.readQ[1..];
    }
    assert id !in Head(s.bindQ) && id !in Head(s.connectQ);
    assert id !in s.writeQ.Values;
  }

  /** Dropping the read at the head and closing is closing, save that this read is left without a call. */
  lemma DropThenClose(s: Sock, events: seq<Event>)
    requires Inv(s, events) && s.readQ != [] && !s.phase.Over()
    ensures var c, d := OnCloseReq(s, None), OnCloseReq(DropRead(s), None);
            && d == c.(dropped := [s.readQ[0]], answers := d.answers)
            && Calls(d.answers, s.readQ[0]) == []
            && (forall i | i != s.readQ[0] :: Calls(d.answers, i) == Calls(c.answers, i))
            && d.answers.Keys <= c.answers.Keys
  {
    var id := s.readQ[0];
    PendingAfterDrop(s, events);
    assert s.dropped == [] && [] + [id] == [id];
    forall i: Id
      ensures Calls(GiveEach(s.answers, Pending(s) - {id}, Plain(Error)), i) ==
              if i == id then [] else Calls(GiveEach(s.answers, Pending(s), Plain(Error)), i)
    {
      CallsGiven(s.answers, Pending(s), Plain(Error), i);
      CallsGiven(s.answers, Pending(s) - {id}, Plain(Error), i);
    }
  }

  lemma InvUncalled(c: Sock, d: Sock, events: seq<Event>, id: Id)
    requires Inv(c, events) && c.shut && c.dropped == []
    requires id < |events| && events[id].ReadReq? && id in c.readsOut
    requires d == c.(dropped := [id], answers := d.answers) && Calls(d.answers, id) == []
    requires forall i | i != id :: Calls(d.answers, i) == Calls(c.answers, i)
    requires d.answers.Keys <= c.answers.Keys
    ensures Inv(d, events)
  {
  }

  /** An end of file on a connected socket drops the read it came for and closes. */
  lemma InvDropClose(s: Sock, events: seq<Event>)
    requires Inv(s, events) && s.readQ != [] && !s.phase.Over()
    ensures Inv(OnCloseReq(DropRead(s), None), events)
  {
    HeadOnce(s, events);
    DropThenClose(s, events);
    InvClose(s, events);
    InvUncalled(OnCloseReq(s, None), OnCloseReq(DropRead(s), None), events, s.readQ[0]);
  }

  lemma {:induction false} InvTransportRead(s: Sock, events: seq<Event>, results: seq<ReadResult>)
    requires Inv(s, events)
    ensures Inv(TransportRead(s, results), events)
    decreases |s.readQ|
  {
    if s.readQ != [] {
      var r, rest := if results == [] then NOTHING else results[0], if results == [] then [] else results[1..];
      if r.n == 0 {
        if r.status.WouldBlock? {
        } else if r.status.Eof? && s.phase.Connected? {
          InvDropClose(s, events);
        } else {
          InvAnswerRead(s, events, Answer(r.status, [], r.peer));
          InvTransportRead(AnswerRead(s, Answer(r.status, [], r.peer)), events, rest);
        }
      } else {
        InvAnswerRead(s, events, Answer(Ok, r.data, r.peer));
        InvTransportRead(AnswerRead(s, Answer(Ok, r.data, r.peer)), events, rest);
      }
    }
  }

  /** Answering a pending write takes its id, and no other, out of the map. */
  lemma ValuesWithout(m: map<Peer, Id>, key: Peer, i: Id)
    requires key in m && forall p, q :: p in m && q in m && m[p] == m[q] ==> p == q
    ensures i in (m - {key}).Values <==> i in m.Values && i != m[key]
  {
    if i in m.Values && i != m[key] {
      var p :| p in m && m[p] == i;
      assert p in m - {key} && (m - {key})[p] == i;
    }
  }

  lemma WriteCounted(s: Sock, events: seq<Event>, peer: Peer, result: IOStatus)
    requires Inv(s, events)
    ensures var s' := TransportWrite(s, peer, result);
            forall i: nat | i < |events| :: |Calls(s'.answers, i)| == Due(s', i, events[i])
  {
    var key, s' := WriteKey(s, peer), TransportWrite(s, peer, result);
    forall i: nat | i < |events|
      ensures |Calls(s'.answers, i)| == Due(s', i, events[i])
    {
      assert |Calls(s.answers, i)| == Due(s, i, events[i]);
      if key in s.writeQ {
        ValuesWithout(s.writeQ, key, i);
      }
    }
  }

  lemma InvTransportWrite(s: Sock, events: seq<Event>, peer: Peer, result: IOStatus)
    requires Inv(s, events)
    ensures Inv(TransportWrite(s, peer, result), events)
  {
    var key := WriteKey(s, peer);
    WriteCounted(s, events, peer, result);
    if key in s.writeQ {
      assert s.writeQ[key] in s.writeQ.Values;
      ValuesWithout(s.writeQ, key, s.writeQ[key]);
    }
  }

  /** A request accepted into a queue is due no call yet. */
  lemma Queued(s: Sock, events: seq<Event>, e: Event, s': Sock)
    requires Inv(s, events) && s'.answers == s.answers
    requires s'.again == s.again && s'.dropped == s.dropped && s'.shut == s.shut && !s.shut
    requires Due(s', |events|, e) == 0
    requires forall i: nat | i < |events| :: Due(s', i, events[i]) == Due(s, i, events[i])
    ensures Counted(s', events + [e])
  {
  }

  lemma InvQueueRead(s: Sock, events: seq<Event>, e: Event)
    requires Inv(s, events) && !s.phase.Over() && |s.readQ| < READ_LIMIT && e.ReadReq?
    ensures Inv(s.(readQ := s.readQ + [|events|], readsIn := s.readsIn + [|events|]), events + [e])
  {
    var n := |events|;
    var s' := s.(readQ := s.readQ + [n], readsIn := s.readsIn + [n]);
    assert s'.readsIn == s'.readsOut + s'.readQ;
    assert forall j | 0 <= j < |s.readsIn| :: s.readsIn[j] in s.readsIn;
    Queued(s, events, e, s');
  }

  lemma InvReadReq(s: Sock, events: seq<Event>, results: seq<ReadResult>)
    requires Inv(s, events) && !s.phase.Over() && |s.readQ| < READ_LIMIT
    ensures Inv(OnReadReq(s, |events|, results), events + [ReadReq(results)])
  {
    var n, e := |events|, ReadReq(results);
    InvQueueRead(s, events, e);
    InvTransportRead(s.(readQ := s.readQ + [n], readsIn := s.readsIn + [n]), events + [e], results);
  }

  lemma InvWriteReq(s: Sock, events: seq<Event>, peer: Peer, data: Data, result: IOStatus)
    requires Inv(s, events) && !s.phase.Over() && peer !in s.writeQ
    ensures var n := |events|;
            Inv(TransportWrite(s.(writeQ := s.writeQ[peer := n]), peer, result), events + [WriteReq(peer, data, result)])
  {
    var n, e := |events|, WriteReq(peer, data, result);
    var s' := s.(writeQ := s.writeQ[peer := n]);
    assert n in s'.writeQ.Values by { assert peer in s'.writeQ; }
    forall i | i in s.writeQ.Values
      ensures i in s'.writeQ.Values
    {
      var p :| p in s.writeQ && s.writeQ[p] == i;
      assert p in s'.writeQ && s'.writeQ[p] == i;
    }
    Queued(s, events, e, s');
    InvTransportWrite(s', events + [e], peer, result);
  }

  lemma InvBindReq(s: Sock, events: seq<Event>)
    requires Inv(s, events) && s.phase.Idle?
    ensures Inv(OnBindReq(s, |events|), events + [BindReq])
  {
  }

  lemma InvConnectReq(s: Sock, events: seq<Event>)
    requires Inv(s, events) && s.phase.Idle?
    ensures Inv(OnConnectReq(s, |events|), events + [ConnectReq])
  {
  }

  lemma InvBindRep(s: Sock, events: seq<Event>, status: IOStatus, endpoint: string)
    requires Inv(s, events)
    ensures Inv(OnBindRep(s, status, endpoint), events)
  {
    if s.phase.BindWait? {
      var s' := OnBindRep(s, status, endpoint);
      assert s.bindQ[0] in s.bindQ && s.bindQ[1..] == [];
      forall i: nat | i < |events|
        ensures |Calls(s'.answers, i)| == Due(s', i, events[i])
      {
        assert |Calls(s.answers, i)| == Due(s, i, events[i]);
      }
    }
  }

  lemma InvConnectRep(s: Sock, events: seq<Event>, status: IOStatus)
    requires Inv(s, events)
    ensures Inv(OnConnectRep(s, status), events)
  {
    if s.phase.ConnectWait? {
      var s' := OnConnectRep(s, status);
      assert s.connectQ[0] in s.connectQ && s.connectQ[1..] == [];
      forall i: nat | i < |events|
        ensures |Calls(s'.answers, i)| == Due(s', i, events[i])
      {
        assert |Calls(s.answers, i)| == Due(s, i, events[i]);
      }
    }
  }

  lemma InvTick(s: Sock, events: seq<Event>, e: Event)
    requires Inv(s, events)
    ensures Inv(Tick(s, |events|, e), events + [e])
  {
    match e
    case BindReq =>
      if s.phase.Idle? { InvBindReq(s, events); } else { AnsweredAtOnce(s, events, e, Plain(Fatal)); }
    case ConnectReq =>
      if s.phase.Idle? { InvConnectReq(s, events); } else { AnsweredAtOnce(s, events, e, Plain(Fatal)); }
    case BindRep(status, endpoint) =>
      NotARequest(s, events, e);
      InvBindRep(s, events + [e], status, endpoint);
    case ConnectRep(status) =>
      NotARequest(s, events, e);
      InvConnectRep(s, events + [e], status);
    case ReadReq(results) =>
      if s.phase.Over() { AnsweredAtOnce(s, events, e, Plain(Error)); }
      else if |s.readQ| >= READ_LIMIT { AnsweredAtOnce(s, events, e, Plain(WouldBlock)); }
      else { InvReadReq(s, events, results); }
    case ReadReadyRep(results) =>
      NotARequest(s, events, e);
      InvTransportRead(s, events + [e], results);
    case WriteReq(peer, data, result) =>
      if s.phase.Over() || (s.phase.Bound? && peer == "") { AnsweredAtOnce(s, events, e, Plain(Error)); }
      else if data == [] { AnsweredAtOnce(s, events, e, Plain(Fatal)); }
      else if peer in s.writeQ { AnsweredAtOnce(s, events, e, Plain(WouldBlock)); }
      else { InvWriteReq(s, events, peer, data, result); }
    case WriteReadyRep(peer, result) =>
      NotARequest(s, events, e);
      InvTransportWrite(s, events + [e], peer, result);
    case CloseReq =>
      if s.phase.Over() {
        AnsweredAtOnce(s, events, e, Plain(Ok));
      } else {
        InvClose(s, events);
        AnsweredAtOnce(OnCloseReq(s, None), events, e, Plain(Ok));
      }
  }

  lemma {:induction false} InvRun(events: seq<Event>)
    ensures Inv(Run(events), events)
  {
    if events != [] {
      var n := |events| - 1;
      InvRun(events[..n]);
      assert events == events[..n] + [events[n]];
      InvTick(Run(events[..n]), events[..n], events[n]);
    }
  }

  lemma PendingIsOnce(s: Sock, events: seq<Event>)
    requires Inv(s, events)
    ensures PendingOnce(s)
  {
    var k := |s.readsOut|;
    forall j | 0 <= j < |s.readQ|
      ensures s.readsIn[k + j] == s.readQ[j] && s.readQ[j] < |events| && events[s.readQ[j]].ReadReq?
    {
      assert s.readsIn[k + j] in s.readsIn;
    }
    forall i | i in s.writeQ.Values
      ensures i < |events| && events[i].WriteReq?
    {
    }
  }

  // ---------- what follows for whole runs ----------

  lemma Further(events: seq<Event>, e: Event)
    ensures Run(events + [e]) == Tick(Run(events), |events|, e)
  {
    assert (events + [e])[..|events|] == events;
  }

  lemma CallsDue(events: seq<Event>, i: Id)
    requires i < |events|
    ensures |Calls(Run(events).answers, i)| == Due(Run(events), i, events[i])
  {
    InvRun(events);
  }

  lemma QueuedIsRead(events: seq<Event>, j: nat)
    requires j < |Run(events).readQ|
    ensures Run(events).readQ[j] < |events| && events[Run(events).readQ[j]].ReadReq?
  {
    var s := Run(events);
    InvRun(events);
    assert s.readsIn[|s.readsOut| + j] in s.readsIn;
  }

  lemma PendingIsWrite(events: seq<Event>, peer: Peer)
    requires peer in Run(events).writeQ
    ensures Run(events).writeQ[peer] < |events| && events[Run(events).writeQ[peer]].WriteReq?
  {
    InvRun(events);
  }

  lemma PendingOnceRun(events: seq<Event>)
    ensures PendingOnce(Run(events))
  {
    InvRun(events);
    PendingIsOnce(Run(events), events);
  }

  lemma LogsOfRun(events: seq<Event>)
    ensures var s := Run(events);
            && |s.dropped| <= 1 && (s.shut ==> s.phase.Closed?) && (!s.shut ==> s.again == {} && s.dropped == [])
  {
    InvRun(events);
  }

  /** The reads a run accepted: those that found the socket open and the queue not full. */
  function AcceptedReads(events: seq<Event>): seq<Id> {
    if events == [] then []
    else
      var n := |events| - 1;
      var before := Run(events[..n]);
      AcceptedReads(events[..n]) +
      if events[n].ReadReq? && !before.phase.Over() && |before.readQ| < READ_LIMIT then [n] else []
  }

  lemma {:induction false} TransportReadAccepts(s: Sock, results: seq<ReadResult>)
    ensures TransportRead(s, results).readsIn == s.readsIn
    decreases |s.readQ|
  {
    if s.readQ != [] {
      var r, rest := if results == [] then NOTHING else results[0], if results == [] then [] else results[1..];
      TransportReadAccepts(AnswerRead(s, Answer(r.status, [], r.peer)), rest);
      TransportReadAccepts(AnswerRead(s, Answer(Ok, r.data, r.peer)), rest);
    }
  }

  lemma TickAccepts(s: Sock, id: Id, e: Event)
    ensures Tick(s, id, e).readsIn ==
            s.readsIn + if e.ReadReq? && !s.phase.Over() && |s.readQ| < READ_LIMIT then [id] else []
  {
    match e
    case ReadReq(results) => TransportReadAccepts(s.(readQ := s.readQ + [id], readsIn := s.readsIn + [id]), results);
    case ReadReadyRep(results) => TransportReadAccepts(s, results);
    case _ =>
  }

  lemma {:induction false} RecordsAccepted(events: seq<Event>)
    ensures Run(events).readsIn == AcceptedReads(events)
  {
    if events != [] {
      var n := |events| - 1;
      RecordsAccepted(events[..n]);
      TickAccepts(Run(events[..n]), n, events[n]);
    }
  }

  /** The tick answers a write that the close had answered already. */
  predicate Stray(s: Sock, e: Event) {
    e.WriteReadyRep? && s.shut && e.peer in s.writeQ && !e.result.WouldBlock?
  }

  lemma {:induction false} TransportReadSame(s: Sock, results: seq<ReadResult>)
    ensures var t := TransportRead(s, results); t.again == s.again && t.writeQ == s.writeQ
    decreases |s.readQ|
  {
    if s.readQ != [] {
      var r, rest := if results == [] then NOTHING else results[0], if results == [] then [] else results[1..];
      TransportReadSame(AnswerRead(s, Answer(r.status, [], r.peer)), rest);
      TransportReadSame(AnswerRead(s, Answer(Ok, r.data, r.peer)), rest);
    }
  }

  lemma AgainGrows(s: Sock, id: Id, e: Event)
    requires !s.phase.CloseWait? && (s.shut ==> s.phase.Closed?)
    ensures Tick(s, id, e).again == s.again + if Stray(s, e) then {s.writeQ[e.peer]} else {}
  {
    match e
    case ReadReq(results) => TransportReadSame(s.(readQ := s.readQ + [id], readsIn := s.readsIn + [id]), results);
    case ReadReadyRep(results) => TransportReadSame(s, results);
    case _ =>
  }

  /** Bind and connect requests are answered exactly once, as soon as the socket waits for neither. */
  lemma BindConnectOnce(events: seq<Event>, i: Id)
    requires i < |events| && (events[i].BindReq? || events[i].ConnectReq?)
    ensures var s := Run(events);
            |Calls(s.answers, i)| <= 1
            && (!s.phase.BindWait? && !s.phase.ConnectWait? ==> |Calls(s.answers, i)| == 1)
  {
    InvRun(events);
    assert |Calls(Run(events).answers, i)| == Due(Run(events), i, events[i]);
  }

  /** The asserts of the source never fail: a socket waiting for a reply has the request to answer. */
  lemma WaitingHasRequest(events: seq<Event>)
    ensures var s := Run(events);
            && (s.phase.BindWait? ==> |s.bindQ| == 1)
            && (s.phase.ConnectWait? ==> |s.connectQ| == 1)
            && !s.phase.CloseWait?
  {
    InvRun(events);
  }

  // ---------- phases ----------

  function Rank(p: Phase): nat {
    match p
    case Idle => 0
    case BindWait => 1
    case ConnectWait => 1
    case Bound => 2
    case Connected => 2
    case CloseWait => 3
    case Closed => 4
  }

  predicate Server(p: Phase) {
    p.BindWait? || p.Bound?
  }

  predicate Client(p: Phase) {
    p.ConnectWait? || p.Connected?
  }

  lemma {:induction false} TransportReadPhase(s: Sock, results: seq<ReadResult>)
    ensures var p := TransportRead(s, results).phase; p == s.phase || (p.Closed? && s.phase.Connected?)
    decreases |s.readQ|
  {
    if s.readQ != [] {
      var r, rest := if results == [] then NOTHING else results[0], if results == [] then [] else results[1..];
      TransportReadPhase(AnswerRead(s, Answer(r.status, [], r.peer)), rest);
      TransportReadPhase(AnswerRead(s, Answer(Ok, r.data, r.peer)), rest);
    }
  }

  lemma NextPhase(s: Sock, id: Id, e: Event)
    ensures var p := Tick(s, id, e).phase;
            || p == s.phase || (p.Closed? && !s.phase.CloseWait?)
            || (s.phase.Idle? && (p.BindWait? || p.ConnectWait?))
            || (s.phase.BindWait? && p.Bound?) || (s.phase.ConnectWait? && p.Connected?)
  {
    match e
    case ReadReq(results) => TransportReadPhase(s.(readQ := s.readQ + [id], readsIn := s.readsIn + [id]), results);
    case ReadReadyRep(results) => TransportReadPhase(s, results);
    case _ =>
  }

  /** Every change of phase goes strictly up, and never from one role to the other. */
  lemma PhaseRises(s: Sock, id: Id, e: Event)
    requires !s.phase.CloseWait?
    ensures var p := Tick(s, id, e).phase;
            && (p == s.phase || Rank(p) > Rank(s.phase))
            && (Server(s.phase) ==> !Client(p)) && (Client(s.phase) ==> !Server(p))
  {
    NextPhase(s, id, e);
  }

  lemma {:induction false} PhaseRisesOver(events: seq<Event>, i: nat)
    requires i <= |events|
    ensures var p, q := Run(events[..i]).phase, Run(events).phase;
            && (p == q || Rank(q) > Rank(p))
            && (Server(p) ==> !Client(q)) && (Client(p) ==> !Server(q))
  {
    if i == |events| {
      assert events[..i] == events;
    } else {
      var n := |events| - 1;
      PhaseRisesOver(events[..n], i);
      assert events[..n][..i] == events[..i];
      InvRun(events[..n]);
      PhaseRises(Run(events[..n]), n, events[n]);
    }
  }

  /** A run has one role at most: it never waits to bind, or is bound, and elsewhere waits to connect, or is connected. */
  lemma OneRole(events: seq<Event>, i: nat, j: nat)
    requires i <= |events| && j <= |events|
    ensures !(Server(Run(events[..i]).phase) && Client(Run(events[..j]).phase))
  {
    if i <= j {
      PhaseRisesOver(events[..j], i);
      assert events[..j][..i] == events[..i];
    } else {
      PhaseRisesOver(events[..i], j);
      assert events[..i][..j] == events[..j];
    }
  }
}
