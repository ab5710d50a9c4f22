/** The socket as an object: its ticks, proved against the state machine on values. */
module Sockets {
  import opened SocketSpec
  import SocketRuns

  /** What the ticks rely on: a reply waited for has its request, and no pending request is in two places. */
  ghost predicate CanTake(s: Sock, id: Id, e: Event) {
    && PendingOnce(s)
    && (s.phase == BindWait ==> s.bindQ != []) && (s.phase == ConnectWait ==> s.connectQ != [])
    && (e.ReadReq? && !s.phase.Over() && |s.readQ| < READ_LIMIT ==> PendingOnce(s.(readQ := s.readQ + [id])))
  }

  lemma OneMoreRead(s: Sock, events: seq<Event>)
    requires SocketRuns.Inv(s, events) && PendingOnce(s)
    ensures PendingOnce(s.(readQ := s.readQ + [|events|]))
  {
    forall j | 0 <= j < |s.readQ|
      ensures s.readQ[j] < |events|
    {
      assert s.readsIn[|s.readsOut| + j] in s.readsIn;
    }
  }

  lemma Accepting(events: seq<Event>, e: Event)
    ensures CanTake(Run(events), |events|, e)
  {
    SocketRuns.InvRun(events);
    SocketRuns.PendingIsOnce(Run(events), events);
    OneMoreRead(Run(events), events);
  }

  class Socket {
    var phase: Phase
    var bindQueue: seq<Id>
    var connectQueue: seq<Id>
    var readQueue: seq<Id>
    var writeQueue: map<Peer, Id>
    /** Calls of user callbacks. */
    var answers: Answers
    ghost var readsIn: seq<Id>
    ghost var readsOut: seq<Id>
    ghost var dropped: seq<Id>
    ghost var again: set<Id>
    ghost var shut: bool

    /** The ticks so far, in order; a request's id is the number of its tick. */
    ghost var events: seq<Event>
    var ticks: nat

    ghost predicate Valid()
      reads this
    {
      State() == Run(events) && ticks == |events|
    }

    ghost function State(): Sock
      reads this
    {
      Sock(phase, bindQueue, connectQueue, readQueue, writeQueue, answers, readsIn, readsOut, dropped, again, shut)
    }

    constructor ()
      ensures Valid() && events == []
    {
      phase, bindQueue, connectQueue, readQueue, writeQueue, answers := Idle, [], [], [], map[], map[];
      readsIn, readsOut, dropped, again, shut, events, ticks := [], [], [], {}, false, [], 0;
    }

    /** Any tick: the object follows the state machine, so every law of its runs holds of the object. */
    method Tick(e: Event)
      requires Valid()
      modifies this
      ensures Valid() && events == old(events) + [e]
    {
      Accepting(events, e);
      Dispatch(e);
      assert (events + [e])[..ticks] == events;
      ticks := ticks + 1;
      events := events + [e];
    }

    method Dispatch(e: Event)
      requires CanTake(State(), ticks, e)
      modifies this`phase, this`bindQueue, this`connectQueue, this`readQueue, this`writeQueue, this`answers
      modifies this`readsIn, this`readsOut, this`dropped, this`again, this`shut
      ensures State() == SocketSpec.Tick(old(State()), ticks, e)
    {
      match e
      case BindReq => TickBindReq(ticks);
      case BindRep(status, endpoint) => TickBindRep(status, endpoint);
      case ConnectReq => TickConnectReq(ticks);
      case ConnectRep(status) => TickConnectRep(status);
      case ReadReq(results) => TickReadReq(ticks, results);
      case ReadReadyRep(results) => TickReadReadyRep(results);
      case WriteReq(peer, data, result) => TickWriteReq(ticks, peer, data, result);
      case WriteReadyRep(peer, result) => TickWriteReadyRep(peer, result);
      case CloseReq => TickCloseReq(Some(ticks));
    }

    /** Calls the callback of request `id`. */
    method Callback(id: Id, a: Answer)
      modifies this`answers
      ensures answers == Give(old(answers), id, a)
    {
      answers := Give(answers, id, a);
    }

    method TickBindReq(id: Id)
      modifies `phase, `bindQueue, `answers
      ensures State() == OnBindReq(old(State()), id)
    {
      if phase != Idle {
        Callback(id, Plain(Fatal));
        return;
      }
      phase := BindWait;
      bindQueue := bindQueue + [id];
    }

    method TickBindRep(status: IOStatus, endpoint: string)
      requires phase == BindWait ==> bindQueue != []
      modifies `phase, `bindQueue, `answers
      ensures State() == OnBindRep(old(State()), status, endpoint)
    {
      if phase != BindWait {
        return;
      }
      var req := bindQueue[0];
      bindQueue := bindQueue[1..];
      if status == Ok {
        phase := Bound;
        Callback(req, Answer(status, [], endpoint));
      } else {
        phase := Closed;
        Callback(req, Plain(status));
      }
    }

    method TickConnectReq(id: Id)
      modifies `phase, `connectQueue, `answers
      ensures State() == OnConnectReq(old(State()), id)
    {
      if phase != Idle {
        Callback(id, Plain(Fatal));
        return;
      }
      phase := ConnectWait;
      connectQueue := connectQueue + [id];
    }

    method TickConnectRep(status: IOStatus)
      requires phase == ConnectWait ==> connectQueue != []
      modifies `phase, `connectQueue, `answers
      ensures State() == OnConnectRep(old(State()), status)
    {
      if phase != ConnectWait {
        return;
      }
      var req := connectQueue[0];
      connectQueue := connectQueue[1..];
      phase := if status == Ok then Connected else Closed;
      Callback(req, Plain(status));
    }

    method TickReadReq(id: Id, results: seq<ReadResult>)
      requires !phase.Over() && |readQueue| < READ_LIMIT ==> PendingOnce(State().(readQ := readQueue + [id]))
      modifies `phase, `readQueue, `answers, `readsIn, `readsOut, `dropped, `shut
      ensures State() == OnReadReq(old(State()), id, results)
    {
      if phase == CloseWait || phase == Closed {
        Callback(id, Plain(Error));
        return;
      }
      if |readQueue| >= READ_LIMIT {
        Callback(id, Plain(WouldBlock));
        return;
      }
      readQueue := readQueue + [id];
      readsIn := readsIn + [id];
      TransportRead(results);
    }

    method TickWriteReq(id: Id, peer: Peer, data: Data, result: IOStatus)
      modifies `writeQueue, `answers, `again
      ensures State() == OnWriteReq(old(State()), id, peer, data, result)
    {
      if phase == CloseWait || phase == Closed {
        Callback(id, Plain(Error));
        return;
      }
      if phase == Bound && peer == "" {
        Callback(id, Plain(Error));
        return;
      }
      if data == [] {
        Callback(id, Plain(Fatal));
        return;
      }
      if peer in writeQueue {
        Callback(id, Plain(WouldBlock));
        return;
      }
      writeQueue := writeQueue[peer := id];
      TransportWrite(peer, result);
    }

    /** Fails every pending request; the loops call callbacks one by one. */
    method TickCloseReq(callback: Option<Id>)
      requires PendingOnce(State())
      modifies `phase, `readQueue, `answers, `readsOut, `shut
      ensures State() == OnCloseReq(old(State()), callback)
    {
      if phase == CloseWait || phase == Closed {
        if callback.Some? {
          Callback(callback.value, Plain(Ok));
        }
        return;
      }
      phase := CloseWait;
      FailAll();
      phase := Closed;
      shut := true;
      if callback.Some? {
        Callback(callback.value, Plain(Ok));
      }
    }

    method TickReadReadyRep(results: seq<ReadResult>)
      requires PendingOnce(State())
      modifies `phase, `readQueue, `answers, `readsOut, `dropped, `shut
      ensures State() == SocketSpec.TransportRead(old(State()), results)
    {
      TransportRead(results);
    }

    method TickWriteReadyRep(peer: Peer, result: IOStatus)
      modifies `writeQueue, `answers, `again
      ensures State() == SocketSpec.TransportWrite(old(State()), peer, result)
    {
      TransportWrite(peer, result);
    }

    /** Answers queued reads while the transport has results. */
    method TransportRead(results: seq<ReadResult>)
      requires PendingOnce(State())
      modifies `phase, `readQueue, `answers, `readsOut, `dropped, `shut
      ensures State() == SocketSpec.TransportRead(old(State()), results)
    {
      var rest := results;
      while readQueue != []
        invariant PendingOnce(State())
        invariant SocketSpec.TransportRead(State(), rest) == SocketSpec.TransportRead(old(State()), results)
        decreases |readQueue|
      {
        var r := if rest == [] then NOTHING else rest[0];
        if r.n == 0 {
          if r.status == WouldBlock {
            break;
          }
          if r.status == Eof && phase == Connected {
            dropped := dropped + [readQueue[0]];
            PopRead();
            TickCloseReq(None);
            return;
          }
          Callback(readQueue[0], Answer(r.status, [], r.peer));
          PopRead();
        } else {
          Callback(readQueue[0], Answer(Ok, r.data, r.peer));
          PopRead();
        }
        rest := if rest == [] then [] else rest[1..];
      }
    }

    method PopRead()
      requires readQueue != []
      modifies this`readQueue, this`readsOut
      ensures readQueue == old(readQueue)[1..] && readsOut == old(readsOut) + [old(readQueue)[0]]
    {
      readsOut := readsOut + [readQueue[0]];
      readQueue := readQueue[1..];
    }

    method TransportWrite(peer: Peer, result: IOStatus)
      modifies `writeQueue, `answers, `again
      ensures State() == SocketSpec.TransportWrite(old(State()), peer, result)
    {
      var key := if phase == Connected then "" else peer;
      if key !in writeQueue {
        return;
      }
      if result == WouldBlock {
        return;
      }
      var id := writeQueue[key];
      writeQueue := writeQueue - {key};
      again := again + (if shut then {id} else {});
      Callback(id, Plain(result));
    }

    /** Answers every pending request with an error, the callbacks called one by one. */
    method FailAll()
      requires PendingOnce(State())
      modifies this`answers, this`readQueue, this`readsOut
      ensures State() == FailPending(old(State()))
    {
      ghost var before, heads := answers, Head(bindQueue) + Head(connectQueue);
      GiveNone(before, Plain(Error));
      FailHead(bindQueue, before, {});
      assert {} + Head(bindQueue) == Head(bindQueue);
      assert forall i <- Head(bindQueue) :: i in bindQueue;
      assert forall i <- Head(connectQueue) :: i in connectQueue;
      FailHead(connectQueue, before, Head(bindQueue));
      FailReads(before, heads);
      FailWrites(before, heads + Elements(old(readQueue)));
    }

    method FailHead(queue: seq<Id>, ghost before: Answers, ghost done: set<Id>)
      requires answers == GiveEach(before, done, Plain(Error)) && done !! Head(queue)
      modifies this`answers
      ensures answers == GiveEach(before, done + Head(queue), Plain(Error))
    {
      if queue != [] {
        GiveOneMore(before, done, Plain(Error), queue[0]);
        Callback(queue[0], Plain(Error));
      } else {
        assert done + Head(queue) == done;
      }
    }

    method FailReads(ghost before: Answers, ghost done: set<Id>)
      requires answers == GiveEach(before, done, Plain(Error))
      requires (forall j, k :: 0 <= j < k < |readQueue| ==> readQueue[j] != readQueue[k]) && done !! Elements(readQueue)
      modifies this`answers, this`readQueue, this`readsOut
      ensures answers == GiveEach(before, done + Elements(old(readQueue)), Plain(Error))
      ensures readQueue == [] && readsOut == old(readsOut) + old(readQueue)
    {
      ghost var all, n := readQueue, 0;
      while readQueue != []
        invariant n <= |all| && readQueue == all[n..] && readsOut == old(readsOut) + all[..n]
        invariant answers == GiveEach(before, done + Elements(all[..n]), Plain(Error))
        decreases |readQueue|
      {
        var id := readQueue[0];
        assert id == all[n] && Elements(all[..n + 1]) == Elements(all[..n]) + {id};
        assert done + Elements(all[..n]) + {id} == done + Elements(all[..n + 1]);
        GiveOneMore(before, done + Elements(all[..n]), Plain(Error), id);
        Callback(id, Plain(Error));
        PopRead();
        n := n + 1;
      }
      assert all[..n] == all;
    }

    /** Iterates over the pending writes in no particular order, removing none. */
    method FailWrites(ghost before: Answers, ghost done: set<Id>)
      requires answers == GiveEach(before, done, Plain(Error))
      requires forall p, q :: p in writeQueue && q in writeQueue && writeQueue[p] == writeQueue[q] ==> p == q
      requires done !! writeQueue.Values
      modifies this`answers
      ensures answers == GiveEach(before, done + writeQueue.Values, Plain(Error))
    {
      var left := writeQueue.Keys;
      ghost var called := done;
      while left != {}
        invariant left <= writeQueue.Keys
        invariant called == done + Under(writeQueue, writeQueue.Keys - left)
        invariant answers == GiveEach(before, called, Plain(Error))
        decreases |left|
      {
        var p :| p in left;
        var id := writeQueue[p];
        UnderMore(writeQueue, left, p, done);
        GiveOneMore(before, called, Plain(Error), id);
        Callback(id, Plain(Error));
        called := called + {id};
        left := left - {p};
      }
      UnderAll(writeQueue, left);
    }
  }

  /** The writes pending under some of the keys. */
  function Under(writeQ: map<Peer, Id>, keys: set<Peer>): set<Id>
    requires keys <= writeQ.Keys
  {
    set p | p in keys :: writeQ[p]
  }

  lemma UnderAll(writeQ: map<Peer, Id>, left: set<Peer>)
    requires left == {}
    ensures Under(writeQ, writeQ.Keys - left) == writeQ.Values
  {
    assert writeQ.Keys - left == writeQ.Keys;
  }

  lemma UnderMore(writeQ: map<Peer, Id>, left: set<Peer>, p: Peer, done: set<Id>)
    requires left <= writeQ.Keys && p in left
    requires forall p, q :: p in writeQ && q in writeQ && writeQ[p] == writeQ[q] ==> p == q
    requires done !! writeQ.Values
    ensures writeQ[p] !in done + Under(writeQ, writeQ.Keys - left)
    ensures done + Under(writeQ, writeQ.Keys - (left - {p})) == done + Under(writeQ, writeQ.Keys - left) + {writeQ[p]}
  {
  }
}
