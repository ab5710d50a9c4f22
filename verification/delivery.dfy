/** Two endpoints, `k` Chunkers each, joined by a byte channel: what a run of sends and partial transfers delivers. */
module Delivery {
  import opened Bytes
  import opened Framing
  import opened Stages

  /**
   * `Send` fires a payload at the tail of the sending pipeline; `Flush(n)` is an `onWritable` whose writes move `n`
   * bytes of `wbuf_` into the channel; `Poll(n)` is an `onReadable` whose reads take `n` bytes out of it.
   */
  datatype Event = Send(m: seq<Byte>) | Flush(n: nat) | Poll(n: nat)

  datatype System = System(
    tx: seq<Stage>, wbuf: seq<Byte>, channel: seq<Byte>, rx: seq<Stage>,
    accepted: seq<seq<Byte>>, txFailures: nat, rxFailures: nat)

  function Init(k: nat): System {
    System(Pipeline(k), [], [], Pipeline(k), [], 0, 0)
  }

  /** `onReadable` fires its bytes as one event, and none when it read nothing. */
  function Arrive(ss: seq<Stage>, got: seq<Byte>): Flow {
    if got == [] then Flow(ss, 0) else Inbound(ss, got)
  }

  function Step(s: System, e: Event): System {
    match e
    case Send(m) =>
      (match Outbound(s.tx, m)
       case Written(bytes) => s.(wbuf := s.wbuf + bytes, accepted := s.accepted + [m])
       case TooLong => s.(txFailures := s.txFailures + 1)
       case Dropped => s)
    case Flush(n) =>
      var i := Min(n, |s.wbuf|);
      s.(wbuf := s.wbuf[i..], channel := s.channel + s.wbuf[..i])
    case Poll(n) =>
      var i := Min(n, |s.channel|);
      var f := Arrive(s.rx, s.channel[..i]);
      s.(channel := s.channel[i..], rx := f.stages, rxFailures := s.rxFailures + f.failures)
  }

  function Run(s: System, events: seq<Event>): System
    decreases |events|
  {
    if events == [] then s else Run(Step(s, events[0]), events[1..])
  }

  /** The messages the run tried to send that leave room for every header. */
  function Sendable(k: nat, events: seq<Event>): (ms: seq<seq<Byte>>)
    ensures AllPass(k, ms)
    decreases |events|
  {
    if events == [] then []
    else
      var rest := Sendable(k, events[1..]);
      match events[0]
      case Send(m) => if Passes(k, m) then [m] + rest else rest
      case _ => rest
  }

  function Refused(k: nat, events: seq<Event>): nat
    decreases |events|
  {
    if events == [] then 0
    else Refused(k, events[1..]) + if events[0].Send? && !Passes(k, events[0].m) then 1 else 0
  }

  /** What the receiving application has recorded. */
  function Delivered(k: nat, s: System): seq<seq<Byte>>
    requires |s.rx| == k + 2
  {
    if s.rx[k + 1].Capture? then s.rx[k + 1].log else []
  }

  /** Bytes are conserved, in order: those polled, those in the channel and those buffered make up the wire. */
  ghost predicate Inv(k: nat, s: System, polled: seq<seq<Byte>>) {
    && k > 0
    && AllPass(k, s.accepted)
    && s.tx == Pipeline(k)
    && Wire(k, s.accepted) == Concat(polled) + s.channel + s.wbuf
    && Flow(s.rx, s.rxFailures) == InboundAll(Pipeline(k), polled)
  }

  lemma WireAppend(k: nat, ms: seq<seq<Byte>>, m: seq<Byte>)
    requires k > 0 && AllPass(k, ms) && Passes(k, m)
    ensures Wire(k, ms + [m]) == Wire(k, ms) + Wrap(k, m)
  {
    var ws: seq<Payload>, w: Payload := WrapEach(k - 1, ms), Wrap(k - 1, m);
    assert WrapEach(k - 1, ms + [m]) == ws + [w];
    StreamAppend(ws, [w]);
    var one: seq<Payload> := [w];
    assert one[1..] == [] && Stream(one) == Frame(w);
  }

  lemma InvSend(k: nat, s: System, polled: seq<seq<Byte>>, m: seq<Byte>)
    requires Inv(k, s, polled)
    ensures Inv(k, Step(s, Send(m)), polled)
  {
    OutboundThroughStack(k, m);
    if Passes(k, m) {
      WireAppend(k, s.accepted, m);
    }
  }

  lemma InvFlush(k: nat, s: System, polled: seq<seq<Byte>>, n: nat)
    requires Inv(k, s, polled)
    ensures Inv(k, Step(s, Flush(n)), polled)
  {
  }

  lemma ConcatLast(parts: seq<seq<Byte>>, last: seq<Byte>)
    ensures Concat(parts + [last]) == Concat(parts) + last
  {
    ConcatAppend(parts, [last]);
    assert [last][1..] == parts[..0];
  }

  /** The fragments polled after `Poll(n)`: an empty read adds none. */
  function Polled(s: System, polled: seq<seq<Byte>>, n: nat): seq<seq<Byte>> {
    var got := s.channel[..Min(n, |s.channel|)];
    if got == [] then polled else polled + [got]
  }

  lemma InvPoll(k: nat, s: System, polled: seq<seq<Byte>>, n: nat)
    requires Inv(k, s, polled)
    ensures Inv(k, Step(s, Poll(n)), Polled(s, polled, n))
  {
    var i := Min(n, |s.channel|);
    var got, left := s.channel[..i], s.channel[i..];
    if got != [] {
      assert Concat(polled + [got]) + left == Concat(polled) + s.channel by {
        ConcatLast(polled, got);
        Associative(Concat(polled), got, left);
        assert s.channel == got + left;
      }
      InboundAllAppend(Pipeline(k), polled, [got]);
      InboundOne(s.rx, got);
    }
  }

  lemma InvStep(k: nat, s: System, polled: seq<seq<Byte>>, e: Event)
    requires Inv(k, s, polled)
    ensures Inv(k, Step(s, e), if e.Poll? then Polled(s, polled, e.n) else polled)
    ensures Step(s, e).accepted == s.accepted + (if e.Send? && Passes(k, e.m) then [e.m] else [])
    ensures Step(s, e).txFailures == s.txFailures + (if e.Send? && !Passes(k, e.m) then 1 else 0)
  {
    match e
    case Send(m) => InvSend(k, s, polled, m); OutboundThroughStack(k, m);
    case Flush(n) => InvFlush(k, s, polled, n);
    case Poll(n) => InvPoll(k, s, polled, n);
  }

  /** The invariant over a whole run, with the fragments polled so far and the messages accepted so far. */
  lemma {:induction false} InvRun(k: nat, s: System, polled: seq<seq<Byte>>, events: seq<Event>)
    returns (all: seq<seq<Byte>>)
    requires Inv(k, s, polled)
    ensures Inv(k, Run(s, events), all)
    ensures Run(s, events).accepted == s.accepted + Sendable(k, events)
    ensures Run(s, events).txFailures == s.txFailures + Refused(k, events)
    decreases |events|
  {
    if events == [] {
      all := polled;
    } else {
      var e := events[0];
      InvStep(k, s, polled, e);
      all := InvRun(k, Step(s, e), if e.Poll? then Polled(s, polled, e.n) else polled, events[1..]);
      Associative(s.accepted, if e.Send? && Passes(k, e.m) then [e.m] else [], Sendable(k, events[1..]));
    }
  }

  /** What the invariant says of the receiving application. */
  lemma InvDelivered(k: nat, s: System, polled: seq<seq<Byte>>)
    requires Inv(k, s, polled)
    ensures |Wire(k, s.accepted)| == |Concat(polled)| + |s.channel| + |s.wbuf|
    ensures s.rxFailures == 0 && |s.rx| == k + 2
    ensures Delivered(k, s) == s.accepted[..Arrived(k, s.accepted, |Concat(polled)|)]
  {
    Associative(Concat(polled), s.channel, s.wbuf);
    assert Concat(polled) <= Concat(polled) + (s.channel + s.wbuf);
    StackDelivers(k, s.accepted, polled);
    ThroughGlue(Stack(k), polled);
  }

  lemma AllArrived(k: nat, ms: seq<seq<Byte>>)
    requires k > 0 && AllPass(k, ms)
    ensures Arrived(k, ms, |Wire(k, ms)|) == |ms|
  {
    var ws := WrapEach(k - 1, ms);
    CompleteExactly(ws, |ws|);
    assert ws[..|ws|] == ws;
  }

  /**
   * End-to-end delivery. For every number of Chunkers and every interleaving of sends, partial writes and partial
   * reads: the accepted messages are exactly those that leave room for the headers, the others each raise one
   * failure at the sender; the receiver never fails; what it has delivered is a first part of the accepted messages,
   * namely all those whose bytes have left buffer and channel; and it is everything once these are empty.
   */
  lemma EndToEnd(k: nat, events: seq<Event>)
    requires k > 0
    ensures var s := Run(Init(k), events);
            && |s.rx| == k + 2
            && s.accepted == Sendable(k, events)
            && s.txFailures == Refused(k, events)
            && s.rxFailures == 0
            && |s.channel| + |s.wbuf| <= |Wire(k, s.accepted)|
            && Delivered(k, s) == s.accepted[..Arrived(k, s.accepted, |Wire(k, s.accepted)| - |s.channel| - |s.wbuf|)]
            && (s.channel == [] && s.wbuf == [] ==> Delivered(k, s) == s.accepted)
  {
    assert Inv(k, Init(k), []);
    var polled := InvRun(k, Init(k), [], events);
    InvDelivered(k, Run(Init(k), events), polled);
    AllArrived(k, Run(Init(k), events).accepted);
  }

  /** Whatever has happened, one flush and one poll that go all the way deliver every accepted message. */
  lemma FlushAndPollDeliverAll(k: nat, events: seq<Event>, n: nat, m: nat)
    requires k > 0 && n >= |Run(Init(k), events).wbuf| && m >= |Run(Init(k), events).channel| + n
    ensures var s := Run(Init(k), events + [Flush(n)] + [Poll(m)]);
            s.wbuf == [] && s.channel == [] && |s.rx| == k + 2 && Delivered(k, s) == Sendable(k, events)
  {
    var s := Run(Init(k), events);
    RunLast(Init(k), events, Flush(n));
    RunLast(Init(k), events + [Flush(n)], Poll(m));
    EndToEnd(k, events + [Flush(n)] + [Poll(m)]);
    EndToEnd(k, events);
    var t := Step(s, Flush(n));
    AcceptedSame(s, n, m);
  }

  lemma AcceptedSame(s: System, n: nat, m: nat)
    ensures Step(Step(s, Flush(n)), Poll(m)).accepted == s.accepted
  {
  }

  lemma {:induction false} RunLast(s: System, events: seq<Event>, e: Event)
    ensures Run(s, events + [e]) == Step(Run(s, events), e)
    decreases |events|
  {
    var all := events + [e];
    if events == [] {
      assert all[0] == e && all[1..] == [];
    } else {
      assert all[0] == events[0] && all[1..] == events[1..] + [e];
      RunLast(Step(s, events[0]), events[1..], e);
    }
  }
}
