/** How events travel through the stages of a pipeline: inbound head to tail, outbound tail to head. */
module Stages {
  import opened Bytes
  import opened Framing

  /**
   * The stages modelled. `Glue` stands at the head and hands outbound bytes to the transport; `Framer` is a Chunker;
   * `Capture` is an application stage that records inbound messages. Each forwards the events it does not handle.
   */
  datatype StageState = Glue | Framer(decoder: Decoder) | Capture(log: seq<seq<Byte>>)

  type Stage = s: StageState | s.Framer? ==> s.decoder.Valid() witness Glue

  datatype Flow = Flow(stages: seq<Stage>, failures: nat)

  /** One inbound event at the first of `ss`; a Framer fires each frame it completes into the next stage. */
  function Inbound(ss: seq<Stage>, fragment: seq<Byte>): (f: Flow)
    ensures |f.stages| == |ss|
    decreases |ss|, 0
  {
    if ss == [] then Flow([], 0)
    else
      match ss[0]
      case Glue =>
        var f := Inbound(ss[1..], fragment);
        Flow([ss[0]] + f.stages, f.failures)
      case Framer(d) =>
        var r := Receive(d, fragment);
        var f := InboundAll(ss[1..], r.frames);
        Flow([Framer(r.decoder)] + f.stages, r.failures + f.failures)
      case Capture(log) =>
        var f := Inbound(ss[1..], fragment);
        Flow([Capture(log + [fragment])] + f.stages, f.failures)
  }

  function InboundAll(ss: seq<Stage>, fragments: seq<seq<Byte>>): (f: Flow)
    ensures |f.stages| == |ss|
    decreases |ss|, 1 + |fragments|
  {
    if fragments == [] then Flow(ss, 0)
    else
      var f := Inbound(ss, fragments[0]);
      var g := InboundAll(f.stages, fragments[1..]);
      Flow(g.stages, f.failures + g.failures)
  }

  /** How each kind of stage treats one inbound event. */
  lemma InboundAtHead(head: Stage, tail: seq<Stage>, fragment: seq<Byte>)
    ensures head.Glue? ==>
              var g := Inbound(tail, fragment);
              Inbound([head] + tail, fragment) == Flow([head] + g.stages, g.failures)
    ensures head.Framer? ==>
              var r := Receive(head.decoder, fragment);
              var g := InboundAll(tail, r.frames);
              Inbound([head] + tail, fragment) == Flow([Framer(r.decoder)] + g.stages, r.failures + g.failures)
    ensures head.Capture? ==>
              var g := Inbound(tail, fragment);
              Inbound([head] + tail, fragment) == Flow([Capture(head.log + [fragment])] + g.stages, g.failures)
  {
  }

  lemma {:induction false} InboundAllAppend(ss: seq<Stage>, a: seq<seq<Byte>>, b: seq<seq<Byte>>)
    ensures var f := InboundAll(ss, a);
            var g := InboundAll(f.stages, b);
            InboundAll(ss, a + b) == Flow(g.stages, f.failures + g.failures)
    decreases |a|
  {
    if a == [] {
      assert a + b == b;
    } else {
      assert (a + b)[0] == a[0] && (a + b)[1..] == a[1..] + b;
      InboundAllAppend(Inbound(ss, a[0]).stages, a[1..], b);
    }
  }

  lemma InboundOne(ss: seq<Stage>, fragment: seq<Byte>)
    ensures InboundAll(ss, [fragment]) == Inbound(ss, fragment)
  {
  }

  lemma InboundAllLast(ss: seq<Stage>, fragments: seq<seq<Byte>>, last: seq<Byte>)
    ensures var f := InboundAll(ss, fragments);
            var g := Inbound(f.stages, last);
            InboundAll(ss, fragments + [last]) == Flow(g.stages, f.failures + g.failures)
  {
    InboundAllAppend(ss, fragments, [last]);
    InboundOne(InboundAll(ss, fragments).stages, last);
  }

  /**
   * Events run depth first, each frame through all later stages before the next is parsed. The outcome is that of
   * running level by level: first the head stage on every fragment, then the rest of the pipeline on every frame.
   */
  lemma {:induction false} LevelByLevel(d: Decoder, tail: seq<Stage>, fragments: seq<seq<Byte>>)
    requires d.Valid()
    ensures var r := ReceiveAll(d, fragments);
            var f := InboundAll(tail, r.frames);
            InboundAll([Framer(d)] + tail, fragments) == Flow([Framer(r.decoder)] + f.stages, r.failures + f.failures)
    decreases |fragments|
  {
    if fragments != [] {
      var r := Receive(d, fragments[0]);
      var rest := ReceiveAll(r.decoder, fragments[1..]);
      InboundAllAppend(tail, r.frames, rest.frames);
      assert ([Framer(d)] + tail)[1..] == tail;
      LevelByLevel(r.decoder, InboundAll(tail, r.frames).stages, fragments[1..]);
    }
  }

  lemma {:induction false} ThroughGlue(ss: seq<Stage>, fragments: seq<seq<Byte>>)
    ensures var f := InboundAll(ss, fragments);
            InboundAll([Glue] + ss, fragments) == Flow([Glue] + f.stages, f.failures)
    decreases |fragments|
  {
    if fragments != [] {
      assert ([Glue] + ss)[1..] == ss;
      ThroughGlue(Inbound(ss, fragments[0]).stages, fragments[1..]);
    }
  }

  // ---------- outbound ----------

  datatype Sent = Dropped | TooLong | Written(bytes: seq<Byte>)

  /** One outbound event at the last of `ss`. Past the head it is dropped; an oversized one raises a failure. */
  function Outbound(ss: seq<Stage>, m: seq<Byte>): Sent
    decreases |ss|
  {
    if ss == [] then Dropped
    else
      var front := ss[..|ss| - 1];
      match ss[|ss| - 1]
      case Glue => Written(m)
      case Framer(_) => if |m| > LIMIT then TooLong else Outbound(front, Frame(m))
      case Capture(_) => Outbound(front, m)
  }

  predicate SameKind(a: Stage, b: Stage) {
    a.Glue? == b.Glue? && a.Framer? == b.Framer?
  }

  /** Sending depends on the kinds of the stages alone, never on what their decoders hold. */
  lemma {:induction false} OutboundIgnoresState(a: seq<Stage>, b: seq<Stage>, m: seq<Byte>)
    requires |a| == |b| && forall i :: 0 <= i < |a| ==> SameKind(a[i], b[i])
    ensures Outbound(a, m) == Outbound(b, m)
  {
    if a != [] {
      var i := |a| - 1;
      assert SameKind(a[i], b[i]);
      if !a[i].Glue? && !(a[i].Framer? && |m| > LIMIT) {
        OutboundIgnoresState(a[..i], b[..i], if a[i].Framer? then Frame(m) else m);
      }
    }
  }

  // ---------- a stack of k Chunkers ----------

  function Framers(k: nat): (ss: seq<Stage>)
    ensures |ss| == k
  {
    seq(k, _ => Framer(START))
  }

  function Stack(k: nat): seq<Stage> {
    Framers(k) + [Capture([])]
  }

  function Pipeline(k: nat): seq<Stage> {
    [Glue] + Stack(k)
  }

  /** The payloads that pass `k` Chunkers: each header but the last must fit below the limit too. */
  predicate Passes(k: nat, m: seq<Byte>) {
    |m| + 4 * k <= 0x10_0004
  }

  predicate AllPass(k: nat, ms: seq<seq<Byte>>) {
    forall i :: 0 <= i < |ms| ==> Passes(k, ms[i])
  }

  /** A payload with `k` headers in front of it. */
  function Wrap(k: nat, m: seq<Byte>): (r: seq<Byte>)
    requires k > 0 ==> Passes(k, m)
    ensures |r| == |m| + 4 * k
  {
    if k == 0 then m else Frame(Wrap(k - 1, m))
  }

  function WrapEach(k: nat, ms: seq<seq<Byte>>): (r: seq<Payload>)
    requires AllPass(k + 1, ms)
    ensures |r| == |ms|
    ensures forall i :: 0 <= i < |ms| ==> r[i] == Wrap(k, ms[i])
  {
    seq(|ms|, i requires 0 <= i < |ms| => Wrap(k, ms[i]))
  }

  lemma {:induction false} WrapInside(k: nat, m: seq<Byte>)
    requires Passes(k + 1, m)
    ensures Wrap(k, Frame(m)) == Wrap(k + 1, m)
  {
    if k > 0 {
      WrapInside(k - 1, m);
    }
  }

  lemma {:induction false} OutboundThroughFramers(k: nat, m: seq<Byte>)
    ensures Outbound([Glue] + Framers(k), m) ==
            if k == 0 || Passes(k, m) then Written(Wrap(k, m)) else TooLong
  {
    if k > 0 {
      var ss := [Glue] + Framers(k);
      assert ss[..k] == [Glue] + Framers(k - 1);
      if |m| <= LIMIT {
        OutboundThroughFramers(k - 1, Frame(m));
        if Passes(k, m) {
          WrapInside(k - 1, m);
        }
      }
    }
  }

  /** Sending succeeds, with `k` headers in front, exactly when the payload leaves room for all inner headers. */
  lemma OutboundThroughStack(k: nat, m: seq<Byte>)
    requires k > 0
    ensures Outbound(Pipeline(k), m) == if Passes(k, m) then Written(Wrap(k, m)) else TooLong
  {
    assert Pipeline(k)[..k + 1] == [Glue] + Framers(k);
    OutboundThroughFramers(k, m);
  }

  // ---------- the stacked inverse ----------

  /** All the bytes `k` Chunkers put on the wire for `ms`. */
  function Wire(k: nat, ms: seq<seq<Byte>>): seq<Byte>
    requires k > 0 && AllPass(k, ms)
  {
    Stream(WrapEach(k - 1, ms))
  }

  lemma {:induction false} ConcatIsWire(k: nat, ms: seq<seq<Byte>>)
    requires k > 0 && AllPass(k + 1, ms)
    ensures Concat(WrapEach(k, ms)) == Wire(k, ms)
  {
    if ms != [] {
      ConcatIsWire(k, ms[1..]);
      assert WrapEach(k, ms)[1..] == WrapEach(k, ms[1..]);
      assert WrapEach(k - 1, ms)[1..] == WrapEach(k - 1, ms[1..]);
    }
  }

  /** How many leading messages have all their bytes among the first `n` on the wire. */
  function Arrived(k: nat, ms: seq<seq<Byte>>, n: nat): (t: nat)
    requires k > 0 && AllPass(k, ms)
    ensures t <= |ms|
  {
    Complete(WrapEach(k - 1, ms), n)
  }

  lemma ArrivedIsLargest(k: nat, ms: seq<seq<Byte>>, n: nat)
    requires k > 0 && AllPass(k, ms)
    ensures var t := Arrived(k, ms, n);
            && |Wire(k, ms[..t])| <= n
            && (t < |ms| ==> n < |Wire(k, ms[..t + 1])|)
  {
    var t, ws := Arrived(k, ms, n), WrapEach(k - 1, ms);
    CompleteIsLargest(ws, n);
    assert WrapEach(k - 1, ms[..t]) == ws[..t];
    if t < |ms| {
      assert WrapEach(k - 1, ms[..t + 1]) == ws[..t + 1];
    }
  }

  lemma {:induction false} CompleteExactly(ms: seq<Payload>, t: nat)
    requires t <= |ms|
    ensures |Stream(ms[..t])| <= |Stream(ms)| && Stream(ms)[..|Stream(ms[..t])|] == Stream(ms[..t])
    ensures Complete(ms, |Stream(ms[..t])|) == t
  {
    if t > 0 {
      assert ms[..t][1..] == ms[1..][..t - 1];
      CompleteExactly(ms[1..], t - 1);
    }
  }

  lemma {:induction false} CaptureRecords(log: seq<seq<Byte>>, fragments: seq<seq<Byte>>)
    ensures InboundAll([Capture(log)], fragments) == Flow([Capture(log + fragments)], 0)
    decreases |fragments|
  {
    if fragments == [] {
      assert log + fragments == log;
    } else {
      var logged := log + [fragments[0]];
      assert [Capture(log)][1..] == [];
      assert Inbound([Capture(log)], fragments[0]) == Flow([Capture(logged)], 0);
      CaptureRecords(logged, fragments[1..]);
      assert logged + fragments[1..] == log + fragments;
    }
  }

  /** The head Chunker of a stack hands on, without failure, the wrapped messages whose bytes are all there. */
  lemma HeadStage(k: nat, ms: seq<seq<Byte>>, fragments: seq<seq<Byte>>)
    requires k > 0 && AllPass(k, ms)
    requires Concat(fragments) <= Wire(k, ms)
    ensures var t := Arrived(k, ms, |Concat(fragments)|);
            var f := InboundAll(Stack(k - 1), WrapEach(k - 1, ms)[..t]);
            var g := InboundAll(Stack(k), fragments);
            g.failures == f.failures && g.stages[1..] == f.stages
  {
    var n, ws := |Concat(fragments)|, WrapEach(k - 1, ms);
    assert Stack(k) == [Framer(START)] + Stack(k - 1);
    LevelByLevel(START, Stack(k - 1), fragments);
    assert START.Unparsed() + Concat(fragments) == Stream(ws)[..n];
    FragmentationIndependence(START, fragments);
    ParsePrefix(ws, n);
  }

  /** The frames a head Chunker hands on are again a first part of the wire bytes of the shorter stack. */
  lemma InnerWire(k: nat, ms: seq<seq<Byte>>, t: nat)
    requires k > 0 && AllPass(k + 1, ms) && t <= |ms|
    ensures var inner := Concat(WrapEach(k, ms)[..t]);
            inner <= Wire(k, ms) && Arrived(k, ms, |inner|) == t
  {
    assert WrapEach(k, ms[..t]) == WrapEach(k, ms)[..t];
    ConcatIsWire(k, ms[..t]);
    assert WrapEach(k - 1, ms[..t]) == WrapEach(k - 1, ms)[..t];
    CompleteExactly(WrapEach(k - 1, ms), t);
  }

  lemma OneDelivers(ms: seq<seq<Byte>>, fragments: seq<seq<Byte>>)
    requires AllPass(1, ms)
    requires Concat(fragments) <= Wire(1, ms)
    ensures var f := InboundAll(Stack(1), fragments);
            f.failures == 0 && f.stages[1] == Capture(ms[..Arrived(1, ms, |Concat(fragments)|)])
  {
    HeadStage(1, ms, fragments);
    var frames := WrapEach(0, ms)[..Arrived(1, ms, |Concat(fragments)|)];
    assert frames == ms[..|frames|];
    CaptureRecords([], frames);
    assert Stack(0) == [Capture([])] && [] + frames == frames;
  }

  /**
   * The stacked inverse, for streams still arriving: whatever the cut, after any first part of the wire bytes the
   * application has received, whole, in order and without failure, exactly the messages that part completes.
   */
  lemma {:induction false} StackDelivers(k: nat, ms: seq<seq<Byte>>, fragments: seq<seq<Byte>>)
    requires k > 0 && AllPass(k, ms)
    requires Concat(fragments) <= Wire(k, ms)
    ensures var f := InboundAll(Stack(k), fragments);
            && f.failures == 0
            && f.stages[k] == Capture(ms[..Arrived(k, ms, |Concat(fragments)|)])
    decreases k
  {
    if k == 1 {
      OneDelivers(ms, fragments);
    } else {
      HeadStage(k, ms, fragments);
      var t := Arrived(k, ms, |Concat(fragments)|);
      InnerWire(k - 1, ms, t);
      StackDelivers(k - 1, ms, WrapEach(k - 1, ms)[..t]);
      assert InboundAll(Stack(k), fragments).stages[k] == InboundAll(Stack(k), fragments).stages[1..][k - 1];
    }
  }
}
