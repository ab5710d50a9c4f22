/** Two transports joined by a network, run as objects, against the transition system of `Delivery`. */
module Links {
  import opened Bytes
  import opened ByteBuffers
  import opened Flushing
  import opened Framing
  import opened Transports
  import Stages
  import Delivery

  method AddChunker(c: Conveyor)
    requires c.Valid()
    modifies c`stages
    ensures c.Valid() && States(c.stages) == old(States(c.stages)) + [Stages.Framer(START)]
    ensures forall o <- Footprint(c.stages) :: o in old(Footprint(c.stages)) || fresh(o)
  {
    FootprintAllocated(c.stages);
    var chunker := new Chunker();
    c.AddLast(Framer(chunker));
  }

  /** A pipeline of the glue stage, `k` Chunkers and a recording stage, all of new objects. */
  method Build(t: Transport, k: nat) returns (c: Conveyor)
    ensures c.Valid() && c.transport == t && States(c.stages) == Stages.Pipeline(k)
    ensures fresh(c) && fresh(Footprint(c.stages))
  {
    c := new Conveyor(t);
    c.AddLast(Glue);
    for i := 0 to k
      invariant fresh(c) && c.transport == t
      invariant fresh(Footprint(c.stages))
      invariant c.Valid()
      invariant States(c.stages) == [Stages.Glue] + Stages.Framers(i)
    {
      AddChunker(c);
      FramersMore(i);
    }
    FootprintAllocated(c.stages);
    var recorder := new Recorder();
    c.AddLast(Capture(recorder));
    PipelineParts(k);
  }

  lemma FramersMore(i: nat)
    ensures [Stages.Glue] + Stages.Framers(i) + [Stages.Framer(START)] == [Stages.Glue] + Stages.Framers(i + 1)
  {
  }

  lemma PipelineParts(k: nat)
    ensures [Stages.Glue] + Stages.Framers(k) + [Stages.Capture([])] == Stages.Pipeline(k)
  {
  }

  lemma {:induction false} KindsOfNew(ss: seq<Stage>, k: nat)
    requires AllValid(ss) && States(ss) == Stages.Pipeline(k)
    ensures Kinds(ss) == Stages.Pipeline(k)
  {
    forall i | 0 <= i < |ss|
      ensures Kinds(ss)[i] == Stages.Pipeline(k)[i]
    {
      StateAt(ss, i);
    }
  }

  lemma {:induction false} StateAt(ss: seq<Stage>, i: nat)
    requires AllValid(ss) && i < |ss|
    ensures ss[i].Valid() && States(ss)[i] == ss[i].State()
  {
    if i > 0 {
      StateAt(ss[1..], i - 1);
    }
  }

  class Link {
    const tx: Transport
    const rx: Transport
    const sender: seq<Stage>
    const receiver: seq<Stage>
    /** The messages put on their way, in order. */
    ghost var accepted: seq<seq<Byte>>

    ghost predicate Valid()
      reads this, tx, tx.wbuf, rx, Footprint(receiver)
    {
      && tx != rx && tx.wbuf.Valid()
      && Separate(rx, receiver) && AllValid(receiver)
      && {this, tx, tx.wbuf} !! Footprint(receiver)
    }

    /** Bytes in the network are those the sender's kernel has taken and the receiver has not yet read. */
    ghost function System(): Delivery.System
      requires Valid()
      reads this, tx, tx.wbuf, rx, Footprint(receiver)
    {
      Delivery.System(Kinds(sender), tx.wbuf.Content(), rx.inbox + tx.outbox, States(receiver),
                      accepted, tx.failures, rx.failures)
    }

    constructor (k: nat)
      ensures Valid() && System() == Delivery.Init(k)
    {
      var t := new Transport();
      var there := Build(t, k);
      KindsOfNew(there.stages, k);
      var r := new Transport();
      var here := Build(r, k);
      FootprintAllocated(here.stages);
      tx, rx, sender, receiver, accepted := t, r, there.stages, here.stages, [];
    }

    method Send(m: seq<Byte>)
      requires Valid()
      modifies this`accepted, tx, tx.wbuf
      ensures Valid() && System() == Delivery.Step(old(System()), Delivery.Send(m))
    {
      FootprintAllocated(receiver);
      FireMessage(m);
      if Stages.Outbound(Kinds(sender), m).Written? {
        accepted := accepted + [m];
      }
    }

    method FireMessage(m: seq<Byte>)
      requires Valid()
      modifies tx`failures, tx`writeWatched, tx.wbuf
      ensures tx.wbuf.Valid()
      ensures tx.Sent(Stages.Outbound(Kinds(sender), m), old(tx.wbuf.Content()), old(tx.failures), old(tx.writeWatched))
    {
      var evt := new ByteBuf();
      evt.Write(m);
      assert evt.Content() == m;
      ghost var buffered := tx.wbuf.Content();
      assert buffered + [] == buffered;
      FireOutboundFrom(tx, sender, evt);
    }

    method OnWritable(script: seq<SysResult>) returns (d: Drained)
      requires Valid()
      modifies tx, tx.wbuf
      ensures Valid() && System() == Delivery.Step(old(System()), Delivery.Flush(d.moved))
    {
      FootprintAllocated(receiver);
      ghost var sent, all := tx.outbox, tx.wbuf.Content();
      d := tx.OnWritable(script);
      Associative(rx.inbox, sent, all[..d.moved]);
    }

    method OnReadable(script: seq<SysResult>) returns (n: nat)
      requires Valid()
      modifies rx, Footprint(receiver)
      ensures Valid() && System() == Delivery.Step(old(System()), Delivery.Poll(n))
    {
      FootprintAllocated(receiver);
      ghost var waiting, behind := rx.inbox, tx.outbox;
      n := rx.OnReadable(receiver, script);
      assert (waiting + behind)[..n] == waiting[..n];
      assert (waiting + behind)[n..] == waiting[n..] + behind;
    }

    /** The network carries some bytes to the receiver's kernel, in order. */
    method Carry(n: nat)
      requires Valid() && n <= |tx.outbox|
      modifies tx`outbox, rx`inbox
      ensures Valid() && System() == old(System())
    {
      assert tx.outbox == tx.outbox[..n] + tx.outbox[n..];
      Associative(rx.inbox, tx.outbox[..n], tx.outbox[n..]);
      rx.inbox := rx.inbox + tx.outbox[..n];
      tx.outbox := tx.outbox[n..];
    }
  }
}
