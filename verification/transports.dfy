/** The transport classes: a Chunker, the pipeline of stages and the event-loop transport at its head. */
module Transports {
  import opened Bytes
  import opened ByteBuffers
  import opened Flushing
  import opened Framing
  import Stages
  import Delivery

  const EMSGSIZE := 90

  /** A stage of a pipeline: a stage of `Stages`, with its objects. */
  datatype Stage = Glue | Framer(chunker: Chunker) | Capture(recorder: Recorder) {

    ghost function Objects(): set<object> {
      match this
      case Glue => {}
      case Framer(c) => {c, c.held}
      case Capture(r) => {r}
    }

    ghost predicate Valid()
      reads Objects()
    {
      Framer? ==> chunker.Valid()
    }

    ghost function State(): Stages.Stage
      requires Valid()
      reads Objects()
    {
      match this
      case Glue => Stages.Glue
      case Framer(c) => Stages.Framer(c.State())
      case Capture(r) => Stages.Capture(r.log)
    }
  }

  ghost function Footprint(ss: seq<Stage>): set<object> {
    if ss == [] then {} else ss[0].Objects() + Footprint(ss[1..])
  }

  lemma {:induction false} FootprintAllocated(ss: seq<Stage>)
    ensures forall o <- Footprint(ss) :: allocated(o)
  {
    if ss != [] {
      FootprintAllocated(ss[1..]);
    }
  }

  /** No two stages share an object, and none is the transport. */
  ghost predicate Separate(t: Transport, ss: seq<Stage>) {
    ss != [] ==> ss[0].Objects() !! Footprint(ss[1..]) && t !in Footprint(ss) && Separate(t, ss[1..])
  }

  ghost predicate AllValid(ss: seq<Stage>)
    reads Footprint(ss)
  {
    ss != [] ==> ss[0].Valid() && AllValid(ss[1..])
  }

  ghost function States(ss: seq<Stage>): (r: seq<Stages.Stage>)
    requires AllValid(ss)
    reads Footprint(ss)
    ensures |r| == |ss|
  {
    if ss == [] then [] else [ss[0].State()] + States(ss[1..])
  }

  /** The stages as they are when new; what sending depends on. */
  ghost function Kinds(ss: seq<Stage>): seq<Stages.Stage> {
    seq(|ss|, i requires 0 <= i < |ss| =>
      match ss[i]
      case Glue => Stages.Glue
      case Framer(_) => Stages.Framer(START)
      case Capture(_) => Stages.Capture([]))
  }

  /** The stages and the transport's failure count are where `flow` says, from a count of `calls`. */
  ghost predicate At(t: Transport, ss: seq<Stage>, flow: Stages.Flow, calls: nat)
    requires AllValid(ss)
    reads t, Footprint(ss)
  {
    States(ss) == flow.stages && t.failures == calls + flow.failures
  }

  /** The later stages have taken every frame of `r`, and its failures have been raised. */
  ghost predicate AtAll(t: Transport, ss: seq<Stage>, before: seq<Stages.Stage>, r: Received, calls: nat)
    requires AllValid(ss)
    reads t, Footprint(ss)
  {
    var f := Stages.InboundAll(before, r.frames);
    States(ss) == f.stages && t.failures == calls + r.failures + f.failures
  }

  /** Fires an event at the first of `ss`, as `Conveyor::fireInboundFrom` does; past the tail it is dropped. */
  method FireInboundFrom(t: Transport, ss: seq<Stage>, evt: ByteBuf)
    requires Separate(t, ss) && AllValid(ss)
    requires evt.Valid() && evt !in Footprint(ss)
    modifies t`failures, evt, Footprint(ss)
    ensures AllValid(ss)
    ensures At(t, ss, Stages.Inbound(old(States(ss)), old(evt.Content())), old(t.failures))
    decreases |ss|, 1
  {
    if ss != [] {
      Stages.InboundAtHead(ss[0].State(), States(ss[1..]), evt.Content());
      match ss[0]
      case Glue => FireInboundFrom(t, ss[1..], evt);
      case Framer(chunker) => chunker.OnInbound(t, ss[1..], evt);
      case Capture(recorder) => recorder.OnInbound(t, ss[1..], evt);
    }
  }

  /** Fires an event at the last of `ss`, as `Conveyor::fireOutboundFrom` does; before the head it is dropped. */
  method FireOutboundFrom(t: Transport, ss: seq<Stage>, evt: ByteBuf)
    requires evt.Valid() && t.wbuf.Valid() && evt != t.wbuf
    modifies t`failures, t`writeWatched, t.wbuf, evt
    ensures t.wbuf.Valid()
    ensures t.Sent(Stages.Outbound(Kinds(ss), old(evt.Content())),
                   old(t.wbuf.Content()), old(t.failures), old(t.writeWatched))
    decreases |ss|, 0
  {
    if ss != [] {
      var earlier := ss[..|ss| - 1];
      assert Kinds(ss)[..|ss| - 1] == Kinds(earlier);
      match ss[|ss| - 1]
      case Glue => var _ := t.Write(evt);
      case Framer(chunker) => chunker.OnOutbound(t, earlier, evt);
      case Capture(_) => FireOutboundFrom(t, earlier, evt);
    }
  }

  /** `StageContext::fireInbound` from a stage that has fired `sent` already: the later stages take one event more. */
  method FireNext(t: Transport, later: seq<Stage>, evt: ByteBuf,
                  ghost before: seq<Stages.Stage>, ghost sent: seq<seq<Byte>>, ghost calls: nat)
    requires Separate(t, later) && AllValid(later)
    requires evt.Valid() && evt !in Footprint(later)
    requires At(t, later, Stages.InboundAll(before, sent), calls)
    modifies t`failures, evt, Footprint(later)
    ensures AllValid(later)
    ensures At(t, later, Stages.InboundAll(before, sent + [old(evt.Content())]), calls)
    decreases |later|, 2
  {
    Stages.InboundAllLast(before, sent, evt.Content());
    FireInboundFrom(t, later, evt);
  }

  class Recorder {
    var log: seq<seq<Byte>>

    constructor ()
      ensures log == []
    {
      log := [];
    }

    method OnInbound(t: Transport, later: seq<Stage>, evt: ByteBuf)
      requires Separate(t, later) && AllValid(later) && this !in Footprint(later)
      requires evt.Valid() && evt !in Footprint(later)
      modifies t`failures, evt, this, Footprint(later)
      ensures AllValid(later)
      ensures log == old(log) + [old(evt.Content())]
      ensures At(t, later, Stages.Inbound(old(States(later)), old(evt.Content())), old(t.failures))
      decreases |later| + 1, 0
    {
      FootprintAllocated(later);
      var bytes := evt.Peek(evt.ReadableBytes());
      assert bytes == evt.Content();
      log := log + [bytes];
      FireInboundFrom(t, later, evt);
    }
  }

  /** Having emitted `emitted`, the rest of `input` is `here`. */
  ghost predicate Behind(input: seq<Byte>, emitted: seq<Payload>, here: seq<Byte>) {
    var p := Parse(here);
    Parse(input) == Parsed(emitted + p.frames, p.rest, p.oversized)
  }

  lemma NothingEmitted(d: Decoder, bytes: seq<Byte>)
    requires d.pending <= LIMIT
    ensures var input := d.Unparsed() + bytes;
            && Behind(input, [], input) && d.(held := d.held + bytes).Unparsed() == input
            && (d.Valid() ==> Receive(d, bytes) == Receive(START, input))
  {
    var p := Parse(d.Unparsed() + bytes);
    assert START.Unparsed() + (d.Unparsed() + bytes) == d.Unparsed() + bytes;
    assert [] + p.frames == p.frames;
    Associative(EncodeU32(d.pending), d.held, bytes);
  }

  lemma EmitOne(input: seq<Byte>, emitted: seq<Payload>, m: Payload, here: seq<Byte>, there: seq<Byte>)
    requires Behind(input, emitted, here) && here == Frame(m) + there
    ensures Behind(input, emitted + [m], there)
  {
    ParseFrame(m, there);
    Associative(emitted, [m], Parse(there).frames);
  }

  lemma StoppedAt(input: seq<Byte>, emitted: seq<Payload>, end: Decoder)
    requires end.Valid() && Behind(input, emitted, end.Unparsed())
    ensures Receive(START, input) == Received(end, emitted, 0)
  {
    UnparsedDeterminesState(end);
    assert emitted + [] == emitted && START.Unparsed() + input == input;
  }

  lemma FailedAt(input: seq<Byte>, emitted: seq<Payload>, here: seq<Byte>)
    requires Oversized(here) && Behind(input, emitted, here)
    ensures Receive(START, input) == Received(START, emitted, 1)
  {
    assert emitted + [] == emitted && START.Unparsed() + input == input;
  }

  /** How one pass of a Chunker's loop ends. */
  datatype Pass = Stop | TooLong | Fire(payload: ByteBuf)

  class Chunker {
    const held: ByteBuf
    var pending: U32

    ghost predicate Valid()
      reads this, held
    {
      held.Valid() && Decoder(pending, held.Content()).Valid()
    }

    ghost function State(): Decoder
      requires Valid()
      reads this, held
    {
      Decoder(pending, held.Content())
    }

    constructor ()
      ensures Valid() && State() == START && fresh(held)
    {
      held := new ByteBuf();
      pending := 0;
    }

    /** The bytes still to be parsed, at any point of the loop. */
    ghost function Unparsed(): seq<Byte>
      requires held.Valid() && pending <= LIMIT
      reads this, held
    {
      Decoder(pending, held.Content()).Unparsed()
    }

    /** Reads the header of the next frame if none is pending; `false` when its bytes are not all there. */
    method ReadHeader() returns (ok: bool)
      requires held.Valid() && pending <= LIMIT
      modifies this, held
      ensures held.Valid() && |held.Content()| <= |old(held.Content())|
      ensures !ok ==> pending == old(pending) == 0 && |held.Content()| < 4 && held.Content() == old(held.Content())
      ensures ok ==> EncodeU32(pending) + held.Content() == old(Unparsed())
      ensures ok && pending == 0 ==> |held.Content()| < |old(held.Content())|
    {
      if pending == 0 {
        var header;
        ok, header := held.ReadU32();
        if ok {
          pending := header;
          EncodeDecodeU32(old(held.Content())[..4]);
        }
      } else {
        ok := true;
      }
    }

    /** Takes the pending frame, all of whose bytes are there. */
    method ReadPayload() returns (payload: ByteBuf)
      requires held.Valid() && pending <= LIMIT && pending <= |held.Content()|
      modifies this, held
      ensures held.Valid() && pending == 0
      ensures fresh(payload) && payload.Valid() && |payload.Content()| == old(pending)
      ensures old(held.Content()) == payload.Content() + held.Content()
    {
      payload := new ByteBuf();
      if pending > 0 {
        var _ := held.Read(payload, pending);
      }
      pending := 0;
    }

    /** One pass of the parsing loop, up to the point where a completed frame is fired. */
    method Next() returns (pass: Pass)
      requires held.Valid() && pending <= LIMIT
      modifies this, held
      ensures held.Valid() && pending <= LIMIT
      ensures pass.Stop? ==> Valid() && Unparsed() == old(Unparsed())
      ensures pass.TooLong? ==> Valid() && State() == START && Oversized(old(Unparsed()))
      ensures pass.Fire? ==>
                && fresh(pass.payload) && pass.payload.Valid() && |pass.payload.Content()| <= LIMIT
                && old(Unparsed()) == Frame(pass.payload.Content()) + Unparsed()
                && |held.Content()| < |old(held.Content())|
    {
      var ok := ReadHeader();
      if !ok {
        return Stop;
      }
      ghost var body := held.Content();
      if pending > LIMIT {
        HeaderDecides(pending, body);
        held.Reset();
        pending := 0;
        return TooLong;
      }
      if held.ReadableBytes() < pending {
        return Stop;
      }
      ghost var n := pending;
      var payload := ReadPayload();
      Associative(EncodeU32(n), payload.Content(), held.Content());
      return Fire(payload);
    }

    /** The loop's invariant: `emitted` has been fired into `later`, and the rest of `input` is still held. */
    ghost predicate Looping(t: Transport, later: seq<Stage>, input: seq<Byte>, emitted: seq<Payload>,
                            before: seq<Stages.Stage>, calls: nat)
      reads this, held, t, Footprint(later)
    {
      && held.Valid() && pending <= LIMIT && AllValid(later)
      && Behind(input, emitted, Unparsed())
      && At(t, later, Stages.InboundAll(before, emitted), calls)
    }

    /** What a pass takes off, against the one-shot parse. */
    method Take(ghost input: seq<Byte>, ghost emitted: seq<Payload>) returns (pass: Pass, ghost sent: seq<Payload>)
      requires held.Valid() && pending <= LIMIT && Behind(input, emitted, Unparsed())
      modifies this, held
      ensures pass.Fire? ==>
                && fresh(pass.payload) && pass.payload.Valid() && |pass.payload.Content()| <= LIMIT
                && sent == emitted + [pass.payload.Content()]
                && held.Valid() && pending <= LIMIT && Behind(input, sent, Unparsed())
                && |held.Content()| < |old(held.Content())|
      ensures !pass.Fire? ==>
                && Valid() && sent == emitted
                && Receive(START, input) == Received(State(), sent, if pass.TooLong? then 1 else 0)
    {
      ghost var here := Unparsed();
      sent := emitted;
      pass := Next();
      match pass
      case Stop =>
        StoppedAt(input, emitted, State());
      case TooLong =>
        FailedAt(input, emitted, here);
      case Fire(payload) =>
        EmitOne(input, emitted, payload.Content(), here, Unparsed());
        sent := emitted + [payload.Content()];
    }

    /** One round of the loop; a completed frame goes through all later stages before the next round. */
    method Round(t: Transport, later: seq<Stage>, ghost input: seq<Byte>, ghost emitted: seq<Payload>,
                 ghost before: seq<Stages.Stage>, ghost calls: nat)
      returns (pass: Pass, ghost sent: seq<Payload>)
      requires Separate(t, later) && {this, held} !! Footprint(later)
      requires Looping(t, later, input, emitted, before, calls)
      modifies t`failures, this, held, Footprint(later)
      ensures AllValid(later) && At(t, later, Stages.InboundAll(before, sent), calls)
      ensures pass.Fire? ==>
                && held.Valid() && pending <= LIMIT && Behind(input, sent, Unparsed())
                && |held.Content()| < |old(held.Content())|
      ensures !pass.Fire? ==>
                && Valid()
                && Receive(START, input) == Received(State(), sent, if pass.TooLong? then 1 else 0)
      decreases |later|, 3
    {
      FootprintAllocated(later);
      pass, sent := Take(input, emitted);
      if pass.Fire? {
        FireNext(t, later, pass.payload, before, emitted, calls);
      }
    }

    /** The parsing loop, once the fragment has been appended. */
    method Loop(t: Transport, later: seq<Stage>, ghost input: seq<Byte>)
      requires Separate(t, later) && {this, held} !! Footprint(later) && AllValid(later)
      requires held.Valid() && pending <= LIMIT && Unparsed() == input && Behind(input, [], input)
      modifies t`failures, this, held, Footprint(later)
      ensures Valid() && AllValid(later)
      ensures var r := Receive(START, input);
              && State() == r.decoder
              && AtAll(t, later, old(States(later)), r, old(t.failures))
      decreases |later|, 4
    {
      FootprintAllocated(later);
      ghost var emitted: seq<Payload>, before, calls := [], States(later), t.failures;
      var pass: Pass;
      while true
        invariant Looping(t, later, input, emitted, before, calls)
        decreases |held.Content()|
      {
        pass, emitted := Round(t, later, input, emitted, before, calls);
        if !pass.Fire? {
          break;
        }
      }
      if pass.TooLong? {
        t.Shutdown(-EMSGSIZE);
      }
    }

    method OnInbound(t: Transport, later: seq<Stage>, evt: ByteBuf)
      requires Separate(t, later) && AllValid(later) && {this, held} !! Footprint(later) && Valid()
      requires evt.Valid() && evt !in Footprint(later) && evt != held
      modifies t`failures, evt, this, held, Footprint(later)
      ensures Valid() && AllValid(later)
      ensures var r := Receive(old(State()), old(evt.Content()));
              && State() == r.decoder
              && AtAll(t, later, old(States(later)), r, old(t.failures))
      decreases |later| + 1, 0
    {
      FootprintAllocated(later);
      ghost var start, bytes := State(), evt.Content();
      NothingEmitted(start, bytes);
      Append(evt);
      Loop(t, later, start.Unparsed() + bytes);
    }

    /** The fragment joins the bytes held. */
    method Append(evt: ByteBuf)
      requires Valid() && evt.Valid() && evt != held
      modifies evt, held
      ensures held.Valid() && Unparsed() == old(Unparsed()) + old(evt.Content())
    {
      NothingEmitted(State(), evt.Content());
      var n := evt.ReadableBytes();
      held.Transfer(evt, n);
    }

    method OnOutbound(t: Transport, earlier: seq<Stage>, evt: ByteBuf)
      requires evt.Valid() && t.wbuf.Valid() && evt != t.wbuf
      modifies t`failures, t`writeWatched, t.wbuf, evt
      ensures t.wbuf.Valid()
      ensures var m := old(evt.Content());
              t.Sent(if |m| > LIMIT then Stages.TooLong else Stages.Outbound(Kinds(earlier), Frame(m)),
                     old(t.wbuf.Content()), old(t.failures), old(t.writeWatched))
      decreases |earlier|, 1
    {
      var len := evt.ReadableBytes();
      if len > LIMIT {
        t.Shutdown(-EMSGSIZE);
        return;
      }
      var out := new ByteBuf();
      out.WriteU32(len);
      out.Transfer(evt, len);
      assert out.Content() == Frame(old(evt.Content()));
      FireOutboundFrom(t, earlier, out);
    }
  }

  class Transport {
    const wbuf: ByteBuf
    /** The `shutdown(-EMSGSIZE)` calls made so far, the only ones the stages make. */
    var failures: nat
    var writeWatched: bool
    /** `on_flush_completed_` calls, and the errors fired inbound. */
    var flushes: nat
    var errors: seq<int>
    /** The kernel's side of the socket: bytes to be received, and bytes it has taken for sending. */
    var inbox: seq<Byte>
    var outbox: seq<Byte>

    constructor ()
      ensures wbuf.Valid() && wbuf.Content() == [] && fresh(wbuf)
      ensures failures == 0 && !writeWatched && flushes == 0 && errors == [] && inbox == [] && outbox == []
    {
      wbuf := new ByteBuf();
      failures, writeWatched, flushes, errors, inbox, outbox := 0, false, 0, [], [], [];
    }

    /** How much is buffered, and whether writability is watched. */
    ghost function Pumping(): Pump
      requires wbuf.Valid()
      reads this, wbuf
    {
      Pump(|wbuf.Content()|, writeWatched)
    }

    /** What an outbound event has done, from the buffer, count and watch before it. */
    ghost predicate Sent(sent: Stages.Sent, buffered: seq<Byte>, calls: nat, watched: bool)
      requires wbuf.Valid()
      reads this, wbuf
    {
      && wbuf.Content() == buffered + (if sent.Written? then sent.bytes else [])
      && failures == calls + (if sent.TooLong? then 1 else 0)
      && writeWatched == (watched || (sent.Written? && sent.bytes != []))
    }

    /** The first `moved` of the bytes `all` have gone from the buffer to the kernel, behind `sent`. */
    ghost predicate Split(sent: seq<Byte>, all: seq<Byte>, moved: nat)
      requires wbuf.Valid()
      reads this, wbuf
    {
      moved <= |all| && wbuf.Content() == all[moved..] && outbox == sent + all[..moved]
    }

    lemma SplitFurther(sent: seq<Byte>, all: seq<Byte>, moved: nat, n: nat)
      requires moved + n <= |all|
      ensures all[moved..][n..] == all[moved + n..]
      ensures (sent + all[..moved]) + all[moved..][..n] == sent + all[..moved + n]
    {
    }

    method Shutdown(what: int)
      requires what == -EMSGSIZE
      modifies this`failures
      ensures failures == old(failures) + 1
    {
      failures := failures + 1;
    }

    method Write(buf: ByteBuf) returns (n: nat)
      requires buf.Valid() && wbuf.Valid() && buf != wbuf
      modifies this`writeWatched, wbuf, buf
      ensures wbuf.Valid() && buf.Valid() && buf.Content() == [] && n == |old(buf.Content())|
      ensures Sent(Stages.Written(old(buf.Content())), old(wbuf.Content()), failures, old(writeWatched))
      ensures Pumping() == Pumped(old(Pumping()), Put(n))
    {
      n := buf.ReadableBytes();
      if n == 0 {
        return;
      }
      wbuf.Transfer(buf, n);
      writeWatched := true;
    }

    method Flush()
      requires wbuf.Valid()
      modifies this`writeWatched
      ensures writeWatched == (old(writeWatched) || wbuf.Content() != [])
      ensures Pumping() == Pumped(old(Pumping()), Move.Flush)
    {
      if wbuf.ReadableBytes() > 0 {
        writeWatched := true;
      }
    }

    method ReadSome(dst: ByteBuf, max: nat, answer: SysResult) returns (n: int)
      requires dst.Valid()
      modifies this`inbox, dst
      ensures dst.Valid() && -1 <= n <= |old(inbox)|
      ensures n == if answer.Moved? then Min(Min(answer.n, max), |old(inbox)|) else -1
      ensures var k := if n > 0 then n else 0;
              inbox == old(inbox)[k..] && dst.Content() == old(dst.Content()) + old(inbox)[..k]
    {
      if !answer.Moved? {
        return -1;
      }
      n := Min(Min(answer.n, max), |inbox|);
      if n > 0 {
        dst.Write(inbox[..n]);
        inbox := inbox[n..];
      }
    }

    method WriteSome(src: ByteBuf, max: nat, answer: SysResult) returns (n: int)
      requires src.Valid()
      modifies this`outbox, src
      ensures src.Valid() && -1 <= n <= |old(src.Content())|
      ensures n == if old(src.Content()) == [] then 0
                   else if answer.Moved? then Min(answer.n, Min(|old(src.Content())|, max)) else -1
      ensures var k := if n > 0 then n else 0;
              src.Content() == old(src.Content())[k..] && outbox == old(outbox) + old(src.Content())[..k]
    {
      var tail := src.ReadableBytes();
      if tail == 0 {
        return 0;
      }
      if !answer.Moved? {
        return -1;
      }
      n := Min(answer.n, Min(tail, max));
      if n > 0 {
        var bytes := src.Peek(n);
        outbox := outbox + bytes;
        var _ := src.Advance(n);
      }
    }

    /** Reads into `buf` until nothing comes. */
    method ReadAll(buf: ByteBuf, script: seq<SysResult>) returns (taken: nat)
      requires buf.Valid() && buf.Content() == []
      modifies this`inbox, buf
      ensures buf.Valid() && taken == Taken(|old(inbox)|, script)
      ensures buf.Content() == old(inbox)[..taken] && inbox == old(inbox)[taken..]
    {
      taken := 0;
      var i := 0;
      while true
        invariant 0 <= i <= |script| && taken <= |old(inbox)|
        invariant buf.Valid() && buf.Content() == old(inbox)[..taken] && inbox == old(inbox)[taken..]
        invariant taken + Taken(|inbox|, script[i..]) == Taken(|old(inbox)|, script)
        decreases |script| - i
      {
        var n := ReadSome(buf, READ_CHUNK, if i < |script| then script[i] else Blocked);
        if n <= 0 {
          break;
        }
        taken, i := taken + n, i + 1;
      }
    }

    /** Reads until nothing comes, then fires all the bytes read as one event. */
    method OnReadable(pipeline: seq<Stage>, script: seq<SysResult>) returns (taken: nat)
      requires Separate(this, pipeline) && AllValid(pipeline)
      modifies this`inbox, this`failures, Footprint(pipeline)
      ensures taken == Taken(|old(inbox)|, script) && inbox == old(inbox)[taken..]
      ensures AllValid(pipeline)
      ensures At(this, pipeline, Delivery.Arrive(old(States(pipeline)), old(inbox)[..taken]), old(failures))
    {
      FootprintAllocated(pipeline);
      var buf := new ByteBuf();
      taken := ReadAll(buf, script);
      if buf.ReadableBytes() > 0 {
        FireInboundFrom(this, pipeline, buf);
      }
    }

    /** One round of at most `rounds`: as much as the kernel takes of all that is buffered. */
    method WriteOnce(answers: seq<SysResult>, ghost sent: seq<Byte>, ghost all: seq<Byte>, ghost moved: nat,
                     ghost rounds: nat)
      returns (written: int)
      requires wbuf.Valid() && Split(sent, all, moved) && moved < |all| && rounds > 0
      modifies this`outbox, wbuf
      ensures wbuf.Valid() && moved + written <= |all|
      ensures var d := Drain(|all| - moved, answers, rounds);
              if written < 0 then Split(sent, all, moved) && d == Drained(0, Refusal(answers))
              else
                && answers != [] && Split(sent, all, moved + written)
                && var r := Drain(|all| - moved - written, answers[1..], rounds - 1);
                   d == Drained(written + r.moved, r.exit)
    {
      DrainOnce(|all| - moved, answers, rounds);
      written := WriteSome(wbuf, wbuf.ReadableBytes(), if answers != [] then answers[0] else Blocked);
      SplitFurther(sent, all, moved, if written > 0 then written else 0);
    }

    /** Writes out of the buffer until it is empty, the kernel refuses, or the rounds are used up. */
    method WriteAll(script: seq<SysResult>) returns (d: Drained)
      requires wbuf.Valid()
      modifies this`outbox, wbuf
      ensures wbuf.Valid() && d == Drain(|old(wbuf.Content())|, script, WRITE_ROUNDS)
      ensures Split(old(outbox), old(wbuf.Content()), d.moved)
    {
      ghost var all, sent := wbuf.Content(), outbox;
      var answers := script;
      var moved, i := 0, 0;
      while i < WRITE_ROUNDS && wbuf.ReadableBytes() > 0
        invariant 0 <= i <= WRITE_ROUNDS
        invariant wbuf.Valid() && Split(sent, all, moved)
        invariant var r := Drain(|all| - moved, answers, WRITE_ROUNDS - i);
                  Drain(|all|, script, WRITE_ROUNDS) == Drained(moved + r.moved, r.exit)
      {
        var written := WriteOnce(answers, sent, all, moved, WRITE_ROUNDS - i);
        if written < 0 {
          return Drained(moved, Refusal(answers));
        }
        moved, i, answers := moved + written, i + 1, answers[1..];
      }
      return Drained(moved, Completed);
    }

    /** The write loop, and what its end brings about. */
    method OnWritable(script: seq<SysResult>) returns (d: Drained)
      requires wbuf.Valid()
      modifies this`outbox, this`writeWatched, this`flushes, this`errors, wbuf
      ensures wbuf.Valid() && d == Drain(|old(wbuf.Content())|, script, WRITE_ROUNDS)
      ensures Split(old(outbox), old(wbuf.Content()), d.moved)
      ensures writeWatched == (old(writeWatched) && d.exit == WouldBlock)
      ensures flushes == old(flushes) + if d.exit == Completed then 1 else 0
      ensures errors == old(errors) + if d.exit.Error? then [d.exit.errno] else []
      ensures old(writeWatched) ==> Pumping() == Pumped(old(Pumping()), Writable(script))
    {
      d := WriteAll(script);
      match d.exit
      case WouldBlock =>
      case Error(errno) =>
        writeWatched := false;
        errors := errors + [errno];
      case Completed =>
        writeWatched := false;
        flushes := flushes + 1;
    }
  }

  class Conveyor {
    const transport: Transport
    var stages: seq<Stage>

    ghost predicate Valid()
      reads this, Footprint(stages)
    {
      this !in Footprint(stages) && Separate(transport, stages) && AllValid(stages)
    }

    constructor (t: Transport)
      ensures Valid() && transport == t && stages == []
    {
      transport, stages := t, [];
    }

    method AddLast(stage: Stage)
      requires Valid() && stage.Valid()
      requires stage.Objects() !! Footprint(stages) + {this, transport}
      modifies this`stages
      ensures Valid() && stages == old(stages) + [stage]
      ensures States(stages) == old(States(stages)) + [stage.State()]
      ensures Footprint(stages) == Footprint(old(stages)) + stage.Objects()
    {
      StagesAppend(transport, stages, stage);
      stages := stages + [stage];
    }

    method FireInbound(evt: ByteBuf)
      requires Valid() && evt.Valid() && evt !in Footprint(stages)
      modifies transport`failures, evt, Footprint(stages)
      ensures Valid() && stages == old(stages)
      ensures At(transport, stages, Stages.Inbound(old(States(stages)), old(evt.Content())), old(transport.failures))
    {
      FireInboundFrom(transport, stages, evt);
    }

    method FireOutbound(evt: ByteBuf)
      requires evt.Valid() && transport.wbuf.Valid() && evt != transport.wbuf
      modifies transport`failures, transport`writeWatched, transport.wbuf, evt
      ensures transport.wbuf.Valid()
      ensures transport.Sent(Stages.Outbound(Kinds(stages), old(evt.Content())),
                             old(transport.wbuf.Content()), old(transport.failures), old(transport.writeWatched))
    {
      FireOutboundFrom(transport, stages, evt);
    }
  }

  lemma {:induction false} StagesAppend(t: Transport, ss: seq<Stage>, s: Stage)
    requires Separate(t, ss) && AllValid(ss) && s.Valid()
    requires s.Objects() !! Footprint(ss) && t !in s.Objects()
    ensures Footprint(ss + [s]) == Footprint(ss) + s.Objects()
    ensures Separate(t, ss + [s]) && AllValid(ss + [s]) && States(ss + [s]) == States(ss) + [s.State()]
  {
    if ss == [] {
      assert ss + [s] == [s] && [s][1..] == [];
    } else {
      assert (ss + [s])[1..] == ss[1..] + [s];
      StagesAppend(t, ss[1..], s);
    }
  }
}
