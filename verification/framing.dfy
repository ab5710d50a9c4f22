/** The length-prefixed wire format: a printer, an incremental parser, and what each promises of the other. */
module Framing {
  import opened Bytes

  const LIMIT: nat := 0x10_0000

  type Payload = m: seq<Byte> | |m| <= LIMIT

  /** One message on the wire: its length in four bytes, then its bytes. */
  function Frame(m: Payload): (r: seq<Byte>)
    ensures |r| == 4 + |m|
  {
    EncodeU32(|m|) + m
  }

  function Stream(ms: seq<Payload>): seq<Byte> {
    if ms == [] then [] else Frame(ms[0]) + Stream(ms[1..])
  }

  lemma StreamFront(ms: seq<Payload>, tail: seq<Byte>)
    requires ms != []
    ensures Stream(ms) + tail == Frame(ms[0]) + (Stream(ms[1..]) + tail)
  {
  }

  // ---------- one-shot parsing ----------

  predicate Oversized(s: seq<Byte>) {
    |s| >= 4 && DecodeU32(s[..4]) > LIMIT
  }

  /** A string that starts no complete frame, but may still grow into one. */
  predicate Incomplete(s: seq<Byte>) {
    |s| < 4 || (DecodeU32(s[..4]) <= LIMIT && |s| < 4 + DecodeU32(s[..4]))
  }

  datatype Parsed = Parsed(frames: seq<Payload>, rest: seq<Byte>, oversized: bool)

  function Parse(s: seq<Byte>): Parsed {
    if Oversized(s) then Parsed([], s, true)
    else if Incomplete(s) then Parsed([], s, false)
    else
      var n := DecodeU32(s[..4]);
      var p := Parse(s[4 + n..]);
      Parsed([s[4..4 + n]] + p.frames, p.rest, p.oversized)
  }

  /** A frame at the front of a string is exactly what one parsing step takes off. */
  lemma ParseFrame(m: Payload, t: seq<Byte>)
    ensures var p := Parse(t);
            Parse(Frame(m) + t) == Parsed([m] + p.frames, p.rest, p.oversized)
  {
    var s := Frame(m) + t;
    assert s[..4] == EncodeU32(|m|);
    DecodeEncodeU32(|m|);
    assert s[4..4 + |m|] == m && s[4 + |m|..] == t;
  }

  /** A header of more than 1 MB, and no other, makes the string oversized, whatever follows it. */
  lemma HeaderDecides(n: U32, body: seq<Byte>)
    ensures Oversized(EncodeU32(n) + body) <==> n > 0x10_0000
  {
  }

  /** A string that is neither incomplete nor oversized starts with a frame. */
  lemma FrameInFront(s: seq<Byte>)
    requires !Oversized(s) && !Incomplete(s)
    ensures var n := DecodeU32(s[..4]);
            s == Frame(s[4..4 + n]) + s[4 + n..]
  {
  }

  /** The parser undoes the printer, and leaves what follows the last frame untouched. */
  lemma {:induction false} ParseStream(ms: seq<Payload>, tail: seq<Byte>)
    ensures var p := Parse(tail);
            Parse(Stream(ms) + tail) == Parsed(ms + p.frames, p.rest, p.oversized)
  {
    if ms == [] {
      assert Stream(ms) + tail == tail;
      assert ms + Parse(tail).frames == Parse(tail).frames;
    } else {
      ParseStream(ms[1..], tail);
      ParseFrame(ms[0], Stream(ms[1..]) + tail);
      StreamFront(ms, tail);
      ConsAppend(ms, Parse(tail).frames);
    }
  }

  /** Whatever the input, the frames printed back and the rest are the input. */
  lemma {:induction false} ParseSound(s: seq<Byte>)
    ensures var p := Parse(s);
            && s == Stream(p.frames) + p.rest
            && (if p.oversized then Oversized(p.rest) else Incomplete(p.rest))
  {
    if !Oversized(s) && !Incomplete(s) {
      var n := DecodeU32(s[..4]);
      var m: Payload, t := s[4..4 + n], s[4 + n..];
      FrameInFront(s);
      ParseSound(t);
      var fs := Parse(t).frames;
      StreamFront([m] + fs, Parse(t).rest);
      assert [m] + fs == Parse(s).frames && ([m] + fs)[1..] == fs;
    }
  }

  /** `Parse` is the only reading of a stream: its result is characterised without the algorithm. */
  lemma ParseCharacterised(s: seq<Byte>, frames: seq<Payload>, rest: seq<Byte>, oversized: bool)
    ensures Parse(s) == Parsed(frames, rest, oversized) <==>
            && s == Stream(frames) + rest
            && (if oversized then Oversized(rest) else Incomplete(rest))
  {
    ParseSound(s);
    if s == Stream(frames) + rest && (if oversized then Oversized(rest) else Incomplete(rest)) {
      ParseStream(frames, rest);
      assert frames + [] == frames;
    }
  }

  /** Cutting a stream in two: parse the first part, then its rest with the second. */
  lemma ParseAppend(a: seq<Byte>, b: seq<Byte>)
    ensures var p := Parse(a);
            if p.oversized then Parse(a + b) == Parsed(p.frames, p.rest + b, true)
            else var q := Parse(p.rest + b); Parse(a + b) == Parsed(p.frames + q.frames, q.rest, q.oversized)
  {
    var p := Parse(a);
    ParseSound(a);
    assert a + b == Stream(p.frames) + (p.rest + b);
    ParseStream(p.frames, p.rest + b);
    if p.oversized {
      assert (p.rest + b)[..4] == p.rest[..4];
      assert p.frames + [] == p.frames;
    }
  }

  // ---------- the decoder state of a Chunker ----------

  /** `pending_` (0 while no header has been read) and the readable bytes of `in_`. */
  datatype Decoder = Decoder(pending: nat, held: seq<Byte>) {

    /** What holds between two calls. */
    predicate Valid() {
      pending <= LIMIT && |held| < if pending == 0 then 4 else pending
    }

    /** The unparsed bytes the state stands for: a header already taken out is put back. */
    function Unparsed(): seq<Byte>
      requires pending <= LIMIT
    {
      if pending == 0 then held else EncodeU32(pending) + held
    }
  }

  const START := Decoder(0, [])

  function Suspended(rest: seq<Byte>): (d: Decoder)
    requires Incomplete(rest)
    ensures d.Valid() && d.Unparsed() == rest
  {
    if |rest| < 4 then Decoder(0, rest)
    else
      EncodeDecodeU32(rest[..4]);
      assert rest == rest[..4] + rest[4..];
      Decoder(DecodeU32(rest[..4]), rest[4..])
  }

  /** A valid state is determined by the bytes it stands for, which are never a whole frame. */
  lemma UnparsedDeterminesState(d: Decoder)
    requires d.Valid()
    ensures Incomplete(d.Unparsed()) && Suspended(d.Unparsed()) == d
  {
    if d.pending != 0 {
      var u := d.Unparsed();
      assert u[..4] == EncodeU32(d.pending) && u[4..] == d.held;
      DecodeEncodeU32(d.pending);
    }
  }

  datatype Received = Received(decoder: Decoder, frames: seq<Payload>, failures: nat)

  /** What one inbound fragment does to a decoder. An oversized header empties it and raises one failure. */
  function Receive(d: Decoder, fragment: seq<Byte>): (r: Received)
    requires d.Valid()
    ensures r.decoder.Valid() && r.failures <= 1
  {
    var p := Parse(d.Unparsed() + fragment);
    if p.oversized then Received(START, p.frames, 1)
    else
      ParseSound(d.Unparsed() + fragment);
      Received(Suspended(p.rest), p.frames, 0)
  }

  function ReceiveAll(d: Decoder, fragments: seq<seq<Byte>>): (r: Received)
    requires d.Valid()
    ensures r.decoder.Valid()
    decreases |fragments|
  {
    if fragments == [] then Received(d, [], 0)
    else
      var r := Receive(d, fragments[0]);
      var s := ReceiveAll(r.decoder, fragments[1..]);
      Received(s.decoder, r.frames + s.frames, r.failures + s.failures)
  }

  /**
   * Fragmentation independence. If the whole stream holds no oversized header, every way of cutting it emits the
   * frames of the one-shot parse and ends in the state standing for its rest; if it holds one, a failure is raised
   * and the frames before it come out first.
   */
  lemma {:induction false} FragmentationIndependence(d: Decoder, fragments: seq<seq<Byte>>)
    requires d.Valid()
    ensures var p := Parse(d.Unparsed() + Concat(fragments));
            var r := ReceiveAll(d, fragments);
            if p.oversized then r.failures >= 1 && p.frames <= r.frames
            else r.failures == 0 && r.frames == p.frames && r.decoder.Unparsed() == p.rest
    decreases |fragments|
  {
    if fragments == [] {
      UnparsedDeterminesState(d);
      assert d.Unparsed() + Concat(fragments) == d.Unparsed();
    } else {
      var first, rest := d.Unparsed() + fragments[0], Concat(fragments[1..]);
      assert d.Unparsed() + Concat(fragments) == first + rest;
      ParseAppend(first, rest);
      FragmentationIndependence(Receive(d, fragments[0]).decoder, fragments[1..]);
    }
  }

  /**
   * A fragment that makes a header oversized gives the frames before it and one failure; what it held is forgotten, and
   * the fragments after it are received as by a new decoder.
   */
  lemma ResyncAfterFailure(d: Decoder, fragment: seq<Byte>, more: seq<seq<Byte>>)
    requires d.Valid() && Parse(d.Unparsed() + fragment).oversized
    ensures var r, rest := ReceiveAll(d, [fragment] + more), ReceiveAll(START, more);
            && r.decoder == rest.decoder && r.failures == 1 + rest.failures
            && r.frames == Parse(d.Unparsed() + fragment).frames + rest.frames
  {
    assert ([fragment] + more)[1..] == more;
  }

  // ---------- partial arrival of a known stream ----------

  function Complete(ms: seq<Payload>, n: nat): (t: nat)
    ensures t <= |ms|
  {
    if ms == [] || n < 4 + |ms[0]| then 0 else 1 + Complete(ms[1..], n - 4 - |ms[0]|)
  }

  lemma {:induction false} StreamAppend(a: seq<Payload>, b: seq<Payload>)
    ensures Stream(a + b) == Stream(a) + Stream(b)
  {
    if a == [] {
      assert a + b == b;
    } else {
      assert (a + b)[0] == a[0] && (a + b)[1..] == a[1..] + b;
      StreamAppend(a[1..], b);
    }
  }

  /** The first `n` bytes of a stream parse to the messages wholly contained in them. */
  lemma {:induction false} ParsePrefix(ms: seq<Payload>, n: nat)
    requires n <= |Stream(ms)|
    ensures var p := Parse(Stream(ms)[..n]);
            !p.oversized && p.frames == ms[..Complete(ms, n)]
  {
    if n >= 4 {
      var m, s := ms[0], Stream(ms)[..n];
      if n >= 4 + |m| {
        var t := Stream(ms[1..])[..n - 4 - |m|];
        assert s == Frame(m) + t;
        ParsePrefix(ms[1..], n - 4 - |m|);
        ParseFrame(m, t);
        TakeOneMore(ms, Complete(ms[1..], n - 4 - |m|));
      } else {
        assert s[..4] == EncodeU32(|m|);
        DecodeEncodeU32(|m|);
      }
    }
  }

  lemma TakeOneMore(ms: seq<Payload>, t: nat)
    requires t < |ms|
    ensures ms[..t + 1] == [ms[0]] + ms[1..][..t]
  {
  }

  /** `Complete` is the largest number of leading messages that fit in `n` bytes. */
  lemma {:induction false} CompleteIsLargest(ms: seq<Payload>, n: nat)
    ensures var t := Complete(ms, n);
            && |Stream(ms[..t])| <= n
            && (t < |ms| ==> n < |Stream(ms[..t + 1])|)
  {
    if ms != [] {
      var t := Complete(ms, n);
      assert Stream(ms[..1]) == Frame(ms[0]) by { assert ms[..1][1..] == []; }
      if n >= 4 + |ms[0]| {
        CompleteIsLargest(ms[1..], n - 4 - |ms[0]|);
        assert ms[..t][1..] == ms[1..][..t - 1];
        if t < |ms| {
          assert ms[..t + 1][1..] == ms[1..][..t];
        }
      }
    }
  }
}
