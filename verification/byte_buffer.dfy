/** The growable byte buffer with a read and a write cursor, specified as a byte queue with spare room behind it. */
module ByteBuffers {
  import opened Bytes

  /** The spare room after `reserve(n)`: kept if large enough, else zero-filled up to `n` bytes. */
  function Reserved(tail: seq<Byte>, n: nat): (t: seq<Byte>)
    ensures |t| >= n && tail <= t
  {
    if |tail| >= n then tail else tail + Zeros(n - |tail|)
  }

  lemma Rotated(s: seq<Byte>, m: nat)
    ensures m <= |s| ==> (s + s[..m])[m..] == s[m..] + s[..m]
  {
  }

  class ByteBuf {
    var r: nat
    var w: nat
    var data: seq<Byte>

    ghost predicate Valid()
      reads this
    {
      r <= w <= |data| && (r == w ==> r == 0)
    }

    /** The queue the buffer stands for. */
    ghost function Content(): seq<Byte>
      requires Valid()
      reads this
    {
      data[r..w]
    }

    /** The bytes a `tailroom` view exposes. */
    ghost function Tail(): seq<Byte>
      requires Valid()
      reads this
    {
      data[w..]
    }

    constructor ()
      ensures Valid() && Content() == [] && Tail() == []
    {
      r, w, data := 0, 0, [];
    }

    function ReadableBytes(): (n: nat)
      requires Valid()
      reads this
      ensures n == |Content()|
    {
      w - r
    }

    function WritableBytes(): (n: nat)
      requires Valid()
      reads this
      ensures n == |Tail()|
    {
      |data| - w
    }

    /** Assigning a fresh `ByteBuf{}` over this one. */
    method Reset()
      modifies this
      ensures Valid() && Content() == [] && Tail() == []
    {
      r, w, data := 0, 0, [];
    }

    method Reserve(n: nat)
      requires Valid()
      modifies this`data
      ensures Valid() && Content() == old(Content()) && Tail() == Reserved(old(Tail()), n)
    {
      if WritableBytes() < n {
        data := data + Zeros(w + n - |data|);
      }
    }

    method Advance(n: nat) returns (m: nat)
      requires Valid()
      modifies this`r, this`w
      ensures Valid() && m == Min(n, |old(Content())|)
      ensures Content() == old(Content())[m..]
      ensures Tail() == if Content() == [] then data else old(Tail())
    {
      m := Min(n, ReadableBytes());
      r := r + m;
      if r == w {
        r, w := 0, 0;
      }
    }

    method Commit(n: nat) returns (m: nat)
      requires Valid()
      modifies this`w
      ensures Valid() && m == Min(n, |old(Tail())|)
      ensures Content() == old(Content() + Tail()[..m]) && Tail() == old(Tail()[m..])
    {
      m := Min(n, WritableBytes());
      w := w + m;
    }

    /** What `readv` does through the `tailroom` view: it fills spare room and moves no cursor. */
    method Fill(src: seq<Byte>)
      requires Valid() && |src| <= WritableBytes()
      modifies this`data
      ensures Valid() && Content() == old(Content()) && Tail() == src + old(Tail())[|src|..]
    {
      data := data[..w] + src + data[w + |src|..];
    }

    /** Appends raw bytes. */
    method Write(src: seq<Byte>)
      requires Valid()
      modifies this
      ensures Valid() && Content() == old(Content()) + src
      ensures Tail() == if src == [] then old(Tail()) else Reserved(old(Tail()), |src|)[|src|..]
    {
      if |src| == 0 {
        return;
      }
      Reserve(|src|);
      data := data[..w] + src + data[w + |src|..];
      w := w + |src|;
    }

    /** Copies up to `n` bytes out, changing nothing. */
    method Peek(n: nat) returns (out: seq<Byte>)
      requires Valid()
      ensures out == Content()[..Min(n, |Content()|)]
    {
      out := data[r..r + Min(n, ReadableBytes())];
    }

    /** Moves up to `n` bytes to the tail of `dst`; a transfer to itself is refused. */
    method Read(dst: ByteBuf, n: nat) returns (m: nat)
      requires Valid() && dst.Valid()
      modifies this, dst
      ensures Valid() && dst.Valid()
      ensures m == if dst == this then 0 else Min(n, |old(Content())|)
      ensures Content() == old(Content())[m..]
      ensures dst != this ==> dst.Content() == old(dst.Content()) + old(Content())[..m]
    {
      if this == dst {
        return 0;
      }
      m := Min(n, ReadableBytes());
      if m == 0 {
        return;
      }
      dst.Write(data[r..r + m]);
      m := Advance(m);
    }

    /** `write(ByteBuf&&, n)`: moves up to `n` bytes from `src`; from itself it rotates the queue. */
    method Transfer(src: ByteBuf, n: nat)
      requires Valid() && src.Valid()
      modifies this, src
      ensures Valid() && src.Valid()
      ensures var m := Min(n, |old(src.Content())|);
              if src == this then Content() == old(Content())[m..] + old(Content())[..m]
              else && Content() == old(Content()) + old(src.Content())[..m]
                   && src.Content() == old(src.Content())[m..]
    {
      var m := Min(n, src.ReadableBytes());
      if m == 0 {
        return;
      }
      Rotated(Content(), m);
      var bytes := src.Peek(m);
      Write(bytes);
      var _ := src.Advance(m);
    }

    method ReadU32() returns (ok: bool, v: U32)
      requires Valid()
      modifies this
      ensures Valid() && ok == (|old(Content())| >= 4)
      ensures ok ==> v == DecodeU32(old(Content())[..4]) && Content() == old(Content())[4..]
      ensures !ok ==> v == 0 && Content() == old(Content()) && Tail() == old(Tail())
    {
      if ReadableBytes() < 4 {
        return false, 0;
      }
      var buf := Peek(4);
      var _ := Advance(4);
      return true, DecodeU32(buf);
    }

    method WriteU32(v: U32)
      requires Valid()
      modifies this
      ensures Valid() && Content() == old(Content()) + EncodeU32(v)
    {
      Write(EncodeU32(v));
    }
  }

  /** `readU32` undoes `writeU32` at any cursor position, whatever lies in front, and nothing is left of it. */
  method HeaderRoundTrip(b: ByteBuf, v: U32) returns (back: U32)
    requires b.Valid()
    modifies b
    ensures b.Valid() && back == v && b.Content() == []
  {
    ghost var front := b.Content();
    b.WriteU32(v);
    var _ := b.Advance(b.ReadableBytes() - 4);
    assert b.Content() == EncodeU32(v);
    DecodeEncodeU32(v);
    var _, u := b.ReadU32();
    back := u;
  }

  /** The scatter read of the documentation, `reserve`, `readv` into the tail, `commit`, is an append. */
  method ReadVector(b: ByteBuf, room: nat, arrived: seq<Byte>)
    requires b.Valid() && |arrived| <= room
    modifies b
    ensures b.Valid() && b.Content() == old(b.Content()) + arrived
  {
    b.Reserve(room);
    b.Fill(arrived);
    var _ := b.Commit(|arrived|);
  }
}
