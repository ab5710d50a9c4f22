/** Bytes, byte strings and the 32-bit little-endian header of `ByteBuf`. */
module Bytes {

  type Byte = b: int | 0 <= b < 0x100

  type U32 = v: int | 0 <= v < 0x1_0000_0000

  function Min(a: nat, b: nat): nat {
    if a <= b then a else b
  }

  function Zeros(n: nat): (z: seq<Byte>)
    ensures |z| == n
  {
    seq(n, _ => 0)
  }

  /** The four bytes `writeUI32` appends: `val`, `val >> 8`, `val >> 16`, `val >> 24`, each cut to a byte. */
  function EncodeU32(v: U32): (header: seq<Byte>)
    ensures |header| == 4
  {
    [v % 0x100, v / 0x100 % 0x100, v / 0x1_0000 % 0x100, v / 0x100_0000 % 0x100]
  }

  /** What `readUI32` assembles. The shifted bytes share no bit, so the source's `|` is a sum. */
  function DecodeU32(header: seq<Byte>): U32
    requires |header| == 4
  {
    var a: int, b: int, c: int, d: int := header[0], header[1], header[2], header[3];
    a + 0x100 * b + 0x1_0000 * c + 0x100_0000 * d
  }

  lemma DecodeEncodeU32(v: U32)
    ensures DecodeU32(EncodeU32(v)) == v
  {
    assert v == v % 0x100 + 0x100 * (v / 0x100);
    assert v / 0x100 == v / 0x100 % 0x100 + 0x100 * (v / 0x1_0000);
    assert v / 0x1_0000 == v / 0x1_0000 % 0x100 + 0x100 * (v / 0x100_0000);
  }

  lemma EncodeDecodeU32(header: seq<Byte>)
    requires |header| == 4
    ensures EncodeU32(DecodeU32(header)) == header
  {
    var a: int, b: int, c: int, d: int := header[0], header[1], header[2], header[3];
    var v := DecodeU32(header);
    assert v / 0x100 == b + 0x100 * c + 0x1_0000 * d;
    assert v / 0x1_0000 == c + 0x100 * d;
    assert v / 0x100_0000 == d;
  }

  function Concat(parts: seq<seq<Byte>>): seq<Byte> {
    if parts == [] then [] else parts[0] + Concat(parts[1..])
  }

  lemma {:induction false} ConcatAppend(a: seq<seq<Byte>>, b: seq<seq<Byte>>)
    ensures Concat(a + b) == Concat(a) + Concat(b)
  {
    if a == [] {
      assert a + b == b;
    } else {
      assert (a + b)[0] == a[0] && (a + b)[1..] == a[1..] + b;
      ConcatAppend(a[1..], b);
    }
  }

  lemma ConsAppend<T>(s: seq<T>, t: seq<T>)
    requires s != []
    ensures [s[0]] + (s[1..] + t) == s + t
  {
  }

  lemma Associative<T>(a: seq<T>, b: seq<T>, c: seq<T>)
    ensures (a + b) + c == a + (b + c)
  {
  }
}
