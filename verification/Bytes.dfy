/** Little-endian numbers in byte sequences, and overwriting part of a memory. */
module Bytes {

  type byte = x: int | 0 <= x < 256

  function Pow256(w: nat): nat { if w == 0 then 1 else 256 * Pow256(w - 1) }

  function ToBytes(v: nat, w: nat): (r: seq<byte>)
    ensures |r| == w
  {
    if w == 0 then [] else [(v % 256) as byte] + ToBytes(v / 256, w - 1)
  }

  function FromBytes(b: seq<byte>): nat {
    if b == [] then 0 else b[0] + 256 * FromBytes(b[1..])
  }

  lemma {:induction false} RoundTrip(v: nat, w: nat)
    requires v < Pow256(w)
    ensures FromBytes(ToBytes(v, w)) == v
  {
    if w > 0 {
      RoundTrip(v / 256, w - 1);
      assert ToBytes(v, w)[1..] == ToBytes(v / 256, w - 1);
    }
  }

  lemma LowByte(x: byte, v: nat)
    ensures (x + 256 * v) % 256 == x && (x + 256 * v) / 256 == v
  {
  }

  lemma {:induction false} RoundTripBack(b: seq<byte>)
    ensures ToBytes(FromBytes(b), |b|) == b
  {
    if b != [] {
      var v := FromBytes(b[1..]);
      RoundTripBack(b[1..]);
      LowByte(b[0], v);
      hide FromBytes;
      assert ToBytes(b[0] + 256 * v, |b|) == [b[0]] + ToBytes(v, |b| - 1);
      assert b == [b[0]] + b[1..];
    }
  }

  lemma Pow256Values()
    ensures Pow256(1) == 256 && Pow256(2) == 65536 && Pow256(4) == 0x1_0000_0000 &&
            Pow256(8) == 0x1_0000_0000_0000_0000
  {
    assert Pow256(2) == 256 * Pow256(1);
    assert Pow256(3) == 256 * Pow256(2);
    assert Pow256(4) == 256 * Pow256(3);
    assert Pow256(5) == 256 * Pow256(4);
    assert Pow256(6) == 256 * Pow256(5);
    assert Pow256(7) == 256 * Pow256(6);
    assert Pow256(8) == 256 * Pow256(7);
  }

  lemma RoundTrip2(v: nat)
    requires v < 65536
    ensures FromBytes(ToBytes(v, 2)) == v
  {
    Pow256Values();
    RoundTrip(v, 2);
  }

  lemma {:induction false} MoreBytes(b: seq<byte>, more: seq<byte>)
    ensures FromBytes(b + more) == FromBytes(b) + Pow256(|b|) * FromBytes(more)
  {
    if b == [] {
      assert b + more == more;
    } else {
      assert (b + more)[1..] == b[1..] + more;
      MoreBytes(b[1..], more);
      assert Pow256(|b|) * FromBytes(more) == 256 * (Pow256(|b| - 1) * FromBytes(more));
    }
  }

  lemma FourBytes(b: seq<byte>)
    requires |b| == 4
    ensures FromBytes(b) == FromBytes(b[..2]) + 0x1_0000 * FromBytes(b[2..])
  {
    MoreBytes(b[..2], b[2..]);
    assert b[..2] + b[2..] == b;
    Pow256Values();
  }

  lemma FourThenMore(b: seq<byte>, more: seq<byte>)
    requires |b| == 4
    ensures FromBytes(b + more) == FromBytes(b) + 0x1_0000_0000 * FromBytes(more)
  {
    MoreBytes(b, more);
    Pow256Values();
  }

  /** The low byte comes first. */
  lemma LowFirst(v: nat)
    ensures ToBytes(v, 1) == [v % 256] && ToBytes(v, 2) == [v % 256, v / 256 % 256]
  {
    assert ToBytes(v / 256, 1) == [v / 256 % 256] + ToBytes(v / 256 / 256, 0);
  }

  /** mem with the bytes b written at a. */
  function Splice(mem: seq<byte>, a: nat, b: seq<byte>): (r: seq<byte>)
    requires a + |b| <= |mem|
    ensures |r| == |mem|
    ensures forall i :: 0 <= i < |mem| ==> r[i] == if a <= i < a + |b| then b[i - a] else mem[i]
  {
    mem[..a] + b + mem[a + |b|..]
  }
}
