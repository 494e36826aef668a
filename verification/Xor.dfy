/** Exclusive or on natural numbers and byte strings. */
module Xor {
  import opened Common
  import Arith

  /** Exclusive or of the low `n` bits. */
  function XorBits(a: nat, b: nat, n: nat): nat {
    if n == 0 then 0 else (a + b) % 2 + 2 * XorBits(a / 2, b / 2, n - 1)
  }

  function Pow2(n: nat): (p: nat)
    ensures p > 0
  {
    if n == 0 then 1 else 2 * Pow2(n - 1)
  }

  lemma {:induction false} XorBound(a: nat, b: nat, n: nat)
    ensures XorBits(a, b, n) < Pow2(n)
  {
    if n > 0 { XorBound(a / 2, b / 2, n - 1); }
  }

  lemma LowBit(bit: nat, high: nat, b: nat)
    requires bit < 2
    ensures (bit + 2 * high) / 2 == high && (bit + 2 * high + b) % 2 == (bit + b) % 2
  {
    assert bit + 2 * high + b == 2 * high + (bit + b);
  }

  lemma BitTwice(a: nat, b: nat)
    ensures ((a + b) % 2 + b) % 2 == a % 2
  {
    assert (a + b) % 2 + b == a + 2 * (b - (a + b) / 2);
  }

  /** Applying the same mask twice changes nothing. */
  lemma {:induction false} XorTwice(a: nat, b: nat, n: nat)
    requires a < Pow2(n)
    ensures XorBits(XorBits(a, b, n), b, n) == a
  {
    if n > 0 {
      XorTwice(a / 2, b / 2, n - 1);
      LowBit((a + b) % 2, XorBits(a / 2, b / 2, n - 1), b);
      BitTwice(a, b);
    }
  }

  lemma {:induction false} XorZero(a: nat, n: nat)
    requires a < Pow2(n)
    ensures XorBits(a, 0, n) == a
  {
    if n > 0 { XorZero(a / 2, n - 1); }
  }

  /** Bit `i` of a number, the lowest being bit 0. */
  function Bit(x: nat, i: nat): nat {
    if i == 0 then x % 2 else Bit(x / 2, i - 1)
  }

  lemma {:induction false} BitIs(x: nat, i: nat)
    ensures Bit(x, i) == x / Pow2(i) % 2
  {
    if i > 0 {
      BitIs(x / 2, i - 1);
      Halving(x, Pow2(i - 1));
    }
  }

  lemma Halving(x: nat, p: nat)
    requires p > 0
    ensures x / 2 / p == x / (2 * p)
  {
    var q, r := x / 2 / p, x / 2 % p;
    Arith.DivModExists(x / 2, p);
    assert x == (q * p + r) * 2 + x % 2 == q * (2 * p) + (2 * r + x % 2);
    Arith.DivMod(x, 2 * p, q, 2 * r + x % 2);
  }

  /** Each bit of an exclusive or is set exactly if it is set on one side. */
  lemma {:induction false} XorBit(a: nat, b: nat, n: nat, i: nat)
    requires i < n
    ensures Bit(XorBits(a, b, n), i) == (Bit(a, i) + Bit(b, i)) % 2
  {
    LowBit((a + b) % 2, XorBits(a / 2, b / 2, n - 1), 0);
    if i > 0 { XorBit(a / 2, b / 2, n - 1, i - 1); }
  }

  lemma XorByteBit(a: byte, b: byte, i: nat)
    requires i < 8
    ensures Bit(XorByte(a, b), i) == (Bit(a, i) + Bit(b, i)) % 2
  {
    XorBit(a, b, 8, i);
  }

  lemma Pow2Eight()
    ensures Pow2(8) == 256
  {
    assert Pow2(4) == 16;
  }

  function XorByte(a: byte, b: byte): byte {
    Pow2Eight();
    XorBound(a, b, 8);
    XorBits(a, b, 8)
  }

  lemma XorByteTwice(a: byte, b: byte)
    ensures XorByte(XorByte(a, b), b) == a
  {
    Pow2Eight();
    XorTwice(a, b, 8);
  }

  /** Byte-wise exclusive or. */
  function XorSeq(a: seq<byte>, b: seq<byte>): (r: seq<byte>)
    requires |a| == |b|
    ensures |r| == |a| && forall i :: 0 <= i < |a| ==> r[i] == XorByte(a[i], b[i])
  {
    seq(|a|, i requires 0 <= i < |a| => XorByte(a[i], b[i]))
  }

  lemma XorSeqTwice(a: seq<byte>, b: seq<byte>)
    requires |a| == |b|
    ensures XorSeq(XorSeq(a, b), b) == a
  {
    forall i | 0 <= i < |a| ensures XorSeq(XorSeq(a, b), b)[i] == a[i] {
      XorByteTwice(a[i], b[i]);
    }
  }
}
