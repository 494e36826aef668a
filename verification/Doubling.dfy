/** Doubling in GF(2^128) as section 2.3 of RFC 5297 defines it, and the byte loop that does it. */
module Doubling {
  import opened Common
  import opened Xor
  import Arith

  /** The big-endian value of a byte string. */
  function Value(s: seq<byte>): nat {
    if s == [] then 0 else 256 * Value(s[..|s| - 1]) + s[|s| - 1]
  }

  /** The byte at `i` of the string shifted left by one bit. */
  function ShiftedAt(s: seq<byte>, i: int): byte
    requires 0 <= i < |s|
  {
    (2 * s[i] as int + (if i + 1 < |s| then s[i + 1] as int / 128 else 0)) % 256
  }

  function Shifted(s: seq<byte>): (r: seq<byte>)
    ensures |r| == |s| && forall i :: 0 <= i < |s| ==> r[i] == ShiftedAt(s, i)
  {
    seq(|s|, i requires 0 <= i < |s| => ShiftedAt(s, i))
  }

  /** What the loop computes for one byte, with and without a next byte. */
  lemma ShiftOne(s: seq<byte>, i: nat)
    requires i < |s|
    ensures i + 1 < |s| ==> s[i] as int * 2 % 256 + s[i + 1] as int / 128 == ShiftedAt(s, i)
    ensures i + 1 == |s| ==> s[i] as int * 2 % 256 == ShiftedAt(s, i)
  {
    ShiftByte(s[i], 0);
    if i + 1 < |s| { ShiftByte(s[i], s[i + 1] as int / 128); }
  }

  lemma ShiftDone(b: seq<byte>, was: seq<byte>, len: nat)
    requires len <= |b| == |was|
    requires forall k :: 0 <= k < len ==> b[k] == ShiftedAt(was[..len], k)
    requires forall k :: len <= k < |b| ==> b[k] == was[k]
    ensures b == Shifted(was[..len]) + was[len..]
  {
  }

  /** Shifts the first `len` bytes of a buffer left by one bit, in place. */
  method BitshiftLeft(buf: array<byte>, len: nat)
    requires len <= buf.Length
    modifies buf
    ensures buf[..] == Shifted(old(buf[..len])) + old(buf[len..])
  {
    hide Shifted, ShiftedAt;
    if len == 0 {
      ShiftDone(buf[..], buf[..], 0);
      assert buf[..0] == buf[..][..0] && buf[0..] == buf[..][0..];
      return;
    }
    ghost var s := buf[..len];
    assert s == old(buf[..])[..len] && old(buf[len..]) == old(buf[..])[len..];
    for i := 0 to len - 1
      invariant forall k :: 0 <= k < i ==> buf[k] == ShiftedAt(s, k)
      invariant forall k :: i <= k < buf.Length ==> buf[k] == old(buf[k])
    {
      ShiftOne(s, i);
      assert buf[i] == s[i] && buf[i + 1] == s[i + 1];
      buf[i] := buf[i] as int * 2 % 256 + buf[i + 1] as int / 128;
    }
    ShiftOne(s, len - 1);
    assert buf[len - 1] == s[len - 1];
    buf[len - 1] := buf[len - 1] as int * 2 % 256;
    ShiftDone(buf[..], old(buf[..]), len);
  }

  // --- What the shift computes ------------------------------------------------------------------

  /** The shift with a carry coming in at the low end. */
  ghost function ShiftedWith(s: seq<byte>, c: nat): seq<byte>
    requires c <= 1
    decreases |s|
  {
    if s == [] then []
    else
      var b := s[|s| - 1] as int;
      ShiftedWith(s[..|s| - 1], b / 128) + [(2 * b + c) % 256]
  }

  lemma {:induction false} ShiftedWithAt(s: seq<byte>, c: nat, i: int)
    requires c <= 1 && 0 <= i < |s|
    ensures |ShiftedWith(s, c)| == |s|
    ensures ShiftedWith(s, c)[i] == (2 * s[i] as int + (if i + 1 < |s| then s[i + 1] as int / 128 else c)) % 256
    decreases |s|
  {
    var init := s[..|s| - 1];
    var k := s[|s| - 1] as int / 128;
    if init == [] {
      assert ShiftedWith(init, k) == [];
    } else {
      ShiftedWithAt(init, k, if i < |init| then i else 0);
    }
  }

  lemma ModScale(x: nat, y: nat, p: nat)
    requires y < 256 && p > 0
    ensures (256 * x + y) % (256 * p) == 256 * (x % p) + y
  {
    var q, r := x / p, x % p;
    assert 256 * x + y == q * (256 * p) + (256 * r + y);
    assert 256 * r + y < 256 * p;
    Arith.DivMod(256 * x + y, 256 * p, q, 256 * r + y);
  }

  lemma ValueStep(s: seq<byte>, b: byte)
    ensures Value(s + [b]) == 256 * Value(s) + b as int && Pow256(|s + [b]|) == 256 * Pow256(|s|)
  {
    assert (s + [b])[..|s|] == s;
  }

  /** Doubling a number whose last byte is `b`. */
  lemma LastByte(v: nat, b: nat, c: nat)
    requires b < 256 && c <= 1
    ensures b / 128 <= 1 && 2 * (256 * v + b) + c == 256 * (2 * v + b / 128) + (2 * b + c) % 256
  {
    if b < 128 {
      Arith.DivMod(2 * b + c, 256, 0, 2 * b + c);
    } else {
      Arith.DivMod(2 * b + c, 256, 1, 2 * b + c - 256);
    }
  }

  lemma ShiftStep(v: nat, b: nat, c: nat, p: nat)
    requires b < 256 && c <= 1 && p > 0
    ensures (2 * (256 * v + b) + c) % (256 * p) == 256 * ((2 * v + b / 128) % p) + (2 * b + c) % 256
  {
    LastByte(v, b, c);
    ModScale(2 * v + b / 128, (2 * b + c) % 256, p);
  }

  lemma ShiftedWithStep(s: seq<byte>, b: byte, c: nat)
    requires c <= 1
    ensures ShiftedWith(s + [b], c) == ShiftedWith(s, b as int / 128) + [(2 * b as int + c) % 256]
    ensures |ShiftedWith(s, b as int / 128)| == |s|
  {
    assert (s + [b])[..|s|] == s;
    if s != [] { ShiftedWithAt(s, b as int / 128, 0); }
  }

  lemma {:induction false} ShiftedWithValue(s: seq<byte>, c: nat)
    requires c <= 1
    ensures Pow256(|s|) > 0 && Value(ShiftedWith(s, c)) == (2 * Value(s) + c) % Pow256(|s|)
    decreases |s|
  {
    if s != [] {
      hide Value, Pow256, ShiftedWith;
      var init, b := s[..|s| - 1], s[|s| - 1];
      assert s == init + [b];
      ShiftedWithStep(init, b, c);
      ShiftedWithValue(init, b as int / 128);
      ValueStep(init, b);
      ValueStep(ShiftedWith(init, b as int / 128), (2 * b as int + c) % 256);
      ShiftStep(Value(init), b, c, Pow256(|init|));
    }
  }

  lemma ShiftedWithNone(s: seq<byte>)
    ensures ShiftedWith(s, 0) == Shifted(s)
  {
    if s != [] {
      ShiftedWithAt(s, 0, 0);
      forall i | 0 <= i < |s| ensures ShiftedWith(s, 0)[i] == Shifted(s)[i] {
        ShiftedWithAt(s, 0, i);
      }
    }
  }

  /** The byte loop doubles the big-endian value, modulo the size of the buffer. */
  lemma ShiftDoubles(s: seq<byte>)
    ensures Pow256(|s|) > 0 && Value(Shifted(s)) == 2 * Value(s) % Pow256(|s|)
  {
    ShiftedWithValue(s, 0);
    ShiftedWithNone(s);
  }

  // --- Doubling ---------------------------------------------------------------------------------

  const RB: seq<byte> := [0, 0, 0, 0, 0, 0, 0, 0, 0, 0, 0, 0, 0, 0, 0, 0x87]

  type Block = b: seq<byte> | |b| == 16 witness RB

  function Dbl(b: Block): Block {
    if b[0] >= 128 then XorSeq(Shifted(b), RB) else Shifted(b)
  }

  /** Exclusive or into a buffer. */
  method XorBuf(buf: array<byte>, mask: seq<byte>)
    requires |mask| == buf.Length
    modifies buf
    ensures buf[..] == XorSeq(old(buf[..]), mask)
  {
    for i := 0 to buf.Length
      invariant forall k :: 0 <= k < i ==> buf[k] == XorByte(old(buf[k]), mask[k])
      invariant forall k :: i <= k < buf.Length ==> buf[k] == old(buf[k])
    {
      buf[i] := XorByte(buf[i], mask[i]);
    }
  }

  /** Doubles a block in place. */
  method SivDbl(block: array<byte>)
    requires block.Length == 16
    modifies block
    ensures block[..] == Dbl(old(block[..]))
  {
    ghost var s := block[..];
    var needXor := block[0] / 128 == 1;
    BitshiftLeft(block, 16);
    assert s[..16] == s && s[16..] == [];
    assert block[..] == Shifted(s);
    if needXor {
      XorBuf(block, RB);
    }
  }

  /** Doubling in the field: shift, and on overflow reduce by x^128 + x^7 + x^2 + x + 1, whose low
      part 0x87 touches the low byte only. */
  function FieldDouble(v: nat): nat {
    if 2 * v < Pow256(16) then 2 * v
    else
      var w := 2 * v - Pow256(16);
      w - w % 256 + XorByte(w % 256, 0x87)
  }

  lemma XorByteZero(a: byte)
    ensures XorByte(a, 0) == a
  {
    Pow2Eight();
    XorZero(a, 8);
  }

  /** Masking with the constant changes the last byte only. */
  lemma MaskedValue(s: Block)
    ensures Value(XorSeq(s, RB)) == Value(s) - s[15] as int + XorByte(s[15], 0x87) as int
  {
    var t := XorSeq(s, RB);
    forall i | 0 <= i < 15 ensures t[i] == s[i] {
      XorByteZero(s[i]);
    }
    assert t[..15] == s[..15];
  }

  lemma LowByte(s: seq<byte>)
    requires s != []
    ensures Value(s) % 256 == s[|s| - 1] as int
  {
  }

  lemma {:induction false} ValueBound(s: seq<byte>)
    ensures Value(s) < Pow256(|s|)
  {
    if s != [] { ValueBound(s[..|s| - 1]); }
  }

  /** The top bit of a byte string is the top bit of its value. */
  lemma {:induction false} TopBit(s: seq<byte>)
    requires s != []
    ensures s[0] >= 128 <==> 2 * Value(s) >= Pow256(|s|)
  {
    var init, b := s[..|s| - 1], s[|s| - 1];
    assert s == init + [b];
    ValueStep(init, b);
    if init == [] {
      assert Value(init) == 0 && Pow256(0) == 1;
    } else {
      TopBit(init);
      assert init[0] == s[0];
      EvenPower(|init|);
      TopStep(Value(init), b, Pow256(|init|));
    }
  }

  lemma TopStep(v: nat, b: nat, p: nat)
    requires b < 256 && p % 2 == 0
    ensures 2 * v >= p <==> 2 * (256 * v + b) >= 256 * p
  {
    var h := p / 2;
    assert p == 2 * h;
  }

  lemma EvenPower(n: nat)
    requires n > 0
    ensures Pow256(n) % 2 == 0
  {
    assert Pow256(n) == 2 * (128 * Pow256(n - 1));
  }

  lemma ShiftReduces(v: nat, p: nat)
    requires v < p
    ensures 2 * v % p == if 2 * v < p then 2 * v else 2 * v - p
  {
    if 2 * v < p { Arith.DivMod(2 * v, p, 0, 2 * v); } else { Arith.DivMod(2 * v, p, 1, 2 * v - p); }
  }

  /** The in-place routine is doubling in the field. */
  lemma DblIsFieldDouble(b: Block)
    ensures Value(Dbl(b)) == FieldDouble(Value(b))
  {
    hide Shifted, Value;
    ShiftDoubles(b);
    TopBit(b);
    ValueBound(b);
    ShiftReduces(Value(b), Pow256(16));
    MaskedValue(Shifted(b));
    LowByte(Shifted(b));
  }

  lemma LowBit(x: byte, m: byte)
    ensures XorByte(x, m) as int % 2 == (x as int + m as int) % 2
  {
    assert XorBits(x, m, 8) == (x as int + m as int) % 2 + 2 * XorBits(x as int / 2, m as int / 2, 7);
  }

  lemma ShiftLowBit(a: Block)
    ensures Shifted(a)[15] as int % 2 == 0
  {
    assert Shifted(a)[15] == ShiftedAt(a, 15);
    ShiftByte(a[15], 0);
    Arith.DivMod(2 * (a[15] as int % 128), 2, a[15] as int % 128, 0);
  }

  lemma OddMask(x: byte)
    requires x as int % 2 == 0
    ensures XorByte(x, 0x87) as int % 2 == 1
  {
    LowBit(x, 0x87);
  }

  lemma MaskLowBit(s: Block)
    requires s[15] as int % 2 == 0
    ensures XorSeq(s, RB)[15] as int % 2 == 1
  {
    assert XorSeq(s, RB)[15] == XorByte(s[15], RB[15]);
    OddMask(s[15]);
  }

  /** The lowest bit of a doubled block tells whether the highest bit was set before. */
  lemma DblLowBit(a: Block)
    ensures Dbl(a)[15] as int % 2 == if a[0] >= 128 then 1 else 0
  {
    ShiftLowBit(a);
    if a[0] >= 128 { MaskLowBit(Shifted(a)); }
  }

  /** Doubling loses nothing. */
  lemma DblInjective(a: Block, b: Block)
    requires Dbl(a) == Dbl(b)
    ensures a == b
  {
    DblLowBit(a);
    DblLowBit(b);
    if a[0] >= 128 {
      XorSeqTwice(Shifted(a), RB);
      XorSeqTwice(Shifted(b), RB);
    }
    ShiftInjective(a, b);
  }

  lemma ShiftedBits(a: seq<byte>, b: seq<byte>, i: int)
    requires |a| == |b| && 0 <= i < |a| && ShiftedAt(a, i) == ShiftedAt(b, i)
    ensures a[i] as int % 128 == b[i] as int % 128
    ensures i + 1 < |a| ==> a[i + 1] as int / 128 == b[i + 1] as int / 128
  {
    var c := if i + 1 < |a| then a[i + 1] as int / 128 else 0;
    var d := if i + 1 < |b| then b[i + 1] as int / 128 else 0;
    ShiftByte(a[i], c);
    ShiftByte(b[i], d);
  }

  lemma ShiftByte(x: byte, c: nat)
    requires c <= 1
    ensures (2 * x as int + c) % 256 == 2 * (x as int % 128) + c
  {
  }

  lemma ByteFromBits(x: byte, y: byte)
    requires x as int % 128 == y as int % 128 && (x >= 128 <==> y >= 128)
    ensures x == y
  {
  }

  lemma CarryBit(x: byte, y: byte)
    requires x as int / 128 == y as int / 128
    ensures x >= 128 <==> y >= 128
  {
  }

  lemma ShiftInjective(a: seq<byte>, b: seq<byte>)
    requires |a| == |b| > 0 && Shifted(a) == Shifted(b) && (a[0] >= 128 <==> b[0] >= 128)
    ensures a == b
  {
    hide ShiftedAt;
    forall i | 0 <= i < |a| ensures a[i] == b[i] {
      assert Shifted(a)[i] == Shifted(b)[i];
      ShiftedBits(a, b, i);
      if i > 0 {
        assert Shifted(a)[i - 1] == Shifted(b)[i - 1];
        ShiftedBits(a, b, i - 1);
        CarryBit(a[i], b[i]);
      }
      ByteFromBits(a[i], b[i]);
    }
  }
}
