/** The base-32 text form of encrypted names. */
module Base32 {
  import opened Common
  import opened Xor
  import Arith

  /** The characters: A to Z without L and O, then 2 to 9. */
  function Upper(g: nat): byte
    requires g < 32
  {
    if g < 11 then 65 + g else if g < 13 then 66 + g else if g < 24 then 67 + g else 26 + g
  }

  // --- Bits ---------------------------------------------------------------------------------------

  /** The five bits from bit `w` of `b` on, running over into `next`. */
  function AlphabetIndex(b: byte, next: byte, w: nat): nat
    requires w < 8
  {
    var x, y := b as int, next as int;
    match w
    case 0 => x / 8 % 32
    case 1 => x / 4 % 32
    case 2 => x / 2 % 32
    case 3 => x % 32
    case 4 => x % 16 * 2 + y / 128
    case 5 => x % 8 * 4 + y / 64
    case 6 => x % 4 * 8 + y / 32
    case 7 => x % 2 * 16 + y / 16
  }

  /** What a group of five bits contributes to the byte it starts in and to the next one. */
  function Spread(group: nat, w: nat): (nat, nat)
    requires w < 8
  {
    match w
    case 0 => (group * 8, 0)
    case 1 => (group * 4, 0)
    case 2 => (group * 2, 0)
    case 3 => (group, 0)
    case 4 => (group / 2, group % 2 * 128)
    case 5 => (group / 4, group % 4 * 64)
    case 6 => (group / 8, group % 8 * 32)
    case 7 => (group / 16, group % 16 * 16)
  }

  /** The weight of the bits below the top `t` bits of a byte. */
  function Below(t: int): (p: nat)
    ensures p > 0
  {
    if t <= 0 then 256 else if t == 1 then 128 else if t == 2 then 64 else if t == 3 then 32
    else if t == 4 then 16 else if t == 5 then 8 else if t == 6 then 4 else if t == 7 then 2 else 1
  }

  /** The byte with only its top `t` bits kept. */
  function KeepTop(b: byte, t: int): byte {
    b as int - b as int % Below(t)
  }

  ghost predicate SpreadsBack(b: byte, next: byte, w: nat)
    requires w < 8
  {
    var group := AlphabetIndex(b, next, w);
    var (first, second) := Spread(group, w);
    && group < 32
    && KeepTop(b, w) as int + first == KeepTop(b, w + 5) as int
    && second == if w > 3 then KeepTop(next, w - 3) as int else 0
  }

  lemma SpreadBack0(b: byte, next: byte)
    ensures SpreadsBack(b, next, 0)
  {
  }

  lemma SpreadBack1(b: byte, next: byte)
    ensures SpreadsBack(b, next, 1)
  {
  }

  lemma SpreadBack2(b: byte, next: byte)
    ensures SpreadsBack(b, next, 2)
  {
  }

  lemma SpreadBack3(b: byte, next: byte)
    ensures SpreadsBack(b, next, 3)
  {
  }

  lemma SpreadBack4(b: byte, next: byte)
    ensures SpreadsBack(b, next, 4)
  {
  }

  lemma SpreadBack5(b: byte, next: byte)
    ensures SpreadsBack(b, next, 5)
  {
  }

  lemma SpreadBack6(b: byte, next: byte)
    ensures SpreadsBack(b, next, 6)
  {
  }

  lemma SpreadBack7(b: byte, next: byte)
    ensures SpreadsBack(b, next, 7)
  {
  }

  /** Spreading the five bits adds exactly them. */
  lemma SpreadBack(b: byte, next: byte, w: nat)
    requires w < 8
    ensures SpreadsBack(b, next, w)
  {
    match w
    case 0 => SpreadBack0(b, next);
    case 1 => SpreadBack1(b, next);
    case 2 => SpreadBack2(b, next);
    case 3 => SpreadBack3(b, next);
    case 4 => SpreadBack4(b, next);
    case 5 => SpreadBack5(b, next);
    case 6 => SpreadBack6(b, next);
    case 7 => SpreadBack7(b, next);
  }

  // --- Or -----------------------------------------------------------------------------------------

  function OrBits(a: nat, b: nat, n: nat): nat {
    if n == 0 then 0 else (if a % 2 == 1 || b % 2 == 1 then 1 else 0) + 2 * OrBits(a / 2, b / 2, n - 1)
  }

  lemma {:induction false} OrBound(a: nat, b: nat, n: nat)
    ensures OrBits(a, b, n) < Pow2(n)
  {
    if n > 0 { OrBound(a / 2, b / 2, n - 1); }
  }

  function OrByte(a: byte, b: byte): byte {
    Pow2Eight();
    OrBound(a, b, 8);
    OrBits(a, b, 8)
  }

  /** Bits in different places add up. */
  lemma {:induction false} OrAdds(a: nat, b: nat, n: nat, m: nat)
    requires m <= n && a < Pow2(n) && a % Pow2(m) == 0 && b < Pow2(m)
    ensures OrBits(a, b, n) == a + b
  {
    if n > 0 {
      if m == 0 {
        OrAdds(a / 2, 0, n - 1, 0);
      } else {
        EvenMultiple(a, Pow2(m - 1));
        OrAdds(a / 2, b / 2, n - 1, m - 1);
      }
    }
  }

  lemma EvenMultiple(a: nat, p: nat)
    requires p > 0 && a % (2 * p) == 0
    ensures a % 2 == 0 && a / 2 % p == 0
  {
    var q := a / (2 * p);
    assert a == 2 * (p * q);
    assert a / 2 == p * q;
    Arith.DivMod(a / 2, p, q, 0);
  }

  // --- Encoding -----------------------------------------------------------------------------------

  function CharCount(n: nat): nat {
    (8 * n + 4) / 5
  }

  function ByteAt(s: Bytes, i: nat): byte {
    if i < |s| then s[i] else 0
  }

  /** The five bits behind character `g`. */
  function Group(s: Bytes, g: nat): nat {
    AlphabetIndex(ByteAt(s, 5 * g / 8), ByteAt(s, 5 * g / 8 + 1), 5 * g % 8)
  }

  lemma GroupBound(s: Bytes, g: nat)
    ensures Group(s, g) < 32
  {
    SpreadBack(ByteAt(s, 5 * g / 8), ByteAt(s, 5 * g / 8 + 1), 5 * g % 8);
  }

  function CharAt(s: Bytes, g: nat): byte {
    GroupBound(s, g);
    Upper(Group(s, g))
  }

  function Encode(s: Bytes): (r: Bytes)
    ensures |r| == CharCount(|s|)
  {
    seq<byte>(CharCount(|s|), g requires 0 <= g < CharCount(|s|) => CharAt(s, g))
  }

  // --- What the characters mean ---------------------------------------------------------------------

  const ALPHABET: string := "ABCDEFGHIJKMNPQRSTUVWXYZ23456789"
  const SMALL_ALPHABET: string := "abcdefghijkmnpqrstuvwxyz23456789"

  lemma UpperIs(g: nat)
    requires g < 32
    ensures |ALPHABET| == 32 && Upper(g) as int == ALPHABET[g] as int
  {
  }

  /** Bit `m` of a byte string, the top bit of the first byte being bit 0; zero behind the end. */
  function StreamBit(s: Bytes, m: nat): nat {
    if m / 8 < |s| then Bit(s[m / 8], 7 - m % 8) else 0
  }

  /** The number that five bits from bit `m` on make. */
  function FiveBits(s: Bytes, m: nat): nat {
    16 * StreamBit(s, m) + 8 * StreamBit(s, m + 1) + 4 * StreamBit(s, m + 2) + 2 * StreamBit(s, m + 3) + StreamBit(s, m + 4)
  }

  lemma BitsOf(x: nat)
    ensures Bit(x, 0) == x % 2 && Bit(x, 1) == x / 2 % 2 && Bit(x, 2) == x / 4 % 2 && Bit(x, 3) == x / 8 % 2
    ensures Bit(x, 4) == x / 16 % 2 && Bit(x, 5) == x / 32 % 2 && Bit(x, 6) == x / 64 % 2 && Bit(x, 7) == x / 128 % 2
  {
    BelowIsPower(0);
    BitIs(x, 0);
    BitIs(x, 1);
    BitIs(x, 2);
    BitIs(x, 3);
    BitIs(x, 4);
    BitIs(x, 5);
    BitIs(x, 6);
    BitIs(x, 7);
    assert Pow2(1) == 2 && Pow2(2) == 4 && Pow2(3) == 8 && Pow2(4) == 16;
    assert Pow2(5) == 32 && Pow2(6) == 64 && Pow2(7) == 128;
  }

  /** Bit `j` of two bytes side by side. */
  function PairBit(b: byte, next: byte, j: nat): nat
    requires j < 16
  {
    if j < 8 then Bit(b, 7 - j) else Bit(next, 15 - j)
  }

  lemma BitDown(x: byte, i: nat)
    requires i < 7
    ensures Bit(x / 2, i) == Bit(x, i + 1) < 2
  {
    BitIs(x, i + 1);
  }

  /** A byte is the sum of its bits. */
  lemma {:induction false} SumOfBits(x: byte)
    ensures x as int == 128 * Bit(x, 7) + 64 * Bit(x, 6) + 32 * Bit(x, 5) + 16 * Bit(x, 4)
                      + 8 * Bit(x, 3) + 4 * Bit(x, 2) + 2 * Bit(x, 1) + Bit(x, 0)
    ensures Bit(x, 7) < 2 && Bit(x, 6) < 2 && Bit(x, 5) < 2 && Bit(x, 4) < 2
    ensures Bit(x, 3) < 2 && Bit(x, 2) < 2 && Bit(x, 1) < 2 && Bit(x, 0) < 2
    decreases x as int
  {
    BitsOf(x);
    if x > 0 {
      var h: byte := x / 2;
      SumOfBits(h);
      BitsOf(h);
      BitDown(x, 0);
      BitDown(x, 1);
      BitDown(x, 2);
      BitDown(x, 3);
      BitDown(x, 4);
      BitDown(x, 5);
      BitDown(x, 6);
      hide Bit;
      assert Bit(h, 7) == 0;
      assert x as int == 2 * h as int + Bit(x, 0);
    }
  }

  /** The high and the low part of a byte, given bit by bit. */
  lemma Parts(x: nat, b7: nat, b6: nat, b5: nat, b4: nat, b3: nat, b2: nat, b1: nat, b0: nat)
    requires b7 < 2 && b6 < 2 && b5 < 2 && b4 < 2 && b3 < 2 && b2 < 2 && b1 < 2 && b0 < 2
    requires x == 128 * b7 + 64 * b6 + 32 * b5 + 16 * b4 + 8 * b3 + 4 * b2 + 2 * b1 + b0
    ensures x / 128 == b7 && x / 64 == 2 * b7 + b6 && x / 32 == 4 * b7 + 2 * b6 + b5
    ensures x / 16 == 8 * b7 + 4 * b6 + 2 * b5 + b4 && x / 8 == 16 * b7 + 8 * b6 + 4 * b5 + 2 * b4 + b3
    ensures x / 4 == 32 * b7 + 16 * b6 + 8 * b5 + 4 * b4 + 2 * b3 + b2
    ensures x / 2 == 64 * b7 + 32 * b6 + 16 * b5 + 8 * b4 + 4 * b3 + 2 * b2 + b1
    ensures x % 32 == 16 * b4 + 8 * b3 + 4 * b2 + 2 * b1 + b0 && x % 16 == 8 * b3 + 4 * b2 + 2 * b1 + b0
    ensures x % 8 == 4 * b2 + 2 * b1 + b0 && x % 4 == 2 * b1 + b0 && x % 2 == b0
  {
    Arith.DivMod(x, 128, b7, 64 * b6 + 32 * b5 + 16 * b4 + 8 * b3 + 4 * b2 + 2 * b1 + b0);
    Arith.DivMod(x, 64, 2 * b7 + b6, 32 * b5 + 16 * b4 + 8 * b3 + 4 * b2 + 2 * b1 + b0);
    Arith.DivMod(x, 32, 4 * b7 + 2 * b6 + b5, 16 * b4 + 8 * b3 + 4 * b2 + 2 * b1 + b0);
    Arith.DivMod(x, 16, 8 * b7 + 4 * b6 + 2 * b5 + b4, 8 * b3 + 4 * b2 + 2 * b1 + b0);
    Arith.DivMod(x, 8, 16 * b7 + 8 * b6 + 4 * b5 + 2 * b4 + b3, 4 * b2 + 2 * b1 + b0);
    Arith.DivMod(x, 4, 32 * b7 + 16 * b6 + 8 * b5 + 4 * b4 + 2 * b3 + b2, 2 * b1 + b0);
    Arith.DivMod(x, 2, 64 * b7 + 32 * b6 + 16 * b5 + 8 * b4 + 4 * b3 + 2 * b2 + b1, b0);
  }

  /** The five bits from bit 1 or 2 on, without the bits above them. */
  lemma Windows(x: nat, b7: nat, b6: nat, b5: nat, b4: nat, b3: nat, b2: nat, b1: nat, b0: nat)
    requires b7 < 2 && b6 < 2 && b5 < 2 && b4 < 2 && b3 < 2 && b2 < 2 && b1 < 2 && b0 < 2
    requires x == 128 * b7 + 64 * b6 + 32 * b5 + 16 * b4 + 8 * b3 + 4 * b2 + 2 * b1 + b0
    ensures x / 8 % 32 == 16 * b7 + 8 * b6 + 4 * b5 + 2 * b4 + b3
    ensures x / 4 % 32 == 16 * b6 + 8 * b5 + 4 * b4 + 2 * b3 + b2
    ensures x / 2 % 32 == 16 * b5 + 8 * b4 + 4 * b3 + 2 * b2 + b1
  {
    Parts(x, b7, b6, b5, b4, b3, b2, b1, b0);
    Arith.DivMod(x / 8, 32, 0, 16 * b7 + 8 * b6 + 4 * b5 + 2 * b4 + b3);
    Arith.DivMod(x / 4, 32, b7, 16 * b6 + 8 * b5 + 4 * b4 + 2 * b3 + b2);
    Arith.DivMod(x / 2, 32, 2 * b7 + b6, 16 * b5 + 8 * b4 + 4 * b3 + 2 * b2 + b1);
  }

  ghost predicate IndexIsBits(b: byte, next: byte, w: nat)
    requires w < 8
  {
    AlphabetIndex(b, next, w)
    == 16 * PairBit(b, next, w) + 8 * PairBit(b, next, w + 1) + 4 * PairBit(b, next, w + 2)
     + 2 * PairBit(b, next, w + 3) + PairBit(b, next, w + 4)
  }

  lemma IndexWithin(b: byte, next: byte, w: nat)
    requires w < 4
    ensures IndexIsBits(b, next, w)
  {
    hide Bit;
    SumOfBits(b);
    Windows(b, Bit(b, 7), Bit(b, 6), Bit(b, 5), Bit(b, 4), Bit(b, 3), Bit(b, 2), Bit(b, 1), Bit(b, 0));
    Parts(b, Bit(b, 7), Bit(b, 6), Bit(b, 5), Bit(b, 4), Bit(b, 3), Bit(b, 2), Bit(b, 1), Bit(b, 0));
  }

  lemma IndexAcross(b: byte, next: byte, w: nat)
    requires 4 <= w < 8
    ensures IndexIsBits(b, next, w)
  {
    hide Bit;
    SumOfBits(b);
    SumOfBits(next);
    hide AlphabetIndex, PairBit;
    Parts(b, Bit(b, 7), Bit(b, 6), Bit(b, 5), Bit(b, 4), Bit(b, 3), Bit(b, 2), Bit(b, 1), Bit(b, 0));
    Parts(next, Bit(next, 7), Bit(next, 6), Bit(next, 5), Bit(next, 4), Bit(next, 3), Bit(next, 2), Bit(next, 1), Bit(next, 0));
    AcrossBytes(b, next);
    PairBits(b, next);
    if w == 4 {} else if w == 5 {} else if w == 6 {}
  }

  lemma AcrossBytes(b: byte, next: byte)
    ensures AlphabetIndex(b, next, 4) == b as int % 16 * 2 + next as int / 128
    ensures AlphabetIndex(b, next, 5) == b as int % 8 * 4 + next as int / 64
    ensures AlphabetIndex(b, next, 6) == b as int % 4 * 8 + next as int / 32
    ensures AlphabetIndex(b, next, 7) == b as int % 2 * 16 + next as int / 16
  {
  }

  lemma PairBits(b: byte, next: byte)
    ensures PairBit(b, next, 4) == Bit(b, 3) && PairBit(b, next, 5) == Bit(b, 2) && PairBit(b, next, 6) == Bit(b, 1)
    ensures PairBit(b, next, 7) == Bit(b, 0) && PairBit(b, next, 8) == Bit(next, 7) && PairBit(b, next, 9) == Bit(next, 6)
    ensures PairBit(b, next, 10) == Bit(next, 5) && PairBit(b, next, 11) == Bit(next, 4)
  {
    hide Bit;
  }

  lemma IndexBits(b: byte, next: byte, w: nat)
    requires w < 8
    ensures IndexIsBits(b, next, w)
  {
    hide IndexIsBits;
    if w < 4 { IndexWithin(b, next, w); } else { IndexAcross(b, next, w); }
  }

  /** Character `g` stands for bits 5g to 5g + 4. */
  lemma GroupIs(s: Bytes, g: nat)
    ensures Group(s, g) == FiveBits(s, 5 * g)
  {
    hide Bit, AlphabetIndex, StreamBit, PairBit, ByteAt;
    var k, w := 5 * g / 8, 5 * g % 8;
    IndexBits(ByteAt(s, k), ByteAt(s, k + 1), w);
    assert 5 * g == 8 * k + w;
    PairInStream(s, k, w);
    PairInStream(s, k, w + 1);
    PairInStream(s, k, w + 2);
    PairInStream(s, k, w + 3);
    PairInStream(s, k, w + 4);
  }

  lemma PairInStream(s: Bytes, k: nat, j: nat)
    requires j < 16
    ensures StreamBit(s, 8 * k + j) == PairBit(ByteAt(s, k), ByteAt(s, k + 1), j)
  {
    BitsOf(0);
    Arith.DivMod(8 * k + j, 8, k + j / 8, j % 8);
  }

  method EncodeLoop(input: Bytes) returns (output: Bytes)
    ensures output == Encode(input)
    ensures |output| == (8 * |input| + 4) / 5
    ensures forall g :: 0 <= g < |output| ==>
              FiveBits(input, 5 * g) < |ALPHABET| && output[g] as int == ALPHABET[FiveBits(input, 5 * g)] as int
  {
    output := [];
    var bitIndex := 0;
    while bitIndex < |input| * 8
      invariant bitIndex == 5 * |output| && |output| <= CharCount(|input|)
      invariant forall g :: 0 <= g < |output| ==> output[g] == CharAt(input, g)
    {
      var byteIndex, within := bitIndex / 8, bitIndex % 8;
      var b := input[byteIndex];
      var next := if byteIndex + 1 < |input| then input[byteIndex + 1] else 0;
      var index := AlphabetIndex(b, next, within);
      GroupBound(input, |output|);
      assert index == Group(input, |output|);
      output := output + [Upper(index)];
      bitIndex := bitIndex + 5;
    }
    forall g | 0 <= g < |output|
      ensures FiveBits(input, 5 * g) < |ALPHABET| && output[g] as int == ALPHABET[FiveBits(input, 5 * g)] as int
    {
      GroupBound(input, g);
      GroupIs(input, g);
      UpperIs(Group(input, g));
    }
  }

  // --- Decoding -----------------------------------------------------------------------------------

  /** The value of a capital letter of the alphabet or a digit. */
  function CapitalDigit(c: byte): Option<nat> {
    if 65 <= c <= 75 then Some(c - 65)
    else if 77 <= c <= 78 then Some(c - 66)
    else if 80 <= c <= 90 then Some(c - 67)
    else if 50 <= c <= 57 then Some(c - 26)
    else None
  }

  /** The value of a character; small letters count like capital ones. A search of a C string for
      NUL finds its end, so NUL counts as 32. */
  function Digit(c: byte): Option<nat> {
    if c == 0 then Some(32)
    else if 97 <= c <= 122 then CapitalDigit(c - 32)
    else CapitalDigit(c)
  }

  /** Ors five bits into the output at character position `i`. */
  function Place(out: Bytes, i: nat, group: nat): (r: Bytes)
    requires 5 * i / 8 < |out|
    ensures |r| == |out|
  {
    var k := 5 * i / 8;
    var (first, second) := Spread(group, 5 * i % 8);
    var o := out[k := OrByte(out[k], first % 256)];
    if k + 1 < |out| then o[k + 1 := OrByte(o[k + 1], second % 256)] else o
  }

  /** The output after `i` characters; `None` once a character is foreign or lies beyond the output. */
  function DecodeUpTo(input: Bytes, i: nat): (r: Option<Bytes>)
    requires i <= |input|
    ensures r.Some? ==> |r.value| == 5 * |input| / 8
  {
    if i == 0 then Some(seq<byte>(5 * |input| / 8, k => 0))
    else
      var before := DecodeUpTo(input, i - 1);
      if before.None? || Digit(input[i - 1]).None? || 5 * (i - 1) / 8 >= |before.value| then None
      else Some(Place(before.value, i - 1, Digit(input[i - 1]).value))
  }

  function Decode(input: Bytes): Option<Bytes> {
    DecodeUpTo(input, |input|)
  }

  lemma DecodeStep(input: Bytes, i: nat, out: Bytes)
    requires i < |input| && DecodeUpTo(input, i) == Some(out)
    ensures DecodeUpTo(input, i + 1) ==
            if Digit(input[i]).None? || 5 * i / 8 >= |out| then None else Some(Place(out, i, Digit(input[i]).value))
  {
  }

  lemma SmallIs(g: nat)
    requires g < 32
    ensures |SMALL_ALPHABET| == 32 && SMALL_ALPHABET[g] as int == if g < 24 then Upper(g) as int + 32 else Upper(g) as int
  {
  }

  /** A character is the value of its place in one of the two alphabets. */
  lemma DigitIs(c: byte, v: nat)
    requires v < 32
    ensures |ALPHABET| == |SMALL_ALPHABET| == 32
    ensures Digit(c) == Some(v) <==> ALPHABET[v] as int == c as int || SMALL_ALPHABET[v] as int == c as int
  {
    UpperIs(v);
    SmallIs(v);
    hide *;
    DigitOf(c, v);
  }

  lemma DigitOf(c: byte, v: nat)
    requires v < 32
    ensures Digit(c) == Some(v) <==> c == Upper(v) || c as int == if v < 24 then Upper(v) as int + 32 else Upper(v) as int
  {
  }

  /** NUL, the end of both alphabets, counts as 32, and no other character has a value above 31. */
  lemma DigitRange(c: byte)
    ensures Digit(c).Some? ==> Digit(c).value <= 32 && (Digit(c).value == 32 <==> c == 0)
    ensures c == 0 ==> Digit(c) == Some(32)
  {
  }

  /** Each bit of an or is set exactly if it is set on either side. */
  lemma {:induction false} OrBit(a: nat, b: nat, n: nat, i: nat)
    requires i < n
    ensures Bit(OrBits(a, b, n), i) == if Bit(a, i) == 1 || Bit(b, i) == 1 then 1 else 0
  {
    LowBit(if a % 2 == 1 || b % 2 == 1 then 1 else 0, OrBits(a / 2, b / 2, n - 1), 0);
    if i > 0 { OrBit(a / 2, b / 2, n - 1, i - 1); }
  }

  method DecodeLoop(input: Bytes) returns (r: Option<Bytes>)
    ensures r == Decode(input)
  {
    var out: Bytes := seq<byte>(5 * |input| / 8, k => 0);
    for i := 0 to |input|
      invariant DecodeUpTo(input, i) == Some(out)
    {
      DecodeStep(input, i, out);
      var digit := Digit(input[i]);
      if digit.None? || 5 * i / 8 >= |out| {
        Stuck(input, i + 1, |input|);
        return None;
      }
      out := Place(out, i, digit.value);
    }
    r := Some(out);
  }

  lemma {:induction false} Stuck(input: Bytes, i: nat, n: nat)
    requires i <= n <= |input| && DecodeUpTo(input, i).None?
    ensures DecodeUpTo(input, n).None?
    decreases n
  {
    if i < n { Stuck(input, i, n - 1); }
  }

  // --- Round trip ---------------------------------------------------------------------------------

  /** The first `m` bits of a byte string, the rest cleared. */
  ghost function Kept(s: Bytes, m: int): (r: Bytes)
    ensures |r| == |s| && forall k :: 0 <= k < |s| ==> r[k] == KeepTop(s[k], m - 8 * k)
  {
    seq<byte>(|s|, k requires 0 <= k < |s| => KeepTop(s[k], m - 8 * k))
  }

  lemma UpperDigits(g: nat)
    requires g < 32
    ensures Digit(Upper(g)) == Some(g)
  {
  }

  lemma OrTop(b: byte, t: int, x: byte)
    requires 0 <= t <= 8 && x as int < Below(t)
    ensures KeepTop(b, t) as int + x as int < 256
    ensures OrByte(KeepTop(b, t), x) as int == KeepTop(b, t) as int + x as int
  {
    Pow2Eight();
    BelowIsPower(t);
    MultipleOfBelow(b, t);
    OrAdds(KeepTop(b, t), x, 8, 8 - t);
  }

  lemma BelowIsPower(t: int)
    requires 0 <= t <= 8
    ensures Below(t) == Pow2(8 - t)
  {
    assert Pow2(0) == 1 && Pow2(1) == 2 && Pow2(2) == 4 && Pow2(3) == 8 && Pow2(4) == 16;
    assert Pow2(5) == 32 && Pow2(6) == 64 && Pow2(7) == 128 && Pow2(8) == 256;
  }

  lemma MultipleOfBelow(b: byte, t: int)
    requires 0 <= t <= 8
    ensures KeepTop(b, t) as int % Below(t) == 0 && KeepTop(b, t) as int + Below(t) <= 256
  {
    var x, p := b as int, Below(t);
    assert x - x % p == x / p * p;
    Arith.DivMod(x / p * p, p, x / p, 0);
    if t == 0 {} else if t == 1 {} else if t == 2 {} else if t == 3 {} else if t == 4 {} else if t == 5 {} else if t == 6 {} else if t == 7 {}
  }

  /** The byte a character starts in gains the character's upper bits. */
  lemma PlaceFirst(b: byte, next: byte, w: nat)
    requires w < 8
    ensures var first := Spread(AlphabetIndex(b, next, w), w).0;
            first < 256 && OrByte(KeepTop(b, w), first) == KeepTop(b, w + 5)
  {
    SpreadBack(b, next, w);
    OrTop(b, w, Spread(AlphabetIndex(b, next, w), w).0);
  }

  /** The byte after it gains the rest. */
  lemma PlaceSecond(b: byte, next: byte, w: nat)
    requires w < 8
    ensures var second := Spread(AlphabetIndex(b, next, w), w).1;
            second < 256 && OrByte(KeepTop(next, 0), second) == KeepTop(next, w - 3)
  {
    SpreadBack(b, next, w);
    SecondIs(next, w, Spread(AlphabetIndex(b, next, w), w).1);
  }

  lemma SecondIs(next: byte, w: nat, second: nat)
    requires w < 8 && second == if w > 3 then KeepTop(next, w - 3) as int else 0
    ensures second < 256 && OrByte(KeepTop(next, 0), second) == KeepTop(next, w - 3)
  {
    OrTop(next, 0, second);
    KeepNone(next, 0);
    if w <= 3 { KeepNone(next, w - 3); }
  }

  lemma BitPosition(i: nat, k: nat, w: nat)
    requires k == 5 * i / 8 && w == 5 * i % 8
    ensures 5 * i - 8 * k == w && 5 * (i + 1) - 8 * k == w + 5 && 5 * (i + 1) - 8 * (k + 1) == w - 3
  {
  }

  lemma KeepAll(b: byte, t: int)
    requires t >= 8
    ensures KeepTop(b, t) == b
  {
    assert b as int % 1 == 0;
  }

  lemma KeepNone(b: byte, t: int)
    requires t <= 0
    ensures KeepTop(b, t) == 0
  {
    assert b as int % 256 == b as int;
  }

  lemma PlaceAt(out: Bytes, i: nat, group: nat, k: nat, j: nat)
    requires k == 5 * i / 8 < |out| && j < |out|
    ensures var (first, second) := Spread(group, 5 * i % 8);
            Place(out, i, group)[j] == if j == k then OrByte(out[j], first % 256)
                                       else if j == k + 1 then OrByte(out[j], second % 256) else out[j]
  {
    hide OrByte, Spread;
  }

  lemma PlaceHere(out: Bytes, i: nat, group: nat, k: nat, first: nat)
    requires k == 5 * i / 8 < |out| && first == Spread(group, 5 * i % 8).0 < 256
    ensures Place(out, i, group)[k] == OrByte(out[k], first)
  {
    hide OrByte, Spread;
  }

  lemma PlaceNext(out: Bytes, i: nat, group: nat, k: nat, second: nat)
    requires k == 5 * i / 8 && k + 1 < |out| && second == Spread(group, 5 * i % 8).1 < 256
    ensures Place(out, i, group)[k + 1] == OrByte(out[k + 1], second)
  {
    hide OrByte, Spread;
  }

  lemma GroupAt(s: Bytes, i: nat, k: nat, w: nat)
    requires k == 5 * i / 8 < |s| && w == 5 * i % 8
    ensures Group(s, i) == AlphabetIndex(s[k], ByteAt(s, k + 1), w)
  {
  }

  lemma PlaceBackHere(s: Bytes, i: nat, k: nat, w: nat)
    requires k == 5 * i / 8 < |s| && w == 5 * i % 8
    ensures Place(Kept(s, 5 * i), i, Group(s, i))[k] == KeepTop(s[k], w + 5)
  {
    BitPosition(i, k, w);
    var out, group, b, next := Kept(s, 5 * i), Group(s, i), s[k], ByteAt(s, k + 1);
    GroupAt(s, i, k, w);
    assert out[k] == KeepTop(b, w);
    FirstOf(out, i, group, k, w, b, next);
  }

  lemma FirstOf(out: Bytes, i: nat, group: nat, k: nat, w: nat, b: byte, next: byte)
    requires k == 5 * i / 8 < |out| && w == 5 * i % 8 && group == AlphabetIndex(b, next, w) && out[k] == KeepTop(b, w)
    ensures Place(out, i, group)[k] == KeepTop(b, w + 5)
  {
    PlaceFirst(b, next, w);
    PlaceHere(out, i, group, k, Spread(group, w).0);
  }

  lemma SecondOf(out: Bytes, i: nat, group: nat, k: nat, w: nat, b: byte, next: byte)
    requires k == 5 * i / 8 && k + 1 < |out| && w == 5 * i % 8 && group == AlphabetIndex(b, next, w)
    requires out[k + 1] == KeepTop(next, 0)
    ensures Place(out, i, group)[k + 1] == KeepTop(next, w - 3)
  {
    PlaceSecond(b, next, w);
    PlaceNext(out, i, group, k, Spread(group, w).1);
  }

  lemma PlaceBackNext(s: Bytes, i: nat, k: nat, w: nat)
    requires k == 5 * i / 8 && k + 1 < |s| && w == 5 * i % 8
    ensures Place(Kept(s, 5 * i), i, Group(s, i))[k + 1] == KeepTop(s[k + 1], w - 3)
  {
    BitPosition(i, k, w);
    var out, group := Kept(s, 5 * i), Group(s, i);
    GroupAt(s, i, k, w);
    KeepNone(s[k + 1], w - 8);
    KeepNone(s[k + 1], 0);
    assert out[k + 1] == KeepTop(s[k + 1], w - 8);
    SecondOf(out, i, group, k, w, s[k], s[k + 1]);
  }

  lemma PlaceBackElsewhere(s: Bytes, i: nat, k: nat, w: nat, j: nat)
    requires k == 5 * i / 8 < |s| && w == 5 * i % 8 && j < |s| && j != k && j != k + 1
    ensures Place(Kept(s, 5 * i), i, Group(s, i))[j] == KeepTop(s[j], 5 * (i + 1) - 8 * j)
  {
    BitPosition(i, k, w);
    PlaceAt(Kept(s, 5 * i), i, Group(s, i), k, j);
    if j < k {
      KeepAll(s[j], 5 * i - 8 * j);
      KeepAll(s[j], 5 * (i + 1) - 8 * j);
    } else {
      KeepNone(s[j], 5 * i - 8 * j);
      KeepNone(s[j], 5 * (i + 1) - 8 * j);
    }
  }

  /** Decoding one more character of an encoded string recovers five more bits. */
  lemma PlaceBackAt(s: Bytes, i: nat, k: nat, w: nat, j: nat)
    requires k == 5 * i / 8 < |s| && w == 5 * i % 8 && j < |s|
    ensures Place(Kept(s, 5 * i), i, Group(s, i))[j] == KeepTop(s[j], 5 * (i + 1) - 8 * j)
  {
    BitPosition(i, k, w);
    if j == k {
      PlaceBackHere(s, i, k, w);
    } else if j == k + 1 {
      PlaceBackNext(s, i, k, w);
    } else {
      PlaceBackElsewhere(s, i, k, w, j);
    }
  }

  lemma PlaceBack(s: Bytes, i: nat)
    requires 5 * i / 8 < |s|
    ensures Place(Kept(s, 5 * i), i, Group(s, i)) == Kept(s, 5 * (i + 1))
  {
    var a, b := Place(Kept(s, 5 * i), i, Group(s, i)), Kept(s, 5 * (i + 1));
    forall j: nat | j < |s| ensures a[j] == b[j] {
      PlaceBackAt(s, i, 5 * i / 8, 5 * i % 8, j);
    }
  }

  lemma DecodedLength(n: nat)
    ensures 5 * CharCount(n) / 8 == n && forall i: nat {:trigger 5 * i} :: i < CharCount(n) ==> 5 * i / 8 < n
  {
  }

  lemma CharDigit(s: Bytes, i: nat)
    requires i < |Encode(s)|
    ensures Digit(Encode(s)[i]) == Some(Group(s, i))
  {
    GroupBound(s, i);
    UpperDigits(Group(s, i));
  }

  lemma DecodeNone(s: Bytes)
    ensures DecodeUpTo(Encode(s), 0) == Some(Kept(s, 0))
  {
    hide Encode, KeepTop;
    DecodedLength(|s|);
    var z := DecodeUpTo(Encode(s), 0).value;
    forall k | 0 <= k < |s| ensures z[k] == Kept(s, 0)[k] {
      KeepNone(s[k], 0 - 8 * k);
    }
    assert z == Kept(s, 0);
  }

  lemma {:induction false} DecodeBack(s: Bytes, i: nat)
    requires i <= CharCount(|s|)
    ensures DecodeUpTo(Encode(s), i) == Some(Kept(s, 5 * i))
  {
    hide DecodeUpTo, Encode, Kept, Place, Digit, Group;
    if i == 0 {
      DecodeNone(s);
    } else {
      DecodedLength(|s|);
      DecodeBack(s, i - 1);
      CharDigit(s, i - 1);
      DecodeStep(Encode(s), i - 1, Kept(s, 5 * (i - 1)));
      PlaceBack(s, i - 1);
    }
  }

  lemma KeptAll(s: Bytes, m: int)
    requires m >= 8 * |s|
    ensures Kept(s, m) == s
  {
    forall k | 0 <= k < |s| ensures Kept(s, m)[k] == s[k] {
      KeepAll(s[k], m - 8 * k);
    }
  }

  /** Decoding gives back every byte string. */
  lemma RoundTrip(s: Bytes)
    ensures Decode(Encode(s)) == Some(s)
  {
    DecodeBack(s, CharCount(|s|));
    KeptAll(s, 5 * CharCount(|s|));
  }

  /** The text form has no slash, and is empty only for the empty string. */
  lemma PlainText(s: Bytes)
    ensures s != [] ==> Encode(s) != []
    ensures forall i :: 0 <= i < |Encode(s)| ==> Encode(s)[i] != 0x2F
  {
    forall i | 0 <= i < |Encode(s)| ensures Encode(s)[i] != 0x2F {
      GroupBound(s, i);
    }
  }
}
