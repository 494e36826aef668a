/** Sizes and offsets of the lite format. Blocks hold `bs` bytes of text and carry `m` bytes of IV and
    MAC; a block with no text is not stored. */
module LiteSizes {
  import Arith

  const HEADER_SIZE := 16
  const MAC_SIZE := 16

  /** The bytes stored for `length` bytes of text. */
  function UnderlyingSize(length: nat, bs: nat, m: nat): nat
    requires bs > 0
  {
    var residue := length % bs;
    HEADER_SIZE + length / bs * (bs + m) + if residue > 0 then residue + m else 0
  }

  /** The bytes of text in an underlying stream of the given size. */
  function RealSize(underlying: nat, bs: nat, m: nat): nat
    requires bs > 0
  {
    if underlying <= HEADER_SIZE then 0
    else
      var n := underlying - HEADER_SIZE;
      var residue := n % (bs + m);
      WholeAndRest(n / (bs + m), residue, bs, m)
  }

  /** The text in `q` whole blocks and a last one of `r` bytes. */
  function WholeAndRest(q: nat, r: nat, bs: nat, m: nat): nat {
    q * bs + if r > m then r - m else 0
  }

  /** The reported length undoes the stored size. */
  lemma SizeRoundTrip(length: nat, bs: nat, m: nat)
    requires bs > 0
    ensures RealSize(UnderlyingSize(length, bs, m), bs, m) == length
  {
    Arith.DivModExists(length, bs);
    var q, r := length / bs, length % bs;
    var stored := if r > 0 then r + m else 0;
    Arith.DivMod(q * (bs + m) + stored, bs + m, q, stored);
    if q == 0 && r == 0 { assert q * (bs + m) == 0 && q * bs == 0; }
    if q > 0 { Arith.MulStep(q, 0, bs + m); }
  }

  /** Longer streams never report less. */
  lemma RealSizeMonotone(u: nat, v: nat, bs: nat, m: nat)
    requires bs > 0 && u <= v
    ensures RealSize(u, bs, m) <= RealSize(v, bs, m)
  {
    if u > HEADER_SIZE {
      var a, b, d := u - HEADER_SIZE, v - HEADER_SIZE, bs + m;
      QuotientMonotone(a, b, d);
      SumMonotone(a / d, b / d, a % d, b % d, bs, m);
    }
  }

  lemma SumMonotone(q: nat, q': nat, r: nat, r': nat, bs: nat, m: nat)
    requires q < q' || (q == q' && r <= r')
    requires r < bs + m
    ensures WholeAndRest(q, r, bs, m) <= WholeAndRest(q', r', bs, m)
  {
    if q < q' { Arith.MulStep(q', q, bs); }
  }

  lemma QuotientMonotone(a: nat, b: nat, d: nat)
    requires d > 0 && a <= b
    ensures a / d <= b / d
    ensures a / d == b / d ==> a % d <= b % d
  {
    Arith.DivModExists(a, d);
    Arith.DivModExists(b, d);
    if a / d > b / d { Arith.MulStep(a / d, b / d, d); }
  }

  lemma SizeOf(q: nat, r: nat, bs: nat, m: nat)
    requires r < bs
    ensures UnderlyingSize(q * bs + r, bs, m) == HEADER_SIZE + q * (bs + m) + StoredLen(r, m)
  {
    Arith.DivMod(q * bs + r, bs, q, r);
  }

  lemma MinimalOf(q: nat, r: nat, bs: nat, m: nat)
    requires bs > 0 && r < bs + m
    ensures UnderlyingSize(WholeAndRest(q, r, bs, m), bs, m) <= HEADER_SIZE + q * (bs + m) + r
  {
    hide UnderlyingSize;
    SizeOf(q, if r > m then r - m else 0, bs, m);
  }

  /** What the reported length needs is never more than what is there. */
  lemma MinimalSize(u: nat, bs: nat, m: nat)
    requires bs > 0 && u >= HEADER_SIZE
    ensures UnderlyingSize(RealSize(u, bs, m), bs, m) <= u
  {
    if u > HEADER_SIZE {
      var n := u - HEADER_SIZE;
      Arith.DivModExists(n, bs + m);
      MinimalOf(n / (bs + m), n % (bs + m), bs, m);
    } else {
      SizeOf(0, 0, bs, m);
    }
  }

  // --- Blocks -------------------------------------------------------------------------------------

  /** A product, by addition: what is proved of blocks below needs no multiplication. */
  function Times(b: nat, d: nat): nat {
    if d == 0 then 0 else Times(b, d - 1) + b
  }

  lemma {:induction false} TimesIsProduct(b: nat, d: nat)
    ensures Times(b, d) == b * d
  {
    if d > 0 {
      TimesIsProduct(b, d - 1);
      assert b * (d - 1) + b == b * d;
    }
  }

  /** Where block `b` starts in the text, and where it is stored. */
  function Pos(b: nat, bs: nat): nat {
    Times(b, bs)
  }

  function Off(b: nat, bs: nat, m: nat): nat {
    HEADER_SIZE + Times(b, bs + m)
  }

  lemma Products(b: nat, bs: nat, m: nat)
    ensures Pos(b, bs) == b * bs && Off(b, bs, m) == HEADER_SIZE + b * (bs + m)
  {
    TimesIsProduct(b, bs);
    TimesIsProduct(b, bs + m);
  }

  /** The header and the stored forms of all blocks. */
  function StoredSize(length: nat, bs: nat, m: nat): (n: nat)
    requires bs > 0
    ensures n >= HEADER_SIZE
  {
    if length < bs then HEADER_SIZE + StoredLen(length, m) else bs + m + StoredSize(length - bs, bs, m)
  }

  lemma {:induction false} SizeOfBlocks(q: nat, r: nat, length: nat, whole: nat, bs: nat, m: nat)
    requires r < bs && length == q * bs + r && whole == q * (bs + m)
    ensures StoredSize(length, bs, m) == HEADER_SIZE + whole + StoredLen(r, m)
  {
    if q > 0 {
      Arith.MulPred(q, bs);
      Arith.MulPred(q, bs + m);
      SizeOfBlocks(q - 1, r, length - bs, whole - (bs + m), bs, m);
    }
  }

  /** The size formula adds up the blocks. */
  lemma SizeIsSum(length: nat, bs: nat, m: nat)
    requires bs > 0
    ensures StoredSize(length, bs, m) == UnderlyingSize(length, bs, m)
  {
    Arith.DivModExists(length, bs);
    SizeOfBlocks(length / bs, length % bs, length, length / bs * (bs + m), bs, m);
  }

  lemma NextBlock(b: nat, bs: nat, m: nat)
    ensures Pos(b + 1, bs) == Pos(b, bs) + bs && Off(b + 1, bs, m) == Off(b, bs, m) + bs + m
  {
    Products(b, bs, m);
    Products(b + 1, bs, m);
    assert (b + 1) * bs == b * bs + bs;
    assert (b + 1) * (bs + m) == b * (bs + m) + (bs + m);
  }

  lemma EarlierBlock(b: nat, c: nat, bs: nat, m: nat)
    requires b < c
    ensures Pos(b, bs) + bs <= Pos(c, bs) && Off(b, bs, m) + bs + m <= Off(c, bs, m)
  {
    Products(b, bs, m);
    Products(c, bs, m);
    Arith.MulStep(c, b, bs);
    Arith.MulStep(c, b, bs + m);
  }

  function StoredLen(text: nat, m: nat): nat {
    if text == 0 then 0 else text + m
  }

  /** The stored size, seen from any one block. */
  lemma SizeAtBlock(length: nat, b: nat, bs: nat, m: nat)
    requires bs > 0
    ensures SizeSeenFrom(length, StoredSize(length, bs, m), b, bs, m)
  {
    var q, r := length / bs, length % bs;
    Arith.DivModExists(length, bs);
    Products(q, bs, m);
    SizeOfBlocks(q, r, length, q * (bs + m), bs, m);
    SizeSeen(length, StoredSize(length, bs, m), q, r, b, bs, m);
  }

  ghost predicate SizeSeenFrom(length: nat, u: nat, b: nat, bs: nat, m: nat) {
    && (length <= Pos(b, bs) ==> u <= Off(b, bs, m))
    && (Pos(b, bs) < length < Pos(b, bs) + bs ==> u == Off(b, bs, m) + (length - Pos(b, bs)) + m)
    && (Pos(b, bs) + bs <= length ==> Off(b, bs, m) + bs + m <= u)
    && (length == Pos(b, bs) ==> u == Off(b, bs, m))
  }

  lemma SizeSeen(length: nat, u: nat, q: nat, r: nat, b: nat, bs: nat, m: nat)
    requires r < bs && length == Pos(q, bs) + r && u == Off(q, bs, m) + StoredLen(r, m)
    ensures SizeSeenFrom(length, u, b, bs, m)
  {
    if q < b {
      EarlierBlock(q, b, bs, m);
    } else if b < q {
      EarlierBlock(b, q, bs, m);
    }
  }

  /** The size as the end of the last block. */
  lemma SizeFromBlock(length: nat, b: nat, bs: nat, m: nat)
    requires bs > 0 && Pos(b, bs) <= length <= Pos(b, bs) + bs
    ensures StoredSize(length, bs, m) == Off(b, bs, m) + StoredLen(length - Pos(b, bs), m)
  {
    SizeAtBlock(length, b, bs, m);
    if length == Pos(b, bs) + bs {
      NextBlock(b, bs, m);
      SizeAtBlock(length, b + 1, bs, m);
    }
  }
}
