/** The blocks of a lite stream and what they stand for. */
module LiteBlocks {
  import opened Common
  import opened ByteStreams
  import opened LiteSizes
  import Arith

  /** Authenticated encryption under a fixed key: IV, block number and text give ciphertext and tag. */
  datatype Aead = Aead(seal: (Bytes, nat, Bytes) -> (Bytes, Bytes), open: (Bytes, nat, Bytes, Bytes) -> Option<Bytes>)

  /** Opening undoes sealing, and sealing keeps lengths. */
  ghost predicate Ideal(a: Aead) {
    forall iv, n, t {:trigger a.seal(iv, n, t)} ::
      var (cipher, tag) := a.seal(iv, n, t);
      |cipher| == |t| && |tag| == MAC_SIZE && a.open(iv, n, cipher, tag) == Some(t)
  }

  /** Block size, IV size and cipher of a stream. */
  datatype Params = Params(bs: nat, iv: nat, aead: Aead) {
    ghost predicate Ok() {
      bs >= 32 && 12 <= iv <= 32 && Ideal(aead)
    }

    function M(): nat {
      iv + MAC_SIZE
    }

    /** Text as it is stored: IV, ciphertext, tag. */
    function Seal(nonce: Bytes, b: nat, text: Bytes): Bytes {
      var (cipher, tag) := aead.seal(nonce, b, text);
      nonce + cipher + tag
    }

    /** The stored bytes of block `b` and its text. */
    function Slice(stream: Bytes, b: nat): Bytes {
      ReadAt(stream, Off(b, bs, M()), bs + M())
    }

    function Chunk(text: Bytes, b: nat): Bytes {
      ReadAt(text, Pos(b, bs), bs)
    }

    ghost predicate Sealed(raw: Bytes, b: nat, text: Bytes) {
      exists nonce {:trigger Seal(nonce, b, text)} ::
        |nonce| == iv && !AllZero(nonce) && raw == Seal(nonce, b, text)
    }

    /** `raw` is a stored form of the text of block `b`: nothing for no text, zeros for zeros, or a
        sealed form under an IV that is not all zeros. */
    ghost predicate Stands(raw: Bytes, b: nat, text: Bytes) {
      if text == [] then raw == []
      else |raw| == |text| + M() && ((AllZero(raw) && AllZero(text)) || Sealed(raw, b, text))
    }

    ghost predicate StandsAt(stream: Bytes, text: Bytes, b: nat) {
      Stands(Slice(stream, b), b, Chunk(text, b))
    }

    /** The stream stores the text. */
    ghost predicate Rep(stream: Bytes, text: Bytes)
      requires bs > 0
    {
      && |stream| == StoredSize(|text|, bs, M())
      && forall b: nat {:trigger StandsAt(stream, text, b)} :: StandsAt(stream, text, b)
    }

    /** A block may be written if it is full or ends the text, and if no partial block is left in
        front of a gap. */
    predicate Writable(length: nat, b: nat, n: nat)
      requires bs > 0
    {
      && 0 < n <= bs
      && (n == bs || length <= Pos(b, bs) + n)
      && (Pos(b, bs) <= length || length % bs == 0)
    }

    lemma WriteSize(length: nat, b: nat, n: nat)
      requires bs > 0 && Writable(length, b, n)
      ensures var u := StoredSize(length, bs, M());
              var v := if length < Pos(b, bs) + n then Pos(b, bs) + n else length;
              StoredSize(v, bs, M()) == if u < Off(b, bs, M()) + n + M() then Off(b, bs, M()) + n + M() else u
    {
      SizeAtBlock(length, b, bs, M());
      if length <= Pos(b, bs) + n { SizeFromBlock(Pos(b, bs) + n, b, bs, M()); }
    }

    /** Blocks before the written one. */
    lemma WriteBefore(stream: Bytes, text: Bytes, b: nat, raw: Bytes, data: Bytes, j: nat)
      requires bs > 0 && Rep(stream, text) && Writable(|text|, b, |data|) && |raw| == |data| + M() && j < b
      ensures StandsAt(WriteAt(stream, Off(b, bs, M()), raw), WriteAt(text, Pos(b, bs), data), j)
    {
      hide ReadAt, WriteAt, Params.Stands;
      assert StandsAt(stream, text, j);
      EarlierBlock(j, b, bs, M());
      SizeAtBlock(|text|, j, bs, M());
      if Pos(j, bs) + bs <= |text| {
        ReadElsewhere(stream, Off(b, bs, M()), raw, Off(j, bs, M()), bs + M());
        ReadElsewhere(text, Pos(b, bs), data, Pos(j, bs), bs);
      } else {
        WholeBlocks(|text|, j);
        WriteGap(stream, text, b, raw, data, j);
      }
    }

    /** A block skipped by a write reads as zeros. */
    lemma WriteGap(stream: Bytes, text: Bytes, b: nat, raw: Bytes, data: Bytes, j: nat)
      requires |stream| <= Off(j, bs, M()) && Off(j, bs, M()) + bs + M() <= Off(b, bs, M()) && raw != []
      requires |text| <= Pos(j, bs) && Pos(j, bs) + bs <= Pos(b, bs) && data != [] && bs > 0
      ensures StandsAt(WriteAt(stream, Off(b, bs, M()), raw), WriteAt(text, Pos(b, bs), data), j)
    {
      ReadGap(stream, Off(b, bs, M()), raw, Off(j, bs, M()), bs + M());
      ReadGap(text, Pos(b, bs), data, Pos(j, bs), bs);
    }

    lemma WholeBlocks(length: nat, j: nat)
      requires bs > 0 && length % bs == 0 && length < Pos(j, bs) + bs
      ensures length <= Pos(j, bs)
    {
      Arith.DivModExists(length, bs);
      var q := length / bs;
      Products(j, bs, 0);
      if j < q { Arith.MulStep(q, j, bs); }
      Arith.MulMono(j, if q <= j then q else j, bs);
    }

    /** The written block. */
    lemma WriteHere(stream: Bytes, text: Bytes, b: nat, raw: Bytes, data: Bytes)
      requires bs > 0 && Rep(stream, text) && Writable(|text|, b, |data|) && |raw| == |data| + M()
      requires Stands(raw, b, data)
      ensures StandsAt(WriteAt(stream, Off(b, bs, M()), raw), WriteAt(text, Pos(b, bs), data), b)
    {
      SizeAtBlock(|text|, b, bs, M());
      ReadBack(stream, Off(b, bs, M()), raw, bs + M());
      ReadBack(text, Pos(b, bs), data, bs);
    }

    /** Blocks behind the written one. */
    lemma WriteBehind(stream: Bytes, text: Bytes, b: nat, raw: Bytes, data: Bytes, j: nat)
      requires bs > 0 && Rep(stream, text) && Writable(|text|, b, |data|) && |raw| == |data| + M() && b < j
      ensures StandsAt(WriteAt(stream, Off(b, bs, M()), raw), WriteAt(text, Pos(b, bs), data), j)
    {
      hide ReadAt, WriteAt;
      assert StandsAt(stream, text, j);
      EarlierBlock(b, j, bs, M());
      SizeAtBlock(|text|, b, bs, M());
      if |text| <= Pos(b, bs) + |data| {
        ReadBeyond(WriteAt(text, Pos(b, bs), data), Pos(j, bs), bs);
        ReadBeyond(WriteAt(stream, Off(b, bs, M()), raw), Off(j, bs, M()), bs + M());
      } else {
        ReadElsewhere(stream, Off(b, bs, M()), raw, Off(j, bs, M()), bs + M());
        ReadElsewhere(text, Pos(b, bs), data, Pos(j, bs), bs);
      }
    }

    /** Writing one block writes its text and nothing else. */
    lemma WriteRep(stream: Bytes, text: Bytes, b: nat, raw: Bytes, data: Bytes)
      requires bs > 0 && Rep(stream, text) && Writable(|text|, b, |data|) && Stands(raw, b, data)
      ensures Rep(WriteAt(stream, Off(b, bs, M()), raw), WriteAt(text, Pos(b, bs), data))
    {
      WriteSize(|text|, b, |data|);
      var stream', text' := WriteAt(stream, Off(b, bs, M()), raw), WriteAt(text, Pos(b, bs), data);
      forall j: nat ensures StandsAt(stream', text', j) {
        if j < b {
          WriteBefore(stream, text, b, raw, data, j);
        } else if j == b {
          WriteHere(stream, text, b, raw, data);
        } else {
          WriteBehind(stream, text, b, raw, data, j);
        }
      }
    }
  }
}
