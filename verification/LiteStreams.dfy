/** The encrypted stream of the lite format: block operations, and reading, writing and resizing at
    byte granularity on top of them. */
module LiteStreams {
  import opened Common
  import opened ByteStreams
  import opened LiteSizes
  import opened LiteBlocks
  import Arith

  const MAX_BLOCKS := 0x7FFF_FFFF

  datatype Error = StreamTooLong | VerificationFailed | InvalidArgument

  class LiteStream {
    const p: Params
    /** Whether the underlying stream extends with zeros in constant time. */
    const sparse: bool
    /** Random byte strings in the order in which they are drawn, and how many have been. */
    const random: nat -> Bytes
    var drawn: nat
    /** The draws that blocks were sealed under, in order. */
    ghost var used: seq<nat>
    /** The underlying stream, and the text it stores behind its header. */
    var stream: Bytes
    ghost const header: Bytes
    ghost var text: Bytes

    ghost predicate Valid()
      reads this
    {
      p.Ok() && RandomOk(random, p.iv) && DrawsOk(used, drawn) && HeaderIs(stream, header) && p.Rep(stream, text)
    }

    /** A stream that stores `text`. */
    constructor (p: Params, sparse: bool, random: nat -> Bytes, stream: Bytes, ghost text: Bytes)
      requires p.Ok() && RandomOk(random, p.iv) && |stream| >= HEADER_SIZE && p.Rep(stream, text)
      ensures Valid() && this.text == text && this.stream == stream && header == stream[..HEADER_SIZE]
      ensures this.p == p && this.sparse == sparse && this.random == random && drawn == 0 && used == []
    {
      this.p, this.sparse, this.random, this.stream := p, sparse, random, stream;
      drawn := 0;
      used := [];
      header := stream[..HEADER_SIZE];
      this.text := text;
    }

    /** Opens an underlying stream. An empty one gets a random header; `keyed` is the cipher under the
        session key that belongs to a header. */
    static method Open(bs: nat, iv: nat, sparse: bool, random: nat -> Bytes, keyed: Bytes -> Aead,
                       newHeader: Bytes, stream: Bytes, ghost text: Bytes)
      returns (r: Result<LiteStream, Error>)
      requires |newHeader| == HEADER_SIZE && RandomOk(random, iv) && forall h {:trigger keyed(h)} :: Ideal(keyed(h))
      requires bs > 0 && |stream| >= HEADER_SIZE ==> Params(bs, iv, keyed(stream[..HEADER_SIZE])).Rep(stream, text)
      ensures r.Err? <==> iv < 12 || iv > 32 || bs < 32 || 0 < |stream| < HEADER_SIZE
      ensures r.Ok? ==> fresh(r.value) && r.value.Valid()
      ensures r.Ok? ==> r.value.text == (if stream == [] then [] else text)
      ensures r.Ok? ==> r.value.stream == (if stream == [] then newHeader else stream)
      ensures r.Ok? ==> r.value.p == Params(bs, iv, keyed(r.value.stream[..HEADER_SIZE]))
      ensures r.Ok? ==> r.value.sparse == sparse && r.value.random == random && r.value.drawn == 0 && r.value.used == []
    {
      if iv < 12 || iv > 32 || bs < 32 {
        return Err(InvalidArgument);
      }
      var header := ReadAt(stream, 0, HEADER_SIZE);
      var s: LiteStream;
      if |header| == 0 {
        var p := Params(bs, iv, keyed(newHeader));
        EmptyRep(p, newHeader);
        assert newHeader[..HEADER_SIZE] == newHeader;
        s := new LiteStream(p, sparse, random, newHeader, []);
      } else if |header| != HEADER_SIZE {
        return Err(InvalidArgument);
      } else {
        assert header == stream[..HEADER_SIZE];
        s := new LiteStream(Params(bs, iv, keyed(header)), sparse, random, stream, text);
      }
      r := Ok(s);
    }

    // --- Blocks -----------------------------------------------------------------------------

    method ReadBlock(b: nat) returns (r: Result<Bytes, Error>)
      requires Valid()
      ensures r == if b > MAX_BLOCKS then Err(StreamTooLong) else Ok(p.Chunk(text, b))
    {
      if b > MAX_BLOCKS {
        return Err(StreamTooLong);
      }
      assert p.StandsAt(stream, text, b);
      r := OpenStored(p.Slice(stream, b), b, p.Chunk(text, b));
    }

    /** The text behind the stored bytes of a block. */
    method OpenStored(raw: Bytes, b: nat, ghost t: Bytes) returns (r: Result<Bytes, Error>)
      requires p.Ok() && p.Stands(raw, b, t)
      ensures r == Ok(t)
    {
      if |raw| <= p.M() {
        return Ok([]);
      }
      var size := |raw| - p.M();
      if AllZero(raw) {
        ZeroBlock(p, raw, b, t);
        assert Zeros(size) == t;
        return Ok(Zeros(size));
      }
      OpenBlock(p, raw, b, t);
      var plain := p.aead.open(raw[..p.iv], b, raw[p.iv..p.iv + size], raw[p.iv + size..]);
      if plain.None? {
        return Err(VerificationFailed);
      }
      r := Ok(plain.value);
    }

    /** Draws random bytes until they are not all zeros. */
    method DrawIv() returns (nonce: Bytes)
      requires RandomOk(random, p.iv)
      modifies this`drawn
      ensures |nonce| == p.iv && !AllZero(nonce)
      ensures old(drawn) < drawn && nonce == random(drawn - 1)
      ensures forall i :: old(drawn) <= i < drawn - 1 ==> AllZero(random(i))
    {
      ghost var last := NextNonzero(random, p.iv, drawn);
      nonce := random(drawn);
      drawn := drawn + 1;
      while AllZero(nonce)
        invariant old(drawn) < drawn <= last + 1 && nonce == random(drawn - 1)
        invariant forall i :: old(drawn) <= i < drawn - 1 ==> AllZero(random(i))
        decreases last - drawn
      {
        nonce := random(drawn);
        drawn := drawn + 1;
      }
    }

    /** Stores text as block `b`: zeros as they are, anything else sealed under a fresh IV. */
    method StoreBlock(b: nat, input: Bytes) returns (r: Result<(), Error>, ghost raw: Bytes)
      requires p.Ok() && RandomOk(random, p.iv) && DrawsOk(used, drawn) && |input| <= p.bs
      modifies this`stream, this`drawn, this`used
      ensures DrawsOk(used, drawn)
      ensures r == if b > MAX_BLOCKS then Err(StreamTooLong) else Ok(())
      ensures r.Ok? ==> |raw| == |input| + p.M() && stream == WriteAt(old(stream), Off(b, p.bs, p.M()), raw)
      ensures r.Ok? ==> StoredAs(p, random, b, input, raw, old(drawn), drawn)
      ensures r.Ok? ==> used == if AllZero(input) then old(used) else old(used) + [drawn - 1]
      ensures r.Ok? && input != [] ==> p.Stands(raw, b, input)
      ensures r.Err? ==> stream == old(stream) && drawn == old(drawn) && used == old(used)
    {
      hide Params.Stands, StoredAs, WriteAt;
      raw := [];
      if b > MAX_BLOCKS {
        return Err(StreamTooLong), raw;
      }
      var buffer;
      if AllZero(input) {
        buffer := Zeros(|input| + p.M());
        ZerosStored(p, random, b, input, drawn);
        if input != [] { ZerosStand(p, b, input); }
      } else {
        var nonce := DrawIv();
        buffer := p.Seal(nonce, b, input);
        SealStands(p, nonce, b, input);
        SealStored(p, random, b, input, old(drawn), drawn);
        used := used + [drawn - 1];
      }
      stream := WriteAt(stream, Off(b, p.bs, p.M()), buffer);
      r, raw := Ok(()), buffer;
    }

    method WriteBlock(b: nat, input: Bytes) returns (r: Result<(), Error>, ghost raw: Bytes)
      requires Valid() && p.Writable(|text|, b, |input|)
      modifies this`stream, this`drawn, this`used, this`text
      ensures Valid() && Drew(old(drawn), old(used), drawn, used)
      ensures r == if b > MAX_BLOCKS then Err(StreamTooLong) else Ok(())
      ensures text == if b > MAX_BLOCKS then old(text) else WriteAt(old(text), Pos(b, p.bs), input)
      ensures r.Ok? ==> stream == WriteAt(old(stream), Off(b, p.bs, p.M()), raw)
      ensures r.Ok? ==> StoredAs(p, random, b, input, raw, old(drawn), drawn)
      ensures r.Ok? ==> used == if AllZero(input) then old(used) else old(used) + [drawn - 1]
    {
      hide StoredAs, Params.Rep, Params.Stands, WriteAt, DrawsOk;
      r, raw := StoreBlock(b, input);
      if r.Ok? {
        DrewOne(p, random, b, input, raw, old(drawn), old(used), drawn, used);
        p.WriteRep(old(stream), text, b, raw, input);
        HeaderWritten(old(stream), header, Off(b, p.bs, p.M()), raw);
        text := WriteAt(text, Pos(b, p.bs), input);
      }
    }

    method AdjustLogicalSize(length: nat)
      modifies this`stream
      requires p.bs > 0
      ensures stream == ResizeTo(old(stream), StoredSize(length, p.bs, p.M()))
    {
      SizeIsSum(length, p.bs, p.M());
      var newBlocks, residue := length / p.bs, length % p.bs;
      stream := ResizeTo(stream, HEADER_SIZE + newBlocks * (p.bs + p.M()) + if residue > 0 then residue + p.iv + MAC_SIZE else 0);
    }

    method Size() returns (n: nat)
      requires Valid()
      ensures n == |text|
    {
      SizeIsSum(|text|, p.bs, p.M());
      SizeRoundTrip(|text|, p.bs, p.M());
      n := RealSize(|stream|, p.bs, p.M());
    }

    // --- Bytes ------------------------------------------------------------------------------

    /** The end of the last block that can be addressed. */
    function Limit(): nat {
      Pos(MAX_BLOCKS + 1, p.bs)
    }

    /** Reads bytes `begin` to `end` of a block. */
    method ReadPart(b: nat, begin: nat, end: nat) returns (r: Result<Bytes, Error>)
      requires Valid() && begin <= p.bs && end <= p.bs
      ensures r == if begin < end && b > MAX_BLOCKS then Err(StreamTooLong)
                   else Ok(ReadAt(text, Pos(b, p.bs) + begin, if begin < end then end - begin else 0))
    {
      if begin == 0 && end == p.bs {
        r := ReadBlock(b);
        return;
      }
      if begin >= end {
        return Ok([]);
      }
      var whole := ReadBlock(b);
      if whole.Err? {
        return whole;
      }
      PartOfChunk(p, text, b, begin, end);
      if |whole.value| <= begin {
        return Ok([]);
      }
      r := Ok(whole.value[begin..Min(end, |whole.value|)]);
    }

    /** Reads up to the end of the block that `off` lies in. */
    method ReadSome(off: nat, len: nat) returns (r: Result<Bytes, Error>, n: nat)
      requires Valid() && len > 0
      ensures r == if off >= Limit() then Err(StreamTooLong) else Ok(ReadAt(text, off, n))
      ensures 0 < n <= len && (off < Limit() ==> off + n <= Limit())
    {
      var b, begin := off / p.bs, off % p.bs;
      BlockAt(off, p.bs);
      var end := Min(p.bs, begin + len);
      r := ReadPart(b, begin, end);
      n := end - begin;
    }

    /** A read reaches a block that cannot be addressed. */
    ghost predicate ReadsBeyond(offset: nat, length: nat)
      reads this
    {
      length > 0 && (offset >= Limit() || (offset + length > Limit() && |text| >= Limit()))
    }

    /** Reads across blocks until the range or the stream ends. */
    method Read(offset: nat, length: nat) returns (r: Result<Bytes, Error>)
      requires Valid()
      ensures r == if ReadsBeyond(offset, length) then Err(StreamTooLong) else Ok(ReadAt(text, offset, length))
    {
      hide ReadAt, ReadSoFar;
      var total := [];
      ghost var all := ReadAt(text, offset, length);
      ReadStart(text, offset, length);
      var off: nat, len: nat := offset, length;
      while len > 0
        invariant off + len == offset + length && (off == offset || off <= Min(|text|, Limit()))
        invariant ReadSoFar(text, all, total, off, len)
        decreases len
      {
        var part, n := ReadSome(off, len);
        if part.Err? {
          return part;
        }
        ReadStep(text, all, total, off, len, part.value, n);
        total := total + part.value;
        if |part.value| < n {
          return Ok(total);
        }
        off, len := off + n, len - n;
      }
      ReadDone(text, all, total, off);
      r := Ok(total);
    }

    /** Overwrites part of a block from `begin` on, keeping the rest of it. */
    method ReadThenWrite(b: nat, input: Bytes, begin: nat) returns (r: Result<(), Error>)
      requires Valid() && begin + |input| <= p.bs && Pos(b, p.bs) + begin <= |text|
      modifies this`stream, this`drawn, this`used, this`text
      ensures Drew(old(drawn), old(used), drawn, used)
      ensures Valid()
      ensures r == if input != [] && b > MAX_BLOCKS then Err(StreamTooLong) else Ok(())
      ensures text == if r.Ok? then WriteAt(old(text), Pos(b, p.bs) + begin, input) else old(text)
    {
      hide WriteAt, ReadAt, Params.Rep, StoredAs, Drew;
      DrewNone(drawn, used);
      var end := begin + |input|;
      if begin == 0 && end == p.bs {
        ghost var raw;
        r, raw := WriteBlock(b, input);
        return;
      }
      if begin >= end {
        WriteNothing(text, Pos(b, p.bs) + begin);
        return Ok(());
      }
      var whole := ReadBlock(b);
      if whole.Err? {
        return Err(whole.error);
      }
      PatchWritable(p, text, b, begin, input);
      ghost var raw;
      r, raw := WriteBlock(b, WriteAt(whole.value, begin, input));
      PatchBlock(p, old(text), b, begin, input);
    }

    /** Writes up to the end of the block that `off` lies in. */
    method WriteSome(input: Bytes, off: nat) returns (r: Result<(), Error>, n: nat)
      requires Valid() && off <= |text| && input != []
      modifies this`stream, this`drawn, this`used, this`text
      ensures Drew(old(drawn), old(used), drawn, used)
      ensures Valid() && 0 < n <= |input| && (off < Limit() ==> off + n <= Limit())
      ensures r == if off >= Limit() then Err(StreamTooLong) else Ok(())
      ensures text == if r.Ok? then WriteAt(old(text), off, input[..n]) else old(text)
    {
      var b, begin := off / p.bs, off % p.bs;
      BlockAt(off, p.bs);
      n := Min(p.bs - begin, |input|);
      r := ReadThenWrite(b, input[..n], begin);
    }

    /** How many of `length` bytes from `offset` on lie in blocks that can be addressed. */
    function Fitting(offset: nat, length: nat): nat {
      if offset + length <= Limit() then length else if offset < Limit() then Limit() - offset else 0
    }

    /** Writes block by block within or right behind the text, as far as blocks can be addressed. */
    method UncheckedWrite(input: Bytes, offset: nat) returns (r: Result<(), Error>)
      requires Valid() && offset <= |text|
      modifies this`stream, this`drawn, this`used, this`text
      ensures Drew(old(drawn), old(used), drawn, used)
      ensures Valid()
      ensures r == if Fitting(offset, |input|) < |input| then Err(StreamTooLong) else Ok(())
      ensures text == WriteAt(old(text), offset, input[..Fitting(offset, |input|)])
    {
      hide WriteAt, Drew;
      DrewNone(drawn, used);
      var done := 0;
      WriteStart(text, offset, input);
      while done < |input|
        invariant Valid() && done <= |input| && offset + done <= |text| && Drew(old(drawn), old(used), drawn, used)
        invariant done == 0 || offset + done <= Limit()
        invariant text == WriteAt(old(text), offset, input[..done])
        decreases |input| - done
      {
        ghost var d1, u1 := drawn, used;
        var part, n := WriteSome(input[done..], offset + done);
        DrewMore(old(drawn), old(used), d1, u1, drawn, used);
        if part.Err? {
          return part;
        }
        WriteStep(old(text), offset, input, done, n);
        done := done + n;
      }
      r := Ok(());
    }

    /** Where zeros written up to `finish` end. */
    function Reach(offset: nat, finish: nat): nat {
      if finish <= Limit() then finish else if offset < Limit() then Limit() else offset
    }

    /** Writes zeros from the end of the text on, as far as blocks can be addressed. */
    method ZeroFill(offset: nat, finish: nat) returns (r: Result<(), Error>)
      requires Valid() && offset == |text| <= finish
      modifies this`stream, this`drawn, this`used, this`text
      ensures Drew(old(drawn), old(used), drawn, used)
      ensures Valid()
      ensures r == if offset < finish && finish > Limit() then Err(StreamTooLong) else Ok(())
      ensures text == ResizeTo(old(text), if offset < finish then Reach(offset, finish) else finish)
    {
      hide Drew;
      DrewNone(drawn, used);
      var off := offset;
      while off < finish
        invariant Drew(old(drawn), old(used), drawn, used)
        invariant Valid() && offset <= off <= finish && text == ResizeTo(old(text), off)
        invariant off == offset || off <= Limit()
        decreases finish - off
      {
        var n;
        ghost var d1, u1 := drawn, used;
        r, n := ZeroSome(off, finish);
        DrewMore(old(drawn), old(used), d1, u1, drawn, used);
        if r.Err? {
          return;
        }
        ResizeTwice(old(text), off, off + n);
        off := off + n;
      }
      r := Ok(());
    }

    /** Writes zeros up to the end of the block that `off` lies in. */
    method ZeroSome(off: nat, finish: nat) returns (r: Result<(), Error>, n: nat)
      requires Valid() && off == |text| < finish
      modifies this`stream, this`drawn, this`used, this`text
      ensures Drew(old(drawn), old(used), drawn, used)
      ensures Valid() && 0 < n <= finish - off && (off < Limit() ==> off + n <= Limit())
      ensures r == if off >= Limit() then Err(StreamTooLong) else Ok(())
      ensures text == if r.Ok? then ResizeTo(old(text), off + n) else old(text)
    {
      var b, begin := off / p.bs, off % p.bs;
      BlockAt(off, p.bs);
      n := Min(p.bs - begin, finish - off);
      r := ReadThenWrite(b, Zeros(n), begin);
      AppendZeros(old(text), n);
    }

    /** Resizing would have to write to a block that cannot be addressed. */
    predicate CannotResize(current: nat, n: nat)
      requires p.bs > 0
    {
      if n < current then n % p.bs > 0 && n >= Limit()
      else if sparse && current / p.bs != n / p.bs then current >= Limit()
      else current < n && n > Limit()
    }

    /** Cuts the text, storing what remains of its last block anew. */
    method Shrink(n: nat) returns (r: Result<(), Error>)
      requires Valid() && n < |text|
      modifies this`stream, this`drawn, this`used, this`text
      ensures Drew(old(drawn), old(used), drawn, used)
      ensures Valid()
      ensures r == if CannotResize(|old(text)|, n) then Err(StreamTooLong) else Ok(())
      ensures text == if r.Ok? then old(text)[..n] else old(text)
    {
      hide StoredAs, Drew, Params.Rep, Params.Stands, WriteAt, ResizeTo, DrawsOk;
      DrewNone(drawn, used);
      var b, residue := n / p.bs, n % p.bs;
      BlockAt(n, p.bs);
      ghost var raw := [];
      if residue > 0 {
        var whole := ReadBlock(b);
        if whole.Err? {
          return Err(whole.error);
        }
        ChunkPrefix(p, text, b, n);
        r, raw := StoreBlock(b, whole.value[..residue]);
        DrewOne(p, random, b, whole.value[..residue], raw, old(drawn), old(used), drawn, used);
      }
      ShrinkRep(p, old(stream), text, b, raw, n);
      AdjustLogicalSize(n);
      ShrinkHeader(p, old(stream), header, b, raw, n);
      text := text[..n];
      r := Ok(());
    }

    /** Extends the text with zeros: by writing them, or just up to the end of the block. */
    method Grow(n: nat) returns (r: Result<(), Error>)
      requires Valid() && |text| < n
      modifies this`stream, this`drawn, this`used, this`text
      ensures Drew(old(drawn), old(used), drawn, used)
      ensures Valid()
      ensures r == if CannotResize(|old(text)|, n) then Err(StreamTooLong) else Ok(())
      ensures text == ResizeTo(old(text), if r.Ok? then n else Reach(|old(text)|, n))
    {
      var current := Size();
      var oldBlock, newBlock := current / p.bs, n / p.bs;
      var finish := n;
      if sparse && oldBlock != newBlock {
        finish := oldBlock * p.bs + p.bs;
      }
      GrowsTo(current, n, sparse, p.bs);
      r := ZeroFill(current, finish);
      if r.Err? {
        return;
      }
      GrowRep(p, stream, text, n);
      HeaderResized(stream, header, StoredSize(n, p.bs, p.M()));
      AdjustLogicalSize(n);
      ResizeTwice(old(text), |text|, n);
      text := ResizeTo(text, n);
    }

    /** Cuts the text or extends it with zeros, as far as blocks can be addressed. */
    method Resize(n: nat) returns (r: Result<(), Error>)
      requires Valid()
      modifies this`stream, this`drawn, this`used, this`text
      ensures Drew(old(drawn), old(used), drawn, used)
      ensures Valid()
      ensures r == if CannotResize(|old(text)|, n) then Err(StreamTooLong) else Ok(())
      ensures r.Ok? ==> text == ResizeTo(old(text), n)
      ensures r.Err? ==> text == ResizeTo(old(text), if n < |old(text)| then |old(text)| else Reach(|old(text)|, n))
    {
      hide Drew;
      DrewNone(drawn, used);
      var current := Size();
      r := Ok(());
      if n < current {
        r := Shrink(n);
      } else if n > current {
        r := Grow(n);
      }
    }

    /** Writes anywhere; a gap behind the text fills with zeros. */
    method Write(input: Bytes, offset: nat) returns (r: Result<(), Error>)
      requires Valid()
      modifies this`stream, this`drawn, this`used, this`text
      ensures Drew(old(drawn), old(used), drawn, used)
      ensures Valid()
      ensures r == if (offset > |old(text)| && CannotResize(|old(text)|, offset)) || Fitting(offset, |input|) < |input|
                   then Err(StreamTooLong) else Ok(())
      ensures r.Ok? ==> text == WriteAt(old(text), offset, input)
      ensures r.Err? ==> text == if offset > |old(text)| && CannotResize(|old(text)|, offset)
                                 then ResizeTo(old(text), Reach(|old(text)|, offset))
                                 else WriteAt(old(text), offset, input[..Fitting(offset, |input|)])
    {
      hide Drew, WriteAt, ResizeTo, Params.Rep;
      DrewNone(drawn, used);
      var current := Size();
      if offset > current {
        r := Resize(offset);
        if r.Err? {
          return;
        }
      }
      WriteBehindGap(old(text), text, offset, input[..Fitting(offset, |input|)]);
      ghost var d1, u1 := drawn, used;
      r := UncheckedWrite(input, offset);
      assert input[..|input|] == input;
      DrewMore(old(drawn), old(used), d1, u1, drawn, used);
    }
  }

  // --- Random bytes and headers -------------------------------------------------------------------

  /** Strings of `n` random bytes, of which there is always another one that is not all zeros. */
  ghost predicate RandomOk(random: nat -> Bytes, n: nat) {
    && (forall i {:trigger random(i)} :: |random(i)| == n)
    && (forall i: nat {:trigger Later(random, i)} :: Later(random, i))
  }

  ghost predicate Later(random: nat -> Bytes, i: nat) {
    exists k: nat {:trigger random(k)} :: i <= k && !AllZero(random(k))
  }

  lemma NextNonzero(random: nat -> Bytes, n: nat, i: nat) returns (k: nat)
    requires RandomOk(random, n)
    ensures i <= k && !AllZero(random(k))
  {
    assert Later(random, i);
    k :| i <= k && !AllZero(random(k));
  }

  /** The draws used were all made, and no draw was used twice. */
  ghost predicate DrawsOk(used: seq<nat>, drawn: nat) {
    && (forall i :: 0 <= i < |used| ==> used[i] < drawn)
    && (forall i, j :: 0 <= i < j < |used| ==> used[i] < used[j])
  }

  /** Further draws were made and used. */
  ghost predicate Drew(drawn: nat, used: seq<nat>, drawn': nat, used': seq<nat>) {
    drawn <= drawn' && used <= used'
  }

  lemma DrewNone(drawn: nat, used: seq<nat>)
    ensures Drew(drawn, used, drawn, used)
  {
  }

  lemma DrewMore(d: nat, u: seq<nat>, d1: nat, u1: seq<nat>, d2: nat, u2: seq<nat>)
    requires Drew(d, u, d1, u1) && Drew(d1, u1, d2, u2)
    ensures Drew(d, u, d2, u2)
  {
  }

  lemma DrewOne(p: Params, random: nat -> Bytes, b: nat, input: Bytes, raw: Bytes, d: nat, u: seq<nat>, d': nat, u': seq<nat>)
    requires StoredAs(p, random, b, input, raw, d, d') && u' == (if AllZero(input) then u else u + [d' - 1])
    ensures Drew(d, u, d', u')
  {
  }

  /** What is stored for a block: zeros for zeros, without a draw; otherwise the first string drawn that is
      not all zeros, the ciphertext under it as IV, and the tag. */
  ghost predicate StoredAs(p: Params, random: nat -> Bytes, b: nat, input: Bytes, raw: Bytes, drawn: nat, drawn': nat) {
    if AllZero(input) then raw == Zeros(|input| + p.iv + 16) && drawn' == drawn
    else
      && drawn < drawn' && !AllZero(random(drawn' - 1))
      && (forall i :: drawn <= i < drawn' - 1 ==> AllZero(random(i)))
      && var nonce := random(drawn' - 1);
         var (cipher, tag) := p.aead.seal(nonce, b, input);
         && |raw| == |nonce| + |cipher| + |tag| && raw[..|nonce|] == nonce
         && raw[|nonce|..|nonce| + |cipher|] == cipher && raw[|nonce| + |cipher|..] == tag
  }

  lemma ZerosStored(p: Params, random: nat -> Bytes, b: nat, input: Bytes, drawn: nat)
    requires AllZero(input)
    ensures StoredAs(p, random, b, input, Zeros(|input| + p.M()), drawn, drawn)
  {
  }

  lemma SealStored(p: Params, random: nat -> Bytes, b: nat, input: Bytes, drawn: nat, drawn': nat)
    requires p.Ok() && !AllZero(input) && drawn < drawn' && |random(drawn' - 1)| == p.iv && !AllZero(random(drawn' - 1))
    requires forall i :: drawn <= i < drawn' - 1 ==> AllZero(random(i))
    ensures |p.Seal(random(drawn' - 1), b, input)| == |input| + p.M()
    ensures StoredAs(p, random, b, input, p.Seal(random(drawn' - 1), b, input), drawn, drawn')
  {
    var nonce := random(drawn' - 1);
    var (cipher, tag) := p.aead.seal(nonce, b, input);
    var raw := p.Seal(nonce, b, input);
    assert raw == nonce + cipher + tag;
    assert raw[..|nonce|] == nonce && raw[|nonce|..|nonce| + |cipher|] == cipher && raw[|nonce| + |cipher|..] == tag;
  }

  lemma ZerosStand(p: Params, b: nat, text: Bytes)
    requires text != [] && AllZero(text)
    ensures p.Stands(Zeros(|text| + p.M()), b, text)
  {
  }

  ghost predicate HeaderIs(stream: Bytes, header: Bytes) {
    |stream| >= HEADER_SIZE && stream[..HEADER_SIZE] == header
  }

  /** Blocks are stored behind the header. */
  lemma HeaderWritten(stream: Bytes, header: Bytes, off: nat, raw: Bytes)
    requires HeaderIs(stream, header) && off >= HEADER_SIZE
    ensures HeaderIs(WriteAt(stream, off, raw), header)
  {
  }

  lemma HeaderResized(stream: Bytes, header: Bytes, n: nat)
    requires HeaderIs(stream, header) && n >= HEADER_SIZE
    ensures HeaderIs(ResizeTo(stream, n), header)
  {
  }

  lemma ShrinkHeader(p: Params, stream: Bytes, header: Bytes, b: nat, raw: Bytes, n: nat)
    requires HeaderIs(stream, header) && p.bs > 0
    ensures var s := if n % p.bs > 0 then WriteAt(stream, Off(b, p.bs, p.M()), raw) else stream;
            HeaderIs(ResizeTo(s, StoredSize(n, p.bs, p.M())), header)
  {
    HeaderWritten(stream, header, Off(b, p.bs, p.M()), raw);
    var s := if n % p.bs > 0 then WriteAt(stream, Off(b, p.bs, p.M()), raw) else stream;
    HeaderResized(s, header, StoredSize(n, p.bs, p.M()));
  }

  lemma EmptyRep(p: Params, header: Bytes)
    requires p.Ok() && |header| == HEADER_SIZE
    ensures p.Rep(header, [])
  {
    SizeAtBlock(0, 0, p.bs, p.M());
    forall b: nat ensures p.StandsAt(header, [], b) {
      if b > 0 { EarlierBlock(0, b, p.bs, p.M()); }
      ReadBeyond(header, Off(b, p.bs, p.M()), p.bs + p.M());
      ReadBeyond([], Pos(b, p.bs), p.bs);
    }
  }

  lemma SealStands(p: Params, nonce: Bytes, b: nat, text: Bytes)
    requires p.Ok() && |nonce| == p.iv && !AllZero(nonce) && text != []
    ensures p.Stands(p.Seal(nonce, b, text), b, text)
  {
    var (cipher, tag) := p.aead.seal(nonce, b, text);
  }

  lemma SealedNotZero(p: Params, nonce: Bytes, b: nat, text: Bytes)
    requires |nonce| == p.iv && !AllZero(nonce)
    ensures !AllZero(p.Seal(nonce, b, text))
  {
    var raw := p.Seal(nonce, b, text);
    var i :| 0 <= i < |nonce| && nonce[i] != 0;
    assert raw[i] == nonce[i];
  }

  /** A stored block of zeros is never a sealed one. */
  lemma ZeroBlock(p: Params, raw: Bytes, b: nat, text: Bytes)
    requires p.Ok() && p.Stands(raw, b, text) && AllZero(raw)
    ensures AllZero(text)
  {
    forall nonce | |nonce| == p.iv && !AllZero(nonce) && raw == p.Seal(nonce, b, text) ensures false {
      SealedNotZero(p, nonce, b, text);
    }
  }

  /** Opening a stored block that is not zeros gives its text. */
  lemma OpenBlock(p: Params, raw: Bytes, b: nat, text: Bytes)
    requires p.Ok() && p.Stands(raw, b, text) && !AllZero(raw) && text != []
    ensures p.aead.open(raw[..p.iv], b, raw[p.iv..p.iv + |text|], raw[p.iv + |text|..]) == Some(text)
  {
    var nonce :| |nonce| == p.iv && !AllZero(nonce) && raw == p.Seal(nonce, b, text);
    var (cipher, tag) := p.aead.seal(nonce, b, text);
    assert raw == nonce + cipher + tag;
    assert raw[..p.iv] == nonce && raw[p.iv..p.iv + |text|] == cipher && raw[p.iv + |text|..] == tag;
  }

  // --- Bytes and blocks -------------------------------------------------------------------------

  /** The block a position lies in. */
  lemma BlockAt(off: nat, bs: nat)
    requires bs > 0
    ensures off == Pos(off / bs, bs) + off % bs && off % bs < bs
    ensures off < Pos(MAX_BLOCKS + 1, bs) <==> off / bs <= MAX_BLOCKS
    ensures off / bs <= MAX_BLOCKS ==> Pos(off / bs, bs) + bs <= Pos(MAX_BLOCKS + 1, bs)
  {
    Arith.DivModExists(off, bs);
    Products(off / bs, bs, 0);
    Products(MAX_BLOCKS + 1, bs, 0);
    if off / bs > MAX_BLOCKS { Arith.MulMono(off / bs, MAX_BLOCKS + 1, bs); } else { Arith.MulStep(MAX_BLOCKS + 1, off / bs, bs); }
  }

  lemma PartOfChunk(p: Params, text: Bytes, b: nat, begin: nat, end: nat)
    requires begin < end <= p.bs
    ensures var whole := p.Chunk(text, b);
            ReadAt(text, Pos(b, p.bs) + begin, end - begin)
            == if |whole| <= begin then [] else whole[begin..Min(end, |whole|)]
  {
    hide ReadAt, Pos;
    var pos, whole := Pos(b, p.bs), p.Chunk(text, b);
    if |whole| > begin {
      var x, y := ReadAt(text, pos + begin, end - begin), whole[begin..Min(end, |whole|)];
      assert |x| == |y|;
      forall i | 0 <= i < |x| ensures x[i] == y[i] {
        ReadByte(text, pos + begin, end - begin, i);
        ReadByte(text, pos, p.bs, begin + i);
      }
    }
  }

  lemma ReadSplits(s: Bytes, off: nat, len: nat, n: nat)
    requires n <= len
    ensures ReadAt(s, off, len) == ReadAt(s, off, n) + ReadAt(s, off + n, len - n)
    ensures |ReadAt(s, off, n)| < n ==> ReadAt(s, off, len) == ReadAt(s, off, n)
  {
  }

  /** `r` is what has been read of `all`, and the range that is left gives the rest. */
  ghost predicate ReadSoFar(s: Bytes, all: Bytes, r: Bytes, off: nat, len: nat) {
    all == r + ReadAt(s, off, len)
  }

  lemma ReadStart(s: Bytes, off: nat, len: nat)
    ensures ReadSoFar(s, ReadAt(s, off, len), [], off, len)
  {
  }

  lemma ReadStep(s: Bytes, all: Bytes, r: Bytes, off: nat, len: nat, part: Bytes, n: nat)
    requires n <= len && ReadSoFar(s, all, r, off, len) && part == ReadAt(s, off, n)
    ensures ReadSoFar(s, all, r + part, off + n, len - n)
    ensures |part| < n ==> all == r + part
  {
    ReadSplits(s, off, len, n);
    assert r + (part + ReadAt(s, off + n, len - n)) == r + part + ReadAt(s, off + n, len - n);
  }

  lemma ReadDone(s: Bytes, all: Bytes, r: Bytes, off: nat)
    requires ReadSoFar(s, all, r, off, 0)
    ensures all == r
  {
  }

  lemma WriteNothing(s: Bytes, off: nat)
    requires off <= |s|
    ensures WriteAt(s, off, []) == s
  {
  }

  lemma WriteJoins(s: Bytes, off: nat, a: Bytes, b: Bytes)
    requires off <= |s|
    ensures WriteAt(WriteAt(s, off, a), off + |a|, b) == WriteAt(s, off, a + b)
  {
  }

  lemma WriteStart(s: Bytes, off: nat, input: Bytes)
    requires off <= |s|
    ensures s == WriteAt(s, off, input[..0])
  {
    WriteNothing(s, off);
  }

  /** Writing a front part first and more behind it makes no difference. */
  lemma WriteStep(s: Bytes, off: nat, input: Bytes, k: nat, n: nat)
    requires off <= |s| && k + n <= |input|
    ensures WriteAt(WriteAt(s, off, input[..k]), off + k, input[k..][..n]) == WriteAt(s, off, input[..k + n])
  {
    hide WriteAt;
    WriteJoins(s, off, input[..k], input[k..][..n]);
    assert input[..k] + input[k..][..n] == input[..k + n];
  }

  lemma WriteBehindGap(s: Bytes, t: Bytes, off: nat, input: Bytes)
    requires t == if |s| < off then ResizeTo(s, off) else s
    ensures WriteAt(t, off, input) == WriteAt(s, off, input)
  {
    hide WriteAt, ResizeTo;
    var x, y := WriteAt(t, off, input), WriteAt(s, off, input);
    assert |x| == |y|;
    forall i | 0 <= i < |x| ensures x[i] == y[i] {
      Written(t, off, input, i);
      Written(s, off, input, i);
      if i < off { Resized(s, off, i); }
    }
  }

  lemma ResizeTwice(s: Bytes, m: nat, n: nat)
    requires |s| <= m <= n
    ensures ResizeTo(ResizeTo(s, m), n) == ResizeTo(s, n)
  {
  }

  lemma AppendZeros(s: Bytes, n: nat)
    ensures WriteAt(s, |s|, Zeros(n)) == ResizeTo(s, |s| + n)
  {
  }

  lemma PatchWritable(p: Params, text: Bytes, b: nat, begin: nat, input: Bytes)
    requires p.bs > 0 && 0 < |input| && begin + |input| <= p.bs && Pos(b, p.bs) + begin <= |text|
    ensures p.Writable(|text|, b, |WriteAt(p.Chunk(text, b), begin, input)|)
  {
  }

  /** Writing back a patched block patches the text. */
  lemma PatchBlock(p: Params, text: Bytes, b: nat, begin: nat, input: Bytes)
    requires p.bs > 0 && 0 < |input| && begin + |input| <= p.bs && Pos(b, p.bs) + begin <= |text|
    ensures WriteAt(text, Pos(b, p.bs), WriteAt(p.Chunk(text, b), begin, input)) == WriteAt(text, Pos(b, p.bs) + begin, input)
  {
    hide WriteAt, ReadAt, Pos;
    var pos, chunk := Pos(b, p.bs), p.Chunk(text, b);
    var patched := WriteAt(chunk, begin, input);
    var x, y := WriteAt(text, pos, patched), WriteAt(text, pos + begin, input);
    assert |x| == |y|;
    forall i | 0 <= i < |x| ensures x[i] == y[i] {
      Written(text, pos, patched, i);
      Written(text, pos + begin, input, i);
      if pos <= i < pos + |patched| {
        Written(chunk, begin, input, i - pos);
        if i - pos < |chunk| { ReadByte(text, pos, p.bs, i - pos); }
      }
    }
  }

  // --- Resizing ---------------------------------------------------------------------------------

  lemma NextMultiple(q: nat, bs: nat)
    requires bs > 0
    ensures (q * bs + bs) % bs == 0
  {
    Arith.MulPred(q + 1, bs);
    Arith.DivMod(q * bs + bs, bs, q + 1, 0);
  }

  /** Between positions in different blocks lies the end of the first one's block. */
  lemma BlockEnd(current: nat, n: nat, bs: nat)
    requires bs > 0 && current <= n
    ensures current / bs != n / bs ==>
              current < current / bs * bs + bs <= n && (current / bs * bs + bs) % bs == 0
  {
    if current / bs != n / bs {
      Arith.DivModExists(current, bs);
      Arith.DivModExists(n, bs);
      QuotientMonotone(current, n, bs);
      Arith.MulStep(n / bs, current / bs, bs);
      NextMultiple(current / bs, bs);
    }
  }

  /** Where the zeros that growing writes end: on a sparse stream at the end of the block. */
  function GrowEnd(current: nat, n: nat, sparse: bool, bs: nat): nat
    requires bs > 0
  {
    if sparse && current / bs != n / bs then current / bs * bs + bs else n
  }

  lemma GrowsTo(current: nat, n: nat, sparse: bool, bs: nat)
    requires bs > 0 && current < n
    ensures var finish := GrowEnd(current, n, sparse, bs);
            && current < finish <= n && (finish == n || finish % bs == 0)
            && (sparse && current / bs != n / bs ==>
                  (finish > Pos(MAX_BLOCKS + 1, bs) <==> current >= Pos(MAX_BLOCKS + 1, bs)))
  {
    if sparse && current / bs != n / bs {
      BlockEnd(current, n, bs);
      BlockAt(current, bs);
      Products(current / bs, bs, 0);
    }
  }

  lemma ChunkPrefix(p: Params, text: Bytes, b: nat, n: nat)
    requires p.bs > 0 && n < |text| && n == Pos(b, p.bs) + n % p.bs && n % p.bs < p.bs
    ensures n % p.bs < |p.Chunk(text, b)| && p.Chunk(text[..n], b) == p.Chunk(text, b)[..n % p.bs]
  {
    hide ReadAt, Pos;
    var pos := Pos(b, p.bs);
    var x, y := ReadAt(text[..n], pos, p.bs), ReadAt(text, pos, p.bs)[..n % p.bs];
    assert |x| == |y|;
    forall i | 0 <= i < |x| ensures x[i] == y[i] {
      ReadByte(text[..n], pos, p.bs, i);
      ReadByte(text, pos, p.bs, i);
    }
  }

  /** Cutting the underlying stream after the last block was stored anew. */
  lemma ShrinkRep(p: Params, stream: Bytes, text: Bytes, b: nat, raw: Bytes, n: nat)
    requires p.Ok() && p.Rep(stream, text) && n < |text| && b == n / p.bs
    requires n % p.bs > 0 ==> p.Stands(raw, b, p.Chunk(text[..n], b))
    ensures var s := if n % p.bs > 0 then WriteAt(stream, Off(b, p.bs, p.M()), raw) else stream;
            p.Rep(ResizeTo(s, StoredSize(n, p.bs, p.M())), text[..n])
  {
    hide ReadAt, WriteAt, ResizeTo, Params.Stands;
    var s := if n % p.bs > 0 then WriteAt(stream, Off(b, p.bs, p.M()), raw) else stream;
    BlockAt(n, p.bs);
    SizeFromBlock(n, b, p.bs, p.M());
    PrefixIsResize(text, n);
    ShrinkBlocks(p, stream, s, text, b, raw, n, StoredSize(n, p.bs, p.M()));
  }

  lemma PrefixIsResize(s: Bytes, n: nat)
    requires n <= |s|
    ensures ResizeTo(s, n) == s[..n]
  {
  }

  lemma ShrinkBlocks(p: Params, stream: Bytes, s: Bytes, text: Bytes, b: nat, raw: Bytes, n: nat, u: nat)
    requires p.Ok() && p.Rep(stream, text) && Pos(b, p.bs) <= n < |text| && n < Pos(b, p.bs) + p.bs
    requires u == Off(b, p.bs, p.M()) + StoredLen(n - Pos(b, p.bs), p.M())
    requires s == if n > Pos(b, p.bs) then WriteAt(stream, Off(b, p.bs, p.M()), raw) else stream
    requires n > Pos(b, p.bs) ==> p.Stands(raw, b, p.Chunk(ResizeTo(text, n), b))
    ensures forall j: nat {:trigger p.StandsAt(ResizeTo(s, u), ResizeTo(text, n), j)} ::
              p.StandsAt(ResizeTo(s, u), ResizeTo(text, n), j)
  {
    hide ReadAt, WriteAt, ResizeTo, Params.Stands;
    SizeAtBlock(|text|, b, p.bs, p.M());
    forall j: nat ensures p.StandsAt(ResizeTo(s, u), ResizeTo(text, n), j) {
      assert p.StandsAt(stream, text, j);
      if j < b {
        ShrinkBefore(p, stream, s, text, b, raw, n, u, j);
      } else {
        ShrinkBehind(p, stream, s, text, b, raw, n, u, j);
      }
    }
  }

  /** Blocks before the last one stay. */
  lemma ShrinkBefore(p: Params, stream: Bytes, s: Bytes, text: Bytes, b: nat, raw: Bytes, n: nat, u: nat, j: nat)
    requires p.StandsAt(stream, text, j) && j < b && Pos(b, p.bs) <= n < |text| && Off(b, p.bs, p.M()) <= u
    requires s == stream || s == WriteAt(stream, Off(b, p.bs, p.M()), raw)
    requires Off(b, p.bs, p.M()) <= |stream|
    ensures p.StandsAt(ResizeTo(s, u), ResizeTo(text, n), j)
  {
    hide ReadAt, WriteAt, ResizeTo, Params.Stands;
    EarlierBlock(j, b, p.bs, p.M());
    ReadElsewhere(stream, Off(b, p.bs, p.M()), raw, Off(j, p.bs, p.M()), p.bs + p.M());
    ReadKept(s, u, Off(j, p.bs, p.M()), p.bs + p.M());
    ReadKept(text, n, Pos(j, p.bs), p.bs);
  }

  /** The last block is what was stored anew, if anything, and nothing is left behind it. */
  lemma ShrinkBehind(p: Params, stream: Bytes, s: Bytes, text: Bytes, b: nat, raw: Bytes, n: nat, u: nat, j: nat)
    requires b <= j && Pos(b, p.bs) <= n < |text| && n < Pos(b, p.bs) + p.bs
    requires u == Off(b, p.bs, p.M()) + StoredLen(n - Pos(b, p.bs), p.M())
    requires n > Pos(b, p.bs) ==> p.Stands(raw, b, p.Chunk(ResizeTo(text, n), b)) && s == WriteAt(stream, Off(b, p.bs, p.M()), raw)
    ensures p.StandsAt(ResizeTo(s, u), ResizeTo(text, n), j)
  {
    if b < j { EarlierBlock(b, j, p.bs, p.M()); }
    if b < j || n == Pos(b, p.bs) {
      ReadBeyond(ResizeTo(s, u), Off(j, p.bs, p.M()), p.bs + p.M());
      ReadBeyond(ResizeTo(text, n), Pos(j, p.bs), p.bs);
    } else {
      assert |p.Chunk(ResizeTo(text, n), b)| == n - Pos(b, p.bs);
      ReadWritten(stream, Off(b, p.bs, p.M()), raw, p.bs + p.M());
    }
  }

  /** Extending the underlying stream with zeros behind whole blocks. */
  lemma GrowRep(p: Params, stream: Bytes, text: Bytes, n: nat)
    requires p.Ok() && p.Rep(stream, text) && |text| <= n && (|text| == n || |text| % p.bs == 0)
    ensures p.Rep(ResizeTo(stream, StoredSize(n, p.bs, p.M())), ResizeTo(text, n))
  {
    var u := StoredSize(n, p.bs, p.M());
    if |text| == n {
      ResizeSame(stream);
      ResizeSame(text);
    } else {
      forall j: nat ensures p.StandsAt(ResizeTo(stream, u), ResizeTo(text, n), j) {
        assert p.StandsAt(stream, text, j);
        SizeAtBlock(n, j, p.bs, p.M());
        SizeAtBlock(|text|, j, p.bs, p.M());
        if Pos(j, p.bs) + p.bs <= |text| {
          ReadKept(stream, u, Off(j, p.bs, p.M()), p.bs + p.M());
          ReadKept(text, n, Pos(j, p.bs), p.bs);
        } else {
          p.WholeBlocks(|text|, j);
          GrowBehind(p, stream, text, n, u, j);
        }
      }
    }
  }

  /** Blocks behind the text are zeros. */
  lemma GrowBehind(p: Params, stream: Bytes, text: Bytes, n: nat, u: nat, j: nat)
    requires |stream| <= Off(j, p.bs, p.M()) && |text| <= Pos(j, p.bs) && |text| <= n
    requires SizeSeenFrom(n, u, j, p.bs, p.M()) && p.bs > 0
    ensures p.StandsAt(ResizeTo(stream, u), ResizeTo(text, n), j)
  {
    ReadZeros(stream, u, Off(j, p.bs, p.M()), p.bs + p.M());
    ReadZeros(text, n, Pos(j, p.bs), p.bs);
  }
}
