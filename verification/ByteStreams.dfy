/** Byte streams that read short at their end and extend with zeros. */
module ByteStreams {
  import opened Common

  function Min(a: int, b: int): int {
    if a < b then a else b
  }

  /** Up to `len` bytes from `off` on. */
  function ReadAt(s: Bytes, off: nat, len: nat): (r: Bytes)
    ensures |r| == if off >= |s| then 0 else Min(len, |s| - off)
  {
    s[Min(off, |s|)..Min(off + len, |s|)]
  }

  /** Discards or appends zeros. */
  function ResizeTo(s: Bytes, n: nat): (r: Bytes)
    ensures |r| == n
  {
    if n <= |s| then s[..n] else s + Zeros(n - |s|)
  }

  /** Overwrites and extends; a gap before `off` fills with zeros. */
  function WriteAt(s: Bytes, off: nat, data: Bytes): (r: Bytes)
    ensures |r| == if |s| < off + |data| then off + |data| else |s|
  {
    var t := ResizeTo(s, if |s| < off + |data| then off + |data| else |s|);
    t[..off] + data + t[off + |data|..]
  }

  /** The bytes of a write, one by one. */
  lemma Written(s: Bytes, off: nat, data: Bytes, i: nat)
    requires i < |WriteAt(s, off, data)|
    ensures WriteAt(s, off, data)[i]
            == if off <= i < off + |data| then data[i - off] else if i < |s| then s[i] else 0
  {
  }

  lemma ReadByte(s: Bytes, off: nat, len: nat, i: nat)
    requires i < |ReadAt(s, off, len)|
    ensures ReadAt(s, off, len)[i] == s[off + i]
  {
  }

  lemma Resized(s: Bytes, n: nat, i: nat)
    requires i < n
    ensures ResizeTo(s, n)[i] == if i < |s| then s[i] else 0
  {
  }

  /** Reading where nothing was written. */
  lemma ReadElsewhere(s: Bytes, off: nat, data: Bytes, o: nat, len: nat)
    requires o + len <= off || off + |data| <= o
    requires o + len <= |s| || off + |data| <= |s|
    ensures ReadAt(WriteAt(s, off, data), o, len) == ReadAt(s, o, len)
  {
  }

  /** Reading what was written. */
  lemma ReadBack(s: Bytes, off: nat, data: Bytes, len: nat)
    requires |data| <= len && (|data| == len || |s| <= off + |data|)
    ensures ReadAt(WriteAt(s, off, data), off, len) == data
  {
  }

  /** Reading in the gap before a write. */
  lemma ReadGap(s: Bytes, off: nat, data: Bytes, o: nat, len: nat)
    requires |s| <= o && o + len <= off && data != []
    ensures ReadAt(WriteAt(s, off, data), o, len) == Zeros(len)
  {
  }

  lemma ReadBeyond(s: Bytes, o: nat, len: nat)
    requires |s| <= o
    ensures ReadAt(s, o, len) == []
  {
  }

  /** Reading what a resize keeps, and what it appends. */
  lemma ReadKept(s: Bytes, n: nat, o: nat, len: nat)
    requires o + len <= n && o + len <= |s|
    ensures ReadAt(ResizeTo(s, n), o, len) == ReadAt(s, o, len)
  {
  }

  lemma ReadZeros(s: Bytes, n: nat, o: nat, len: nat)
    requires |s| <= o
    ensures ReadAt(ResizeTo(s, n), o, len) == Zeros(if n <= o then 0 else Min(len, n - o))
  {
  }

  /** Reading what was written when the stream ends right behind it. */
  lemma ReadWritten(s: Bytes, off: nat, data: Bytes, len: nat)
    requires |data| <= len
    ensures ReadAt(ResizeTo(WriteAt(s, off, data), off + |data|), off, len) == data
  {
  }

  lemma ResizeSame(s: Bytes)
    ensures ResizeTo(s, |s|) == s
  {
  }

  predicate AllZero(s: Bytes) {
    forall i :: 0 <= i < |s| ==> s[i] == 0
  }
}
