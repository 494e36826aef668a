/** The bytes of a page, position by position. */
module Layout {
  import opened Common
  import opened Names
  import opened Entries
  import opened Codec
  import Arith

  lemma SliceOfSlice(b: Bytes, lo: nat, hi: nat, i: nat, j: nat)
    requires lo <= hi <= |b| && i <= j <= hi - lo
    ensures b[lo..hi][i..j] == b[lo + i..lo + j]
  {
    var x, y := b[lo..hi][i..j], b[lo + i..lo + j];
    assert |x| == |y|;
    forall k | 0 <= k < |x| ensures x[k] == y[k] {
      assert b[lo..hi][i + k] == b[lo + i + k];
    }
  }

  // --- Words ------------------------------------------------------------------------------------

  /** The four bytes from `off` on are `v`, lowest byte first. */
  predicate WordAt(b: Bytes, off: nat, v: nat) {
    && off + 4 <= |b| && v < 0x1_0000_0000
    && b[off] as int == v % 256 && b[off + 1] as int == v / 256 % 256
    && b[off + 2] as int == v / 65536 % 256 && b[off + 3] as int == v / 16777216
  }

  /** The two bytes from `off` on are `v`, lowest byte first. */
  predicate HalfAt(b: Bytes, off: nat, v: nat) {
    && off + 2 <= |b| && v < 65536
    && b[off] as int == v % 256 && b[off + 1] as int == v / 256
  }

  lemma PutFour(v: nat)
    ensures PutLE(v, 4) == [Low(v), Low(v / 256), Low(v / 256 / 256), Low(v / 256 / 256 / 256)]
  {
    assert PutLE(v / 256 / 256 / 256 / 256, 0) == [];
    assert PutLE(v / 256 / 256 / 256, 1) == [Low(v / 256 / 256 / 256)];
    assert PutLE(v / 256 / 256, 2) == [Low(v / 256 / 256), Low(v / 256 / 256 / 256)];
  }

  lemma PutTwo(v: nat)
    ensures PutLE(v, 2) == [Low(v), Low(v / 256)]
  {
    assert PutLE(v / 256 / 256, 0) == [];
    assert PutLE(v / 256, 1) == [Low(v / 256)];
  }

  lemma Quarters(v: nat)
    requires v < 0x1_0000_0000
    ensures v / 256 / 256 == v / 65536 && v / 256 / 256 / 256 == v / 16777216 < 256
  {
  }

  lemma PutWord(b: Bytes, off: nat, v: nat)
    requires off + 4 <= |b| && v < 0x1_0000_0000 && b[off..off + 4] == PutLE(v, 4)
    ensures WordAt(b, off, v)
  {
    hide PutLE;
    PutFour(v);
    Quarters(v);
    var s := b[off..off + 4];
    assert s[0] == b[off] && s[1] == b[off + 1] && s[2] == b[off + 2] && s[3] == b[off + 3];
  }

  lemma PutHalf(b: Bytes, off: nat, v: nat)
    requires off + 2 <= |b| && v < 65536 && b[off..off + 2] == PutLE(v, 2)
    ensures HalfAt(b, off, v)
  {
    PutTwo(v);
    var s := b[off..off + 2];
    assert s[0] == b[off] && s[1] == b[off + 1];
  }

  lemma GetFour(a: byte, b: byte, c: byte, d: byte)
    ensures GetLE([a, b, c, d]) == a as int + 256 * b as int + 65536 * c as int + 16777216 * d as int
  {
    assert [a, b, c, d][1..] == [b, c, d] && [b, c, d][1..] == [c, d] && [c, d][1..] == [d] && [d][1..] == [];
    assert GetLE([]) == 0;
    assert GetLE([d]) == d as int;
    assert GetLE([c, d]) == c as int + 256 * d as int;
  }

  lemma GetTwo(a: byte, b: byte)
    ensures GetLE([a, b]) == a as int + 256 * b as int
  {
    assert [a, b][1..] == [b] && [b][1..] == [];
    assert GetLE([]) == 0;
    assert GetLE([b]) == b as int;
  }

  lemma WordDigits(a: byte, b: byte, c: byte, d: byte, v: nat)
    requires v == a as int + 256 * b as int + 65536 * c as int + 16777216 * d as int
    ensures v < 0x1_0000_0000 && v % 256 == a as int && v / 256 % 256 == b as int
    ensures v / 65536 % 256 == c as int && v / 16777216 == d as int
  {
    Arith.DivMod(v, 256, b as int + 256 * c as int + 65536 * d as int, a);
    Arith.DivMod(v / 256, 256, c as int + 256 * d as int, b);
    Arith.DivMod(v, 65536, c as int + 256 * d as int, a as int + 256 * b as int);
    Arith.DivMod(v / 65536, 256, d, c);
    Arith.DivMod(v, 16777216, d, a as int + 256 * b as int + 65536 * c as int);
  }

  /** What is read from four bytes is the word they are. */
  lemma GetWord(b: Bytes, off: nat)
    requires off + 4 <= |b|
    ensures WordAt(b, off, GetLE(b[off..off + 4]))
  {
    var s := b[off..off + 4];
    assert s == [b[off], b[off + 1], b[off + 2], b[off + 3]];
    GetFour(b[off], b[off + 1], b[off + 2], b[off + 3]);
    WordDigits(b[off], b[off + 1], b[off + 2], b[off + 3], GetLE(s));
  }

  lemma GetHalf(b: Bytes, off: nat)
    requires off + 2 <= |b|
    ensures HalfAt(b, off, GetLE(b[off..off + 2]))
  {
    var s := b[off..off + 2];
    assert s == [b[off], b[off + 1]];
    GetTwo(b[off], b[off + 1]);
    Arith.DivMod(GetLE(s), 256, b[off + 1], b[off]);
  }

  /** A word is zero exactly if its bytes are. */
  lemma ZeroWord(b: Bytes, off: nat, v: nat)
    requires WordAt(b, off, v)
    ensures v == 0 <==> b[off] == b[off + 1] == b[off + 2] == b[off + 3] == 0
  {
  }

  // --- Nodes ------------------------------------------------------------------------------------

  /** An entry takes 292 bytes: 256 for the name, filled up with zeros, 32 for the id, 4 for the type. */
  ghost predicate EntryBytes(b: Bytes, off: nat, e: DirEntry) {
    && off + 292 <= |b| && |e.name| <= 255
    && (forall i :: 0 <= i < 256 ==> b[off + i] == if i < |e.name| then e.name[i] else 0)
    && b[off + 256..off + 288] == e.id
    && e.kind >= 0 && WordAt(b, off + 288, e.kind)
  }

  /** A node starts with the word 1 and the counts of children and entries, then come the children's
      page numbers, then the entries. */
  ghost predicate NodeBytes(b: Bytes, d: NodeData) {
    && WordAt(b, 0, 1) && HalfAt(b, 4, |d.children|) && HalfAt(b, 6, |d.entries|)
    && (forall k {:trigger d.children[k]} :: 0 <= k < |d.children| ==> WordAt(b, 8 + 4 * k, d.children[k]))
    && (forall k {:trigger d.entries[k]} :: 0 <= k < |d.entries| ==> EntryBytes(b, 8 + 4 * |d.children| + 292 * k, d.entries[k]))
  }

  /** A free page is the word 0 and the page numbers of its neighbours, and zeros otherwise. */
  ghost predicate FreeBytes(b: Bytes, next: nat, prev: nat) {
    && |b| == 4096 && WordAt(b, 0, 0) && WordAt(b, 4, next) && WordAt(b, 8, prev)
    && forall i :: 12 <= i < 4096 ==> b[i] == 0
  }

  lemma {:induction false} ChildSlice(cs: seq<nat>, k: nat)
    requires k < |cs|
    ensures EncodeChildren(cs)[4 * k..4 * k + 4] == PutLE(cs[k], 4)
  {
    var s := EncodeChildren(cs);
    assert s == PutLE(cs[0], 4) + EncodeChildren(cs[1..]);
    if k > 0 {
      ChildSlice(cs[1..], k - 1);
      assert s[4 * k..4 * k + 4] == EncodeChildren(cs[1..])[4 * (k - 1)..4 * (k - 1) + 4];
    }
  }

  lemma {:induction false} EntrySlice(es: seq<DirEntry>, k: nat)
    requires k < |es| && forall i :: 0 <= i < |es| ==> EntryOk(es[i])
    ensures EncodeEntries(es)[292 * k..292 * k + 292] == EncodeEntry(es[k])
  {
    var s := EncodeEntries(es);
    assert s == EncodeEntry(es[0]) + EncodeEntries(es[1..]);
    if k > 0 {
      EntrySlice(es[1..], k - 1);
      assert s[292 * k..292 * k + 292] == EncodeEntries(es[1..])[292 * (k - 1)..292 * (k - 1) + 292];
    }
  }

  lemma EntryLaidOut(b: Bytes, off: nat, e: DirEntry)
    requires EntryOk(e) && off + 292 <= |b| && b[off..off + 292] == EncodeEntry(e)
    ensures EntryBytes(b, off, e)
  {
    var s := b[off..off + 292];
    assert s == e.name + Zeros(256 - |e.name|) + e.id + PutLE(e.kind, 4);
    forall i | 0 <= i < 256 ensures b[off + i] == if i < |e.name| then e.name[i] else 0 {
      assert b[off + i] == s[i];
    }
    assert s[256..288] == e.id;
    SliceOfSlice(b, off, off + 292, 256, 288);
    assert s[288..292] == PutLE(e.kind, 4);
    SliceOfSlice(b, off, off + 292, 288, 292);
    PutWord(b, off + 288, e.kind);
  }

  lemma HeaderLaidOut(n: NodeData, rest: Bytes)
    requires Storable(n)
    ensures var b := EncodeNode(n) + rest;
            WordAt(b, 0, 1) && HalfAt(b, 4, |n.children|) && HalfAt(b, 6, |n.entries|)
  {
    hide PutLE;
    var b := EncodeNode(n) + rest;
    assert b[0..4] == PutLE(1, 4);
    assert b[4..6] == PutLE(|n.children|, 2);
    assert b[6..8] == PutLE(|n.entries|, 2);
    PutWord(b, 0, 1);
    PutHalf(b, 4, |n.children|);
    PutHalf(b, 6, |n.entries|);
  }

  lemma ChildLaidOut(b: Bytes, cs: seq<nat>, m: nat, k: nat)
    requires m == 8 + 4 * |cs| <= |b| && b[8..m] == EncodeChildren(cs) && k < |cs| && cs[k] < 0x1_0000_0000
    ensures WordAt(b, 8 + 4 * k, cs[k])
  {
    hide PutLE, EncodeChildren, WordAt;
    ChildSlice(cs, k);
    SliceOfSlice(b, 8, m, 4 * k, 4 * k + 4);
    PutWord(b, 8 + 4 * k, cs[k]);
  }

  lemma EntryOfNode(b: Bytes, es: seq<DirEntry>, m: nat, end: nat, k: nat)
    requires forall i :: 0 <= i < |es| ==> EntryOk(es[i])
    requires end == m + 292 * |es| <= |b| && b[m..end] == EncodeEntries(es) && k < |es|
    ensures EntryBytes(b, m + 292 * k, es[k])
  {
    hide EncodeEntry, EncodeEntries, EntryBytes;
    EntrySlice(es, k);
    SliceOfSlice(b, m, end, 292 * k, 292 * k + 292);
    EntryLaidOut(b, m + 292 * k, es[k]);
  }

  /** An encoded node, with whatever behind it, has the bytes of the node. */
  lemma NodeLaidOut(n: NodeData, rest: Bytes)
    requires Storable(n)
    ensures NodeBytes(EncodeNode(n) + rest, n)
  {
    hide WordAt, HalfAt, EntryBytes, EncodeNode, EncodeChildren, EncodeEntries, EntryOk;
    var b := EncodeNode(n) + rest;
    var m := 8 + 4 * |n.children|;
    NodeBody(n, rest);
    HeaderLaidOut(n, rest);
    forall k | 0 <= k < |n.children| ensures WordAt(b, 8 + 4 * k, n.children[k]) {
      ChildLaidOut(b, n.children, m, k);
    }
    forall k | 0 <= k < |n.entries| ensures EntryBytes(b, m + 292 * k, n.entries[k]) {
      EntryOfNode(b, n.entries, m, m + 292 * |n.entries|, k);
    }
  }

  lemma FreeLaidOut(next: nat, prev: nat)
    requires next < 0x1_0000_0000 && prev < 0x1_0000_0000
    ensures FreeBytes(EncodeFree(next, prev), next, prev)
  {
    var b := EncodeFree(next, prev);
    assert b[0..4] == PutLE(0, 4) && b[4..8] == PutLE(next, 4) && b[8..12] == PutLE(prev, 4);
    PutWord(b, 0, 0);
    PutWord(b, 4, next);
    PutWord(b, 8, prev);
  }

  // --- Reading ------------------------------------------------------------------------------------

  /** The name in a field of 256 bytes ends at its first NUL, and before its last byte. */
  ghost predicate NameIn(field: Bytes, name: Name) {
    && |field| == 256 && |name| <= 255 && NulFree(name) && field[..|name|] == name
    && (|name| == 255 || field[|name|] == 0)
  }

  ghost predicate EntryRead(b: Bytes, off: nat, e: DirEntry) {
    && off + 292 <= |b| && NameIn(b[off..off + 256], e.name)
    && e.id == b[off + 256..off + 288] && e.kind >= 0 && WordAt(b, off + 288, e.kind)
  }

  /** The node with the counts, children and entries that the bytes give. */
  ghost predicate NodeRead(b: Bytes, d: NodeData) {
    && HalfAt(b, 4, |d.children|) && HalfAt(b, 6, |d.entries|)
    && (forall k {:trigger d.children[k]} :: 0 <= k < |d.children| ==> WordAt(b, 8 + 4 * k, d.children[k]))
    && (forall k {:trigger d.entries[k]} :: 0 <= k < |d.entries| ==> EntryRead(b, 8 + 4 * |d.children| + 292 * k, d.entries[k]))
  }

  lemma {:induction false} CStringIn(s: Bytes)
    ensures var r := CString(s); |r| <= |s| && NulFree(r) && s[..|r|] == r && (|r| < |s| ==> s[|r|] == 0)
    ensures s != [] && s[|s| - 1] == 0 ==> |CString(s)| < |s|
  {
    if s != [] && s[0] != 0 {
      CStringIn(s[1..]);
      var r := CString(s[1..]);
      assert CString(s) == [s[0]] + r;
      assert s == [s[0]] + s[1..];
    }
  }

  lemma EntryIsRead(b: Bytes, off: nat)
    requires off + 292 <= |b|
    ensures EntryRead(b, off, EntryAt(b, off))
  {
    var field, s := b[off..off + 256], b[off..off + 255] + [0];
    CStringIn(s);
    var name := CString(s);
    assert field[..|name|] == s[..|name|];
    GetWord(b, off + 288);
  }

  lemma {:induction false} ChildrenRead(b: Bytes, off: nat, n: nat)
    ensures ChildrenAt(b, off, n).None? <==> n > 0 && off + 4 * n > |b|
    ensures var r := ChildrenAt(b, off, n);
            r.Some? ==> forall k {:trigger r.value[k]} :: 0 <= k < n ==> WordAt(b, off + 4 * k, r.value[k])
    decreases n
  {
    hide WordAt, GetLE;
    if n > 0 && off + 4 <= |b| {
      ChildrenRead(b, off + 4, n - 1);
      GetWord(b, off);
      var r, rest := ChildrenAt(b, off, n), ChildrenAt(b, off + 4, n - 1);
      if r.Some? {
        forall k | 0 <= k < n ensures WordAt(b, off + 4 * k, r.value[k]) {
          if k > 0 { assert r.value[k] == rest.value[k - 1] && off + 4 + 4 * (k - 1) == off + 4 * k; }
        }
      }
    }
  }

  lemma {:induction false} EntriesRead(b: Bytes, off: nat, n: nat)
    ensures EntriesAt(b, off, n).None? <==> n > 0 && off + 292 * n > |b|
    ensures var r := EntriesAt(b, off, n);
            r.Some? ==> forall k {:trigger r.value[k]} :: 0 <= k < n ==> EntryRead(b, off + 292 * k, r.value[k])
    decreases n
  {
    hide EntryAt, EntryRead;
    if n > 0 && off + 292 <= |b| {
      EntriesRead(b, off + 292, n - 1);
      EntryIsRead(b, off);
      var r, rest := EntriesAt(b, off, n), EntriesAt(b, off + 292, n - 1);
      if r.Some? {
        forall k | 0 <= k < n ensures EntryRead(b, off + 292 * k, r.value[k]) {
          if k > 0 { assert r.value[k] == rest.value[k - 1] && off + 292 + 292 * (k - 1) == off + 292 * k; }
        }
      }
    }
  }

  /** The space that the counts of a block ask for. */
  function Asked(b: Bytes): nat
    requires |b| >= 8
  {
    8 + 4 * (b[4] as int + 256 * b[5] as int) + 292 * (b[6] as int + 256 * b[7] as int)
  }

  /** What a block reads as: nothing if it is too short, an empty node if it starts with four zeros,
      and otherwise what its bytes give. */
  ghost predicate ReadsAs(b: Bytes, r: Option<NodeData>) {
    if |b| < 4 then r == None
    else if b[0] == b[1] == b[2] == b[3] == 0 then r == Some(NodeData([], []))
    else if |b| < 8 || |b| < Asked(b) then r == None
    else r.Some? && NodeRead(b, r.value)
  }

  lemma NodeIsRead(b: Bytes)
    ensures ReadsAs(b, DecodeNode(b))
  {
    if |b| >= 4 {
      assert b[..4] == b[0..4];
      GetWord(b, 0);
      ZeroWord(b, 0, GetLE(b[..4]));
      if GetLE(b[..4]) != 0 && |b| >= 8 { BodyIsRead(b, GetLE(b[4..6]), GetLE(b[6..8])); }
    }
  }

  lemma BodyIsRead(b: Bytes, nc: nat, ne: nat)
    requires |b| >= 8 && GetLE(b[..4]) != 0 && nc == GetLE(b[4..6]) && ne == GetLE(b[6..8])
    ensures if |b| < Asked(b) then DecodeNode(b) == None else DecodeNode(b).Some? && NodeRead(b, DecodeNode(b).value)
  {
    DecodeBody(b, nc, ne);
    hide HalfAt, WordAt, EntryRead, GetLE, ChildrenAt, EntriesAt, DecodeNode, NodeRead;
    GetHalf(b, 4);
    GetHalf(b, 6);
    CountOf(b, 4, nc);
    CountOf(b, 6, ne);
    ChildrenRead(b, 8, nc);
    EntriesRead(b, 8 + 4 * nc, ne);
    var cs, es := ChildrenAt(b, 8, nc), EntriesAt(b, 8 + 4 * nc, ne);
    if cs.Some? && es.Some? { PartsRead(b, cs.value, es.value, nc, ne); }
  }

  lemma PartsRead(b: Bytes, cs: seq<nat>, es: seq<DirEntry>, nc: nat, ne: nat)
    requires |cs| == nc && |es| == ne && HalfAt(b, 4, nc) && HalfAt(b, 6, ne)
    requires forall k {:trigger cs[k]} :: 0 <= k < nc ==> WordAt(b, 8 + 4 * k, cs[k])
    requires forall k {:trigger es[k]} :: 0 <= k < ne ==> EntryRead(b, 8 + 4 * nc + 292 * k, es[k])
    ensures NodeRead(b, NodeData(cs, es))
  {
    hide HalfAt, WordAt, EntryRead;
  }

  lemma DecodeBody(b: Bytes, nc: nat, ne: nat)
    requires |b| >= 8 && GetLE(b[..4]) != 0 && nc == GetLE(b[4..6]) && ne == GetLE(b[6..8])
    ensures var cs, es := ChildrenAt(b, 8, nc), EntriesAt(b, 8 + 4 * nc, ne);
            DecodeNode(b) == if cs.None? || es.None? then None else Some(NodeData(cs.value, es.value))
  {
    hide GetLE, ChildrenAt, EntriesAt;
  }

  lemma CountOf(b: Bytes, off: nat, v: nat)
    requires HalfAt(b, off, v)
    ensures v == b[off] as int + 256 * b[off + 1] as int
  {
  }
}
