/** The on-disk form of a page: B-tree nodes and free pages as 4096-byte blocks. */
module Codec {
  import opened Common
  import opened Names
  import opened Entries

  const BLOCK_SIZE := 4096
  const ID_LENGTH := 32
  const NAME_FIELD := MAX_FILENAME_LENGTH + 1
  const ENTRY_SIZE := NAME_FIELD + ID_LENGTH + 4

  // --- Little-endian integers -----------------------------------------------------------------

  function Low(v: nat): byte {
    v % 256
  }

  function PutLE(v: nat, n: nat): (s: Bytes)
    ensures |s| == n
  {
    if n == 0 then [] else [Low(v)] + PutLE(v / 256, n - 1)
  }

  function GetLE(s: Bytes): nat {
    if s == [] then 0 else s[0] as int + 256 * GetLE(s[1..])
  }

  lemma {:induction false} LERoundTrip(v: nat, n: nat)
    requires v < Pow256(n)
    ensures GetLE(PutLE(v, n)) == v
  {
    if n > 0 {
      LERoundTrip(v / 256, n - 1);
      assert PutLE(v, n)[1..] == PutLE(v / 256, n - 1);
    }
  }

  lemma Pow256Values()
    ensures Pow256(2) == 0x1_0000 && Pow256(4) == 0x1_0000_0000
  {
    assert Pow256(3) == 0x100_0000;
  }

  // --- Names ----------------------------------------------------------------------------------

  function PadName(name: Name): (s: Bytes)
    requires |name| <= MAX_FILENAME_LENGTH
    ensures |s| == NAME_FIELD
  {
    name + Zeros(NAME_FIELD - |name|)
  }

  /** The bytes in front of the first NUL. */
  function CString(s: Bytes): (r: Name) {
    if s == [] || s[0] == 0 then [] else [s[0]] + CString(s[1..])
  }

  lemma {:induction false} CStringOf(name: Name, rest: Bytes)
    requires rest != [] && rest[0] == 0
    ensures NulFree(CString(name + rest))
    ensures CString(name + rest) == name <==> NulFree(name)
  {
    if name == [] {
      assert name + rest == rest;
    } else {
      CStringOf(name[1..], rest);
      assert (name + rest)[1..] == name[1..] + rest;
      assert name == [name[0]] + name[1..];
      if name[0] != 0 {
        assert NulFree(name) ==> NulFree(name[1..]);
        assert NulFree(name[1..]) ==> NulFree(name);
      }
    }
  }

  // --- Entries and children ---------------------------------------------------------------------

  predicate EntryOk(e: DirEntry) {
    && |e.name| <= MAX_FILENAME_LENGTH
    && |e.id| == ID_LENGTH
    && 0 <= e.kind < 0x1_0000_0000
  }

  function EncodeEntry(e: DirEntry): (s: Bytes)
    requires EntryOk(e)
    ensures |s| == ENTRY_SIZE
  {
    PadName(e.name) + e.id + PutLE(e.kind, 4)
  }

  function EncodeEntries(es: seq<DirEntry>): (s: Bytes)
    requires forall i :: 0 <= i < |es| ==> EntryOk(es[i])
    ensures |s| == ENTRY_SIZE * |es|
  {
    if es == [] then [] else EncodeEntry(es[0]) + EncodeEntries(es[1..])
  }

  function EncodeChildren(cs: seq<nat>): (s: Bytes)
    ensures |s| == 4 * |cs|
  {
    if cs == [] then [] else PutLE(cs[0], 4) + EncodeChildren(cs[1..])
  }

  /** What `to_buffer` accepts. */
  predicate Storable(n: NodeData) {
    && |n.children| <= BTREE_MAX_NUM_ENTRIES + 1
    && |n.entries| <= BTREE_MAX_NUM_ENTRIES
    && (forall i :: 0 <= i < |n.children| ==> n.children[i] < 0x1_0000_0000)
    && (forall i :: 0 <= i < |n.entries| ==> EntryOk(n.entries[i]))
  }

  /** A node is laid out in the front part of its block. */
  function EncodeNode(n: NodeData): (s: Bytes)
    requires Storable(n)
    ensures |s| == 8 + 4 * |n.children| + ENTRY_SIZE * |n.entries|
    ensures |s| <= BLOCK_SIZE
  {
    PutLE(1, 4) + PutLE(|n.children|, 2) + PutLE(|n.entries|, 2) + EncodeChildren(n.children) + EncodeEntries(n.entries)
  }

  function ChildrenAt(b: Bytes, off: nat, n: nat): (r: Option<seq<nat>>)
    ensures r.Some? ==> |r.value| == n
    decreases n
  {
    if n == 0 then Some([])
    else if off + 4 > |b| then None
    else
      var rest := ChildrenAt(b, off + 4, n - 1);
      if rest.None? then None else Some([GetLE(b[off..off + 4])] + rest.value)
  }

  /** The entry stored at `off`; the last byte of the name field is read as NUL whatever it is. */
  function EntryAt(b: Bytes, off: nat): DirEntry
    requires off + ENTRY_SIZE <= |b|
  {
    DirEntry(CString(b[off..off + MAX_FILENAME_LENGTH] + [0]),
             b[off + NAME_FIELD..off + NAME_FIELD + ID_LENGTH],
             GetLE(b[off + NAME_FIELD + ID_LENGTH..off + ENTRY_SIZE]))
  }

  function EntriesAt(b: Bytes, off: nat, n: nat): (r: Option<seq<DirEntry>>)
    ensures r.Some? ==> |r.value| == n
    decreases n
  {
    if n == 0 then Some([])
    else if off + ENTRY_SIZE > |b| then None
    else
      var rest := EntriesAt(b, off + ENTRY_SIZE, n - 1);
      if rest.None? then None else Some([EntryAt(b, off)] + rest.value)
  }

  /** The node a block holds; a block whose flag word is zero reads as an empty node, and a block
      that is too short for its own counts does not read at all. */
  function DecodeNode(b: Bytes): Option<NodeData> {
    if |b| < 4 then None
    else if GetLE(b[..4]) == 0 then Some(NodeData([], []))
    else if |b| < 8 then None
    else
      var nc, ne := GetLE(b[4..6]), GetLE(b[6..8]);
      var cs := ChildrenAt(b, 8, nc);
      if cs.None? then None
      else
        var es := EntriesAt(b, 8 + 4 * nc, ne);
        if es.None? then None else Some(NodeData(cs.value, es.value))
  }

  // --- Round trips ------------------------------------------------------------------------------

  lemma {:induction false} ChildrenRoundTrip(b: Bytes, off: nat, cs: seq<nat>)
    requires off + 4 * |cs| <= |b| && b[off..off + 4 * |cs|] == EncodeChildren(cs)
    requires forall i :: 0 <= i < |cs| ==> cs[i] < 0x1_0000_0000
    ensures ChildrenAt(b, off, |cs|) == Some(cs)
    decreases |cs|
  {
    if cs != [] {
      var s := b[off..off + 4 * |cs|];
      assert s[..4] == b[off..off + 4] && s[4..] == b[off + 4..off + 4 + 4 * |cs[1..]|];
      Pow256Values();
      LERoundTrip(cs[0], 4);
      ChildrenRoundTrip(b, off + 4, cs[1..]);
      assert cs == [cs[0]] + cs[1..];
    }
  }

  lemma EntryRoundTrip(b: Bytes, off: nat, e: DirEntry)
    requires EntryOk(e) && off + ENTRY_SIZE <= |b| && b[off..off + ENTRY_SIZE] == EncodeEntry(e)
    ensures EntryAt(b, off) == e <==> NulFree(e.name)
  {
    var s := b[off..off + ENTRY_SIZE];
    assert s[..NAME_FIELD] == PadName(e.name);
    assert s[NAME_FIELD..NAME_FIELD + ID_LENGTH] == e.id;
    assert s[NAME_FIELD + ID_LENGTH..] == PutLE(e.kind, 4);
    assert b[off + NAME_FIELD..off + NAME_FIELD + ID_LENGTH] == e.id;
    assert b[off + NAME_FIELD + ID_LENGTH..off + ENTRY_SIZE] == PutLE(e.kind, 4);
    var field := b[off..off + MAX_FILENAME_LENGTH] + [0];
    assert field == e.name + Zeros(NAME_FIELD - |e.name|) by {
      assert b[off..off + MAX_FILENAME_LENGTH] == s[..MAX_FILENAME_LENGTH];
    }
    CStringOf(e.name, Zeros(NAME_FIELD - |e.name|));
    Pow256Values();
    LERoundTrip(e.kind, 4);
  }

  lemma {:induction false} EntriesRoundTrip(b: Bytes, off: nat, es: seq<DirEntry>)
    requires forall i :: 0 <= i < |es| ==> EntryOk(es[i]) && NulFree(es[i].name)
    requires off + ENTRY_SIZE * |es| <= |b| && b[off..off + ENTRY_SIZE * |es|] == EncodeEntries(es)
    ensures EntriesAt(b, off, |es|) == Some(es)
    decreases |es|
  {
    if es != [] {
      var s := b[off..off + ENTRY_SIZE * |es|];
      assert s[..ENTRY_SIZE] == b[off..off + ENTRY_SIZE];
      assert s[ENTRY_SIZE..] == b[off + ENTRY_SIZE..off + ENTRY_SIZE + ENTRY_SIZE * |es[1..]|];
      EntryRoundTrip(b, off, es[0]);
      EntriesRoundTrip(b, off + ENTRY_SIZE, es[1..]);
      assert es == [es[0]] + es[1..];
    }
  }

  lemma NodeHeader(n: NodeData, rest: Bytes)
    requires Storable(n)
    ensures var b := EncodeNode(n) + rest;
            GetLE(b[..4]) == 1 && GetLE(b[4..6]) == |n.children| && GetLE(b[6..8]) == |n.entries|
  {
    var b := EncodeNode(n) + rest;
    Pow256Values();
    LERoundTrip(1, 4);
    LERoundTrip(|n.children|, 2);
    LERoundTrip(|n.entries|, 2);
    assert b[..4] == PutLE(1, 4);
    assert b[4..6] == PutLE(|n.children|, 2);
    assert b[6..8] == PutLE(|n.entries|, 2);
  }

  lemma NodeBody(n: NodeData, rest: Bytes)
    requires Storable(n)
    ensures var b := EncodeNode(n) + rest;
            var m := 8 + 4 * |n.children|;
            b[8..m] == EncodeChildren(n.children) && b[m..m + ENTRY_SIZE * |n.entries|] == EncodeEntries(n.entries)
  {
    var head := PutLE(1, 4) + PutLE(|n.children|, 2) + PutLE(|n.entries|, 2);
    assert EncodeNode(n) == head + EncodeChildren(n.children) + EncodeEntries(n.entries);
  }

  lemma DecodeParts(b: Bytes, n: NodeData, m: nat)
    requires Storable(n) && forall i :: 0 <= i < |n.entries| ==> NulFree(n.entries[i].name)
    requires m == 8 + 4 * |n.children| && m + ENTRY_SIZE * |n.entries| <= |b|
    requires GetLE(b[..4]) == 1 && GetLE(b[4..6]) == |n.children| && GetLE(b[6..8]) == |n.entries|
    requires b[8..m] == EncodeChildren(n.children) && b[m..m + ENTRY_SIZE * |n.entries|] == EncodeEntries(n.entries)
    ensures DecodeNode(b) == Some(n)
  {
    hide ChildrenAt, EntriesAt, EncodeChildren, EncodeEntries, GetLE;
    ChildrenRoundTrip(b, 8, n.children);
    EntriesRoundTrip(b, m, n.entries);
  }

  /** A stored node reads back, whatever is left over in the rest of its block. */
  lemma NodeRoundTrip(n: NodeData, rest: Bytes)
    requires Storable(n) && forall i :: 0 <= i < |n.entries| ==> NulFree(n.entries[i].name)
    ensures DecodeNode(EncodeNode(n) + rest) == Some(n)
  {
    NodeHeader(n, rest);
    NodeBody(n, rest);
    DecodeParts(EncodeNode(n) + rest, n, 8 + 4 * |n.children|);
  }

  // --- Free pages -------------------------------------------------------------------------------

  function EncodeFree(next: nat, prev: nat): (b: Bytes)
    ensures |b| == BLOCK_SIZE
  {
    PutLE(0, 4) + PutLE(next, 4) + PutLE(prev, 4) + Zeros(BLOCK_SIZE - 12)
  }

  /** The block is a free page with these links. */
  predicate IsFree(b: Bytes, next: nat, prev: nat) {
    |b| == BLOCK_SIZE && GetLE(b[..4]) == 0 && GetLE(b[4..8]) == next && GetLE(b[8..12]) == prev
  }

  /** A free page reads back its links, and reads as an empty node. */
  lemma FreeRoundTrip(next: nat, prev: nat)
    requires next < 0x1_0000_0000 && prev < 0x1_0000_0000
    ensures IsFree(EncodeFree(next, prev), next, prev)
    ensures DecodeNode(EncodeFree(next, prev)) == Some(NodeData([], []))
  {
    var b := EncodeFree(next, prev);
    Pow256Values();
    LERoundTrip(0, 4);
    LERoundTrip(next, 4);
    LERoundTrip(prev, 4);
    assert b[..4] == PutLE(0, 4) && b[4..8] == PutLE(next, 4) && b[8..12] == PutLE(prev, 4);
  }

  /** A page that is all zeros reads as an empty node. */
  lemma ZeroPage()
    ensures DecodeNode(Zeros(BLOCK_SIZE)) == Some(NodeData([], []))
  {
    var z := Zeros(BLOCK_SIZE)[..4];
    assert z == PutLE(0, 4) by {
      assert PutLE(0, 0) == [];
      assert PutLE(0, 1) == [0];
      assert PutLE(0, 2) == [0, 0];
      assert PutLE(0, 3) == [0, 0, 0];
    }
    Pow256Values();
    LERoundTrip(0, 4);
  }
}
