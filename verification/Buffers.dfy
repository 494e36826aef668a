/** `to_buffer` and `from_buffer`: the loops that move a node into and out of a block buffer. */
module Buffers {
  import opened Common
  import opened Entries
  import opened Codec
  import opened Layout

  /** Copies `s` into the buffer at `pos`. */
  method Write(buffer: array<byte>, pos: nat, s: Bytes) returns (next: nat)
    requires pos + |s| <= buffer.Length
    modifies buffer
    ensures next == pos + |s|
    ensures buffer[..next] == old(buffer[..pos]) + s
    ensures buffer[next..] == old(buffer[next..])
  {
    for i := 0 to |s|
      invariant buffer[..pos + i] == old(buffer[..pos]) + s[..i]
      invariant buffer[pos + i..] == old(buffer[pos + i..])
    {
      buffer[pos + i] := s[i];
      assert buffer[pos + i + 1..] == old(buffer[pos + i..])[1..];
    }
    next := pos + |s|;
  }

  lemma {:induction false} EncodeChildrenSnoc(cs: seq<nat>, c: nat)
    ensures EncodeChildren(cs + [c]) == EncodeChildren(cs) + PutLE(c, 4)
  {
    if cs == [] {
      assert cs + [c] == [c];
      assert EncodeChildren([c][1..]) == [];
    } else {
      assert (cs + [c])[1..] == cs[1..] + [c];
      EncodeChildrenSnoc(cs[1..], c);
    }
  }

  lemma {:induction false} EncodeEntriesSnoc(es: seq<DirEntry>, e: DirEntry)
    requires EntryOk(e) && forall i :: 0 <= i < |es| ==> EntryOk(es[i])
    ensures EncodeEntries(es + [e]) == EncodeEntries(es) + EncodeEntry(e)
  {
    if es == [] {
      assert es + [e] == [e];
      assert EncodeEntries([e][1..]) == [];
    } else {
      assert (es + [e])[1..] == es[1..] + [e];
      EncodeEntriesSnoc(es[1..], e);
    }
  }

  method WriteChildren(cs: seq<nat>, buffer: array<byte>, pos: nat) returns (next: nat)
    requires pos + 4 * |cs| <= buffer.Length
    modifies buffer
    ensures next == pos + 4 * |cs|
    ensures buffer[..next] == old(buffer[..pos]) + EncodeChildren(cs)
    ensures buffer[next..] == old(buffer[next..])
  {
    next := pos;
    for i := 0 to |cs|
      invariant next == pos + 4 * i
      invariant buffer[..next] == old(buffer[..pos]) + EncodeChildren(cs[..i])
      invariant buffer[next..] == old(buffer[next..])
    {
      EncodeChildrenSnoc(cs[..i], cs[i]);
      assert cs[..i + 1] == cs[..i] + [cs[i]];
      ghost var tail := buffer[next..];
      next := Write(buffer, next, PutLE(cs[i], 4));
      assert buffer[next..] == tail[4..];
    }
    assert cs[..|cs|] == cs;
  }

  method WriteEntries(es: seq<DirEntry>, buffer: array<byte>, pos: nat) returns (next: nat)
    requires forall i :: 0 <= i < |es| ==> EntryOk(es[i])
    requires pos + ENTRY_SIZE * |es| <= buffer.Length
    modifies buffer
    ensures next == pos + ENTRY_SIZE * |es|
    ensures buffer[..next] == old(buffer[..pos]) + EncodeEntries(es)
    ensures buffer[next..] == old(buffer[next..])
  {
    next := pos;
    for i := 0 to |es|
      invariant next == pos + ENTRY_SIZE * i
      invariant buffer[..next] == old(buffer[..pos]) + EncodeEntries(es[..i])
      invariant buffer[next..] == old(buffer[next..])
    {
      EncodeEntriesSnoc(es[..i], es[i]);
      assert es[..i + 1] == es[..i] + [es[i]];
      ghost var tail := buffer[next..];
      next := Write(buffer, next, EncodeEntry(es[i]));
      assert buffer[next..] == tail[ENTRY_SIZE..];
    }
    assert es[..|es|] == es;
  }

  ghost function Header(n: NodeData): (h: Bytes)
    ensures |h| == 8
  {
    PutLE(1, 4) + PutLE(|n.children|, 2) + PutLE(|n.entries|, 2)
  }

  method WriteHeader(n: NodeData, buffer: array<byte>) returns (next: nat)
    requires buffer.Length == BLOCK_SIZE
    modifies buffer
    ensures next == 8 && buffer[..8] == Header(n)
    ensures buffer[8..] == old(buffer[8..])
  {
    next := Write(buffer, 0, PutLE(1, 4));
    assert buffer[6..] == old(buffer[4..])[2..];
    next := Write(buffer, next, PutLE(|n.children|, 2));
    assert buffer[8..] == old(buffer[6..])[2..];
    next := Write(buffer, next, PutLE(|n.entries|, 2));
  }

  /** Lays the node out in the front of the buffer and leaves the rest of the buffer alone. */
  method ToBuffer(n: NodeData, buffer: array<byte>)
    requires Storable(n) && buffer.Length == BLOCK_SIZE
    modifies buffer
    ensures NodeBytes(buffer[..], n)
    ensures buffer[..] == EncodeNode(n) + old(buffer[|EncodeNode(n)|..])
  {
    hide NodeBytes;
    NodeLaidOut(n, buffer[|EncodeNode(n)|..]);
    ghost var size := |EncodeNode(n)|;
    ghost var before := buffer[..];
    var pos := WriteHeader(n, buffer);
    assert buffer[8..] == before[8..];
    pos := WriteChildren(n.children, buffer, pos);
    assert buffer[pos..] == before[pos..];
    pos := WriteEntries(n.entries, buffer, pos);
    assert pos == size && buffer[pos..] == before[pos..];
    assert buffer[..] == buffer[..pos] + buffer[pos..];
    assert EncodeNode(n) == Header(n) + EncodeChildren(n.children) + EncodeEntries(n.entries);
  }

  /** Puts `s` in front of the values read, if any were. */
  ghost function Prepend<T>(s: seq<T>, r: Option<seq<T>>): Option<seq<T>> {
    if r.None? then None else Some(s + r.value)
  }

  lemma PrependEmpty<T>(r: Option<seq<T>>)
    ensures Prepend([], r) == r
  {
    if r.Some? { assert [] + r.value == r.value; }
  }

  lemma PrependOne<T>(s: seq<T>, x: T, r: Option<seq<T>>)
    ensures Prepend(s, Prepend([x], r)) == Prepend(s + [x], r)
  {
    if r.Some? { assert s + ([x] + r.value) == s + [x] + r.value; }
  }

  method ReadChildren(b: Bytes, pos: nat, n: nat) returns (r: Option<seq<nat>>)
    ensures r == ChildrenAt(b, pos, n)
  {
    var cs: seq<nat> := [];
    PrependEmpty(ChildrenAt(b, pos, n));
    for i := 0 to n
      invariant |cs| == i
      invariant ChildrenAt(b, pos, n) == Prepend(cs, ChildrenAt(b, pos + 4 * i, n - i))
    {
      if pos + 4 * i + 4 > |b| {
        return None;
      }
      var c := GetLE(b[pos + 4 * i..pos + 4 * i + 4]);
      PrependOne(cs, c, ChildrenAt(b, pos + 4 * (i + 1), n - i - 1));
      cs := cs + [c];
    }
    assert cs + [] == cs;
    r := Some(cs);
  }

  method ReadEntries(b: Bytes, pos: nat, n: nat) returns (r: Option<seq<DirEntry>>)
    ensures r == EntriesAt(b, pos, n)
  {
    var es: seq<DirEntry> := [];
    PrependEmpty(EntriesAt(b, pos, n));
    for i := 0 to n
      invariant |es| == i
      invariant EntriesAt(b, pos, n) == Prepend(es, EntriesAt(b, pos + ENTRY_SIZE * i, n - i))
    {
      if pos + ENTRY_SIZE * i + ENTRY_SIZE > |b| {
        return None;
      }
      var e := EntryAt(b, pos + ENTRY_SIZE * i);
      PrependOne(es, e, EntriesAt(b, pos + ENTRY_SIZE * (i + 1), n - i - 1));
      es := es + [e];
    }
    assert es + [] == es;
    r := Some(es);
  }

  /** Reads a node out of a block; `None` where the bounds checks fail. */
  method FromBuffer(b: Bytes) returns (r: Option<NodeData>)
    ensures r == DecodeNode(b) && ReadsAs(b, r)
  {
    hide ReadsAs;
    NodeIsRead(b);
    if |b| < 4 {
      return None;
    }
    var flag := GetLE(b[..4]);
    if flag == 0 {
      return Some(NodeData([], []));
    }
    if |b| < 8 {
      return None;
    }
    var childNum, entryNum := GetLE(b[4..6]), GetLE(b[6..8]);
    var cs := ReadChildren(b, 8, childNum);
    if cs.None? {
      return None;
    }
    var es := ReadEntries(b, 8 + 4 * childNum, entryNum);
    if es.None? {
      return None;
    }
    r := Some(NodeData(cs.value, es.value));
  }
}
