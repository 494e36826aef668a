/** The meaning of a directory: a map from names to ids and file types. */
module Tables {
  import opened Common
  import opened Names
  import opened Entries
  import opened Codec
  import opened Forest
  import opened Contents
  import opened Size
  import opened Traversal

  datatype Value = Value(id: Bytes, kind: int)

  type Table = map<Name, Value>

  datatype Error = NameTooLong

  function ValueOf(e: DirEntry): Value {
    Value(e.id, e.kind)
  }

  /** An entry a caller may add: an id is 32 bytes long and a file type is a non-negative int. */
  predicate Addable(v: Value) {
    |v.id| == ID_LENGTH && 0 <= v.kind < 0x8000_0000
  }

  predicate Legal(name: Name, v: Value) {
    |name| <= MAX_FILENAME_LENGTH && Addable(v)
  }

  ghost predicate AllLegal(t: Table) {
    forall k {:trigger t[k]} :: k in t ==> Legal(k, t[k])
  }

  /** Every name survives being stored. */
  ghost predicate AllNulFree(t: Table) {
    forall k {:trigger t[k]} :: k in t ==> NulFree(k)
  }

  ghost predicate InTable(t: Table, e: DirEntry) {
    e.name in t && t[e.name] == ValueOf(e)
  }

  /** The tree stores exactly the table. */
  ghost predicate Stores(f: Forest, t: Table) {
    forall e {:trigger Has(f, e)} {:trigger InTable(t, e)} :: Has(f, e) <==> InTable(t, e)
  }

  lemma StoresSame(f: Forest, f': Forest, t: Table)
    requires Stores(f, t) && Same(f, f')
    ensures Stores(f', t)
  {
  }

  lemma StoresGain(f: Forest, f': Forest, t: Table, e: DirEntry)
    requires Stores(f, t) && Gains(f, f', e) && e.name !in t
    ensures Stores(f', t[e.name := ValueOf(e)])
  {
    var t' := t[e.name := ValueOf(e)];
    forall x ensures Has(f', x) <==> InTable(t', x) {
      assert Has(f, x) <==> InTable(t, x);
    }
  }

  lemma StoresLoss(f: Forest, f': Forest, t: Table, e: DirEntry)
    requires Stores(f, t) && Loses(f, f', e)
    ensures InTable(t, e) && Stores(f', t - {e.name})
  {
    var t' := t - {e.name};
    assert InTable(t, e);
    forall x ensures Has(f', x) <==> InTable(t', x) {
      assert Has(f, x) <==> InTable(t, x);
    }
  }

  lemma StoresNothing()
    ensures Stores(map[], map[])
  {
  }

  /** As many entries as surely fit the 2^20 pages that can be told apart. */
  const MAX_ENTRIES := 6 * (0x10_0000 - 16)

  lemma TreeDepth(f: Forest, root: nat)
    requires Shape(f, root, {}) && Occupied(f, root, INVALID_PAGE) && INVALID_PAGE !in f && |f.Keys| <= 0x10_0000
    ensures f[root].ht <= 7
  {
    forall p | p in f ensures NodeOccupied(f, root, root, p) {
      assert NodeOccupied(f, root, INVALID_PAGE, p);
    }
    assert NodeOccupied(f, root, INVALID_PAGE, root);
    DepthBound(f, root);
  }

  /** A table within the limit needs well under 2^20 pages. */
  lemma FewPages(f: Forest, root: nat, t: Table)
    requires Shape(f, root, {}) && Occupied(f, root, INVALID_PAGE) && INVALID_PAGE !in f && Stores(f, t)
    requires |t| <= MAX_ENTRIES
    ensures |f.Keys| <= 0x10_0000 - 15
  {
    forall p | p in f ensures NodeOccupied(f, root, root, p) {
      assert NodeOccupied(f, root, INVALID_PAGE, p);
    }
    var ps := f.Keys - {root};
    SixNamesPerPage(f, root, ps);
    forall x | x in NamesIn(f, ps) ensures x in t.Keys {
      var p, i :| p in ps && p in f && 0 <= i < |f[p].entries| && f[p].entries[i].name == x;
      assert Has(f, f[p].entries[i]);
    }
    Subset(NamesIn(f, ps), t.Keys);
    assert |ps| == |f.Keys| - 1;
  }

  /** No page holds more than 13 of the names. */
  lemma ManyPages(f: Forest, root: nat, t: Table)
    requires Shape(f, root, {}) && Occupied(f, root, INVALID_PAGE) && Stores(f, t)
    ensures |t| <= 13 * |f.Keys|
  {
    ThirteenNamesPerPage(f, root, f.Keys);
    forall x | x in t.Keys ensures x in NamesIn(f, f.Keys) {
      var e := DirEntry(x, t[x].id, t[x].kind);
      assert InTable(t, e) && Has(f, e);
      var p :| p in f && e in f[p].entries;
      var i :| 0 <= i < |f[p].entries| && f[p].entries[i] == e;
    }
    Subset(t.Keys, NamesIn(f, f.Keys));
  }

  /** More than two thirds of the pages being free, the rest holds few entries. */
  lemma ThirdLive(n: nat, live: nat, free: nat)
    requires n == live + free <= 0x10_0000 && free > n * 4096 / 6144
    ensures 13 * live <= MAX_ENTRIES
  {
  }

  lemma NotInEmpty(f: Forest, t: Table, name: Name)
    requires f == map[] && Stores(f, t)
    ensures name !in t && t == map[]
  {
    forall k ensures k !in t {
      assert k in t ==> InTable(t, DirEntry(k, t[k].id, t[k].kind));
    }
  }

  lemma NameMissing(f: Forest, t: Table, name: Name)
    requires Stores(f, t) && forall e :: Has(f, e) ==> e.name != name
    ensures name !in t
  {
    if name in t {
      assert InTable(t, DirEntry(name, t[name].id, t[name].kind));
    }
  }

  /** A tree of one leaf with one entry. */
  lemma SingleRoot(r: nat, e: DirEntry)
    requires r != INVALID_PAGE
    ensures var f := map[r := Tnode(INVALID_PAGE, [], [e], 0, -1.0, 1.0)];
            Shape(f, r, {}) && Occupied(f, r, INVALID_PAGE) && Gains(map[], f, e)
  {
    var f := map[r := Tnode(INVALID_PAGE, [], [e], 0, -1.0, 1.0)];
    KeyOrder(e.name, e.name);
    assert NodeOk(f, r);
    assert e in f[r].entries;
    assert Has(f, e);
  }

  lemma TableMinus(t: Table, name: Name)
    requires AllLegal(t)
    ensures AllLegal(t - {name}) && |t - {name}| <= |t|
    ensures name !in t ==> t - {name} == t
  {
    var t' := t - {name};
    assert t'.Keys == t.Keys - {name};
    Subset(t'.Keys, t.Keys);
    assert |t'| == |t'.Keys| && |t| == |t.Keys|;
  }

  lemma TablePlus(t: Table, name: Name, v: Value)
    requires AllLegal(t) && name !in t && Legal(name, v)
    ensures AllLegal(t[name := v]) && |t[name := v]| == |t| + 1
  {
  }

  // --- What a flush may write -----------------------------------------------------------------

  /** A node that survives being written and read back. */
  predicate Recordable(d: NodeData) {
    Storable(d) && forall i :: 0 <= i < |d.entries| ==> NulFree(d.entries[i].name)
  }

  /** Every node of a legal tree fits its block and reads back. */
  lemma TreeRecordable(f: Forest, root: nat, t: Table, p: nat)
    requires Shape(f, root, {}) && Occupied(f, root, INVALID_PAGE) && Stores(f, t) && p in f
    requires AllLegal(t) && AllNulFree(t)
    requires forall q :: q in f ==> q < 0x1_0000_0000
    ensures Recordable(NodeData(f[p].children, f[p].entries))
  {
    var g := f[p];
    assert NodeOk(f, p) && NodeOccupied(f, root, INVALID_PAGE, p);
    forall i | 0 <= i < |g.entries| ensures EntryOk(g.entries[i]) && NulFree(g.entries[i].name) {
      assert Has(f, g.entries[i]) && InTable(t, g.entries[i]);
    }
    forall i | 0 <= i < |g.children| ensures g.children[i] < 0x1_0000_0000 {
      assert ChildOk(f, p, i);
    }
  }

  /** The table that a sequence of entries lists. */
  ghost predicate Lists(s: seq<DirEntry>, t: Table) {
    && (forall e {:trigger e in s} {:trigger InTable(t, e)} :: e in s <==> InTable(t, e))
    && NoRepeat(s)
  }

  /** Only an empty directory has a root without entries. */
  lemma EmptyRoot(f: Forest, root: nat, t: Table)
    requires Shape(f, root, {}) && Occupied(f, root, INVALID_PAGE) && root != INVALID_PAGE && Stores(f, t)
    ensures f[root].entries == [] <==> t == map[]
  {
    assert NodeOk(f, root) && NodeOccupied(f, root, INVALID_PAGE, root);
    if f[root].entries == [] {
      assert forall e :: !Has(f, e);
      forall k ensures k !in t {
        assert k in t ==> InTable(t, DirEntry(k, t[k].id, t[k].kind));
      }
    } else {
      assert Has(f, f[root].entries[0]) && InTable(t, f[root].entries[0]);
    }
  }

  lemma ListsEmpty()
    ensures Lists([], map[])
  {
  }

  lemma ListsSnoc(s: seq<DirEntry>, t: Table, e: DirEntry)
    requires Lists(s, t) && e.name !in t
    ensures Lists(s + [e], t[e.name := ValueOf(e)])
  {
    var t' := t[e.name := ValueOf(e)];
    forall x ensures x in s + [e] <==> InTable(t', x) {
      assert x in s <==> InTable(t, x);
    }
    forall x, y | x in s && y in [e] ensures Key(x) != Key(y) {
      assert InTable(t, x);
      KeyOrder(x.name, y.name);
    }
    JoinNoRepeat(s, [e]);
  }

  /** In a listing each name occurs once. */
  lemma ListsFresh(s: seq<DirEntry>, t: Table, i: nat, t': Table)
    requires Lists(s, t) && i < |s| && Lists(s[..i], t')
    ensures s[i].name !in t' && InTable(t, s[i])
  {
    assert s[i] in s;
    if s[i].name in t' {
      assert InTable(t', DirEntry(s[i].name, t'[s[i].name].id, t'[s[i].name].kind));
    }
  }

  lemma {:induction false} ListsCount(s: seq<DirEntry>, t: Table)
    requires Lists(s, t)
    ensures |s| == |t|
  {
    if s == [] {
      forall k ensures k !in t {
        assert k in t ==> InTable(t, DirEntry(k, t[k].id, t[k].kind));
      }
      assert t == map[];
    } else {
      var last := s[|s| - 1];
      var s', t' := s[..|s| - 1], t - {last.name};
      ListsInit(s, t);
      ListsCount(s', t');
      assert last in s && InTable(t, last);
      assert t == t'[last.name := t[last.name]];
    }
  }

  lemma ListsInit(s: seq<DirEntry>, t: Table)
    requires Lists(s, t) && s != []
    ensures Lists(s[..|s| - 1], t - {s[|s| - 1].name})
  {
    var last := s[|s| - 1];
    var s', t' := s[..|s| - 1], t - {last.name};
    assert s == s' + [last];
    assert last in s && InTable(t, last);
    forall x ensures x in s' <==> InTable(t', x) {
      assert x in s <==> InTable(t, x);
      if x in s' {
        var j :| 0 <= j < |s'| && s'[j] == x;
        assert Key(s[j]) != Key(last);
        KeyOrder(x.name, last.name);
      }
    }
  }

  lemma ListsUnique(s: seq<DirEntry>, t: Table, t': Table)
    requires Lists(s, t) && Lists(s, t')
    ensures t == t'
  {
    forall k ensures (k in t <==> k in t') && (k in t ==> t[k] == t'[k]) {
      if k in t { assert InTable(t, DirEntry(k, t[k].id, t[k].kind)) && DirEntry(k, t[k].id, t[k].kind) in s; }
      if k in t' { assert InTable(t', DirEntry(k, t'[k].id, t'[k].kind)) && DirEntry(k, t'[k].id, t'[k].kind) in s; }
    }
  }
}
