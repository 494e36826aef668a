/** The B-tree as a map from live page numbers to nodes, with an invariant that is local to
    each node and its children. Besides what a node stores, the map records its parent, its
    height above the leaves and an interval of ranks that confines its whole subtree. */
module Forest {
  import opened Entries

  datatype Tnode = Tnode(par: nat, children: seq<nat>, entries: seq<DirEntry>, ht: nat, lo: real, hi: real)

  type Forest = map<nat, Tnode>

  ghost function SlotLo(g: Tnode, i: int): real
    requires 0 <= i <= |g.entries|
  {
    if i == 0 then g.lo else Key(g.entries[i - 1])
  }

  ghost function SlotHi(g: Tnode, i: int): real
    requires 0 <= i <= |g.entries|
  {
    if i == |g.entries| then g.hi else Key(g.entries[i])
  }

  /** Node `h`, stored under `c`, may hang in slot `i` of node `g`, stored under `p`. */
  ghost predicate Fits(g: Tnode, p: nat, i: int, h: Tnode) {
    && 0 <= i <= |g.entries|
    && h.par == p
    && h.ht + 1 == g.ht
    && SlotLo(g, i) <= h.lo
    && h.hi <= SlotHi(g, i)
  }

  ghost predicate ChildOk(f: Forest, p: nat, i: int) {
    && p in f
    && 0 <= i < |f[p].children|
    && f[p].children[i] in f
    && Fits(f[p], p, i, f[f[p].children[i]])
  }

  ghost predicate NodeOk(f: Forest, p: nat) {
    && p in f
    && f[p].lo < f[p].hi
    && Sorted(f[p].entries)
    && Within(f[p].entries, f[p].lo, f[p].hi)
    && (if f[p].ht == 0 then f[p].children == [] else |f[p].children| == |f[p].entries| + 1)
    && forall i :: 0 <= i < |f[p].children| ==> ChildOk(f, p, i)
  }

  ghost predicate Linked(f: Forest, p: nat) {
    && p in f
    && f[p].par in f
    && p in f[f[p].par].children
  }

  ghost predicate Nodes(f: Forest) {
    forall p {:trigger NodeOk(f, p)} :: p in f ==> NodeOk(f, p)
  }

  /** Every node outside `tops` hangs from its recorded parent. */
  ghost predicate Links(f: Forest, tops: set<nat>) {
    forall p {:trigger Linked(f, p)} :: p in f && p !in tops ==> Linked(f, p)
  }

  ghost predicate Below(f: Forest, tops: set<nat>, h: nat) {
    forall p {:trigger f[p].ht} :: p in f && p !in tops ==> f[p].ht < h
  }

  ghost predicate IsRoot(f: Forest, root: nat) {
    root in f && f[root].par == INVALID_PAGE && f[root].lo == -1.0 && f[root].hi == 1.0
  }

  /** Every node is well formed, and every node but the root and those in `pend` hangs from
      its recorded parent, strictly below the root. */
  ghost predicate Shape(f: Forest, root: nat, pend: set<nat>) {
    && IsRoot(f, root)
    && Nodes(f)
    && Links(f, {root} + pend)
    && Below(f, {root} + pend, f[root].ht)
  }

  /** Occupancy: 6 to 13 entries, except that the root may have fewer (but at least one when it
      has children) and that `slack` may have one fewer than it should. */
  ghost predicate Occupied(f: Forest, root: nat, slack: nat) {
    forall p {:trigger NodeOccupied(f, root, slack, p)} :: p in f ==> NodeOccupied(f, root, slack, p)
  }

  ghost predicate NodeOccupied(f: Forest, root: nat, slack: nat, p: nat) {
    && p in f
    && |f[p].entries| <= BTREE_MAX_NUM_ENTRIES
    && (p != root && p != slack ==> 6 <= |f[p].entries|)
    && (p != root && p == slack ==> 5 <= |f[p].entries|)
    && (p == root && p != slack && f[p].ht > 0 ==> 1 <= |f[p].entries|)
  }

  /** Some node stores entry `e`. */
  ghost predicate Has(f: Forest, e: DirEntry) {
    exists p :: p in f && e in f[p].entries
  }

  // --- Consequences of the shape ---------------------------------------------------------

  /** The slots of a node are ordered from left to right. */
  lemma SlotsOrdered(f: Forest, p: nat, i: int, j: int)
    requires NodeOk(f, p)
    requires 0 <= i < j <= |f[p].entries|
    ensures SlotHi(f[p], i) <= SlotLo(f[p], j)
    ensures f[p].lo <= SlotLo(f[p], i) && SlotHi(f[p], j) <= f[p].hi
  {
  }

  /** No entry of a node lies inside the interval of one of its children. */
  lemma SlotExcludes(f: Forest, p: nat, i: int, j: int)
    requires NodeOk(f, p) && 0 <= i < |f[p].children| && 0 <= j < |f[p].entries|
    ensures var c := f[p].children[i];
            c in f && !(f[c].lo < Key(f[p].entries[j]) < f[c].hi)
  {
    assert ChildOk(f, p, i);
    if i <= j {
      assert i == j || Key(f[p].entries[i]) < Key(f[p].entries[j]);
    } else {
      assert j == i - 1 || Key(f[p].entries[j]) < Key(f[p].entries[i - 1]);
    }
  }

  /** A linked node sits in one slot of its parent and its interval lies inside that slot. */
  lemma ParentSlot(f: Forest, p: nat) returns (i: int)
    requires Linked(f, p) && NodeOk(f, f[p].par)
    ensures ChildOk(f, f[p].par, i) && f[f[p].par].children[i] == p
    ensures f[f[p].par].lo <= f[p].lo && f[p].hi <= f[f[p].par].hi
    ensures f[f[p].par].ht == f[p].ht + 1
  {
    var g := f[f[p].par];
    i :| 0 <= i < |g.children| && g.children[i] == p;
    assert ChildOk(f, f[p].par, i);
  }

  /** Intervals of two children of one node do not overlap. */
  lemma SiblingsApart(f: Forest, p: nat, i: int, j: int)
    requires NodeOk(f, p) && 0 <= i < j < |f[p].children|
    ensures ChildOk(f, p, i) && ChildOk(f, p, j)
    ensures f[f[p].children[i]].hi <= f[f[p].children[j]].lo
  {
    assert ChildOk(f, p, i) && ChildOk(f, p, j);
    SlotsOrdered(f, p, i, j);
  }

  /** The children of a node are pairwise distinct. */
  lemma ChildrenDistinct(f: Forest, p: nat, i: int, j: int)
    requires Nodes(f) && p in f && 0 <= i < j < |f[p].children|
    ensures f[p].children[i] != f[p].children[j]
  {
    assert NodeOk(f, p) && ChildOk(f, p, i);
    assert NodeOk(f, f[p].children[i]);
    SiblingsApart(f, p, i, j);
  }

  /** At each height at most one node's interval contains a given rank. */
  lemma {:induction false} UniqueAt(f: Forest, root: nat, p: nat, q: nat, x: real)
    requires Shape(f, root, {}) && p in f && q in f
    requires f[p].ht == f[q].ht
    requires f[p].lo < x < f[p].hi && f[q].lo < x < f[q].hi
    ensures p == q
    decreases f[root].ht - f[p].ht
  {
    if p != root && q != root {
      assert Linked(f, p) && Linked(f, q);
      assert NodeOk(f, f[p].par) && NodeOk(f, f[q].par);
      var i := ParentSlot(f, p);
      var j := ParentSlot(f, q);
      UniqueAt(f, root, f[p].par, f[q].par, x);
      if i < j { SiblingsApart(f, f[p].par, i, j); }
      if j < i { SiblingsApart(f, f[p].par, j, i); }
    }
  }

  /** The interval of a lower node contains no entry of a higher node. */
  lemma {:induction false} KeyNotBelow(f: Forest, root: nat, p: nat, q: nat, j: int)
    requires Shape(f, root, {}) && p in f && q in f
    requires f[p].ht < f[q].ht
    requires 0 <= j < |f[q].entries|
    ensures !(f[p].lo < Key(f[q].entries[j]) < f[p].hi)
    decreases f[root].ht - f[p].ht
  {
    var x := Key(f[q].entries[j]);
    if f[p].lo < x < f[p].hi {
      assert Linked(f, p) && NodeOk(f, f[p].par) && NodeOk(f, q);
      var i := ParentSlot(f, p);
      if f[f[p].par].ht < f[q].ht {
        KeyNotBelow(f, root, f[p].par, q, j);
      } else {
        UniqueAt(f, root, f[p].par, q, x);
        SlotExcludes(f, q, i, j);
      }
    }
  }

  /** No name is stored twice in a tree. */
  lemma UniqueKey(f: Forest, root: nat, p: nat, i: int, q: nat, j: int)
    requires Shape(f, root, {}) && p in f && q in f
    requires 0 <= i < |f[p].entries| && 0 <= j < |f[q].entries|
    requires Key(f[p].entries[i]) == Key(f[q].entries[j])
    ensures p == q && i == j
  {
    assert NodeOk(f, p) && NodeOk(f, q);
    var x := Key(f[p].entries[i]);
    if f[p].ht < f[q].ht {
      KeyNotBelow(f, root, p, q, j);
    } else if f[q].ht < f[p].ht {
      KeyNotBelow(f, root, q, p, i);
    } else {
      UniqueAt(f, root, p, q, x);
    }
  }
}
