/** Inserting an entry: what one level of `insert_and_balance` does to the tree. */
module Insertion {
  import opened Entries
  import opened Forest
  import opened Steps
  import opened RootSteps
  import opened Contents
  import opened Search

  ghost function PendingSet(c: nat): set<nat> {
    if c == INVALID_PAGE then {} else {c}
  }

  /** Entry `e`, and the node `c` behind it if there is one, are due to go to index `j` of `n`. */
  ghost predicate InsertReady(f: Forest, root: nat, n: nat, j: nat, e: DirEntry, c: nat) {
    && n in f && INVALID_PAGE !in f
    && Shape(f, root, PendingSet(c))
    && Occupied(f, root, INVALID_PAGE)
    && (if c == INVALID_PAGE then f[n].ht == 0 && Belongs(f[n], j, e)
        else Pending(f, n, j, e, c) && c != n && c != root && f[n].ht <= f[root].ht)
  }

  ghost function InsertStep(f: Forest, n: nat, j: nat, e: DirEntry, c: nat): Forest
    requires n in f && j <= |f[n].entries| && (c != INVALID_PAGE ==> j < |f[n].children|)
  {
    if c == INVALID_PAGE then f[n := WithEntry(f[n], j, e)] else ChildInsert(f, n, j, e, c)
  }

  /** All nodes but `n` have a legal number of entries. */
  ghost predicate OccupiedBut(f: Forest, root: nat, n: nat) {
    forall p :: p in f && p != n ==> NodeOccupied(f, root, INVALID_PAGE, p)
  }

  lemma InsertStepShape(f: Forest, root: nat, n: nat, j: nat, e: DirEntry, c: nat)
    requires InsertReady(f, root, n, j, e, c)
    ensures Shape(InsertStep(f, n, j, e, c), root, {})
  {
    var f' := InsertStep(f, n, j, e, c);
    if c == INVALID_PAGE {
      LeafInsertOk(f, {root} + {}, n, j, e);
    } else {
      assert {root} + {} + {c} == {root} + PendingSet(c);
      ChildInsertOk(f, {root} + {}, n, j, e, c);
    }
  }

  lemma InsertStepOccupied(f: Forest, root: nat, n: nat, j: nat, e: DirEntry, c: nat)
    requires n in f && j <= |f[n].entries| && (c != INVALID_PAGE ==> j < |f[n].children|)
    requires Occupied(f, root, INVALID_PAGE)
    ensures var f' := InsertStep(f, n, j, e, c);
            && OccupiedBut(f', root, n)
            && (|f'[n].entries| <= BTREE_MAX_NUM_ENTRIES ==> Occupied(f', root, INVALID_PAGE))
            && |f'[n].entries| <= BTREE_MAX_NUM_ENTRIES + 1
  {
    var f' := InsertStep(f, n, j, e, c);
    assert NodeOccupied(f, root, INVALID_PAGE, n);
    forall p | p in f' && p != n ensures NodeOccupied(f', root, INVALID_PAGE, p) {
      assert NodeOccupied(f, root, INVALID_PAGE, p);
    }
  }

  lemma InsertStepGains(f: Forest, n: nat, j: nat, e: DirEntry, c: nat)
    requires n in f && j <= |f[n].entries| && (c != INVALID_PAGE ==> j < |f[n].children|)
    ensures Gains(f, InsertStep(f, n, j, e, c), e)
  {
    EntryInsertGains(f, InsertStep(f, n, j, e, c), n, j, e);
  }

  /** A node with 14 entries splits into legal nodes of 6 and 7 around the promoted entry. */
  lemma SplitOccupied(f: Forest, root: nat, n: nat, s: nat)
    requires n in f && s !in f && s != root && s != INVALID_PAGE && n != INVALID_PAGE
    requires |f[n].entries| == BTREE_MAX_NUM_ENTRIES + 1 && OccupiedBut(f, root, n)
    ensures Occupied(Split(f, n, s, 6), root, INVALID_PAGE)
  {
    var f' := Split(f, n, s, 6);
    forall p | p in f' ensures NodeOccupied(f', root, INVALID_PAGE, p) {
      assert p != n && p != s ==> NodeOccupied(f, root, INVALID_PAGE, p);
    }
  }

  /** Splitting below the root leaves the new node ready to be attached to the parent. */
  lemma SplitBelow(f: Forest, root: nat, n: nat, s: nat) returns (j: nat)
    requires Shape(f, root, {}) && n in f && n != root && s !in f && s != INVALID_PAGE && INVALID_PAGE !in f
    requires |f[n].entries| == BTREE_MAX_NUM_ENTRIES + 1 && OccupiedBut(f, root, n)
    ensures InsertReady(Split(f, n, s, 6), root, f[n].par, j, f[n].entries[6], s)
  {
    assert NodeOk(f, n) && Linked(f, n);
    var q := f[n].par;
    assert NodeOk(f, q);
    j := ParentSlot(f, n);
    SplitOk(f, {root} + {}, n, s, 6);
    SplitOccupied(f, root, n, s);
    assert {root} + {} + {s} == {root} + PendingSet(s);
    SplitPending(f, root, n, s, j);
  }

  lemma SplitPending(f: Forest, root: nat, n: nat, s: nat, j: nat)
    requires Shape(f, root, {}) && n in f && n != root && s !in f && 6 < |f[n].entries|
    requires ChildOk(f, f[n].par, j) && f[f[n].par].children[j] == n
    ensures Pending(Split(f, n, s, 6), f[n].par, j, f[n].entries[6], s)
    ensures Below(Split(f, n, s, 6), {root, s}, f[root].ht) && root in Split(f, n, s, 6)
    ensures IsRoot(Split(f, n, s, 6), root) && Split(f, n, s, 6)[root].ht == f[root].ht
    ensures f[f[n].par].ht <= f[root].ht
  {
    var q := f[n].par;
    assert NodeOk(f, n) && NodeOk(f, q);
    Kids(f, n);
    assert forall c :: c in RightKids(f[n].children, 6) ==> c in f[n].children;
    assert Linked(f, n);
  }

  /** Splitting the root puts both halves under a new root. */
  lemma SplitAtRoot(f: Forest, n: nat, s: nat, r: nat)
    requires Shape(f, n, {}) && s !in f && r !in f && r != s && s != INVALID_PAGE && r != INVALID_PAGE && INVALID_PAGE !in f
    requires |f[n].entries| == BTREE_MAX_NUM_ENTRIES + 1 && OccupiedBut(f, n, n)
    ensures var f' := NewRoot(Split(f, n, s, 6), n, s, r, f[n].entries[6]);
            Shape(f', r, {}) && Occupied(f', r, INVALID_PAGE) && Gains(Split(f, n, s, 6), f', f[n].entries[6])
  {
    var e := f[n].entries[6];
    var f1 := Split(f, n, s, 6);
    assert NodeOk(f, n);
    SplitOk(f, {n} + {}, n, s, 6);
    assert {n} + {} + {s} == {n, s};
    NewRootOk(f1, n, s, r, e);
    NewRootGains(f1, n, s, r, e);
    NewRootOccupied(f, n, s, r);
  }

  lemma NewRootOccupied(f: Forest, n: nat, s: nat, r: nat)
    requires Shape(f, n, {}) && s !in f && r !in f && r != s && s != INVALID_PAGE && r != INVALID_PAGE && INVALID_PAGE !in f
    requires |f[n].entries| == BTREE_MAX_NUM_ENTRIES + 1 && OccupiedBut(f, n, n)
    ensures var f' := NewRoot(Split(f, n, s, 6), n, s, r, f[n].entries[6]);
            Occupied(f', r, INVALID_PAGE) && Below(f', {r}, f'[r].ht)
  {
    var f' := NewRoot(Split(f, n, s, 6), n, s, r, f[n].entries[6]);
    forall p | p in f' ensures NodeOccupied(f', r, INVALID_PAGE, p) {
      assert p != n && p != s && p != r ==> NodeOccupied(f, n, INVALID_PAGE, p);
    }
  }

  ghost function Halved(f: Forest, n: nat, s: nat, m: nat): Forest
    requires n in f && m < |f[n].entries|
  {
    Adopt(f[s := SplitRight(f[n], m)], RightKids(f[n].children, m), s)[n := SplitLeft(f[n], m)]
  }

  /** Splitting carried out as allocate, fill, re-parent, trim. */
  lemma SplitAs(f: Forest, n: nat, s: nat, m: nat, g: Tnode)
    requires Nodes(f) && n in f && m < |f[n].entries| && s !in f
    ensures n !in RightKids(f[n].children, m) && f[s := g][n] == f[n]
    ensures Halved(f[s := g], n, s, m) == Split(f, n, s, m)
  {
    var cs := RightKids(f[n].children, m);
    Kids(f, n);
    assert forall c :: c in cs ==> c in f[n].children;
    assert n !in cs && s !in cs;
  }

  /** The index where an entry belongs is the one `lower_bound` finds. */
  lemma BelongsAt(g: Tnode, j: nat, k: nat, e: DirEntry)
    requires Sorted(g.entries) && Belongs(g, j, e) && Splits(g.entries, k, Key(e))
    ensures j == k
  {
    assert forall i :: 0 <= i < j ==> i == j - 1 || Key(g.entries[i]) < Key(g.entries[j - 1]);
  }

  lemma SplitHeights(f: Forest, n: nat, s: nat)
    requires Nodes(f) && n in f && s !in f && 6 < |f[n].entries| && f[n].par in f && Linked(f, n)
    ensures var f', q := Split(f, n, s, 6), f[n].par;
            && f'.Keys == f.Keys + {s}
            && q in f' && f'[q].ht == f[n].ht + 1
            && forall p :: p in f ==> f'[p].ht == f[p].ht
  {
    assert NodeOk(f, f[n].par);
    var i := ParentSlot(f, n);
  }

  /** Only the root names no parent. */
  lemma RootOrLinked(f: Forest, root: nat, n: nat)
    requires Shape(f, root, {}) && n in f && INVALID_PAGE !in f
    ensures root in f && Nodes(f) && (f[n].par == INVALID_PAGE <==> n == root)
    ensures n != root ==> Linked(f, n) && f[n].par in f && f[n].ht < f[root].ht
  {
    assert n != root ==> Linked(f, n);
  }

  lemma SplitKeys(f: Forest, n: nat, s: nat)
    requires Nodes(f) && n in f && s !in f && 6 < |f[n].entries|
    ensures var f' := Split(f, n, s, 6);
            f'.Keys == f.Keys + {s} && |f'.Keys| == |f.Keys| + 1 && f'[n].par == f[n].par == f'[s].par
  {
    Kids(f, n);
    assert forall c :: c in RightKids(f[n].children, 6) ==> c in f[n].children;
    assert Split(f, n, s, 6).Keys == f.Keys + {s};
  }

  /** A new root put together as allocate, fill, re-parent. */
  lemma NewRootAs(f: Forest, n: nat, s: nat, r: nat, e: DirEntry, g: Tnode)
    requires n in f && s in f && n != s && r !in f
    ensures var h := Tnode(INVALID_PAGE, [n, s], [e], f[n].ht + 1, -1.0, 1.0);
            f[r := g][r := h][n := f[n].(par := r)][s := f[s].(par := r)] == NewRoot(f, n, s, r, e)
  {
  }
}
