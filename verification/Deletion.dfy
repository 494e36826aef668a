/** Restoring occupancy after a removal: what one level of `balance_up` does to the tree. */
module Deletion {
  import opened Names
  import opened Entries
  import opened Forest
  import opened Steps
  import opened RootSteps
  import opened Contents
  import opened Search

  /** The tree is in order except that `n` may have one entry too few. */
  ghost predicate Shrunk(f: Forest, root: nat, n: nat) {
    n in f && INVALID_PAGE !in f && Shape(f, root, {}) && Occupied(f, root, n)
  }

  /** Nothing needs doing when `n` is the root and keeps an entry or is a leaf, or has enough entries. */
  lemma BalancedEnough(f: Forest, root: nat, n: nat)
    requires Shrunk(f, root, n)
    requires if n == root then f[n].entries != [] || f[n].ht == 0 else |f[n].entries| >= 6
    ensures Occupied(f, root, INVALID_PAGE)
  {
    forall p | p in f ensures NodeOccupied(f, root, INVALID_PAGE, p) {
      assert NodeOccupied(f, root, n, p);
    }
  }

  lemma CollapseOccupied(f: Forest, root: nat, c: nat)
    requires Shrunk(f, root, root) && c in f && c != root
    ensures Occupied(Collapse(f, root, c), c, INVALID_PAGE)
  {
    var f' := Collapse(f, root, c);
    forall p | p in f' ensures NodeOccupied(f', c, INVALID_PAGE, p) {
      assert NodeOccupied(f, root, root, p);
    }
  }

  /** A node other than the root has a neighbour under the same parent. */
  lemma HasNeighbour(f: Forest, root: nat, n: nat, i: nat)
    requires Shrunk(f, root, n) && n != root
    requires f[n].par in f && i < |f[f[n].par].children| && f[f[n].par].children[i] == n
    ensures var q := f[n].par;
            && NodeOk(f, q) && |f[q].children| >= 2 && |f[q].children| == |f[q].entries| + 1
            && (i + 1 < |f[q].children| ==> ChildOk(f, q, i + 1) && Neighbours(f, q, i, n, f[q].children[i + 1]))
            && (i > 0 ==> ChildOk(f, q, i - 1) && Neighbours(f, q, i - 1, f[q].children[i - 1], n))
  {
    var q := f[n].par;
    assert NodeOk(f, q) && NodeOccupied(f, root, n, q);
    assert ChildOk(f, q, i);
    if i + 1 < |f[q].children| { assert ChildOk(f, q, i + 1); }
    if i > 0 { assert ChildOk(f, q, i - 1); }
  }

  /** All entries of a node come before all entries of its right neighbour. */
  lemma NeighboursOrdered(f: Forest, q: nat, k: nat, l: nat, r: nat)
    requires Nodes(f) && Neighbours(f, q, k, l, r)
    ensures forall i, j :: 0 <= i < |f[l].entries| && 0 <= j < |f[r].entries| ==> Key(f[l].entries[i]) < Key(f[r].entries[j])
  {
    MergeFacts(f, q, k, l, r);
  }

  lemma MergeShape(f: Forest, root: nat, q: nat, k: nat, l: nat, r: nat)
    requires Shape(f, root, {}) && Neighbours(f, q, k, l, r) && INVALID_PAGE !in f
    ensures Shape(Merge(f, q, k, l, r), root, {}) && Same(f, Merge(f, q, k, l, r))
  {
    MergeFacts(f, q, k, l, r);
    MergeView(f, q, k, l, r);
    MergeOk(f, {root} + {}, q, k, l, r);
    MergeSame(f, q, k, l, r);
  }

  lemma MergeOccupied(f: Forest, root: nat, n: nat, q: nat, k: nat, l: nat, r: nat)
    requires Shrunk(f, root, n) && Neighbours(f, q, k, l, r) && (n == l || n == r) && n != root
    requires |f[l].entries| + |f[r].entries| < BTREE_MAX_NUM_ENTRIES
    ensures Occupied(Merge(f, q, k, l, r), root, q)
  {
    MergeFacts(f, q, k, l, r);
    MergeView(f, q, k, l, r);
    var f' := Merge(f, q, k, l, r);
    assert NodeOccupied(f, root, n, l) && NodeOccupied(f, root, n, r) && NodeOccupied(f, root, n, q);
    forall p | p in f' ensures NodeOccupied(f', root, q, p) {
      assert NodeOccupied(f, root, n, p);
    }
  }

  lemma RotateShape(f: Forest, root: nat, q: nat, k: nat, l: nat, r: nat, m: nat)
    requires Shape(f, root, {}) && Neighbours(f, q, k, l, r) && INVALID_PAGE !in f
    requires m < |f[l].entries| + 1 + |f[r].entries|
    ensures Shape(Rotate(f, q, k, l, r, m), root, {}) && Same(f, Rotate(f, q, k, l, r, m))
  {
    MergeFacts(f, q, k, l, r);
    RotateView(f, q, k, l, r, m);
    RotateOk(f, {root} + {}, q, k, l, r, m);
    RotateSame(f, {root} + {}, q, k, l, r, m);
    RotateFrame(f, q, k, l, r, m);
  }

  /** The two halves keep height and parent, and the children divided hang from one of the nodes. */
  lemma RotateParts(f: Forest, q: nat, k: nat, l: nat, r: nat, m: nat)
    requires Nodes(f) && Neighbours(f, q, k, l, r) && m < |f[l].entries| + 1 + |f[r].entries|
    ensures var j := Joined(f, q, k, l, r);
            && SplitLeft(j, m).ht == f[l].ht && SplitRight(j, m).ht == f[r].ht
            && SplitLeft(j, m).par == f[l].par && SplitRight(j, m).par == f[r].par
            && forall c :: c in LeftKids(j.children, m) || c in RightKids(j.children, m) ==>
                 c in f && (f[c].par == l || f[c].par == r)
  {
    MergeFacts(f, q, k, l, r);
    var j := Joined(f, q, k, l, r);
    assert forall c :: c in j.children <==> c in f[l].children || c in f[r].children;
    KidsSplit(j.children, m);
  }

  lemma RotateFrame(f: Forest, q: nat, k: nat, l: nat, r: nat, m: nat)
    requires Nodes(f) && Neighbours(f, q, k, l, r) && m < |f[l].entries| + 1 + |f[r].entries|
    ensures var f' := Rotate(f, q, k, l, r, m);
            && f'.Keys == f.Keys
            && (forall p :: p in f ==> f'[p].ht == f[p].ht)
            && (forall p :: p in f && p != l && p != r ==> f'[p].lo == f[p].lo && f'[p].hi == f[p].hi)
            && (forall p :: p in f && p != q && p != l && p != r ==> f'[p].entries == f[p].entries)
            && (forall p :: p in f && f[p].par != l && f[p].par != r ==> f'[p].par == f[p].par)
  {
    hide NodeOk, Adopt, LeftKids, RightKids, SplitLeft, SplitRight;
    MergeFacts(f, q, k, l, r);
    RotateParts(f, q, k, l, r, m);
    var j := Joined(f, q, k, l, r);
    var f1 := f[l := SplitLeft(j, m)][r := SplitRight(j, m)][q := f[q].(entries := f[q].entries[k := j.entries[m]])];
    var f2 := Adopt(f1, LeftKids(j.children, m), l);
    AdoptKeys(f1, LeftKids(j.children, m), l);
    AdoptKeys(f2, RightKids(j.children, m), r);
    assert Rotate(f, q, k, l, r, m) == Adopt(f2, RightKids(j.children, m), r);
    forall p | p in f
      ensures var g := Rotate(f, q, k, l, r, m)[p];
              g == f1[p].(par := g.par) && (f[p].par != l && f[p].par != r ==> g.par == f1[p].par)
    {
      AdoptFrame(f1, LeftKids(j.children, m), l, p);
      AdoptFrame(f2, RightKids(j.children, m), r, p);
    }
  }

  /** Evening out 13 or more entries leaves both nodes with at least six. */
  lemma RotateOccupied(f: Forest, root: nat, n: nat, q: nat, k: nat, l: nat, r: nat, m: nat)
    requires Shrunk(f, root, n) && Neighbours(f, q, k, l, r) && (n == l || n == r) && n != root && |f[n].entries| < 6
    requires |f[l].entries| + |f[r].entries| >= BTREE_MAX_NUM_ENTRIES
    requires m == (|f[l].entries| + 1 + |f[r].entries|) / 2
    ensures Occupied(Rotate(f, q, k, l, r, m), root, q)
  {
    MergeFacts(f, q, k, l, r);
    RotateView(f, q, k, l, r, m);
    RotateFrame(f, q, k, l, r, m);
    var f' := Rotate(f, q, k, l, r, m);
    assert NodeOccupied(f, root, n, l) && NodeOccupied(f, root, n, r) && NodeOccupied(f, root, n, q);
    forall p | p in f' ensures NodeOccupied(f', root, q, p) {
      assert NodeOccupied(f, root, n, p);
    }
  }

  lemma RotateBalances(f: Forest, root: nat, n: nat, q: nat, k: nat, l: nat, r: nat, m: nat)
    requires Shrunk(f, root, n) && Neighbours(f, q, k, l, r) && (n == l || n == r) && n != root && |f[n].entries| < 6
    requires |f[l].entries| + |f[r].entries| >= BTREE_MAX_NUM_ENTRIES
    requires m == (|f[l].entries| + 1 + |f[r].entries|) / 2
    ensures var f' := Rotate(f, q, k, l, r, m);
            Shrunk(f', root, q) && Same(f, f') && f'[q].ht == f[q].ht && f'[root].ht == f[root].ht
  {
    RotateFrame(f, q, k, l, r, m);
    RotateShape(f, root, q, k, l, r, m);
    RotateOccupied(f, root, n, q, k, l, r, m);
  }

  lemma MergeBalances(f: Forest, root: nat, n: nat, q: nat, k: nat, l: nat, r: nat)
    requires Shrunk(f, root, n) && Neighbours(f, q, k, l, r) && (n == l || n == r) && n != root
    requires |f[l].entries| + |f[r].entries| < BTREE_MAX_NUM_ENTRIES
    ensures var f' := Merge(f, q, k, l, r);
            Shrunk(f', root, q) && Same(f, f') && f'[q].ht == f[q].ht && f'[root].ht == f[root].ht && r != q
  {
    MergeFacts(f, q, k, l, r);
    MergeView(f, q, k, l, r);
    MergeShape(f, root, q, k, l, r);
    MergeOccupied(f, root, n, q, k, l, r);
  }

  /** Merging carried out as trim the parent, re-parent, fill, free. */
  lemma MergeAs(f: Forest, q: nat, k: nat, l: nat, r: nat)
    requires Nodes(f) && Neighbours(f, q, k, l, r)
    ensures l !in f[r].children && q !in f[r].children && r !in f[r].children && l != q && r != q && l != r && f[l].par == q
    ensures Adopt(f[q := WithoutEntry(f[q], k)], f[r].children, l)[l := Joined(f, q, k, l, r)] - {r} == Merge(f, q, k, l, r)
  {
    MergeFacts(f, q, k, l, r);
    var a := Adopt(f[q := WithoutEntry(f[q], k)], f[r].children, l)[l := Joined(f, q, k, l, r)];
    var b := Adopt(f, f[r].children, l)[l := Joined(f, q, k, l, r)][q := WithoutEntry(f[q], k)];
    assert a == b;
  }

  lemma RemoveShape(f: Forest, root: nat, n: nat, i: nat)
    requires Shape(f, root, {}) && INVALID_PAGE !in f && Occupied(f, root, INVALID_PAGE)
    requires n in f && f[n].ht == 0 && i < |f[n].entries|
    ensures Shrunk(LeafErase(f, n, i), root, n) && Loses(f, LeafErase(f, n, i), f[n].entries[i])
  {
    var f' := LeafErase(f, n, i);
    LeafEraseOk(f, {root} + {}, n, i);
    LeafEraseLoses(f, root, n, i);
    forall p | p in f' ensures NodeOccupied(f', root, n, p) {
      assert NodeOccupied(f, root, INVALID_PAGE, p);
    }
  }

  lemma ReplaceShape(f: Forest, root: nat, n: nat, i: nat, sp: seq<nat>)
    requires Shape(f, root, {}) && INVALID_PAGE !in f && Occupied(f, root, INVALID_PAGE)
    requires Spine(f, n, i, sp)
    ensures f[Leaf(sp)].entries != []
    ensures Shrunk(Replace(f, n, i, sp), root, Leaf(sp)) && Loses(f, Replace(f, n, i, sp), f[n].entries[i])
  {
    var leaf := Leaf(sp);
    SpineAway(f, n, i, sp, |sp| - 1);
    assert NodeOccupied(f, root, INVALID_PAGE, leaf);
    assert leaf != root by { assert n != root ==> f[n].ht < f[root].ht; }
    var f' := Replace(f, n, i, sp);
    ReplaceOk(f, {root} + {}, n, i, sp);
    ReplaceLoses(f, root, n, i, sp);
    RootOffSpine(f, root, n, i, sp);
    forall p | p in f' ensures NodeOccupied(f', root, leaf, p) {
      assert NodeOccupied(f, root, INVALID_PAGE, p);
    }
  }

  lemma RootOffSpine(f: Forest, root: nat, n: nat, i: nat, sp: seq<nat>)
    requires Shape(f, root, {}) && Spine(f, n, i, sp)
    ensures root !in sp
  {
    forall t | 0 <= t < |sp| ensures sp[t] != root {
      SpineAway(f, n, i, sp, t);
      assert n != root ==> f[n].ht < f[root].ht;
    }
  }

  lemma ChildIndex(f: Forest, q: nat, i: nat, j: nat)
    requires Nodes(f) && q in f && i < |f[q].children| && j < |f[q].children| && f[q].children[i] == f[q].children[j]
    ensures i == j
  {
    if i < j { ChildrenDistinct(f, q, i, j); }
    if j < i { ChildrenDistinct(f, q, j, i); }
  }

  /** Once its children have a new parent, nothing hangs from the merged node. */
  lemma NoneUnder(f: Forest, q: nat, k: nat, l: nat, r: nat, root: nat)
    requires Nodes(f) && Links(f, {root}) && Neighbours(f, q, k, l, r) && root in f && f[root].par != r
    ensures var f' := Adopt(f[q := WithoutEntry(f[q], k)], f[r].children, l)[l := Joined(f, q, k, l, r)];
            forall p :: p in f' ==> f'[p].par != r
  {
    MergeFacts(f, q, k, l, r);
    var f' := Adopt(f[q := WithoutEntry(f[q], k)], f[r].children, l)[l := Joined(f, q, k, l, r)];
    forall p | p in f' ensures f'[p].par != r {
      assert p != root ==> Linked(f, p);
    }
  }

  /** Evening out, before the moved children are re-parented. */
  ghost function Shared(f: Forest, q: nat, k: nat, l: nat, r: nat, m: nat): Forest
    requires Neighbours(f, q, k, l, r) && m < |f[l].entries| + 1 + |f[r].entries|
  {
    var j := Joined(f, q, k, l, r);
    f[l := SplitLeft(j, m)][r := SplitRight(j, m)][q := f[q].(entries := f[q].entries[k := j.entries[m]])]
  }

  lemma RotateAs(f: Forest, q: nat, k: nat, l: nat, r: nat, m: nat)
    requires Nodes(f) && Neighbours(f, q, k, l, r) && m < |f[l].entries| + 1 + |f[r].entries|
    ensures var f1 := Shared(f, q, k, l, r, m);
            && l in f1 && r in f1 && l !in f1[l].children && r !in f1[l].children
            && Adopt(Adopt(f1, f1[l].children, l), f1[r].children, r) == Rotate(f, q, k, l, r, m)
  {
    MergeFacts(f, q, k, l, r);
    KidsSplit(Joined(f, q, k, l, r).children, m);
  }

  lemma JoinedChildren(f: Forest, q: nat, k: nat, l: nat, r: nat)
    requires Nodes(f) && Neighbours(f, q, k, l, r)
    ensures f[l].children == [] <==> f[r].children == []
  {
    MergeFacts(f, q, k, l, r);
  }

  /** Dropping the root carried out as re-parent, free, relabel. */
  lemma CollapseAs(f: Forest, root: nat, c: nat)
    requires Shape(f, root, {}) && INVALID_PAGE !in f && f[root].children == [c]
    ensures c in f && c != root
    ensures var f' := Adopt(f, f[root].children, INVALID_PAGE);
            && (forall p :: p in f' ==> f'[p].par != root)
            && SameTree(f' - {root}, Collapse(f, root, c))
  {
    assert NodeOk(f, root) && ChildOk(f, root, 0);
    var f' := Adopt(f, f[root].children, INVALID_PAGE);
    forall p | p in f' ensures f'[p].par != root {
      assert p != root ==> Linked(f, p);
    }
  }

  /** Which of two neighbours is the left one shows in their entries. */
  lemma LeftOrRight(f: Forest, root: nat, n: nat, q: nat, k: nat, s: nat)
    requires Shrunk(f, root, n) && n != root && s != root
    requires Neighbours(f, q, k, n, s) || Neighbours(f, q, k, s, n)
    ensures f[n].entries != [] && f[s].entries != []
    ensures var a, b := f[n].entries[|f[n].entries| - 1], f[s].entries[0];
            if Less(a.name, b.name) then Neighbours(f, q, k, n, s) else Neighbours(f, q, k, s, n)
  {
    assert NodeOccupied(f, root, n, n) && NodeOccupied(f, root, n, s);
    var a, b := f[n].entries[|f[n].entries| - 1], f[s].entries[0];
    KeyOrder(a.name, b.name);
    if Neighbours(f, q, k, n, s) {
      NeighboursOrdered(f, q, k, n, s);
      assert Key(a) < Key(b);
    } else {
      NeighboursOrdered(f, q, k, s, n);
      assert Key(f[s].entries[0]) < Key(f[n].entries[|f[n].entries| - 1]);
    }
  }

  lemma NeighbourRoot(f: Forest, root: nat, q: nat, k: nat, n: nat, s: nat)
    requires Shape(f, root, {}) && INVALID_PAGE !in f
    requires Neighbours(f, q, k, n, s) || Neighbours(f, q, k, s, n)
    ensures n != root && s != root
  {
    if Neighbours(f, q, k, n, s) { MergeFacts(f, q, k, n, s); } else { MergeFacts(f, q, k, s, n); }
  }

  lemma ParentHeight(f: Forest, root: nat, n: nat)
    requires Shape(f, root, {}) && n in f && n != root
    ensures f[n].par in f && f[f[n].par].ht == f[n].ht + 1 <= f[root].ht
  {
    assert Linked(f, n) && NodeOk(f, f[n].par);
    var i := ParentSlot(f, n);
  }

  /** The entries next to an entry of an inner node lie on its two sides. */
  lemma AroundEntry(f: Forest, root: nat, n: nat, i: nat)
    requires Shape(f, root, {}) && Occupied(f, root, INVALID_PAGE) && INVALID_PAGE !in f && n in f && f[n].ht > 0
    requires i < |f[n].entries|
    ensures ChildOk(f, n, i) && ChildOk(f, n, i + 1)
    ensures var ls, rs := f[f[n].children[i]].entries, f[f[n].children[i + 1]].entries;
            ls != [] && rs != [] && Key(ls[|ls| - 1]) < Key(f[n].entries[i]) < Key(rs[0])
  {
    assert NodeOk(f, n) && ChildOk(f, n, i) && ChildOk(f, n, i + 1);
    var l, r := f[n].children[i], f[n].children[i + 1];
    assert NodeOk(f, l) && NodeOk(f, r);
    assert NodeOccupied(f, root, INVALID_PAGE, l) && NodeOccupied(f, root, INVALID_PAGE, r);
    assert l != root && r != root;
  }
}
