/** Changes at the root, removal of an entry, and the replacement of an inner entry by its
    predecessor. */
module RootSteps {
  import opened Entries
  import opened Forest
  import opened Steps

  // --- A new root above two halves ---------------------------------------------------------

  ghost function NewRoot(f: Forest, n: nat, s: nat, r: nat, e: DirEntry): Forest
    requires n in f && s in f
  {
    f[n := f[n].(par := r)][s := f[s].(par := r)][r := Tnode(INVALID_PAGE, [n, s], [e], f[n].ht + 1, -1.0, 1.0)]
  }

  lemma NewRootOk(f: Forest, n: nat, s: nat, r: nat, e: DirEntry)
    requires Nodes(f) && Links(f, {n, s}) && n in f && s in f && n != s && r !in f && r != INVALID_PAGE
    requires f[n].par == INVALID_PAGE && f[s].par == INVALID_PAGE && INVALID_PAGE !in f
    requires f[n].ht == f[s].ht && -1.0 <= f[n].lo && f[n].hi <= Key(e) <= f[s].lo && f[s].hi <= 1.0
    ensures Nodes(NewRoot(f, n, s, r, e)) && Links(NewRoot(f, n, s, r, e), {r})
  {
    var f' := NewRoot(f, n, s, r, e);
    assert NodeOk(f, n) && NodeOk(f, s);
    assert f'[r].children == [n, s] && f'[r].entries == [e];
    assert ChildOk(f', r, 0) && ChildOk(f', r, 1);
    forall p | p in f' ensures NodeOk(f', p) {
      if p != r { NodeOkFrame(f, f', p); }
    }
    forall p | p in f' && p !in {r} ensures Linked(f', p) {
      if p == n { assert f'[r].children[0] == p; }
      else if p == s { assert f'[r].children[1] == p; }
      else { assert Linked(f, p); }
    }
  }

  // --- Dropping an empty root -----------------------------------------------------------------

  ghost function Collapse(f: Forest, root: nat, c: nat): Forest
    requires c in f
  {
    f[c := f[c].(par := INVALID_PAGE, lo := -1.0, hi := 1.0)] - {root}
  }

  lemma WidenNode(f: Forest, f': Forest, c: nat)
    requires NodeOk(f, c) && c in f' && f'[c] == f[c].(par := f'[c].par, lo := f'[c].lo, hi := f'[c].hi)
    requires f'[c].lo <= f[c].lo && f[c].hi <= f'[c].hi
    requires forall d :: d in f && f[d].par == c ==> d in f' && f'[d] == f[d]
    ensures NodeOk(f', c)
  {
    forall i | 0 <= i < |f'[c].children| ensures ChildOk(f', c, i) {
      assert ChildOk(f, c, i);
    }
  }

  lemma CollapseOk(f: Forest, root: nat, c: nat)
    requires Shape(f, root, {}) && f[root].children == [c] && f[root].entries == [] && INVALID_PAGE !in f
    ensures c in f && c != root && Shape(Collapse(f, root, c), c, {})
  {
    assert NodeOk(f, root) && ChildOk(f, root, 0);
    var f' := Collapse(f, root, c);
    assert NodeOk(f, c);
    forall p | p in f' ensures NodeOk(f', p) {
      if p == c { WidenNode(f, f', c); } else { NodeOkFrame(f, f', p); }
    }
    forall p | p in f' && p !in {c} + {} ensures Linked(f', p) && f'[p].ht < f'[c].ht {
      assert Linked(f, p);
      var i := ParentSlot(f, p);
    }
  }

  // --- Removing an entry of a leaf ------------------------------------------------------------

  ghost function LeafErase(f: Forest, n: nat, i: nat): Forest
    requires n in f && i < |f[n].entries|
  {
    f[n := f[n].(entries := RemoveAt(f[n].entries, i))]
  }

  lemma LeafEraseOk(f: Forest, tops: set<nat>, n: nat, i: nat)
    requires Nodes(f) && Links(f, tops) && n in f && f[n].ht == 0 && i < |f[n].entries|
    ensures Nodes(LeafErase(f, n, i)) && Links(LeafErase(f, n, i), tops)
  {
    var f' := LeafErase(f, n, i);
    assert NodeOk(f, n);
    forall p | p in f' ensures NodeOk(f', p) {
      if p != n { NodeOkFrame(f, f', p); }
    }
    forall p | p in f' && p !in tops ensures Linked(f', p) {
      assert Linked(f, p);
    }
  }

  // --- Replacing an inner entry by its predecessor ----------------------------------------------

  /** `sp` leads from child `i` of `n` along last children down to a leaf. */
  ghost predicate Spine(f: Forest, n: nat, i: nat, sp: seq<nat>) {
    && n in f && i < |f[n].entries| && i < |f[n].children|
    && sp != [] && sp[0] == f[n].children[i]
    && SpineDown(f, sp)
  }

  ghost predicate LastChild(f: Forest, p: nat, c: nat) {
    p in f && f[p].children != [] && f[p].children[|f[p].children| - 1] == c
  }

  /** Each node of `sp` is the last child of the one before it; the last is a leaf. */
  ghost predicate SpineDown(f: Forest, sp: seq<nat>) {
    && (forall t :: 0 <= t < |sp| ==> sp[t] in f)
    && (forall t, u :: 0 <= t < |sp| && u == t + 1 < |sp| ==> LastChild(f, sp[t], sp[u]))
    && (sp != [] ==> f[sp[|sp| - 1]].ht == 0)
  }

  ghost function Leaf(sp: seq<nat>): nat
    requires sp != []
  {
    sp[|sp| - 1]
  }

  /** Going down the spine, intervals shrink; the leaf's entries come after those above. */
  lemma {:induction false} SpineBounds(f: Forest, sp: seq<nat>, t: nat)
    requires Nodes(f) && SpineDown(f, sp) && t < |sp|
    ensures f[sp[t]].lo <= f[Leaf(sp)].lo && f[Leaf(sp)].hi <= f[sp[t]].hi
    ensures f[sp[t]].ht == |sp| - 1 - t
    ensures t + 1 < |sp| ==> forall j :: 0 <= j < |f[sp[t]].entries| ==> Key(f[sp[t]].entries[j]) <= f[Leaf(sp)].lo
    decreases |sp| - t
  {
    if t + 1 < |sp| {
      SpineBounds(f, sp, t + 1);
      var g := f[sp[t]];
      assert NodeOk(f, sp[t]);
      assert LastChild(f, sp[t], sp[t + 1]);
      assert ChildOk(f, sp[t], |g.children| - 1);
    }
  }

  /** A spine has one node at each height. */
  lemma SpineOnly(f: Forest, sp: seq<nat>, t: nat, c: nat)
    requires Nodes(f) && SpineDown(f, sp) && t < |sp|
    requires c in f && f[c].ht == f[sp[t]].ht && c != sp[t]
    ensures c !in sp
  {
    SpineBounds(f, sp, t);
    forall u | 0 <= u < |sp| ensures sp[u] != c {
      SpineBounds(f, sp, u);
    }
  }

  /** The spine lies below `n`, and only its end is the leaf. */
  lemma SpineAway(f: Forest, n: nat, i: nat, sp: seq<nat>, t: nat)
    requires Nodes(f) && Spine(f, n, i, sp) && t < |sp|
    ensures f[sp[t]].ht < f[n].ht
    ensures t + 1 < |sp| ==> sp[t] != Leaf(sp) && f[sp[t]].ht > 0
    ensures forall c :: c in f && f[c].ht + 1 == f[sp[t]].ht ==> c != n
    ensures f[sp[t]].lo <= f[Leaf(sp)].lo && f[Leaf(sp)].hi <= f[sp[t]].hi
  {
    assert NodeOk(f, n) && ChildOk(f, n, i);
    SpineBounds(f, sp, 0);
    SpineBounds(f, sp, t);
    SpineBounds(f, sp, |sp| - 1);
  }

  ghost function Replaced(f: Forest, n: nat, i: nat, sp: seq<nat>, p: nat): Tnode
    requires Spine(f, n, i, sp) && f[Leaf(sp)].entries != [] && p in f
  {
    var es := f[Leaf(sp)].entries;
    var e := es[|es| - 1];
    if p == n then f[n].(entries := f[n].entries[i := e])
    else if p == Leaf(sp) then f[p].(entries := es[..|es| - 1], hi := Key(e))
    else if p in sp then f[p].(hi := Key(e))
    else f[p]
  }

  ghost function Replace(f: Forest, n: nat, i: nat, sp: seq<nat>): Forest
    requires Spine(f, n, i, sp) && f[Leaf(sp)].entries != []
  {
    map p | p in f :: Replaced(f, n, i, sp, p)
  }

  lemma ReplaceNode(f: Forest, n: nat, i: nat, sp: seq<nat>)
    requires Nodes(f) && Spine(f, n, i, sp) && f[Leaf(sp)].entries != []
    ensures NodeOk(Replace(f, n, i, sp), n)
  {
    var f' := Replace(f, n, i, sp);
    var g := f[n];
    assert NodeOk(f, n) && NodeOk(f, Leaf(sp)) && ChildOk(f, n, i);
    SpineBounds(f, sp, 0);
    forall j | 0 <= j < |g.children| ensures ChildOk(f', n, j) {
      ReplaceChild(f, n, i, sp, j);
    }
  }

  lemma ReplaceChild(f: Forest, n: nat, i: nat, sp: seq<nat>, j: int)
    requires Nodes(f) && Spine(f, n, i, sp) && f[Leaf(sp)].entries != [] && 0 <= j < |f[n].children|
    ensures ChildOk(Replace(f, n, i, sp), n, j)
  {
    assert NodeOk(f, n) && NodeOk(f, Leaf(sp)) && ChildOk(f, n, i) && ChildOk(f, n, j);
    if j == i {
      SpineBounds(f, sp, 0);
    } else {
      if j < i { ChildrenDistinct(f, n, j, i); } else { ChildrenDistinct(f, n, i, j); }
      SpineOnly(f, sp, 0, f[n].children[j]);
      assert j == i + 1 ==> Key(f[n].entries[i]) <= f[f[n].children[j]].lo;
      SpineBounds(f, sp, 0);
    }
  }

  lemma ReplaceSpine(f: Forest, n: nat, i: nat, sp: seq<nat>, t: nat)
    requires Nodes(f) && Spine(f, n, i, sp) && f[Leaf(sp)].entries != [] && t < |sp|
    ensures sp[t] != n && NodeOk(Replace(f, n, i, sp), sp[t])
  {
    var f' := Replace(f, n, i, sp);
    assert NodeOk(f, n) && NodeOk(f, Leaf(sp)) && ChildOk(f, n, i) && NodeOk(f, sp[t]);
    SpineBounds(f, sp, 0);
    SpineBounds(f, sp, t);
    if t + 1 < |sp| {
      SpineAway(f, n, i, sp, t);
      forall j | 0 <= j < |f'[sp[t]].children| ensures ChildOk(f', sp[t], j) {
        ReplaceSpineChild(f, n, i, sp, t, j);
      }
    }
  }

  lemma ReplaceSpineChild(f: Forest, n: nat, i: nat, sp: seq<nat>, t: nat, j: int)
    requires Nodes(f) && Spine(f, n, i, sp) && f[Leaf(sp)].entries != [] && t + 1 < |sp|
    requires 0 <= j < |f[sp[t]].children|
    ensures ChildOk(Replace(f, n, i, sp), sp[t], j)
  {
    var p := sp[t];
    var g := f[p];
    assert NodeOk(f, Leaf(sp)) && NodeOk(f, p) && ChildOk(f, p, j);
    SpineAway(f, n, i, sp, t);
    SpineAway(f, n, i, sp, t + 1);
    assert LastChild(f, p, sp[t + 1]) && ChildOk(f, p, |g.children| - 1);
    if j < |g.children| - 1 {
      ChildrenDistinct(f, p, j, |g.children| - 1);
      SpineOnly(f, sp, t + 1, g.children[j]);
    }
  }
  lemma ReplaceOther(f: Forest, n: nat, i: nat, sp: seq<nat>, p: nat)
    requires Nodes(f) && Spine(f, n, i, sp) && f[Leaf(sp)].entries != []
    requires p in f && p != n && p !in sp
    ensures NodeOk(Replace(f, n, i, sp), p)
  {
    var f' := Replace(f, n, i, sp);
    assert NodeOk(f, Leaf(sp));
    forall c | c in f && f[c].par == p ensures c in f' && Narrows(f[c], f'[c]) {
      if c in sp {
        var t :| 0 <= t < |sp| && sp[t] == c;
        SpineBounds(f, sp, t);
      }
    }
    NodeOkFrame(f, f', p);
  }

  lemma ReplaceOk(f: Forest, tops: set<nat>, n: nat, i: nat, sp: seq<nat>)
    requires Nodes(f) && Links(f, tops) && Spine(f, n, i, sp) && f[Leaf(sp)].entries != []
    ensures Nodes(Replace(f, n, i, sp)) && Links(Replace(f, n, i, sp), tops)
  {
    var f' := Replace(f, n, i, sp);
    forall p | p in f' ensures NodeOk(f', p) {
      if p == n {
        ReplaceNode(f, n, i, sp);
      } else if p in sp {
        var t :| 0 <= t < |sp| && sp[t] == p;
        ReplaceSpine(f, n, i, sp, t);
      } else {
        ReplaceOther(f, n, i, sp, p);
      }
    }
    forall p | p in f' && p !in tops ensures Linked(f', p) {
      assert Linked(f, p);
    }
  }
}
