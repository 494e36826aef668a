/** Walking the tree: the order `recursive_iterate` visits entries in, and the in-order sequence. */
module Traversal {
  import opened Names
  import opened Entries
  import opened Forest
  import opened Steps
  import opened Search

  /** The entries of a node, then those of its children from left to right. */
  ghost function Preorder(f: Forest, n: nat): seq<DirEntry>
    requires Nodes(f) && n in f
    decreases f[n].ht, 1, 0
  {
    assert NodeOk(f, n);
    f[n].entries + PreorderKids(f, n, |f[n].children|)
  }

  ghost function PreorderKids(f: Forest, n: nat, i: nat): seq<DirEntry>
    requires Nodes(f) && n in f && i <= |f[n].children|
    decreases f[n].ht, 0, i
  {
    if i == 0 then []
    else
      assert NodeOk(f, n) && ChildOk(f, n, i - 1);
      PreorderKids(f, n, i - 1) + Preorder(f, f[n].children[i - 1])
  }

  lemma PreorderStep(f: Forest, n: nat, i: nat, s: seq<DirEntry>)
    requires Nodes(f) && n in f && i < |f[n].children| && s == f[n].entries + PreorderKids(f, n, i)
    ensures ChildOk(f, n, i) && s + Preorder(f, f[n].children[i]) == f[n].entries + PreorderKids(f, n, i + 1)
  {
    assert NodeOk(f, n) && ChildOk(f, n, i);
  }

  ghost predicate KeysIn(s: seq<DirEntry>, lo: real, hi: real) {
    forall e {:trigger e in s} :: e in s ==> lo < Key(e) < hi
  }

  ghost predicate NoRepeat(s: seq<DirEntry>) {
    forall i, j :: 0 <= i < j < |s| ==> Key(s[i]) != Key(s[j])
  }

  lemma JoinNoRepeat(a: seq<DirEntry>, b: seq<DirEntry>)
    requires NoRepeat(a) && NoRepeat(b)
    requires forall x, y :: x in a && y in b ==> Key(x) != Key(y)
    ensures NoRepeat(a + b)
  {
    var s := a + b;
    forall i, j | 0 <= i < j < |s| ensures Key(s[i]) != Key(s[j]) {
      if i < |a| && |a| <= j {
        assert s[i] in a && s[j] in b;
      }
    }
  }

  lemma ChildInside(f: Forest, n: nat, i: nat)
    requires Nodes(f) && n in f && i < |f[n].children|
    ensures ChildOk(f, n, i)
    ensures f[n].lo <= f[f[n].children[i]].lo && f[f[n].children[i]].hi <= f[n].hi
  {
    assert NodeOk(f, n) && ChildOk(f, n, i);
  }

  /** A subtree's entries lie in its interval. */
  lemma {:induction false} PreorderBounds(f: Forest, n: nat)
    requires Nodes(f) && n in f
    ensures KeysIn(Preorder(f, n), f[n].lo, f[n].hi)
    decreases f[n].ht, 1, 0
  {
    assert NodeOk(f, n);
    KidsBounds(f, n, |f[n].children|);
  }

  lemma {:induction false} KidsBounds(f: Forest, n: nat, i: nat)
    requires Nodes(f) && n in f && i <= |f[n].children|
    ensures KeysIn(PreorderKids(f, n, i), f[n].lo, f[n].hi)
    decreases f[n].ht, 0, i
  {
    if i > 0 {
      ChildInside(f, n, i - 1);
      KidsBounds(f, n, i - 1);
      PreorderBounds(f, f[n].children[i - 1]);
    }
  }

  /** What lies under the first `i` children comes before child `i`. */
  lemma {:induction false} KidsLeft(f: Forest, n: nat, i: nat)
    requires Nodes(f) && n in f && i < |f[n].children|
    ensures ChildOk(f, n, i) && KeysIn(PreorderKids(f, n, i), f[n].lo, f[f[n].children[i]].lo)
  {
    ChildInside(f, n, i);
    if i > 0 {
      ChildInside(f, n, i - 1);
      KidsLeft(f, n, i - 1);
      PreorderBounds(f, f[n].children[i - 1]);
      assert NodeOk(f, n) && NodeOk(f, f[n].children[i - 1]);
      SiblingsApart(f, n, i - 1, i);
    }
  }

  /** No entry of a node recurs under its children. */
  lemma {:induction false} KidsApart(f: Forest, n: nat, i: nat, j: nat)
    requires Nodes(f) && n in f && i <= |f[n].children| && j < |f[n].entries|
    ensures forall e {:trigger e in PreorderKids(f, n, i)} :: e in PreorderKids(f, n, i) ==> Key(e) != Key(f[n].entries[j])
  {
    if i > 0 {
      ChildInside(f, n, i - 1);
      KidsApart(f, n, i - 1, j);
      PreorderBounds(f, f[n].children[i - 1]);
      assert NodeOk(f, n);
      SlotExcludes(f, n, i - 1, j);
    }
  }

  /** No entry is visited twice. */
  lemma {:induction false} PreorderNoRepeat(f: Forest, n: nat)
    requires Nodes(f) && n in f
    ensures NoRepeat(Preorder(f, n))
    decreases f[n].ht, 1, 0
  {
    assert NodeOk(f, n);
    KidsNoRepeat(f, n, |f[n].children|);
    forall x, y | x in f[n].entries && y in PreorderKids(f, n, |f[n].children|) ensures Key(x) != Key(y) {
      var j :| 0 <= j < |f[n].entries| && f[n].entries[j] == x;
      KidsApart(f, n, |f[n].children|, j);
    }
    JoinNoRepeat(f[n].entries, PreorderKids(f, n, |f[n].children|));
  }

  lemma {:induction false} KidsNoRepeat(f: Forest, n: nat, i: nat)
    requires Nodes(f) && n in f && i <= |f[n].children|
    ensures NoRepeat(PreorderKids(f, n, i))
    decreases f[n].ht, 0, i
  {
    if i > 0 {
      ChildInside(f, n, i - 1);
      KidsNoRepeat(f, n, i - 1);
      PreorderNoRepeat(f, f[n].children[i - 1]);
      KidsLeft(f, n, i - 1);
      PreorderBounds(f, f[n].children[i - 1]);
      JoinNoRepeat(PreorderKids(f, n, i - 1), Preorder(f, f[n].children[i - 1]));
    }
  }

  /** Everything visited is stored. */
  lemma {:induction false} PreorderStored(f: Forest, n: nat, e: DirEntry)
    requires Nodes(f) && n in f && e in Preorder(f, n)
    ensures Has(f, e)
    decreases f[n].ht, 1, 0
  {
    assert NodeOk(f, n);
    if e !in f[n].entries {
      KidsStored(f, n, |f[n].children|, e);
    }
  }

  lemma {:induction false} KidsStored(f: Forest, n: nat, i: nat, e: DirEntry)
    requires Nodes(f) && n in f && i <= |f[n].children| && e in PreorderKids(f, n, i)
    ensures Has(f, e)
    decreases f[n].ht, 0, i
  {
    if i > 0 {
      ChildInside(f, n, i - 1);
      if e in PreorderKids(f, n, i - 1) {
        KidsStored(f, n, i - 1, e);
      } else {
        PreorderStored(f, f[n].children[i - 1], e);
      }
    }
  }

  /** A node below `n` whose interval shares a rank with that of `n` hangs under a child of `n`. */
  lemma {:induction false} ChildAbove(f: Forest, root: nat, n: nat, q: nat, x: real) returns (i: nat)
    requires Shape(f, root, {}) && n in f && q in f && f[q].ht < f[n].ht
    requires f[n].lo < x < f[n].hi && f[q].lo < x < f[q].hi
    ensures i < |f[n].children| && ChildOk(f, n, i)
    ensures f[f[n].children[i]].lo < x < f[f[n].children[i]].hi
    decreases f[n].ht - f[q].ht
  {
    assert f[n].ht <= f[root].ht;
    assert Linked(f, q) && NodeOk(f, f[q].par);
    var k := ParentSlot(f, q);
    if f[q].ht + 1 == f[n].ht {
      UniqueAt(f, root, f[q].par, n, x);
      i := k;
    } else {
      i := ChildAbove(f, root, n, f[q].par, x);
    }
  }

  /** Everything stored in the interval of a node is visited below it. */
  lemma {:induction false} PreorderComplete(f: Forest, root: nat, n: nat, q: nat, j: nat)
    requires Shape(f, root, {}) && n in f && q in f && j < |f[q].entries|
    requires f[n].lo < Key(f[q].entries[j]) < f[n].hi
    ensures f[q].entries[j] in Preorder(f, n)
    decreases f[n].ht
  {
    var x := Key(f[q].entries[j]);
    assert NodeOk(f, q) && NodeOk(f, n);
    if f[q].ht > f[n].ht {
      KeyNotBelow(f, root, n, q, j);
    } else if f[q].ht == f[n].ht {
      UniqueAt(f, root, n, q, x);
    } else {
      var i := ChildAbove(f, root, n, q, x);
      PreorderComplete(f, root, f[n].children[i], q, j);
      KidsContain(f, n, i, |f[n].children|, f[q].entries[j]);
    }
  }

  lemma {:induction false} KidsContain(f: Forest, n: nat, i: nat, k: nat, e: DirEntry)
    requires Nodes(f) && n in f && i < k <= |f[n].children|
    requires ChildOk(f, n, i) && e in Preorder(f, f[n].children[i])
    ensures e in PreorderKids(f, n, k)
    decreases k
  {
    if i < k - 1 { KidsContain(f, n, i, k - 1, e); }
  }

  /** Walking from the root visits every stored entry exactly once. */
  /** `s` ends with its greatest entry. */
  ghost predicate EndsGreatest(s: seq<DirEntry>) {
    s != [] && forall e {:trigger e in s} :: e in s ==> Key(e) <= Key(s[|s| - 1])
  }

  lemma JoinGreatest(a: seq<DirEntry>, b: seq<DirEntry>, x: real)
    requires EndsGreatest(b) && KeysIn(b, x, 1.0) && forall e :: e in a ==> Key(e) <= x
    ensures EndsGreatest(a + b)
  {
    var s := a + b;
    assert s[|s| - 1] == b[|b| - 1] && b[|b| - 1] in b;
  }

  /** The walk ends with the greatest entry: it is the last of the rightmost leaf. */
  lemma {:induction false} PreorderLast(f: Forest, root: nat, n: nat)
    requires Shape(f, root, {}) && Occupied(f, root, INVALID_PAGE) && INVALID_PAGE !in f
    requires n in f && f[n].entries != [] && f[n].hi <= 1.0
    ensures EndsGreatest(Preorder(f, n))
    decreases f[n].ht
  {
    assert NodeOk(f, n);
    var k := |f[n].children|;
    if k == 0 {
      assert Preorder(f, n) == f[n].entries;
    } else {
      ChildInside(f, n, k - 1);
      var c := f[n].children[k - 1];
      assert NodeOccupied(f, root, INVALID_PAGE, c);
      PreorderLast(f, root, c);
      PreorderBounds(f, c);
      KidsLeft(f, n, k - 1);
      assert SlotLo(f[n], k - 1) <= f[c].lo;
      assert Preorder(f, n) == f[n].entries + PreorderKids(f, n, k - 1) + Preorder(f, c);
      JoinGreatest(f[n].entries + PreorderKids(f, n, k - 1), Preorder(f, c), f[c].lo);
    }
  }

  lemma PreorderVisitsAll(f: Forest, root: nat)
    requires Shape(f, root, {})
    ensures NoRepeat(Preorder(f, root))
    ensures forall e :: e in Preorder(f, root) <==> Has(f, e)
  {
    assert NodeOk(f, root);
    PreorderNoRepeat(f, root);
    forall e ensures e in Preorder(f, root) <==> Has(f, e) {
      if e in Preorder(f, root) { PreorderStored(f, root, e); }
      if Has(f, e) {
        var q :| q in f && e in f[q].entries;
        var j :| 0 <= j < |f[q].entries| && f[q].entries[j] == e;
        KeyOrder(e.name, e.name);
        PreorderComplete(f, root, root, q, j);
      }
    }
  }

  // --- In order -------------------------------------------------------------------------------

  ghost function Inorder(f: Forest, n: nat): seq<DirEntry>
    requires Nodes(f) && n in f
    decreases f[n].ht, 1, 0
  {
    assert NodeOk(f, n);
    if f[n].ht == 0 then f[n].entries else InorderUpTo(f, n, |f[n].entries|)
  }

  /** The first `i` entries of an inner node with the children around them. */
  ghost function InorderUpTo(f: Forest, n: nat, i: nat): seq<DirEntry>
    requires Nodes(f) && n in f && f[n].ht > 0 && i <= |f[n].entries|
    decreases f[n].ht, 0, i
  {
    assert NodeOk(f, n) && ChildOk(f, n, i);
    if i == 0 then Inorder(f, f[n].children[0])
    else InorderUpTo(f, n, i - 1) + [f[n].entries[i - 1]] + Inorder(f, f[n].children[i])
  }

  /** In order, names strictly increase across the whole subtree. */
  lemma {:induction false} InorderSorted(f: Forest, n: nat)
    requires Nodes(f) && n in f
    ensures Sorted(Inorder(f, n)) && Within(Inorder(f, n), f[n].lo, f[n].hi)
    decreases f[n].ht, 1, 0
  {
    assert NodeOk(f, n);
    if f[n].ht > 0 { InorderUpToSorted(f, n, |f[n].entries|); }
  }

  lemma {:induction false} InorderUpToSorted(f: Forest, n: nat, i: nat)
    requires Nodes(f) && n in f && f[n].ht > 0 && i <= |f[n].entries|
    ensures Sorted(InorderUpTo(f, n, i)) && Within(InorderUpTo(f, n, i), f[n].lo, SlotHi(f[n], i))
    decreases f[n].ht, 0, i
  {
    assert NodeOk(f, n) && ChildOk(f, n, i);
    var c := f[n].children[i];
    InorderSorted(f, c);
    WithinWider(Inorder(f, c), f[c].lo, f[c].hi, SlotLo(f[n], i), SlotHi(f[n], i));
    if i > 0 {
      InorderUpToSorted(f, n, i - 1);
      JoinSorted(InorderUpTo(f, n, i - 1), f[n].entries[i - 1], Inorder(f, c), f[n].lo, SlotHi(f[n], i));
    }
  }

  lemma WithinWider(s: seq<DirEntry>, lo: real, hi: real, lo': real, hi': real)
    requires Within(s, lo, hi) && lo' <= lo && hi <= hi'
    ensures Within(s, lo', hi')
  {
  }

  /** The two walks visit the same entries. */
  lemma {:induction false} SameWalk(f: Forest, n: nat, e: DirEntry)
    requires Nodes(f) && n in f
    ensures e in Inorder(f, n) <==> e in Preorder(f, n)
    decreases f[n].ht, 1, 0
  {
    assert NodeOk(f, n);
    var k := |f[n].entries|;
    if f[n].ht > 0 {
      SameWalkUpTo(f, n, k, e);
      assert f[n].entries[..k] == f[n].entries && |f[n].children| == k + 1;
      assert Preorder(f, n) == f[n].entries + PreorderKids(f, n, k + 1);
      assert Inorder(f, n) == InorderUpTo(f, n, k);
    } else {
      assert Preorder(f, n) == f[n].entries + PreorderKids(f, n, 0);
    }
  }

  lemma {:induction false} SameWalkUpTo(f: Forest, n: nat, i: nat, e: DirEntry)
    requires Nodes(f) && n in f && f[n].ht > 0 && i <= |f[n].entries| && i < |f[n].children|
    ensures e in InorderUpTo(f, n, i) <==> e in f[n].entries[..i] || e in PreorderKids(f, n, i + 1)
    decreases f[n].ht, 0, i
  {
    assert NodeOk(f, n) && ChildOk(f, n, i);
    SameWalk(f, f[n].children[i], e);
    if i > 0 {
      SameWalkUpTo(f, n, i - 1, e);
      assert f[n].entries[..i] == f[n].entries[..i - 1] + [f[n].entries[i - 1]];
    } else {
      assert PreorderKids(f, n, 1) == PreorderKids(f, n, 0) + Preorder(f, f[n].children[0]);
    }
  }

  /** Read in order, the tree is the strictly increasing sequence of what it stores. */
  lemma TreeInOrder(f: Forest, root: nat)
    requires Shape(f, root, {})
    ensures Sorted(Inorder(f, root))
    ensures forall e :: e in Inorder(f, root) <==> Has(f, e)
  {
    InorderSorted(f, root);
    PreorderVisitsAll(f, root);
    forall e ensures e in Inorder(f, root) <==> Has(f, e) {
      SameWalk(f, root, e);
    }
  }
}
