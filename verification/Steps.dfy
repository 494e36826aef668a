/** The changes a directory operation makes to the tree, one function per change, and what each
    keeps: node well-formedness, links, heights and the stored entries. */
module Steps {
  import opened Entries
  import opened Forest

  /** Re-parents the listed nodes. */
  ghost function Adopt(f: Forest, cs: seq<nat>, q: nat): Forest {
    map p | p in f :: if p in cs then f[p].(par := q) else f[p]
  }

  lemma AdoptFrame(f: Forest, cs: seq<nat>, q: nat, p: nat)
    requires p in f
    ensures p in Adopt(f, cs, q)
    ensures var g := Adopt(f, cs, q)[p];
            g == f[p].(par := g.par) && (p !in cs ==> g.par == f[p].par)
  {
  }

  lemma AdoptKeys(f: Forest, cs: seq<nat>, q: nat)
    ensures Adopt(f, cs, q).Keys == f.Keys
  {
  }

  /** `h'` may replace `h` in whatever slot `h` hangs. */
  ghost predicate Narrows(h: Tnode, h': Tnode) {
    h'.par == h.par && h'.ht == h.ht && h.lo <= h'.lo && h'.hi <= h.hi
  }

  /** A node whose own data is unchanged and whose children only narrow stays well formed. */
  lemma NodeOkFrame(f: Forest, f': Forest, p: nat)
    requires NodeOk(f, p) && p in f' && f'[p] == f[p].(par := f'[p].par)
    requires forall c :: c in f && f[c].par == p ==> c in f' && Narrows(f[c], f'[c])
    ensures NodeOk(f', p)
  {
    forall i | 0 <= i < |f'[p].children| ensures ChildOk(f', p, i) {
      assert ChildOk(f, p, i);
    }
  }

  lemma Kids(f: Forest, n: nat)
    requires NodeOk(f, n)
    ensures forall c :: c in f[n].children ==> c in f && f[c].par == n && f[c].ht + 1 == f[n].ht
  {
    forall c | c in f[n].children ensures c in f && f[c].par == n && f[c].ht + 1 == f[n].ht {
      var i :| 0 <= i < |f[n].children| && f[n].children[i] == c;
      assert ChildOk(f, n, i);
    }
  }

  // --- Insertion of an entry, with a new right neighbour for the child in front of it ------

  function InsertAt<T>(s: seq<T>, i: nat, x: T): (r: seq<T>)
    requires i <= |s|
    ensures |r| == |s| + 1 && r[i] == x
    ensures forall k :: 0 <= k < i ==> r[k] == s[k]
    ensures forall k :: i < k < |r| ==> r[k] == s[k - 1]
  {
    s[..i] + [x] + s[i..]
  }

  function RemoveAt<T>(s: seq<T>, i: nat): (r: seq<T>)
    requires i < |s|
    ensures |r| == |s| - 1
    ensures forall k :: 0 <= k < i ==> r[k] == s[k]
    ensures forall k :: i <= k < |r| ==> r[k] == s[k + 1]
  {
    s[..i] + s[i + 1..]
  }

  ghost function WithEntry(g: Tnode, j: nat, e: DirEntry): Tnode
    requires j <= |g.entries|
  {
    g.(entries := InsertAt(g.entries, j, e))
  }

  /** Entry `e` belongs at index `j` of node `g`. */
  ghost predicate Belongs(g: Tnode, j: nat, e: DirEntry) {
    j <= |g.entries| && SlotLo(g, j) < Key(e) < SlotHi(g, j)
  }

  lemma WithEntrySorted(g: Tnode, j: nat, e: DirEntry)
    requires Sorted(g.entries) && Belongs(g, j, e)
    ensures Sorted(InsertAt(g.entries, j, e))
  {
    var s, s' := g.entries, InsertAt(g.entries, j, e);
    assert forall i :: 0 <= i < j ==> Key(s[i]) < Key(e);
    assert forall i :: j <= i < |s| ==> Key(e) < Key(s[i]);
    forall i, k | 0 <= i < k < |s'| ensures Key(s'[i]) < Key(s'[k]) {
    }
  }

  lemma WithEntryWithin(g: Tnode, j: nat, e: DirEntry)
    requires g.lo < g.hi && Within(g.entries, g.lo, g.hi) && Belongs(g, j, e)
    ensures Within(InsertAt(g.entries, j, e), g.lo, g.hi)
  {
  }

  /** Adding an entry to a leaf. */
  lemma LeafInsertOk(f: Forest, tops: set<nat>, n: nat, j: nat, e: DirEntry)
    requires Nodes(f) && Links(f, tops) && n in f && f[n].ht == 0 && Belongs(f[n], j, e)
    ensures var f' := f[n := WithEntry(f[n], j, e)];
            Nodes(f') && Links(f', tops)
  {
    var f' := f[n := WithEntry(f[n], j, e)];
    assert NodeOk(f, n);
    WithEntrySorted(f[n], j, e);
    WithEntryWithin(f[n], j, e);
    forall p | p in f' ensures NodeOk(f', p) {
      if p != n { NodeOkFrame(f, f', p); }
    }
    forall p | p in f' && p !in tops ensures Linked(f', p) {
      assert Linked(f, p);
    }
  }

  /** Node `c`, not yet linked, may become the right neighbour of child `j` of `n`, with entry `e` between. */
  ghost predicate Pending(f: Forest, n: nat, j: nat, e: DirEntry, c: nat) {
    && n in f && c in f && f[n].ht > 0
    && Belongs(f[n], j, e)
    && j < |f[n].children| && f[n].children[j] in f
    && f[c].par == n && f[c].ht + 1 == f[n].ht
    && f[f[n].children[j]].hi <= Key(e) <= f[c].lo
    && f[c].hi <= SlotHi(f[n], j)
  }

  ghost function WithChild(g: Tnode, j: nat, e: DirEntry, c: nat): Tnode
    requires j <= |g.entries| && j < |g.children|
  {
    g.(entries := InsertAt(g.entries, j, e), children := InsertAt(g.children, j + 1, c))
  }

  ghost function ChildInsert(f: Forest, n: nat, j: nat, e: DirEntry, c: nat): Forest
    requires n in f && j <= |f[n].entries| && j < |f[n].children|
  {
    f[n := WithChild(f[n], j, e, c)]
  }

  lemma ChildInsertSlot(f: Forest, n: nat, j: nat, e: DirEntry, c: nat, i: int)
    requires NodeOk(f, n) && Pending(f, n, j, e, c) && c != n
    requires 0 <= i < |f[n].children| + 1
    ensures ChildOk(ChildInsert(f, n, j, e, c), n, i)
  {
    if i <= j {
      assert ChildOk(f, n, i);
    } else if i > j + 1 {
      assert ChildOk(f, n, i - 1);
    }
  }

  lemma ChildInsertNode(f: Forest, n: nat, j: nat, e: DirEntry, c: nat)
    requires NodeOk(f, n) && Pending(f, n, j, e, c) && c != n
    ensures NodeOk(ChildInsert(f, n, j, e, c), n)
  {
    var f' := ChildInsert(f, n, j, e, c);
    WithEntrySorted(f[n], j, e);
    WithEntryWithin(f[n], j, e);
    forall i | 0 <= i < |f'[n].children| ensures ChildOk(f', n, i) {
      ChildInsertSlot(f, n, j, e, c, i);
    }
  }

  lemma ChildInsertLinks(f: Forest, tops: set<nat>, n: nat, j: nat, e: DirEntry, c: nat)
    requires Links(f, tops + {c}) && Pending(f, n, j, e, c)
    ensures Links(ChildInsert(f, n, j, e, c), tops)
  {
    var g, g' := f[n], WithChild(f[n], j, e, c);
    assert g'.children[j + 1] == c;
    assert forall i :: 0 <= i < |g.children| ==> g'.children[if i <= j then i else i + 1] == g.children[i];
    assert forall p :: p in g.children ==> p in g'.children;
    forall p | p in f && p !in tops ensures Linked(f[n := g'], p) {
      assert p != c ==> Linked(f, p);
    }
  }

  /** Adding an entry and the pending node behind it to an inner node. */
  lemma ChildInsertOk(f: Forest, tops: set<nat>, n: nat, j: nat, e: DirEntry, c: nat)
    requires Nodes(f) && Links(f, tops + {c}) && Pending(f, n, j, e, c) && c != n
    ensures Nodes(ChildInsert(f, n, j, e, c)) && Links(ChildInsert(f, n, j, e, c), tops)
  {
    var f' := ChildInsert(f, n, j, e, c);
    ChildInsertLinks(f, tops, n, j, e, c);
    forall p | p in f' ensures NodeOk(f', p) {
      if p == n {
        ChildInsertNode(f, n, j, e, c);
      } else {
        NodeOkFrame(f, f', p);
      }
    }
  }

  // --- Splitting a node ---------------------------------------------------------------------

  function RightKids(cs: seq<nat>, m: nat): seq<nat> {
    if m + 1 <= |cs| then cs[m + 1..] else []
  }

  function LeftKids(cs: seq<nat>, m: nat): seq<nat> {
    if m + 1 <= |cs| then cs[..m + 1] else cs
  }

  ghost function SplitLeft(g: Tnode, m: nat): Tnode
    requires m < |g.entries|
  {
    g.(children := LeftKids(g.children, m), entries := g.entries[..m], hi := Key(g.entries[m]))
  }

  ghost function SplitRight(g: Tnode, m: nat): Tnode
    requires m < |g.entries|
  {
    g.(children := RightKids(g.children, m), entries := g.entries[m + 1..], lo := Key(g.entries[m]))
  }

  /** Node `n` keeps what lies before entry `m`; the fresh node `s` takes what lies after it. */
  ghost function Split(f: Forest, n: nat, s: nat, m: nat): Forest
    requires n in f && m < |f[n].entries|
  {
    Adopt(f, RightKids(f[n].children, m), s)[n := SplitLeft(f[n], m)][s := SplitRight(f[n], m)]
  }

  lemma SplitOther(f: Forest, n: nat, s: nat, m: nat, p: nat)
    requires Nodes(f) && n in f && m < |f[n].entries| && s !in f && p in f && p != n
    ensures NodeOk(Split(f, n, s, m), p)
  {
    var f' := Split(f, n, s, m);
    Kids(f, n);
    assert forall c :: c in RightKids(f[n].children, m) ==> c in f[n].children;
    NodeOkFrame(f, f', p);
  }

  lemma SplitLeftNode(f: Forest, n: nat, s: nat, m: nat)
    requires Nodes(f) && n in f && m < |f[n].entries| && s !in f
    ensures NodeOk(Split(f, n, s, m), n)
  {
    var f' := Split(f, n, s, m);
    assert NodeOk(f, n);
    forall i | 0 <= i < |f'[n].children| ensures ChildOk(f', n, i) {
      var c := f[n].children[i];
      assert ChildOk(f, n, i);
      if c in RightKids(f[n].children, m) {
        var j :| m + 1 <= j < |f[n].children| && f[n].children[j] == c;
        ChildrenDistinct(f, n, i, j);
      }
      assert f'[c] == f[c];
    }
  }

  lemma SplitRightNode(f: Forest, n: nat, s: nat, m: nat)
    requires Nodes(f) && n in f && m < |f[n].entries| && s !in f
    ensures NodeOk(Split(f, n, s, m), s)
  {
    var f' := Split(f, n, s, m);
    assert NodeOk(f, n);
    forall i | 0 <= i < |f'[s].children| ensures ChildOk(f', s, i) {
      var c := f[n].children[m + 1 + i];
      assert ChildOk(f, n, m + 1 + i);
      assert c in RightKids(f[n].children, m);
      assert f'[c] == f[c].(par := s);
    }
  }

  lemma SplitLinks(f: Forest, tops: set<nat>, n: nat, s: nat, m: nat)
    requires Nodes(f) && Links(f, tops) && n in f && m < |f[n].entries| && s !in f
    ensures Links(Split(f, n, s, m), tops + {s})
  {
    var f' := Split(f, n, s, m);
    assert NodeOk(f, n);
    forall p | p in f' && p !in tops + {s} ensures Linked(f', p) {
      assert Linked(f, p);
      if p in f[n].children {
        var i :| 0 <= i < |f[n].children| && f[n].children[i] == p;
        assert ChildOk(f, n, i);
        if m + 1 <= i {
          assert f'[s].children[i - (m + 1)] == p;
        } else {
          assert f'[n].children[i] == p;
        }
      }
    }
  }

  lemma SplitOk(f: Forest, tops: set<nat>, n: nat, s: nat, m: nat)
    requires Nodes(f) && Links(f, tops) && n in f && m < |f[n].entries| && s !in f
    ensures Nodes(Split(f, n, s, m)) && Links(Split(f, n, s, m), tops + {s})
  {
    SplitLinks(f, tops, n, s, m);
    forall p | p in Split(f, n, s, m) ensures NodeOk(Split(f, n, s, m), p) {
      if p == n {
        SplitLeftNode(f, n, s, m);
      } else if p == s {
        SplitRightNode(f, n, s, m);
      } else {
        SplitOther(f, n, s, m, p);
      }
    }
  }

  // --- Merging two neighbours ---------------------------------------------------------------

  ghost predicate Neighbours(f: Forest, q: nat, k: nat, l: nat, r: nat) {
    && q in f && l in f && r in f
    && k < |f[q].entries| && k + 1 < |f[q].children|
    && f[q].children[k] == l && f[q].children[k + 1] == r
  }

  ghost function Joined(f: Forest, q: nat, k: nat, l: nat, r: nat): Tnode
    requires Neighbours(f, q, k, l, r)
  {
    f[l].(children := f[l].children + f[r].children,
          entries := f[l].entries + [f[q].entries[k]] + f[r].entries,
          hi := f[r].hi)
  }

  ghost function WithoutEntry(g: Tnode, k: nat): Tnode
    requires k < |g.entries| && k + 1 < |g.children|
  {
    g.(entries := RemoveAt(g.entries, k), children := RemoveAt(g.children, k + 1))
  }

  /** Node `l` takes over entry `k` of its parent `q` and everything in its right neighbour `r`. */
  ghost function Merge(f: Forest, q: nat, k: nat, l: nat, r: nat): Forest
    requires Neighbours(f, q, k, l, r)
  {
    Adopt(f, f[r].children, l)[l := Joined(f, q, k, l, r)][q := WithoutEntry(f[q], k)] - {r}
  }

  lemma MergeFacts(f: Forest, q: nat, k: nat, l: nat, r: nat)
    requires Nodes(f) && Neighbours(f, q, k, l, r)
    ensures NodeOk(f, q) && NodeOk(f, l) && NodeOk(f, r)
    ensures f[l].par == q && f[r].par == q && f[l].ht + 1 == f[q].ht && f[r].ht + 1 == f[q].ht
    ensures l != r && l != q && r != q
    ensures f[l].hi <= Key(f[q].entries[k]) <= f[r].lo
    ensures forall c :: c in f[r].children ==> c in f && f[c].par == r && c != q
    ensures forall c :: c in f[l].children ==> c in f && f[c].par == l && c != q
  {
    assert NodeOk(f, q) && NodeOk(f, l) && NodeOk(f, r);
    assert ChildOk(f, q, k) && ChildOk(f, q, k + 1);
    ChildrenDistinct(f, q, k, k + 1);
    Kids(f, l);
    Kids(f, r);
  }

  lemma JoinSorted(a: seq<DirEntry>, e: DirEntry, b: seq<DirEntry>, x: real, y: real)
    requires Sorted(a) && Sorted(b) && Within(a, x, Key(e)) && Within(b, Key(e), y) && x < Key(e) < y
    ensures Sorted(a + [e] + b) && Within(a + [e] + b, x, y)
  {
  }

  lemma MergeLeftNode(f: Forest, q: nat, k: nat, l: nat, r: nat)
    requires Nodes(f) && Neighbours(f, q, k, l, r)
    ensures NodeOk(Merge(f, q, k, l, r), l)
  {
    MergeFacts(f, q, k, l, r);
    var f' := Merge(f, q, k, l, r);
    JoinSorted(f[l].entries, f[q].entries[k], f[r].entries, f[l].lo, f[r].hi);
    forall i | 0 <= i < |f'[l].children| ensures ChildOk(f', l, i) {
      MergeLeftChild(f, q, k, l, r, i);
    }
  }

  lemma MergeLeftChild(f: Forest, q: nat, k: nat, l: nat, r: nat, i: int)
    requires Nodes(f) && Neighbours(f, q, k, l, r)
    requires 0 <= i < |f[l].children| + |f[r].children|
    ensures ChildOk(Merge(f, q, k, l, r), l, i)
  {
    MergeFacts(f, q, k, l, r);
    var f' := Merge(f, q, k, l, r);
    var n := |f[l].children|;
    if i < n {
      assert ChildOk(f, l, i);
      assert f[l].children[i] in f[l].children;
    } else {
      assert ChildOk(f, r, i - n);
      assert f[r].children[i - n] in f[r].children;
    }
  }

  lemma WithoutEntrySlots(g: Tnode, k: nat, i: int)
    requires k < |g.entries| && k + 1 < |g.children| && 0 <= i < |g.entries|
    ensures var g' := WithoutEntry(g, k);
            && SlotLo(g', i) == SlotLo(g, if i <= k then i else i + 1)
            && SlotHi(g', i) == SlotHi(g, if i < k then i else i + 1)
  {
  }

  lemma MergeParentChild(f: Forest, q: nat, k: nat, l: nat, r: nat, i: int)
    requires Nodes(f) && Neighbours(f, q, k, l, r) && 0 <= i < |f[q].children| - 1
    ensures ChildOk(Merge(f, q, k, l, r), q, i)
  {
    MergeFacts(f, q, k, l, r);
    WithoutEntrySlots(f[q], k, i);
    if i == k {
      assert ChildOk(f, q, k) && ChildOk(f, q, k + 1);
    } else if i < k {
      assert ChildOk(f, q, i);
      ChildrenDistinct(f, q, i, k);
      ChildrenDistinct(f, q, i, k + 1);
    } else {
      assert ChildOk(f, q, i + 1);
      ChildrenDistinct(f, q, k, i + 1);
      ChildrenDistinct(f, q, k + 1, i + 1);
    }
  }

  lemma MergeParentNode(f: Forest, q: nat, k: nat, l: nat, r: nat)
    requires Nodes(f) && Neighbours(f, q, k, l, r)
    ensures NodeOk(Merge(f, q, k, l, r), q)
  {
    MergeFacts(f, q, k, l, r);
    var f' := Merge(f, q, k, l, r);
    forall i | 0 <= i < |f'[q].children| ensures ChildOk(f', q, i) {
      MergeParentChild(f, q, k, l, r, i);
    }
  }

  lemma MergeOther(f: Forest, q: nat, k: nat, l: nat, r: nat, p: nat)
    requires Nodes(f) && Neighbours(f, q, k, l, r) && p in f && p != q && p != l && p != r
    ensures NodeOk(Merge(f, q, k, l, r), p)
  {
    MergeFacts(f, q, k, l, r);
    NodeOkFrame(f, Merge(f, q, k, l, r), p);
  }

  lemma MergeLinks(f: Forest, tops: set<nat>, q: nat, k: nat, l: nat, r: nat)
    requires Nodes(f) && Links(f, tops) && Neighbours(f, q, k, l, r)
    ensures Links(Merge(f, q, k, l, r), tops)
  {
    MergeFacts(f, q, k, l, r);
    var f' := Merge(f, q, k, l, r);
    forall p | p in f' && p !in tops ensures Linked(f', p) {
      assert Linked(f, p);
      if f[p].par == r || f[p].par == l {
        assert p in f'[l].children;
      } else if f[p].par == q {
        var i :| 0 <= i < |f[q].children| && f[q].children[i] == p;
        assert f'[q].children[if i <= k then i else i - 1] == p;
      }
    }
  }

  lemma MergeOk(f: Forest, tops: set<nat>, q: nat, k: nat, l: nat, r: nat)
    requires Nodes(f) && Links(f, tops) && Neighbours(f, q, k, l, r)
    ensures Nodes(Merge(f, q, k, l, r)) && Links(Merge(f, q, k, l, r), tops)
  {
    MergeLinks(f, tops, q, k, l, r);
    forall p | p in Merge(f, q, k, l, r) ensures NodeOk(Merge(f, q, k, l, r), p) {
      if p == q {
        MergeParentNode(f, q, k, l, r);
      } else if p == l {
        MergeLeftNode(f, q, k, l, r);
      } else {
        MergeOther(f, q, k, l, r, p);
      }
    }
  }

  // --- Evening out two neighbours -----------------------------------------------------------

  /** Moves entries and children between two neighbours through the separating entry of their
      parent, so that the left one ends up with `m` entries. */
  ghost function Rotate(f: Forest, q: nat, k: nat, l: nat, r: nat, m: nat): Forest
    requires Neighbours(f, q, k, l, r) && m < |f[l].entries| + 1 + |f[r].entries|
  {
    var j := Joined(f, q, k, l, r);
    var f1 := f[l := SplitLeft(j, m)][r := SplitRight(j, m)][q := f[q].(entries := f[q].entries[k := j.entries[m]])];
    Adopt(Adopt(f1, LeftKids(j.children, m), l), RightKids(j.children, m), r)
  }

  lemma MergeView(f: Forest, q: nat, k: nat, l: nat, r: nat)
    requires Nodes(f) && Neighbours(f, q, k, l, r)
    ensures var f' := Merge(f, q, k, l, r);
            && f'.Keys == f.Keys - {r}
            && l in f' && q in f'
            && f'[l] == Joined(f, q, k, l, r)
            && f'[q] == WithoutEntry(f[q], k)
            && forall p :: p in f' && p != l && p != q ==>
                 f'[p] == if p in f[r].children then f[p].(par := l) else f[p]
  {
    MergeFacts(f, q, k, l, r);
  }

  lemma RotateView(f: Forest, q: nat, k: nat, l: nat, r: nat, m: nat)
    requires Nodes(f) && Neighbours(f, q, k, l, r) && m < |f[l].entries| + 1 + |f[r].entries|
    ensures var j, f' := Joined(f, q, k, l, r), Rotate(f, q, k, l, r, m);
            && f'.Keys == f.Keys
            && f'[l] == SplitLeft(j, m) && f'[r] == SplitRight(j, m)
            && f'[q] == f[q].(entries := f[q].entries[k := j.entries[m]])
  {
    hide NodeOk, Adopt, LeftKids, RightKids;
    MergeFacts(f, q, k, l, r);
    var j := Joined(f, q, k, l, r);
    assert forall c :: c in j.children <==> c in f[l].children || c in f[r].children;
    KidsSplit(j.children, m);
    var ls, rs := LeftKids(j.children, m), RightKids(j.children, m);
    var f1 := f[l := SplitLeft(j, m)][r := SplitRight(j, m)][q := f[q].(entries := f[q].entries[k := j.entries[m]])];
    AdoptKeys(f1, ls, l);
    AdoptKeys(Adopt(f1, ls, l), rs, r);
    forall p | p == l || p == r || p == q ensures Rotate(f, q, k, l, r, m)[p] == f1[p] {
      AdoptFrame(f1, ls, l, p);
      AdoptFrame(Adopt(f1, ls, l), rs, r, p);
    }
  }

  lemma MergeSplitView(f: Forest, q: nat, k: nat, l: nat, r: nat, m: nat)
    requires Nodes(f) && Neighbours(f, q, k, l, r) && m < |f[l].entries| + 1 + |f[r].entries|
    requires l in Merge(f, q, k, l, r) && Merge(f, q, k, l, r)[l] == Joined(f, q, k, l, r)
    ensures var j, f' := Joined(f, q, k, l, r), Split(Merge(f, q, k, l, r), l, r, m);
            && f'.Keys == f.Keys
            && f'[l] == SplitLeft(j, m) && f'[r] == SplitRight(j, m)
            && f'[q] == WithoutEntry(f[q], k)
  {
    MergeFacts(f, q, k, l, r);
    MergeView(f, q, k, l, r);
    var j := Joined(f, q, k, l, r);
    assert forall c :: c in j.children <==> c in f[l].children || c in f[r].children;
    KidsSplit(j.children, m);
  }

  /** Evening out is merging, splitting again and reattaching the right node. */
  lemma RotateIsMergeSplit(f: Forest, q: nat, k: nat, l: nat, r: nat, m: nat)
    requires Nodes(f) && Neighbours(f, q, k, l, r) && m < |f[l].entries| + 1 + |f[r].entries|
    requires l in Merge(f, q, k, l, r) && Merge(f, q, k, l, r)[l] == Joined(f, q, k, l, r)
    ensures var f2 := Split(Merge(f, q, k, l, r), l, r, m);
            && q in f2 && k <= |f2[q].entries| && k < |f2[q].children|
            && Rotate(f, q, k, l, r, m) == ChildInsert(f2, q, k, Joined(f, q, k, l, r).entries[m], r)
  {
    MergeFacts(f, q, k, l, r);
    MergeSplitView(f, q, k, l, r, m);
    RotateView(f, q, k, l, r, m);
    var e := Joined(f, q, k, l, r).entries[m];
    RotateParent(f, q, k, l, r, e);
    var f2 := Split(Merge(f, q, k, l, r), l, r, m);
    var a, b := Rotate(f, q, k, l, r, m), ChildInsert(f2, q, k, e, r);
    forall p | p in f ensures a[p] == b[p] {
      if p != q && p != l && p != r { RotateElsewhere(f, q, k, l, r, m, p); }
    }
  }

  lemma RotateElsewhere(f: Forest, q: nat, k: nat, l: nat, r: nat, m: nat, p: nat)
    requires Nodes(f) && Neighbours(f, q, k, l, r) && m < |f[l].entries| + 1 + |f[r].entries|
    requires l in Merge(f, q, k, l, r) && Merge(f, q, k, l, r)[l] == Joined(f, q, k, l, r)
    requires p in f && p != q && p != l && p != r
    ensures p in Split(Merge(f, q, k, l, r), l, r, m)
    ensures Rotate(f, q, k, l, r, m)[p] == Split(Merge(f, q, k, l, r), l, r, m)[p]
  {
    hide NodeOk;
    MergeFacts(f, q, k, l, r);
    MergeView(f, q, k, l, r);
    var j := Joined(f, q, k, l, r);
    assert forall c :: c in j.children <==> c in f[l].children || c in f[r].children;
    KidsSplit(j.children, m);
  }

  lemma KidsSplit(cs: seq<nat>, m: nat)
    ensures forall c :: c in cs <==> c in LeftKids(cs, m) || c in RightKids(cs, m)
  {
    assert LeftKids(cs, m) + RightKids(cs, m) == cs;
  }

  lemma RotateParent(f: Forest, q: nat, k: nat, l: nat, r: nat, e: DirEntry)
    requires Neighbours(f, q, k, l, r)
    ensures WithChild(WithoutEntry(f[q], k), k, e, r) == f[q].(entries := f[q].entries[k := e])
  {
    assert InsertAt(RemoveAt(f[q].entries, k), k, e) == f[q].entries[k := e];
    assert InsertAt(RemoveAt(f[q].children, k + 1), k + 1, r) == f[q].children;
  }

  lemma RotateOk(f: Forest, tops: set<nat>, q: nat, k: nat, l: nat, r: nat, m: nat)
    requires Nodes(f) && Links(f, tops) && Neighbours(f, q, k, l, r) && m < |f[l].entries| + 1 + |f[r].entries|
    ensures Nodes(Rotate(f, q, k, l, r, m)) && Links(Rotate(f, q, k, l, r, m), tops)
  {
    MergeFacts(f, q, k, l, r);
    var f1 := Merge(f, q, k, l, r);
    var f2 := Split(f1, l, r, m);
    MergeView(f, q, k, l, r);
    RotateIsMergeSplit(f, q, k, l, r, m);
    MergeOk(f, tops, q, k, l, r);
    SplitOk(f1, tops, l, r, m);
    MergedSlot(f, q, k, l, r);
    assert NodeOk(f1, l) && NodeOk(f2, q);
    var e := f1[l].entries[m];
    ChildInsertOk(f2, tops, q, k, e, r);
  }

  /** After a merge the merged node fills slot `k` of its parent. */
  lemma MergedSlot(f: Forest, q: nat, k: nat, l: nat, r: nat)
    requires Nodes(f) && Neighbours(f, q, k, l, r)
    ensures ChildOk(Merge(f, q, k, l, r), q, k) && Merge(f, q, k, l, r)[q].children[k] == l
    ensures NodeOk(Merge(f, q, k, l, r), l)
  {
    MergeFacts(f, q, k, l, r);
    MergeParentChild(f, q, k, l, r, k);
    MergeLeftNode(f, q, k, l, r);
  }
}
