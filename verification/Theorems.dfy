/** What validity of a directory object means for the nodes and pages it really holds. */
module Theorems {
  import opened Common
  import opened Entries
  import opened Codec
  import opened Forest
  import opened Steps
  import opened Store
  import opened Size
  import opened Traversal
  import opened Tables
  import opened Directory

  // --- The textbook B-tree --------------------------------------------------------------------

  ghost function Floor(d: NodeData, lo: real, i: int): real
    requires 0 <= i <= |d.entries|
  {
    if i == 0 then lo else Key(d.entries[i - 1])
  }

  ghost function Ceiling(d: NodeData, hi: real, i: int): real
    requires 0 <= i <= |d.entries|
  {
    if i == |d.entries| then hi else Key(d.entries[i])
  }

  /** The page shows a B-tree of height `h` whose names lie strictly between `lo` and `hi`: nodes
      hold 6 to 13 entries in order, the top one at least one unless it is a leaf; an inner node
      has one child more than entries; all leaves are at the same depth. */
  ghost predicate IsBtree(cache: Cache, blocks: seq<Bytes>, p: nat, h: nat, top: bool, lo: real, hi: real)
    decreases h
  {
    var s := Seen(cache, blocks, p);
    && s.Some?
    && var d := s.value;
    && |d.entries| <= BTREE_MAX_NUM_ENTRIES
    && (if top then h > 0 ==> |d.entries| >= 1 else |d.entries| >= 6)
    && Sorted(d.entries) && Within(d.entries, lo, hi)
    && (if h == 0 then d.children == []
        else
          && |d.children| == |d.entries| + 1
          && forall i :: 0 <= i < |d.children| ==>
               IsBtree(cache, blocks, d.children[i], h - 1, false, Floor(d, lo, i), Ceiling(d, hi, i)))
  }

  /** A node in good order whose children are B-trees is the top of a B-tree. */
  lemma NodeIsBtree(cache: Cache, blocks: seq<Bytes>, f: Forest, root: nat, p: nat, lo: real, hi: real)
    requires CacheOk(cache, blocks, f) && NodeOk(f, p) && NodeOccupied(f, root, INVALID_PAGE, p) && p != INVALID_PAGE
    requires lo <= f[p].lo && f[p].hi <= hi
    requires f[p].ht > 0 ==> forall i :: 0 <= i < |f[p].children| ==>
               IsBtree(cache, blocks, f[p].children[i], f[p].ht - 1, false, Floor(Data(f[p]), lo, i), Ceiling(Data(f[p]), hi, i))
    ensures IsBtree(cache, blocks, p, f[p].ht, p == root, lo, hi)
  {
    TreeSeen(cache, blocks, f, p);
    WithinWider(f[p].entries, f[p].lo, f[p].hi, lo, hi);
  }

  lemma {:induction false} SubtreeIsBtree(cache: Cache, blocks: seq<Bytes>, f: Forest, root: nat, p: nat, lo: real, hi: real)
    requires CacheOk(cache, blocks, f) && Shape(f, root, {}) && Occupied(f, root, INVALID_PAGE) && INVALID_PAGE !in f
    requires p in f && lo <= f[p].lo && f[p].hi <= hi
    ensures IsBtree(cache, blocks, p, f[p].ht, p == root, lo, hi)
    decreases f[p].ht
  {
    assert NodeOk(f, p) && NodeOccupied(f, root, INVALID_PAGE, p);
    var d := Data(f[p]);
    if f[p].ht > 0 {
      forall i | 0 <= i < |d.children|
        ensures IsBtree(cache, blocks, d.children[i], f[p].ht - 1, false, Floor(d, lo, i), Ceiling(d, hi, i))
      {
        assert ChildOk(f, p, i);
        SubtreeIsBtree(cache, blocks, f, root, d.children[i], Floor(d, lo, i), Ceiling(d, hi, i));
      }
    }
    NodeIsBtree(cache, blocks, f, root, p, lo, hi);
  }

  /** Every valid directory with a root shows a B-tree of at most 8 levels. */
  lemma ValidIsBtree(d: BtreeDirectory) returns (h: nat)
    requires d.Valid() && d.rootPage != INVALID_PAGE
    ensures h <= 7 && IsBtree(d.cache, d.blocks, d.rootPage, h, true, -1.0, 1.0)
  {
    d.Sound();
    h := d.f[d.rootPage].ht;
    SubtreeIsBtree(d.cache, d.blocks, d.f, d.rootPage, d.rootPage, -1.0, 1.0);
  }

  // --- Pages ------------------------------------------------------------------------------------

  /** Each page of the stream is a node of the tree or on the free list, and not both; the header
      counts the free ones; the list is linked both ways from the header's head to its end. */
  lemma Conservation(d: BtreeDirectory)
    requires d.Valid()
    ensures |d.blocks| == |d.f.Keys| + d.numFreePage
    ensures forall p: nat :: p < |d.blocks| ==> (p in d.f <==> p !in d.free)
    ensures forall p: nat :: p in d.f || p in d.free ==> p < |d.blocks|
    ensures forall i :: 0 <= i < |d.free| ==>
              d.free[i] < |d.blocks| && IsFree(d.blocks[d.free[i]], NextOf(d.free, i), PrevOf(d.free, i))
    ensures forall i, j :: 0 <= i < j < |d.free| ==> d.free[i] != d.free[j]
    ensures d.numFreePage == |d.free| && d.startFreePage == (if d.free == [] then INVALID_PAGE else d.free[0])
  {
    PageCount(|d.blocks|, d.f.Keys, d.free);
    forall p: nat
      ensures p < |d.blocks| ==> (p in d.f <==> p !in d.free)
      ensures p in d.f || p in d.free ==> p < |d.blocks|
    {
      assert Either(|d.blocks|, d.f.Keys, d.free, p);
    }
    forall i | 0 <= i < |d.free|
      ensures d.free[i] < |d.blocks| && IsFree(d.blocks[d.free[i]], NextOf(d.free, i), PrevOf(d.free, i))
    {
      assert FreeLinked(d.blocks, d.free, i);
    }
  }

  /** Node `p` is child `i` of `q`. */
  ghost predicate Hangs(f: Forest, q: nat, i: int, p: nat) {
    q in f && 0 <= i < |f[q].children| && f[q].children[i] == p
  }

  /** Every node but the root is in exactly one slot of exactly one node. */
  lemma OneParent(f: Forest, root: nat, p: nat)
    requires Shape(f, root, {}) && p in f && p != root && INVALID_PAGE !in f
    ensures exists i :: Hangs(f, f[p].par, i, p)
    ensures forall q, i, j :: Hangs(f, q, i, p) && Hangs(f, f[p].par, j, p) ==> q == f[p].par && i == j
  {
    assert Linked(f, p);
    assert NodeOk(f, f[p].par);
    var k := ParentSlot(f, p);
    assert Hangs(f, f[p].par, k, p);
    forall q, i, j | Hangs(f, q, i, p) && Hangs(f, f[p].par, j, p) ensures q == f[p].par && i == j {
      assert NodeOk(f, q) && ChildOk(f, q, i);
      if i < j { ChildrenDistinct(f, q, i, j); }
      if j < i { ChildrenDistinct(f, q, j, i); }
    }
  }

  // --- The cache --------------------------------------------------------------------------------

  /** A cached node names its true parent, which is cached and has it as a child. */
  lemma CachedParent(d: BtreeDirectory, p: nat)
    requires d.Valid() && p in d.cache
    ensures d.cache[p].parent == INVALID_PAGE <==> p == d.rootPage
    ensures p != d.rootPage ==> d.cache[p].parent in d.cache && p in d.cache[d.cache[p].parent].children
  {
    d.Sound();
    assert Mirrors(d.cache, d.f, p);
    if p != d.rootPage {
      assert Linked(d.f, p);
      assert Mirrors(d.cache, d.f, d.f[p].par);
    }
  }
}
