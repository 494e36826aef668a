/** What the two consistency checks of a directory really decide. */
module Checks {
  import opened Common
  import opened Names
  import opened Entries
  import opened Codec
  import opened Forest
  import opened Store
  import opened Deletion

  // --- Nodes ------------------------------------------------------------------------------------

  /** A node that can be looked at: its children exist, name it as their parent and are not empty, and
      there are as many of them as its entries ask for. Nothing is said about order or occupancy. */
  ghost predicate Readable(f: Forest, p: nat) {
    && p in f
    && (f[p].children == [] || |f[p].children| == |f[p].entries| + 1)
    && forall i :: 0 <= i < |f[p].children| ==> ReadableChild(f, p, i)
  }

  ghost predicate ReadableChild(f: Forest, p: nat, i: int)
    requires p in f && 0 <= i < |f[p].children|
  {
    var c := f[p].children[i];
    c in f && f[c].par == p && f[c].entries != []
  }

  ghost predicate AllReadable(f: Forest) {
    forall p {:trigger Readable(f, p)} :: p in f ==> Readable(f, p)
  }

  ghost predicate NeverDecreases(es: seq<DirEntry>) {
    forall i, j :: 0 <= i < j < |es| ==> Key(es[i]) <= Key(es[j])
  }

  /** Entry `i` lies between the last entry on its left and the first on its right. */
  ghost predicate Between(f: Forest, p: nat, i: int)
    requires Readable(f, p) && f[p].children != [] && 0 <= i < |f[p].entries|
  {
    assert ReadableChild(f, p, i) && ReadableChild(f, p, i + 1);
    var ls, rs := f[f[p].children[i]].entries, f[f[p].children[i + 1]].entries;
    Key(ls[|ls| - 1]) <= Key(f[p].entries[i]) <= Key(rs[0])
  }

  /** A node that passes by itself, whatever is below its children. */
  ghost predicate Passes(f: Forest, p: nat)
    requires Readable(f, p)
  {
    && NeverDecreases(f[p].entries)
    && (f[p].par != INVALID_PAGE ==> 6 <= |f[p].entries| <= BTREE_MAX_NUM_ENTRIES)
    && (f[p].children != [] ==> forall i :: 0 <= i < |f[p].entries| ==> Between(f, p, i))
  }

  /** Every node of a B-tree passes. */
  lemma BtreePasses(f: Forest, root: nat)
    requires Shape(f, root, {}) && Occupied(f, root, INVALID_PAGE) && INVALID_PAGE !in f
    ensures AllReadable(f) && forall p {:trigger Readable(f, p)} :: p in f ==> Passes(f, p)
  {
    forall p | p in f ensures Readable(f, p) && Passes(f, p) {
      NodePasses(f, root, p);
    }
  }

  lemma NodePasses(f: Forest, root: nat, p: nat)
    requires Shape(f, root, {}) && Occupied(f, root, INVALID_PAGE) && INVALID_PAGE !in f && p in f
    ensures Readable(f, p) && Passes(f, p)
  {
    assert NodeOk(f, p) && NodeOccupied(f, root, INVALID_PAGE, p);
    forall i | 0 <= i < |f[p].children| ensures ReadableChild(f, p, i) {
      assert ChildOk(f, p, i) && NodeOccupied(f, root, INVALID_PAGE, f[p].children[i]);
    }
    assert Readable(f, p);
    if f[p].children != [] {
      forall i | 0 <= i < |f[p].entries| ensures Between(f, p, i) {
        AroundEntry(f, root, p, i);
      }
    }
  }

  /** Whatever entries replace those of a leaf that does not hang from `root`, the verdict on `root`
      is the same. */
  lemma Unnoticed(f: Forest, root: nat, leaf: nat, es: seq<DirEntry>)
    requires AllReadable(f) && root in f && leaf in f && leaf != root && f[leaf].par != root
    requires f[leaf].children == [] && es != []
    ensures var f' := f[leaf := f[leaf].(entries := es)];
            AllReadable(f') && Readable(f, root) && Readable(f', root) && (Passes(f', root) <==> Passes(f, root))
  {
    var f' := f[leaf := f[leaf].(entries := es)];
    forall p | p in f' ensures Readable(f', p) {
      assert Readable(f, p);
      forall i | 0 <= i < |f'[p].children| ensures ReadableChild(f', p, i) {
        assert ReadableChild(f, p, i);
      }
    }
    assert Readable(f, root) && Readable(f', root);
    forall i | 0 <= i < |f[root].children|
      ensures var c := f[root].children[i]; c in f && c != leaf
    {
      assert ReadableChild(f, root, i);
    }
    if f[root].children != [] {
      forall i | 0 <= i < |f[root].entries| ensures Between(f', root, i) <==> Between(f, root, i) {
        assert ReadableChild(f, root, i) && ReadableChild(f, root, i + 1);
      }
    }
  }

  function NameEntry(c: byte): DirEntry {
    DirEntry([c], Zeros(ID_LENGTH), 0)
  }

  /** A tree whose leftmost leaf holds a name that belongs to the far right. */
  ghost function Misplaced(): Forest {
    map[0 := Tnode(INVALID_PAGE, [1, 2], [NameEntry(5)], 2, 0.0, 0.0),
        1 := Tnode(0, [3, 4], [NameEntry(2)], 1, 0.0, 0.0),
        2 := Tnode(0, [5, 6], [NameEntry(7)], 1, 0.0, 0.0),
        3 := Tnode(1, [], [NameEntry(9)], 0, 0.0, 0.0),
        4 := Tnode(1, [], [NameEntry(3)], 0, 0.0, 0.0),
        5 := Tnode(2, [], [NameEntry(6)], 0, 0.0, 0.0),
        6 := Tnode(2, [], [NameEntry(8)], 0, 0.0, 0.0)]
  }

  /** The check passes a tree that is out of order two levels down. */
  lemma BrokenPasses()
    ensures AllReadable(Misplaced()) && Readable(Misplaced(), 0) && Readable(Misplaced(), 1)
    ensures Passes(Misplaced(), 0) && !Between(Misplaced(), 1, 0) && !Passes(Misplaced(), 1)
  {
    var f := Misplaced();
    forall p | p in f ensures Readable(f, p) {
    }
    assert Readable(f, 0) && Readable(f, 1);
    ByteOrder(2, 5);
    ByteOrder(5, 7);
    ByteOrder(2, 9);
    assert Between(f, 0, 0);
    assert !Between(f, 1, 0);
  }

  lemma ByteOrder(a: byte, b: byte)
    requires a < b
    ensures Key(NameEntry(a)) < Key(NameEntry(b))
  {
    KeyOrder([a], [b]);
    assert Less([a], [b]);
  }

  // --- Free pages ---------------------------------------------------------------------------------

  /** The links of the free page that a page number leads to; `None` if that is not a free page. */
  function LinksAt(blocks: seq<Bytes>, num: nat): Option<(nat, nat)> {
    var k := PageIndex(num);
    if k >= |blocks| || |blocks[k]| != BLOCK_SIZE || GetLE(blocks[k][..4]) != 0 then None
    else Some((GetLE(blocks[k][4..8]), GetLE(blocks[k][8..12])))
  }

  ghost predicate LinkedAt(blocks: seq<Bytes>, list: seq<nat>, i: nat) {
    i < |list| && LinksAt(blocks, list[i]) == Some((NextOf(list, i), PrevOf(list, i)))
  }

  /** `list` is a doubly linked list of `num` free pages that starts at `start`. */
  ghost predicate FreePages(blocks: seq<Bytes>, start: nat, num: nat, list: seq<nat>) {
    && |list| == num && start == (if list == [] then INVALID_PAGE else list[0])
    && forall i {:trigger LinkedAt(blocks, list, i)} :: 0 <= i < |list| ==> LinkedAt(blocks, list, i)
  }

  /** Following links from `start` has passed `seen` and come to `pg`, all back links being right. */
  ghost predicate Walked(blocks: seq<Bytes>, start: nat, seen: seq<nat>, pg: nat) {
    && start == (if seen == [] then pg else seen[0])
    && forall k {:trigger seen[k]} :: 0 <= k < |seen| ==>
         LinksAt(blocks, seen[k]) == Some((if k + 1 < |seen| then seen[k + 1] else pg, PrevOf(seen, k)))
  }

  lemma WalkStep(blocks: seq<Bytes>, start: nat, seen: seq<nat>, pg: nat, next: nat)
    ensures PrevOf(seen + [pg], |seen| + 1) == pg
    ensures Walked(blocks, start, seen, pg) && LinksAt(blocks, pg) == Some((next, PrevOf(seen, |seen|))) ==>
              Walked(blocks, start, seen + [pg], next)
  {
    var seen' := seen + [pg];
    if Walked(blocks, start, seen, pg) && LinksAt(blocks, pg) == Some((next, PrevOf(seen, |seen|))) {
      forall k | 0 <= k < |seen'|
        ensures LinksAt(blocks, seen'[k]) == Some((if k + 1 < |seen'| then seen'[k + 1] else next, PrevOf(seen', k)))
      {
        assert k < |seen| ==> seen'[k] == seen[k];
        assert PrevOf(seen', k) == PrevOf(seen, k);
      }
    }
  }

  lemma WalkDone(blocks: seq<Bytes>, start: nat, seen: seq<nat>)
    ensures Walked(blocks, start, seen, INVALID_PAGE) ==> FreePages(blocks, start, |seen|, seen)
  {
    if Walked(blocks, start, seen, INVALID_PAGE) {
      forall i | 0 <= i < |seen| ensures LinkedAt(blocks, seen, i) {
      }
    }
  }

  /** Any list of free pages is the one that following the links finds. */
  ghost predicate OnTrack(blocks: seq<Bytes>, start: nat, num: nat, pg: nat, prev: nat, i: nat) {
    forall c {:trigger FreePages(blocks, start, num, c)} :: FreePages(blocks, start, num, c) ==>
      i <= |c| && pg == (if i < |c| then c[i] else INVALID_PAGE) && prev == PrevOf(c, i)
  }

  lemma TrackStep(blocks: seq<Bytes>, start: nat, num: nat, pg: nat, prev: nat, i: nat)
    requires OnTrack(blocks, start, num, pg, prev, i) && i < num
    ensures var l := LinksAt(blocks, pg);
            if l.None? || l.value.1 != prev then forall c :: !FreePages(blocks, start, num, c)
            else OnTrack(blocks, start, num, l.value.0, pg, i + 1)
  {
    forall c | FreePages(blocks, start, num, c)
      ensures LinksAt(blocks, pg) == Some((NextOf(c, i), prev)) && pg == c[i]
    {
      assert LinkedAt(blocks, c, i);
    }
  }

  lemma CoherentList(blocks: seq<Bytes>, free: seq<nat>)
    requires FreeOk(blocks, free)
    ensures FreePages(blocks, if free == [] then INVALID_PAGE else free[0], |free|, free)
  {
    forall i | 0 <= i < |free| ensures LinkedAt(blocks, free, i) {
      assert FreeLinked(blocks, free, i);
      PageIndexWraps(free[i]);
    }
  }

  /** Back links alone keep a list from running into itself. */
  lemma {:induction false} ListApart(blocks: seq<Bytes>, start: nat, num: nat, list: seq<nat>, i: nat, j: nat)
    requires FreePages(blocks, start, num, list) && i < j < |list| && INVALID_PAGE !in list
    ensures PageIndex(list[i]) != PageIndex(list[j])
    decreases i
  {
    assert LinkedAt(blocks, list, i) && LinkedAt(blocks, list, j);
    if PageIndex(list[i]) == PageIndex(list[j]) {
      assert PrevOf(list, i) == PrevOf(list, j);
      if i > 0 {
        ListApart(blocks, start, num, list, i - 1, j - 1);
      }
    }
  }

  /** Pages of the stream in such a list are a free list in good order. */
  lemma ListIsFree(blocks: seq<Bytes>, start: nat, num: nat, list: seq<nat>)
    requires FreePages(blocks, start, num, list) && |blocks| <= MAX_PAGES
    requires forall i :: 0 <= i < |list| ==> list[i] < |blocks|
    ensures FreeOk(blocks, list)
  {
    forall i | 0 <= i < |list| ensures FreeLinked(blocks, list, i) {
      assert LinkedAt(blocks, list, i);
      PageIndexWraps(list[i]);
    }
    forall i, j | 0 <= i < j < |list| ensures list[i] != list[j] {
      ListApart(blocks, start, num, list, i, j);
    }
  }
}
