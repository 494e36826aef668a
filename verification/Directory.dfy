/** The B-tree directory object. */
module Directory {
  import opened Common
  import opened Names
  import opened Entries
  import opened Codec
  import opened Layout
  import opened Buffers
  import opened Forest
  import opened Steps
  import opened RootSteps
  import opened Contents
  import opened Store
  import opened Search
  import opened Insertion
  import opened Deletion
  import opened Traversal
  import opened Tables
  import opened Checks
  import Arith

  /** The header words the B-tree uses, as a flush leaves them. */
  datatype Header = Header(rootPage: nat, startFreePage: nat, numFreePage: nat)

  /** The words of a header; a missing header reads as all ones with a zero count of free pages. */
  function ReadHeader(h: Option<Header>): Header {
    if h.Some? then h.value else Header(INVALID_PAGE, INVALID_PAGE, 0)
  }

  ghost predicate TreeOk(root: nat, f: Forest) {
    if root == INVALID_PAGE then f == map[] else Shape(f, root, {}) && Occupied(f, root, INVALID_PAGE)
  }

  ghost predicate TableOk(f: Forest, t: Table) {
    Stores(f, t) && AllLegal(t)
  }

  /** The words point at the free list. */
  ghost predicate HeadsFreeList(start: nat, num: nat, free: seq<nat>) {
    start == (if free == [] then INVALID_PAGE else free[0]) && num == |free|
  }

  /** Blocks and header alone, with nothing cached, hold the directory `t`. */
  ghost predicate Image(blocks: seq<Bytes>, h: Option<Header>, f: Forest, free: seq<nat>, t: Table) {
    && CacheOk(map[], blocks, f) && Pages(blocks, f.Keys, free)
    && HeadsFreeList(ReadHeader(h).startFreePage, ReadHeader(h).numFreePage, free)
    && TreeOk(ReadHeader(h).rootPage, f) && TableOk(f, t)
  }

  /** A flush rebuilds the tree if more than five pages and more than two thirds of them are free. */
  predicate RebuildDue(free: nat, blocks: nat) {
    free > 5 && 3 * free > 2 * blocks
  }

  lemma DueExactly(free: nat, blocks: nat)
    ensures RebuildDue(free, blocks) <==> free > 5 && free > blocks * BLOCK_SIZE / (BLOCK_SIZE * 3 / 2)
  {
    var q, r := 2 * blocks / 3, 2 * blocks % 3;
    Arith.DivMod(blocks * 4096, 6144, q, 2048 * r);
  }

  class BtreeDirectory {
    /** The header words the B-tree uses. */
    var rootPage: nat
    var startFreePage: nat
    var numFreePage: nat
    /** The header on disk, once there is one, and whether the words have been set since. */
    var saved: Option<Header>
    var headerDirty: bool
    /** The stream, block by block. */
    var blocks: seq<Bytes>
    var cache: Cache

    /** The tree the pages stand for, and the free pages in list order. */
    ghost var f: Forest
    ghost var free: seq<nat>
    /** The directory the tree stands for. */
    ghost var table: Table

    /** Header words that differ from those on disk are marked. */
    ghost predicate HeaderKept()
      reads this
    {
      headerDirty || ReadHeader(saved) == Header(rootPage, startFreePage, numFreePage)
    }

    ghost predicate FreeList()
      reads this
    {
      HeadsFreeList(startFreePage, numFreePage, free) && HeaderKept()
    }

    /** Cache, pages and free list are coherent with the recorded tree. */
    ghost predicate Coherent()
      reads this
    {
      CacheOk(cache, blocks, f) && Pages(blocks, f.Keys, free) && FreeList()
    }

    // --- Header words -----------------------------------------------------------------------

    method SetRootPage(value: nat)
      modifies this`rootPage, this`headerDirty
      ensures rootPage == value && headerDirty
    {
      rootPage := value;
      headerDirty := true;
    }

    method SetStartFreePage(value: nat)
      modifies this`startFreePage, this`headerDirty
      ensures startFreePage == value && headerDirty
    {
      startFreePage := value;
      headerDirty := true;
    }

    method SetNumFreePage(value: nat)
      modifies this`numFreePage, this`headerDirty
      ensures numFreePage == value && headerDirty
    {
      numFreePage := value;
      headerDirty := true;
    }

    // --- Pages ------------------------------------------------------------------------------

    method ReadFreePage(num: nat) returns (next: nat, prev: nat)
      requires num < |blocks| <= MAX_PAGES && |blocks[num]| == BLOCK_SIZE && GetLE(blocks[num][..4]) == 0
      ensures IsFree(blocks[num], next, prev) && WordAt(blocks[num], 4, next) && WordAt(blocks[num], 8, prev)
    {
      PageIndexWraps(num);
      GetWord(blocks[num], 4);
      GetWord(blocks[num], 8);
      var buffer := blocks[PageIndex(num)];
      assert |buffer| == BLOCK_SIZE && GetLE(buffer[..4]) == 0;
      next := GetLE(buffer[4..8]);
      prev := GetLE(buffer[8..12]);
    }

    method WriteFreePage(num: nat, next: nat, prev: nat)
      requires num < |blocks| <= MAX_PAGES && next <= INVALID_PAGE && prev <= INVALID_PAGE
      modifies this`blocks
      ensures blocks == old(blocks)[num := EncodeFree(next, prev)]
      ensures IsFree(blocks[num], next, prev) && DecodeNode(blocks[num]) == Some(NodeData([], []))
      ensures FreeBytes(blocks[num], next, prev)
    {
      FreeLaidOut(next, prev);
      PageIndexWraps(num);
      FreeRoundTrip(next, prev);
      blocks := blocks[PageIndex(num) := EncodeFree(next, prev)];
    }

    /** Takes a page from the free list, or else extends the stream by one zero page. */
    method TakePage() returns (pg: nat)
      requires Pages(blocks, f.Keys, free) && FreeList() && |f.Keys| < MAX_PAGES
      modifies this`blocks, this`headerDirty, this`startFreePage, this`numFreePage, this`free
      ensures pg !in f && pg < |blocks| && |old(blocks)| <= |blocks|
      ensures Pages(blocks, f.Keys + {pg}, free) && FreeList()
      ensures forall p :: p in f ==> p < |old(blocks)| && blocks[p] == old(blocks)[p]
      ensures DecodeNode(blocks[pg]) == Some(NodeData([], []))
      ensures TookOne(pg, |old(blocks)|, old(free), |blocks|, free)
    {
      pg := startFreePage;
      if free != [] { FreeMember(blocks, free, 0); }
      if pg == INVALID_PAGE {
        ExtendPages(blocks, f.Keys);
        forall p | p in f ensures p < |blocks| { assert Either(|blocks|, f.Keys, free, p); }
        pg := |blocks|;
        blocks := blocks + [Zeros(BLOCK_SIZE)];
      } else {
        pg := PopFreePage();
      }
    }

    method PopFreePage() returns (pg: nat)
      requires Pages(blocks, f.Keys, free) && FreeList() && free != []
      modifies this`blocks, this`headerDirty, this`startFreePage, this`numFreePage, this`free
      ensures pg !in f && pg < |blocks| && |old(blocks)| == |blocks|
      ensures Pages(blocks, f.Keys + {pg}, free) && FreeList()
      ensures forall p :: p in f ==> p < |old(blocks)| && blocks[p] == old(blocks)[p]
      ensures DecodeNode(blocks[pg]) == Some(NodeData([], []))
      ensures pg == old(free)[0] && free == old(free)[1..]
    {
      hide DecodeNode, EncodeFree, FreeBytes, WordAt, GetLE;
      FreeMember(blocks, free, 0);
      pg := startFreePage;
      var next, prev := ReadFreePage(pg);
      SetNumFreePage(numFreePage - 1);
      SetStartFreePage(next);
      if next != INVALID_PAGE {
        FreeMember(blocks, free, 1);
        next, prev := ReadFreePage(startFreePage);
        WriteFreePage(startFreePage, next, INVALID_PAGE);
      }
      PopPages(old(blocks), blocks, f.Keys, free);
      free := free[1..];
    }

    /** Allocates a page and adds it to the tree as the empty node `g`. */
    method AllocatePage(ghost g: Tnode) returns (pg: nat)
      requires Coherent() && |f.Keys| < MAX_PAGES && g.children == [] && g.entries == []
      modifies this`blocks, this`headerDirty, this`startFreePage, this`numFreePage, this`free, this`f
      ensures Coherent() && pg !in old(f) && f == old(f)[pg := g]
      ensures TookOne(pg, |old(blocks)|, old(free), |blocks|, free)
    {
      pg := TakePage();
      CacheOffTree(cache, old(blocks), blocks, f);
      CacheFresh(cache, blocks, f, pg, g);
      f := f[pg := g];
      assert f.Keys == old(f).Keys + {pg};
    }

    /** Puts a page in front of the free list. The test for a page at the very end of the stream
        compares a zero-based page number with the page count, so no page of the stream meets it. */
    method DeallocatePage(num: nat)
      requires Pages(blocks, f.Keys, free) && FreeList() && num <= |blocks| && |blocks| > 0
      requires num in f || num == |blocks| < MAX_PAGES
      modifies this`blocks, this`headerDirty, this`startFreePage, this`numFreePage, this`free
      ensures num == |old(blocks)| ==> blocks == old(blocks)[..num - 1] && unchanged(this`headerDirty, this`startFreePage, this`numFreePage, this`free)
      ensures num in f ==> |blocks| == |old(blocks)|
      ensures num in f ==> Pages(blocks, f.Keys - {num}, free) && FreeList() && free == [num] + old(free)
      ensures num in f ==> forall p :: p in f && p != num ==> p < |blocks| && blocks[p] == old(blocks)[p]
    {
      PageIndexWraps(num);
      assert Either(|blocks|, f.Keys, free, num);
      if PageOffset(num) == |blocks| * BLOCK_SIZE {
        blocks := blocks[..num - 1];
        return;
      }
      PushFreePage(num);
    }

    method PushFreePage(num: nat)
      requires Pages(blocks, f.Keys, free) && FreeList() && num in f
      modifies this`blocks, this`headerDirty, this`startFreePage, this`numFreePage, this`free
      ensures Pages(blocks, f.Keys - {num}, free) && FreeList() && free == [num] + old(free) && |blocks| == |old(blocks)|
      ensures forall p :: p in f && p != num ==> p < |blocks| && blocks[p] == old(blocks)[p]
    {
      hide DecodeNode, EncodeFree, GetLE, FreeBytes, WordAt;
      assert Either(|blocks|, f.Keys, free, num);
      if free != [] { FreeMember(blocks, free, 0); }
      WriteFreePage(num, startFreePage, INVALID_PAGE);
      var start := startFreePage;
      if start != INVALID_PAGE {
        var next, prev := ReadFreePage(start);
        WriteFreePage(start, next, num);
      }
      SetStartFreePage(num);
      SetNumFreePage(numFreePage + 1);
      PushPages(old(blocks), blocks, f.Keys, free, num);
      free := [num] + free;
    }

    // --- Nodes ------------------------------------------------------------------------------

    method ReadNode(num: nat) returns (d: NodeData)
      requires num < |blocks| <= MAX_PAGES && DecodeNode(blocks[num]).Some?
      ensures Some(d) == DecodeNode(blocks[num]) && ReadsAs(blocks[num], Some(d))
    {
      hide ReadsAs, DecodeNode;
      PageIndexWraps(num);
      var r := FromBuffer(blocks[PageIndex(num)]);
      assert r.Some?;
      d := r.value;
    }

    /** Fetches a node into the cache. */
    method RetrieveNode(parentNum: nat, num: nat)
      requires Coherent() && num in f && f[num].par == parentNum
      requires parentNum == INVALID_PAGE || parentNum in cache
      modifies this`cache
      ensures Coherent() && Mirrors(cache, f, num) && cache.Keys == old(cache).Keys + {num}
      ensures forall p :: p in old(cache) ==> cache[p] == old(cache)[p]
    {
      hide ReadsAs, DecodeNode;
      assert Written(cache, blocks, f, num);
      if num in cache {
        assert Mirrors(cache, f, num);
        assert parentNum == INVALID_PAGE || parentNum == cache[num].parent;
      } else {
        var d := ReadNode(num);
        cache := cache[num := Node(parentNum, d.children, d.entries, false)];
        forall p | p in cache ensures Mirrors(cache, f, p) {
          assert p != num ==> Mirrors(old(cache), f, p);
        }
        forall p | p in f ensures Written(cache, blocks, f, p) {
          assert Written(old(cache), blocks, f, p);
        }
      }
    }

    /** Changes the contents of a cached node; the node becomes dirty. */
    method SetNode(p: nat, children: seq<nat>, entries: seq<DirEntry>, ghost g: Tnode)
      requires Coherent() && Mirrors(cache, f, p)
      requires g.par == f[p].par && g.children == children && g.entries == entries
      modifies this`cache, this`f
      ensures Coherent() && f == old(f)[p := g] && cache.Keys == old(cache).Keys
    {
      ghost var n := Node(cache[p].parent, children, entries, true);
      CachePut(cache, blocks, f, p, n, g);
      cache := cache[p := cache[p].(children := children, entries := entries, dirty := true)];
      f := f[p := g];
      assert f.Keys == old(f).Keys;
    }

    method SetParent(p: nat, parent: nat)
      requires Coherent() && Mirrors(cache, f, p) && (parent == INVALID_PAGE || parent in cache)
      modifies this`cache, this`f
      ensures Coherent() && f == old(f)[p := old(f)[p].(par := parent)] && cache.Keys == old(cache).Keys
    {
      CachePut(cache, blocks, f, p, cache[p].(parent := parent, dirty := true), f[p].(par := parent));
      cache := cache[p := cache[p].(parent := parent, dirty := true)];
      f := f[p := f[p].(par := parent)];
      assert f.Keys == old(f).Keys;
    }

    /** Sets the parent of those of the listed nodes that are cached. */
    method AdoptInCache(cs: seq<nat>, parent: nat)
      modifies this`cache
      ensures cache == AdoptCached(old(cache), cs, parent)
    {
      for i := 0 to |cs|
        invariant cache == AdoptCached(old(cache), cs[..i], parent)
      {
        var c := cs[i];
        AdoptCachedSnoc(old(cache), cs[..i], c, parent);
        assert cs[..i + 1] == cs[..i] + [c];
        if c in cache {
          cache := cache[c := cache[c].(parent := parent, dirty := true)];
        }
      }
      assert cs[..|cs|] == cs;
    }

    /** Gives the children of `n` that are cached a new parent. */
    method AdjustChildrenInCache(n: nat, parent: nat)
      requires Coherent() && Mirrors(cache, f, n) && (parent == INVALID_PAGE || parent in cache)
      modifies this`cache, this`f
      ensures Coherent() && f == Adopt(old(f), old(f)[n].children, parent) && cache.Keys == old(cache).Keys
    {
      var cs := cache[n].children;
      CacheAdopt(cache, blocks, f, cs, parent);
      AdoptInCache(cs, parent);
      f := Adopt(f, cs, parent);
      assert f.Keys == old(f).Keys;
    }

    /** Frees the page of a node that nothing hangs from any more. */
    method DelNode(n: nat)
      requires Coherent() && n in f && forall p :: p in f && p != n ==> f[p].par != n
      modifies this`blocks, this`headerDirty, this`startFreePage, this`numFreePage, this`free, this`cache, this`f
      ensures Coherent() && f == old(f) - {n} && cache.Keys == old(cache).Keys - {n}
      ensures free == [n] + old(free) && |blocks| == |old(blocks)|
    {
      assert Written(cache, blocks, f, n);
      DeallocatePage(n);
      CacheErase(cache, old(blocks), blocks, f, n);
      cache := cache - {n};
      f := f - {n};
      assert f.Keys == old(f).Keys - {n};
    }

    // --- Lookup -----------------------------------------------------------------------------

    method GetRootNode() returns (n: nat)
      requires Coherent() && (rootPage != INVALID_PAGE ==> rootPage in f && f[rootPage].par == INVALID_PAGE)
      modifies this`cache
      ensures Coherent() && n == rootPage
      ensures rootPage != INVALID_PAGE ==> Mirrors(cache, f, n)
    {
      n := rootPage;
      if n != INVALID_PAGE {
        RetrieveNode(INVALID_PAGE, n);
      }
    }

    ghost method Relabel(f': Forest)
      requires Coherent() && SameTree(f, f')
      modifies this`f
      ensures Coherent() && f == f'
    {
      CacheSameTree(cache, blocks, f, f');
      f := f';
      assert f.Keys == old(f).Keys;
    }

    /** Fetches the child in slot `k` of a cached node and lets its interval fill the slot. */
    method EnterChild(n: nat, k: nat) returns (c: nat)
      requires Coherent() && Mirrors(cache, f, n) && ChildOk(f, n, k) && SameTree(f, Widen(f, n, k))
      modifies this`cache, this`f
      ensures Coherent() && f == Widen(old(f), n, k) && c == old(f)[n].children[k] && Mirrors(cache, f, c)
    {
      c := cache[n].children[k];
      RetrieveNode(n, c);
      Relabel(Widen(f, n, k));
    }

    /** Goes from `n` to its child in slot `k`. */
    method StepDown(n: nat, k: nat, ghost x: real) returns (c: nat)
      requires Coherent() && Shape(f, rootPage, {}) && Mirrors(cache, f, n) && f[n].ht > 0
      requires f[n].lo < x < f[n].hi && Splits(f[n].entries, k, x)
      requires k < |f[n].entries| ==> Key(f[n].entries[k]) != x
      requires AbsentAbove(f, f[n].ht, x)
      modifies this`cache, this`f
      ensures Coherent() && Shape(f, rootPage, {}) && SameTree(old(f), f)
      ensures Mirrors(cache, f, c) && f[c].ht + 1 == f[n].ht && f[c].lo < x < f[c].hi && AbsentAbove(f, f[c].ht, x)
    {
      Descend(f, rootPage, n, k, x);
      c := EnterChild(n, k);
    }

    /** Finds the node and index of a name, or the leaf and index where it would go. */
    method FindNode(name: Name) returns (n: nat, k: nat, isEqual: bool)
      requires Coherent() && Shape(f, rootPage, {}) && f[rootPage].ht < BTREE_MAX_DEPTH && rootPage != INVALID_PAGE
      modifies this`cache, this`f
      ensures Coherent() && Shape(f, rootPage, {}) && SameTree(old(f), f)
      ensures Mirrors(cache, f, n) && k <= |f[n].entries|
      ensures isEqual ==> k < |f[n].entries| && f[n].entries[k].name == name
      ensures !isEqual ==> f[n].ht == 0 && SlotLo(f[n], k) < Order()(name) < SlotHi(f[n], k)
      ensures !isEqual ==> forall e :: Has(f, e) ==> e.name != name
    {
      hide Pages, Less;
      ghost var x := Order()(name);
      KeyOrder(name, name);
      n := GetRootNode();
      for i := 0 to BTREE_MAX_DEPTH
        invariant Coherent() && Shape(f, rootPage, {}) && SameTree(old(f), f)
        invariant Mirrors(cache, f, n) && f[n].ht + i == f[rootPage].ht
        invariant f[n].lo < x < f[n].hi && AbsentAbove(f, f[n].ht, x)
      {
        assert NodeOk(f, n);
        k := LowerBound(cache[n].entries, name);
        if k < |cache[n].entries| && cache[n].entries[k].name == name {
          return n, k, true;
        }
        assert k < |f[n].entries| ==> Key(f[n].entries[k]) != x by {
          if k < |f[n].entries| { KeyOrder(f[n].entries[k].name, name); }
        }
        if IsLeaf(cache[n]) {
          SplitSlot(f, n, k, x);
          AbsentHere(f, rootPage, n, x);
          NowhereStored(f, name);
          return n, k, false;
        }
        n := StepDown(n, k, x);
      }
      assert false;
      isEqual := false;
    }

    // --- Insertion --------------------------------------------------------------------------

    /** Inserts an entry into a node, with the page behind it if the node has children. */
    method PlaceEntry(n: nat, e: DirEntry, c: nat, ghost j: nat)
      requires Coherent() && Mirrors(cache, f, n) && InsertReady(f, rootPage, n, j, e, c)
      modifies this`cache, this`f
      ensures Coherent() && cache.Keys == old(cache).Keys
      ensures f == InsertStep(old(f), n, j, e, c)
    {
      assert NodeOk(f, n);
      var node := cache[n];
      var k := LowerBound(node.entries, e.name);
      BelongsAt(f[n], j, k, e);
      var children := if c != INVALID_PAGE && !IsLeaf(node) then InsertAt(node.children, k + 1, c) else node.children;
      SetNode(n, children, InsertAt(node.entries, k, e), InsertStep(f, n, j, e, c)[n]);
    }

    /** Adds an empty node to the tree and fetches it. */
    method NewNode(parent: nat, ghost g: Tnode) returns (s: nat)
      requires Coherent() && |f.Keys| < MAX_PAGES && (parent == INVALID_PAGE || parent in cache)
      requires g.par == parent && g.children == [] && g.entries == []
      modifies this`blocks, this`headerDirty, this`startFreePage, this`numFreePage, this`free, this`cache, this`f
      ensures Coherent() && s !in old(f) && s != INVALID_PAGE && f == old(f)[s := g] && Mirrors(cache, f, s)
      ensures cache.Keys == old(cache).Keys + {s}
      ensures forall p :: p in old(cache) ==> cache[p] == old(cache)[p]
      ensures TookOne(s, |old(blocks)|, old(free), |blocks|, free)
    {
      s := AllocatePage(g);
      assert Written(cache, blocks, f, s);
      RetrieveNode(parent, s);
    }

    /** Moves the upper half of an overfull node to a new node and takes out the entry between. */
    method SplitNode(n: nat) returns (e: DirEntry, s: nat)
      requires Coherent() && Mirrors(cache, f, n) && Nodes(f) && |f[n].entries| == BTREE_MAX_NUM_ENTRIES + 1
      requires |f.Keys| < MAX_PAGES
      modifies this`blocks, this`headerDirty, this`startFreePage, this`numFreePage, this`free, this`cache, this`f
      ensures Coherent() && s !in old(f) && s != INVALID_PAGE
      ensures cache.Keys == old(cache).Keys + {s}
      ensures f == Split(old(f), n, s, 6) && e == old(f)[n].entries[6]
      ensures TookOne(s, |old(blocks)|, old(free), |blocks|, free)
    {
      hide CacheOk, Pages;
      ghost var g := Tnode(f[n].par, [], [], 0, 0.0, 0.0);
      var node := cache[n];
      assert NodeOk(f, n);
      s := NewNode(node.parent, g);
      var middle := |node.entries| / 2 - 1;
      e := node.entries[middle];
      SplitAs(old(f), n, s, middle, g);
      MoveHalf(n, s, middle);
    }

    method MoveHalf(n: nat, s: nat, m: nat)
      requires Coherent() && Mirrors(cache, f, n) && Mirrors(cache, f, s) && s != n && m < |f[n].entries| && f[s].par == f[n].par
      requires n !in RightKids(f[n].children, m) && (f[n].children == [] || |f[n].children| == |f[n].entries| + 1)
      modifies this`cache, this`f
      ensures Coherent() && cache.Keys == old(cache).Keys
      ensures f == Halved(old(f), n, s, m)
    {
      var node := cache[n];
      var children := if IsLeaf(node) then [] else RightKids(node.children, m);
      SetNode(s, children, node.entries[m + 1..], SplitRight(f[n], m));
      AdjustChildrenInCache(s, s);
      SetNode(n, LeftKids(node.children, m), node.entries[..m], SplitLeft(old(f)[n], m));
    }

    /** Puts a new root above a split root. */
    method GrowRoot(n: nat, s: nat, e: DirEntry)
      requires Coherent() && Mirrors(cache, f, n) && Mirrors(cache, f, s) && n != s && |f.Keys| < MAX_PAGES
      modifies this`rootPage, this`blocks, this`headerDirty, this`startFreePage, this`numFreePage, this`free, this`cache, this`f
      ensures Coherent() && rootPage !in old(f) && rootPage != INVALID_PAGE
      ensures f == NewRoot(old(f), n, s, rootPage, e)
      ensures TookOne(rootPage, |old(blocks)|, old(free), |blocks|, free)
    {
      ghost var g := Tnode(INVALID_PAGE, [], [], f[n].ht + 1, -1.0, 1.0);
      var newRoot := NewNode(INVALID_PAGE, g);
      SetRootPage(newRoot);
      FillRoot(newRoot, n, s, e, g.(children := [n, s], entries := [e]));
      NewRootAs(old(f), n, s, newRoot, e, g);
    }

    method FillRoot(r: nat, n: nat, s: nat, e: DirEntry, ghost g: Tnode)
      requires Coherent() && r in cache && n in cache && s in cache && n != s && r != n && r != s
      requires n in f && s in f && r in f && f[r].par == g.par && g.children == [n, s] && g.entries == [e]
      modifies this`cache, this`f
      ensures Coherent()
      ensures f == old(f)[r := g][n := old(f)[n].(par := r)][s := old(f)[s].(par := r)]
    {
      assert Mirrors(cache, f, r);
      SetNode(r, [n, s], [e], g);
      assert Mirrors(cache, f, n);
      SetParent(n, r);
      assert Mirrors(cache, f, s);
      SetParent(s, r);
    }

    /** Inserts an entry and splits overfull nodes on the way up. */
    method InsertAndBalance(n: nat, e: DirEntry, c: nat, depth: nat, ghost j: nat)
      requires Coherent() && Mirrors(cache, f, n) && InsertReady(f, rootPage, n, j, e, c)
      requires depth == f[n].ht <= f[rootPage].ht < BTREE_MAX_DEPTH
      requires |f.Keys| + (f[rootPage].ht - f[n].ht) + 2 <= MAX_PAGES
      modifies this`rootPage, this`blocks, this`headerDirty, this`startFreePage, this`numFreePage, this`free, this`cache, this`f
      ensures Coherent() && Shape(f, rootPage, {}) && Occupied(f, rootPage, INVALID_PAGE)
      ensures Gains(old(f), f, e)
      ensures Took(|old(blocks)|, old(free), |blocks|, free)
      decreases BTREE_MAX_DEPTH - depth, 1
    {
      hide Took, Pages, NodeOk;
      assert depth < BTREE_MAX_DEPTH;
      InsertStepShape(f, rootPage, n, j, e, c);
      InsertStepOccupied(f, rootPage, n, j, e, c);
      InsertStepGains(f, n, j, e, c);
      PlaceEntry(n, e, c, j);
      assert Mirrors(cache, f, n);
      TookNone(|blocks|, free);
      if |cache[n].entries| > BTREE_MAX_NUM_ENTRIES {
        SplitUp(n, depth);
      }
    }

    /** Splits an overfull node and hands the middle entry to its parent, or to a new root. */
    method SplitUp(n: nat, depth: nat)
      requires Coherent() && Mirrors(cache, f, n) && Shape(f, rootPage, {}) && OccupiedBut(f, rootPage, n)
      requires |f[n].entries| == BTREE_MAX_NUM_ENTRIES + 1
      requires depth == f[n].ht <= f[rootPage].ht < BTREE_MAX_DEPTH
      requires |f.Keys| + (f[rootPage].ht - f[n].ht) + 2 <= MAX_PAGES
      modifies this`rootPage, this`blocks, this`headerDirty, this`startFreePage, this`numFreePage, this`free, this`cache, this`f
      ensures Coherent() && Shape(f, rootPage, {}) && Occupied(f, rootPage, INVALID_PAGE)
      ensures Same(old(f), f)
      ensures Took(|old(blocks)|, old(free), |blocks|, free)
      decreases BTREE_MAX_DEPTH - depth, 0
    {
      hide Took, TookOne, Split, NewRoot, Pages, Gains, Same, Shape, Occupied, OccupiedBut, NodeOk, Linked;
      ghost var f1 := f;
      InvalidNotLive(blocks, f.Keys, free);
      RootOrLinked(f, rootPage, n);
      var e, s := SplitNode(n);
      ghost var n1, free1 := |blocks|, free;
      TookSome(s, |old(blocks)|, old(free), n1, free1);
      SplitGains(f1, n, s, 6);
      SplitKeys(f1, n, s);
      assert Mirrors(cache, f, n) && Mirrors(cache, f, s);
      if cache[n].parent == INVALID_PAGE {
        GrowRoot(n, s, e);
        TookSome(rootPage, n1, free1, |blocks|, free);
        SplitAtRoot(f1, n, s, rootPage);
      } else {
        ghost var j := SplitBelow(f1, rootPage, n, s);
        SplitHeights(f1, n, s);
        assert Mirrors(cache, f, f[n].par);
        InsertAndBalance(cache[n].parent, e, s, depth + 1, j);
      }
      TookAfter(|old(blocks)|, old(free), n1, free1, |blocks|, free);
      GainsTwice(Split(f1, n, s, 6), f1, f, e);
    }

    // --- Removal ----------------------------------------------------------------------------

    /** Goes from a node down its last children to a leaf. */
    method LastLeaf(start: nat, ghost n: nat, ghost i: nat) returns (leaf: nat, ghost sp: seq<nat>)
      requires Coherent() && Nodes(f) && Mirrors(cache, f, start)
      requires n in f && i < |f[n].entries| && i < |f[n].children| && f[n].children[i] == start
      modifies this`cache
      ensures Coherent() && Spine(f, n, i, sp) && leaf == Leaf(sp) && Mirrors(cache, f, leaf)
      ensures forall p :: p in old(cache) ==> p in cache
    {
      hide Pages;
      leaf := start;
      sp := [start];
      assert NodeOk(f, leaf);
      while !IsLeaf(cache[leaf])
        invariant Coherent() && Mirrors(cache, f, leaf) && NodeOk(f, leaf)
        invariant forall p :: p in old(cache) ==> p in cache
        invariant sp != [] && sp[0] == start && sp[|sp| - 1] == leaf
        invariant forall t :: 0 <= t < |sp| ==> sp[t] in f
        invariant forall t, u :: 0 <= t < |sp| && u == t + 1 < |sp| ==> LastChild(f, sp[t], sp[u])
        decreases f[leaf].ht
      {
        var cs := cache[leaf].children;
        assert NodeOk(f, leaf) && ChildOk(f, leaf, |cs| - 1);
        var next := cs[|cs| - 1];
        assert LastChild(f, leaf, next);
        RetrieveNode(leaf, next);
        leaf := next;
        sp := sp + [next];
      }
      assert NodeOk(f, leaf);
    }

    /** Takes the last entry out of a leaf and puts it in place of entry `i` of `n`. */
    method MoveUp(n: nat, i: nat, leaf: nat, ghost sp: seq<nat>)
      requires Coherent() && Nodes(f) && Mirrors(cache, f, n) && Mirrors(cache, f, leaf)
      requires Spine(f, n, i, sp) && leaf == Leaf(sp) && f[leaf].entries != []
      modifies this`cache, this`f
      ensures Coherent() && f == Replace(old(f), n, i, sp) && Mirrors(cache, f, leaf)
    {
      hide Pages, NodeOk;
      SpineAway(f, n, i, sp, |sp| - 1);
      var es := cache[leaf].entries;
      var e := es[|es| - 1];
      ghost var f' := Replace(f, n, i, sp);
      ghost var f2 := f[n := f[n].(entries := f[n].entries[i := e])][leaf := f[leaf].(entries := es[..|es| - 1])];
      SetNode(n, cache[n].children, cache[n].entries[i := e], f2[n]);
      assert Mirrors(cache, f, leaf);
      SetNode(leaf, cache[leaf].children, es[..|es| - 1], f2[leaf]);
      Relabel(f');
      assert Mirrors(cache, f, leaf);
    }

    /** Removes entry `index` of `n`, drawing up its predecessor if `n` has children; returns the
        leaf that lost an entry. */
    method ReplaceWithSubEntry(n: nat, index: nat) returns (leaf: nat)
      requires Coherent() && Mirrors(cache, f, n) && index < |f[n].entries|
      requires Shape(f, rootPage, {}) && Occupied(f, rootPage, INVALID_PAGE)
      modifies this`cache, this`f
      ensures Coherent() && Mirrors(cache, f, leaf) && f[leaf].ht == 0
      ensures Shrunk(f, rootPage, leaf) && Loses(old(f), f, old(f)[n].entries[index])
      ensures f[rootPage].ht == old(f)[rootPage].ht
    {
      hide Pages;
      assert NodeOk(f, n);
      InvalidNotLive(blocks, f.Keys, free);
      if IsLeaf(cache[n]) {
        RemoveShape(f, rootPage, n, index);
        SetNode(n, cache[n].children, RemoveAt(cache[n].entries, index), LeafErase(f, n, index)[n]);
        assert Mirrors(cache, f, n);
        leaf := n;
      } else {
        assert ChildOk(f, n, index);
        var c := cache[n].children[index];
        RetrieveNode(n, c);
        ghost var sp;
        leaf, sp := LastLeaf(c, n, index);
        ReplaceShape(f, rootPage, n, index, sp);
        assert Mirrors(cache, f, n);
        MoveUp(n, index, leaf, sp);
      }
    }

    /** `std::find` over child page numbers. */
    static method FindChild(cs: seq<nat>, c: nat) returns (i: nat)
      ensures i <= |cs| && (i == |cs| <==> c !in cs)
      ensures i < |cs| ==> cs[i] == c
      ensures forall t :: 0 <= t < i ==> cs[t] != c
    {
      i := 0;
      while i < |cs| && cs[i] != c
        invariant i <= |cs| && forall t :: 0 <= t < i ==> cs[t] != c
      {
        i := i + 1;
      }
    }

    /** Merges the right neighbour `r` and the entry between into `l`. */
    method MergeNodes(q: nat, k: nat, l: nat, r: nat)
      requires Coherent() && Nodes(f) && Links(f, {rootPage}) && IsRoot(f, rootPage) && Neighbours(f, q, k, l, r)
      requires Mirrors(cache, f, q) && Mirrors(cache, f, l) && Mirrors(cache, f, r)
      modifies this`blocks, this`headerDirty, this`startFreePage, this`numFreePage, this`free, this`cache, this`f
      ensures Coherent() && f == Merge(old(f), q, k, l, r) && cache.Keys == old(cache).Keys - {r}
      ensures free == [r] + old(free) && |blocks| == |old(blocks)|
    {
      MergeAs(f, q, k, l, r);
      InvalidNotLive(blocks, f.Keys, free);
      var e := cache[q].entries[k];
      var at := FindChild(cache[q].children, r);
      assert at == k + 1 by { ChildIndex(f, q, k + 1, at); }
      var left, right := cache[l], cache[r];
      MergeData(q, k, at, l, r, left.children + right.children, left.entries + [e] + right.entries);
      NoneUnder(old(f), q, k, l, r, rootPage);
      DelNode(r);
    }

    method MergeData(q: nat, k: nat, at: nat, l: nat, r: nat, children: seq<nat>, entries: seq<DirEntry>)
      requires Coherent() && Neighbours(f, q, k, l, r) && at == k + 1 && l != q && r != q && l != r && f[l].par == q
      requires l !in f[r].children && q !in f[r].children && r !in f[r].children
      requires Mirrors(cache, f, q) && Mirrors(cache, f, l) && Mirrors(cache, f, r)
      requires children == Joined(f, q, k, l, r).children && entries == Joined(f, q, k, l, r).entries
      modifies this`cache, this`f
      ensures Coherent() && cache.Keys == old(cache).Keys
      ensures f == Adopt(old(f)[q := WithoutEntry(old(f)[q], k)], old(f)[r].children, l)[l := Joined(old(f), q, k, l, r)]
    {
      SetNode(q, RemoveAt(cache[q].children, at), RemoveAt(cache[q].entries, k), WithoutEntry(f[q], k));
      assert Mirrors(cache, f, r);
      AdjustChildrenInCache(r, l);
      assert Mirrors(cache, f, l);
      SetNode(l, children, entries, Joined(old(f), q, k, l, r));
    }

    /** Evens out two neighbours through the entry between them. */
    method RotateNodes(q: nat, k: nat, l: nat, r: nat)
      requires Coherent() && Nodes(f) && Neighbours(f, q, k, l, r)
      requires Mirrors(cache, f, q) && Mirrors(cache, f, l) && Mirrors(cache, f, r)
      modifies this`cache, this`f
      ensures Coherent() && cache.Keys == old(cache).Keys
      ensures f == Rotate(old(f), q, k, l, r, (|old(f)[l].entries| + 1 + |old(f)[r].entries|) / 2)
    {
      hide CacheOk, Pages, NodeOk, Adopt, Rotate;
      MergeFacts(f, q, k, l, r);
      JoinedChildren(f, q, k, l, r);
      var temp := cache[l].entries + [cache[q].entries[k]] + cache[r].entries;
      var tempChildren := [];
      if cache[l].children != [] && cache[r].children != [] {
        tempChildren := cache[l].children + cache[r].children;
      }
      RotateData(q, k, l, r, temp, tempChildren, |temp| / 2);
      RotateAs(old(f), q, k, l, r, |temp| / 2);
      RotateParents(l, r);
    }

    method RotateParents(l: nat, r: nat)
      requires Coherent() && l in f && r in f && l != r && l in cache && r in cache
      requires l !in f[l].children && r !in f[l].children
      modifies this`cache, this`f
      ensures Coherent() && cache.Keys == old(cache).Keys
      ensures f == Adopt(Adopt(old(f), old(f)[l].children, l), old(f)[r].children, r)
    {
      assert Mirrors(cache, f, l) && Mirrors(cache, f, r);
      AdjustChildrenInCache(l, l);
      assert Mirrors(cache, f, r);
      AdjustChildrenInCache(r, r);
    }

    method RotateData(q: nat, k: nat, l: nat, r: nat, temp: seq<DirEntry>, tempChildren: seq<nat>, m: nat)
      requires Coherent() && Neighbours(f, q, k, l, r) && l != q && r != q && l != r && f[l].par == q && f[r].par == q
      requires Mirrors(cache, f, q) && Mirrors(cache, f, l) && Mirrors(cache, f, r)
      requires temp == Joined(f, q, k, l, r).entries && tempChildren == Joined(f, q, k, l, r).children && m < |temp|
      modifies this`cache, this`f
      ensures Coherent() && cache.Keys == old(cache).Keys
      ensures f == Shared(old(f), q, k, l, r, m)
    {
      ghost var j := Joined(f, q, k, l, r);
      SetNode(l, LeftKids(tempChildren, m), temp[..m], SplitLeft(j, m));
      assert Mirrors(cache, f, r);
      SetNode(r, RightKids(tempChildren, m), temp[m + 1..], SplitRight(j, m));
      assert Mirrors(cache, f, q);
      SetNode(q, cache[q].children, cache[q].entries[k := temp[m]], old(f)[q].(entries := old(f)[q].entries[k := j.entries[m]]));
    }

    /** The neighbour to balance with: the right one, or the left one for a last child. */
    method FindSibling(q: nat, n: nat) returns (k: nat, s: nat)
      requires Coherent() && Mirrors(cache, f, q) && Mirrors(cache, f, n)
      requires Shrunk(f, rootPage, n) && n != rootPage && f[n].par == q
      modifies this`cache
      ensures Coherent() && Mirrors(cache, f, s) && forall p :: p in old(cache) ==> p in cache
      ensures f[q].children != []
      ensures if n == f[q].children[|f[q].children| - 1] then Neighbours(f, q, k, s, n) else Neighbours(f, q, k, n, s)
    {
      assert q == cache[n].parent;
      var cs := cache[q].children;
      var i := FindChild(cs, n);
      assert i < |cs| by { assert Linked(f, n); }
      HasNeighbour(f, rootPage, n, i);
      if i + 1 == |cs| {
        k, s := i - 1, cs[i - 1];
      } else {
        ChildrenDistinct(f, q, i, |cs| - 1);
        k, s := i, cs[i + 1];
      }
      RetrieveNode(q, s);
    }

    /** Makes the only child of an empty root the root. */
    method DropRoot(n: nat)
      requires Coherent() && Mirrors(cache, f, n) && Shrunk(f, n, n) && n == rootPage
      requires f[n].entries == [] && f[n].ht > 0
      modifies this`rootPage, this`blocks, this`headerDirty, this`startFreePage, this`numFreePage, this`free, this`cache, this`f
      ensures Coherent() && Shape(f, rootPage, {}) && Occupied(f, rootPage, INVALID_PAGE)
      ensures Same(old(f), f) && old(f)[n].children == [rootPage]
      ensures free == [n] + old(free) && |blocks| == |old(blocks)|
    {
      hide Pages;
      assert NodeOk(f, n);
      assert |cache[n].children| == 1;
      var c := cache[n].children[0];
      assert f[n].children == [c];
      CollapseOk(f, n, c);
      CollapseAs(f, n, c);
      CollapseSame(f, n, c);
      CollapseOccupied(f, n, c);
      AdjustChildrenInCache(n, INVALID_PAGE);
      SetRootPage(c);
      DelNode(n);
      Relabel(Collapse(old(f), n, c));
    }

    /** Merges `n` with its right neighbour, or as a last child with its left one, if they have fewer than
        13 entries together, and otherwise evens them out. */
    method Rebalance(q: nat, n: nat) returns (ghost k: nat, ghost l: nat, ghost r: nat)
      requires Coherent() && Mirrors(cache, f, q) && Mirrors(cache, f, n)
      requires Shrunk(f, rootPage, n) && n != rootPage && f[n].par == q && |f[n].entries| < 6
      modifies this`blocks, this`headerDirty, this`startFreePage, this`numFreePage, this`free, this`cache, this`f
      ensures Coherent() && Mirrors(cache, f, q) && Shrunk(f, rootPage, q) && Same(old(f), f)
      ensures f[q].ht == old(f)[q].ht && f[rootPage].ht == old(f)[rootPage].ht
      ensures Neighbours(old(f), q, k, l, r) && old(f)[q].children != []
      ensures n == if n == old(f)[q].children[|old(f)[q].children| - 1] then r else l
      ensures if |old(f)[l].entries| + |old(f)[r].entries| < 13
              then f == Merge(old(f), q, k, l, r) && free == [r] + old(free) && |blocks| == |old(blocks)|
              else f == Rotate(old(f), q, k, l, r, (|old(f)[l].entries| + 1 + |old(f)[r].entries|) / 2)
                   && free == old(free) && blocks == old(blocks)
    {
      hide Pages, CacheOk, NodeOk, Merge, Rotate;
      var index, s := FindSibling(q, n);
      k := index;
      NeighbourRoot(f, rootPage, q, k, n, s);
      LeftOrRight(f, rootPage, n, q, k, s);
      Kept(n);
      Kept(q);
      var a, b := cache[n].entries, cache[s].entries;
      var left, right := s, n;
      if Less(a[|a| - 1].name, b[0].name) {
        left, right := n, s;
      }
      l, r := left, right;
      if |a| + |b| < BTREE_MAX_NUM_ENTRIES {
        MergeStep(q, index, left, right, n);
      } else {
        RotateStep(q, index, left, right, n);
      }
    }

    /** What is cached shows the tree. */
    lemma Kept(p: nat)
      requires Coherent() && p in cache
      ensures Mirrors(cache, f, p)
    {
    }

    method MergeStep(q: nat, k: nat, l: nat, r: nat, ghost n: nat)
      requires Coherent() && Mirrors(cache, f, q) && Mirrors(cache, f, l) && Mirrors(cache, f, r)
      requires Shrunk(f, rootPage, n) && Neighbours(f, q, k, l, r) && (n == l || n == r) && n != rootPage
      requires |f[l].entries| + |f[r].entries| < BTREE_MAX_NUM_ENTRIES
      modifies this`blocks, this`headerDirty, this`startFreePage, this`numFreePage, this`free, this`cache, this`f
      ensures f == Merge(old(f), q, k, l, r) && free == [r] + old(free) && |blocks| == |old(blocks)|
      ensures Coherent() && Mirrors(cache, f, q) && Shrunk(f, rootPage, q) && Same(old(f), f)
      ensures f[q].ht == old(f)[q].ht && f[rootPage].ht == old(f)[rootPage].ht
    {
      MergeBalances(f, rootPage, n, q, k, l, r);
      MergeNodes(q, k, l, r);
      assert Mirrors(cache, f, q);
    }

    method RotateStep(q: nat, k: nat, l: nat, r: nat, ghost n: nat)
      requires Coherent() && Mirrors(cache, f, q) && Mirrors(cache, f, l) && Mirrors(cache, f, r)
      requires Shrunk(f, rootPage, n) && Neighbours(f, q, k, l, r) && (n == l || n == r) && n != rootPage
      requires |f[l].entries| + |f[r].entries| >= BTREE_MAX_NUM_ENTRIES && |f[n].entries| < 6
      modifies this`cache, this`f
      ensures f == Rotate(old(f), q, k, l, r, (|old(f)[l].entries| + 1 + |old(f)[r].entries|) / 2)
      ensures Coherent() && Mirrors(cache, f, q) && Shrunk(f, rootPage, q) && Same(old(f), f)
      ensures f[q].ht == old(f)[q].ht && f[rootPage].ht == old(f)[rootPage].ht
    {
      ghost var m := (|f[l].entries| + 1 + |f[r].entries|) / 2;
      assert Nodes(f);
      RotateNodes(q, k, l, r);
      RotateBalances(old(f), rootPage, n, q, k, l, r, m);
      assert Mirrors(cache, f, q);
    }

    /** Restores occupancy from `n` upwards. */
    method BalanceUp(n: nat, depth: nat)
      requires Coherent() && Mirrors(cache, f, n) && Shrunk(f, rootPage, n)
      requires depth == f[n].ht <= f[rootPage].ht < BTREE_MAX_DEPTH
      modifies this`rootPage, this`blocks, this`headerDirty, this`startFreePage, this`numFreePage, this`free, this`cache, this`f
      ensures Coherent() && Shape(f, rootPage, {}) && Occupied(f, rootPage, INVALID_PAGE)
      ensures Same(old(f), f) && Gave(|old(blocks)|, old(free), |blocks|, free)
      decreases BTREE_MAX_DEPTH - depth
    {
      hide Gave, Merge, Rotate;
      GaveFew(|blocks|, free, n);
      assert depth < BTREE_MAX_DEPTH;
      assert NodeOk(f, n);
      assert f[n].par == INVALID_PAGE <==> n == rootPage by { assert n != rootPage ==> Linked(f, n); }
      if cache[n].parent == INVALID_PAGE && cache[n].entries == [] && cache[n].children != [] {
        DropRoot(n);
        return;
      }
      if cache[n].parent == INVALID_PAGE || |cache[n].entries| >= BTREE_MAX_NUM_ENTRIES / 2 {
        BalancedEnough(f, rootPage, n);
        return;
      }
      var q := cache[n].parent;
      assert Mirrors(cache, f, q);
      assert f[q].ht == depth + 1 && f[q].ht <= f[rootPage].ht by { ParentHeight(f, rootPage, n); }
      ghost var k, l, r := Rebalance(q, n);
      ghost var n1, free1 := |blocks|, free;
      GaveFew(|old(blocks)|, old(free), r);
      BalanceUp(q, depth + 1);
      GaveAfter(|old(blocks)|, old(free), n1, free1, |blocks|, free);
    }

    // --- The directory interface --------------------------------------------------------------

    /** A tree in good order, or none. */
    ghost predicate InOrder()
      reads this
    {
      TreeOk(rootPage, f)
    }

    ghost predicate Valid()
      reads this
    {
      Coherent() && InOrder() && TableOk(f, table)
    }

    lemma Sound()
      requires Valid()
      ensures INVALID_PAGE !in f && |blocks| == |f.Keys| + numFreePage <= MAX_PAGES
      ensures rootPage != INVALID_PAGE ==> f[rootPage].ht <= 7
    {
      InvalidNotLive(blocks, f.Keys, free);
      PageCount(|blocks|, f.Keys, free);
      if rootPage != INVALID_PAGE { TreeDepth(f, rootPage); }
    }

    /** Enough of the pages that can be told apart are unused for any insertion: one for each level
        that may split and one for a new root. */
    predicate HasRoom()
      reads this
    {
      |blocks| - numFreePage + 9 <= MAX_PAGES
    }

    /** Few enough entries always leave room. */
    lemma RoomForEntries()
      requires Valid() && |table| < MAX_ENTRIES
      ensures HasRoom()
    {
      Sound();
      if rootPage != INVALID_PAGE { FewPages(f, rootPage, table); }
    }

    /** Looks a name up in a directory that has a tree. */
    method Locate(name: Name) returns (n: nat, k: nat, isEqual: bool)
      requires Valid() && rootPage != INVALID_PAGE
      modifies this`cache, this`f
      ensures Valid() && SameTree(old(f), f) && Mirrors(cache, f, n)
      ensures isEqual == (name in table)
      ensures if isEqual then k < |f[n].entries| && f[n].entries[k] == DirEntry(name, table[name].id, table[name].kind)
              else f[n].ht == 0 && k <= |f[n].entries| && SlotLo(f[n], k) < Order()(name) < SlotHi(f[n], k)
    {
      Sound();
      n, k, isEqual := FindNode(name);
      SameTreeHas(old(f), f);
      SameTreeOccupied(old(f), f, rootPage, INVALID_PAGE);
      if isEqual {
        assert Has(f, f[n].entries[k]) && InTable(table, f[n].entries[k]);
      } else {
        NameMissing(f, table, name);
      }
    }

    method GetEntry(name: Name) returns (r: Result<Option<Value>, Error>)
      requires Valid()
      modifies this`cache, this`f
      ensures Valid() && SameTree(old(f), f)
      ensures r == if |name| > MAX_FILENAME_LENGTH then Err(NameTooLong)
                   else Ok(if name in table then Some(table[name]) else None)
    {
      if |name| > MAX_FILENAME_LENGTH {
        return Err(NameTooLong);
      }
      if rootPage == INVALID_PAGE {
        NotInEmpty(f, table, name);
        return Ok(None);
      }
      var n, k, isEqual := Locate(name);
      if !isEqual {
        return Ok(None);
      }
      var e := cache[n].entries[k];
      r := Ok(Some(Value(e.id, e.kind)));
    }

    /** The first entry of a directory without a tree. */
    method PlantRoot(e: DirEntry)
      requires Coherent() && f == map[] && rootPage == INVALID_PAGE
      modifies this`rootPage, this`blocks, this`headerDirty, this`startFreePage, this`numFreePage, this`free, this`cache, this`f
      ensures Coherent() && rootPage != INVALID_PAGE
      ensures Shape(f, rootPage, {}) && Occupied(f, rootPage, INVALID_PAGE) && Gains(map[], f, e)
      ensures TookOne(rootPage, |old(blocks)|, old(free), |blocks|, free)
    {
      hide Shape, Occupied, Gains, Pages, CacheOk, TookOne;
      ghost var g := Tnode(INVALID_PAGE, [], [], 0, -1.0, 1.0);
      var pg := AllocatePage(g);
      InvalidNotLive(blocks, f.Keys, free);
      SetRootPage(pg);
      var n := GetRootNode();
      SetNode(n, cache[n].children, cache[n].entries + [e], g.(entries := [e]));
      SingleRoot(rootPage, e);
      assert f == map[rootPage := g.(entries := [e])];
    }

    /** Adds an entry at the leaf position that a lookup has found. */
    method Insert(n: nat, k: nat, e: DirEntry)
      requires Valid() && rootPage != INVALID_PAGE && Mirrors(cache, f, n) && f[n].ht == 0 && Belongs(f[n], k, e)
      requires e.name !in table && HasRoom()
      modifies this`rootPage, this`blocks, this`headerDirty, this`startFreePage, this`numFreePage, this`free, this`cache, this`f
      ensures Coherent() && InOrder() && Stores(f, table[e.name := ValueOf(e)])
      ensures Took(|old(blocks)|, old(free), |blocks|, free)
    {
      Sound();
      InsertAndBalance(n, e, INVALID_PAGE, 0, k);
      InvalidNotLive(blocks, f.Keys, free);
      StoresGain(old(f), f, table, e);
    }

    method AddEntry(name: Name, id: Bytes, kind: int) returns (r: Result<bool, Error>)
      requires Valid() && Addable(Value(id, kind)) && (|name| <= MAX_FILENAME_LENGTH && name !in table ==> HasRoom())
      modifies this`rootPage, this`blocks, this`headerDirty, this`startFreePage, this`numFreePage, this`free, this`cache, this`f, this`table
      ensures Valid()
      ensures r == if |name| > MAX_FILENAME_LENGTH then Err(NameTooLong) else Ok(name !in old(table))
      ensures table == if r == Ok(true) then old(table)[name := Value(id, kind)] else old(table)
      ensures Took(|old(blocks)|, old(free), |blocks|, free)
    {
      hide CacheOk, Pages, Shape, Occupied, Stores, AllLegal, Took, TookOne, SameTree, HeadsFreeList;
      TookNone(|blocks|, free);
      if |name| > MAX_FILENAME_LENGTH {
        return Err(NameTooLong);
      }
      var e := DirEntry(name, id, kind);
      if rootPage == INVALID_PAGE {
        NotInEmpty(f, table, name);
        PlantRoot(e);
        TookSome(rootPage, |old(blocks)|, old(free), |blocks|, free);
        StoresGain(map[], f, table, e);
      } else {
        var n, k, isEqual := Locate(name);
        if isEqual {
          return Ok(false);
        }
        Insert(n, k, e);
      }
      TablePlus(table, name, Value(id, kind));
      table := table[name := Value(id, kind)];
      r := Ok(true);
    }

    /** Removes the entry that a lookup has found. */
    method Remove(n: nat, k: nat) returns (e: DirEntry)
      requires Valid() && rootPage != INVALID_PAGE && Mirrors(cache, f, n) && k < |f[n].entries|
      modifies this`rootPage, this`blocks, this`headerDirty, this`startFreePage, this`numFreePage, this`free, this`cache, this`f
      ensures Coherent() && InOrder() && e == old(f)[n].entries[k] && Stores(f, table - {e.name})
      ensures Gave(|old(blocks)|, old(free), |blocks|, free)
    {
      hide CacheOk, Stores, NodeOk;
      Sound();
      e := cache[n].entries[k];
      var leaf := ReplaceWithSubEntry(n, k);
      ghost var f1 := f;
      BalanceUp(leaf, 0);
      InvalidNotLive(blocks, f.Keys, free);
      StoresLoss(old(f), f1, table, e);
      StoresSame(f1, f, table - {e.name});
    }

    method RemoveEntry(name: Name) returns (r: Result<Option<Value>, Error>)
      requires Valid()
      modifies this`rootPage, this`blocks, this`headerDirty, this`startFreePage, this`numFreePage, this`free, this`cache, this`f, this`table
      ensures Valid()
      ensures r == if |name| > MAX_FILENAME_LENGTH then Err(NameTooLong)
                   else Ok(if name in old(table) then Some(old(table)[name]) else None)
      ensures table == if |name| > MAX_FILENAME_LENGTH then old(table) else old(table) - {name}
      ensures Gave(|old(blocks)|, old(free), |blocks|, free)
    {
      hide CacheOk, Pages, Shape, Occupied, Stores, AllLegal, Gave, SameTree, HeadsFreeList, Mirrors;
      GaveFew(|blocks|, free, 0);
      if |name| > MAX_FILENAME_LENGTH {
        return Err(NameTooLong);
      }
      if rootPage == INVALID_PAGE {
        NotInEmpty(f, table, name);
        return Ok(None);
      }
      var n, k, isEqual := Locate(name);
      if !isEqual {
        TableMinus(table, name);
        return Ok(None);
      }
      var e := Remove(n, k);
      TableMinus(table, name);
      table := table - {name};
      r := Ok(Some(Value(e.id, e.kind)));
    }

    // --- Iteration ----------------------------------------------------------------------------

    static method CallForEach(es: seq<DirEntry>, cb: DirEntry -> bool) returns (visited: seq<DirEntry>)
      ensures visited == es
    {
      visited := [];
      for i := 0 to |es|
        invariant visited == es[..i]
      {
        var answer := cb(es[i]);
        visited := visited + [es[i]];
      }
      assert es[..|es|] == es;
    }

    /** Visits a subtree. The callback's answer is not looked at; what it was called with is `visited`. */
    method RecursiveIterate(n: nat, cb: DirEntry -> bool, depth: nat) returns (visited: seq<DirEntry>)
      requires Coherent() && Nodes(f) && Mirrors(cache, f, n) && depth + f[n].ht < BTREE_MAX_DEPTH
      modifies this`cache
      ensures Coherent() && visited == Preorder(f, n) && forall p :: p in old(cache) ==> p in cache
      decreases f[n].ht
    {
      hide Pages;
      assert depth < BTREE_MAX_DEPTH;
      var node := cache[n];
      visited := CallForEach(node.entries, cb);
      assert NodeOk(f, n);
      for i := 0 to |node.children|
        invariant Coherent() && Mirrors(cache, f, n) && forall p :: p in old(cache) ==> p in cache
        invariant visited == f[n].entries + PreorderKids(f, n, i)
      {
        var c := node.children[i];
        assert ChildOk(f, n, i);
        RetrieveNode(n, c);
        var more := RecursiveIterate(c, cb, depth + 1);
        assert Mirrors(cache, f, n);
        PreorderStep(f, n, i, visited);
        visited := visited + more;
      }
    }

    /** The entries in the order in which the tree holds them. */
    ghost function Walk(): seq<DirEntry>
      requires Valid()
      reads this
    {
      if rootPage == INVALID_PAGE then [] else Preorder(f, rootPage)
    }

    /** The tree lists its table, and the greatest name comes last. */
    lemma WalkLists()
      requires Valid()
      ensures Lists(Walk(), table) && (Walk() != [] ==> EndsGreatest(Walk()))
    {
      Sound();
      if rootPage == INVALID_PAGE {
        NotInEmpty(f, table, []);
      } else {
        PreorderVisitsAll(f, rootPage);
        EmptyRoot(f, rootPage, table);
        if f[rootPage].entries == [] {
          ListsCount(Walk(), table);
        } else {
          PreorderLast(f, rootPage, rootPage);
        }
      }
    }

    method IterateOverEntries(cb: DirEntry -> bool) returns (visited: seq<DirEntry>)
      requires Valid()
      modifies this`cache
      ensures Valid() && visited == Walk() == old(Walk()) && Lists(visited, table)
    {
      Sound();
      WalkLists();
      visited := [];
      var root := GetRootNode();
      if root != INVALID_PAGE {
        visited := RecursiveIterate(root, cb, 0);
      }
    }

    method Empty() returns (r: bool)
      requires Valid()
      modifies this`cache
      ensures Valid() && (r <==> table == map[])
    {
      var root := GetRootNode();
      if root == INVALID_PAGE {
        NotInEmpty(f, table, []);
        return true;
      }
      r := cache[root].entries == [];
      EmptyRoot(f, rootPage, table);
    }

    // --- Flushing -----------------------------------------------------------------------------

    /** Lays a node out in a fresh buffer, whatever that held. */
    static method BlockOf(d: NodeData) returns (b: Bytes)
      requires Recordable(d)
      ensures |b| == BLOCK_SIZE && DecodeNode(b) == Some(d) && NodeBytes(b, d)
    {
      hide NodeBytes, DecodeNode, EncodeNode;
      var buffer := new byte[BLOCK_SIZE];
      ghost var rest := buffer[|EncodeNode(d)|..];
      ToBuffer(d, buffer);
      b := buffer[..];
      NodeRoundTrip(d, rest);
    }

    method WriteNode(num: nat, d: NodeData)
      requires num < |blocks| <= MAX_PAGES && Recordable(d)
      modifies this`blocks
      ensures |blocks| == |old(blocks)| && |blocks[num]| == BLOCK_SIZE && DecodeNode(blocks[num]) == Some(d)
      ensures NodeBytes(blocks[num], d)
      ensures forall p :: 0 <= p < |blocks| && p != num ==> blocks[p] == old(blocks)[p]
    {
      hide NodeBytes, DecodeNode;
      PageIndexWraps(num);
      var b := BlockOf(d);
      blocks := blocks[PageIndex(num) := b];
    }

    /** Writes one cached node and clears its dirty flag. */
    method WriteBack(p: nat)
      requires Coherent() && Mirrors(cache, f, p) && Recordable(Data(f[p]))
      modifies this`blocks, this`cache
      ensures Coherent() && cache == old(cache)[p := old(cache)[p].(dirty := false)]
      ensures p < |blocks| == |old(blocks)| && NodeBytes(blocks[p], NodeData(cache[p].children, cache[p].entries))
      ensures forall q :: 0 <= q < |blocks| && q != p ==> blocks[q] == old(blocks)[q]
    {
      hide NodeBytes, DecodeNode;
      assert Written(cache, blocks, f, p);
      WriteNode(p, NodeData(cache[p].children, cache[p].entries));
      cache := cache[p := cache[p].(dirty := false)];
      CacheClean(old(cache), old(blocks), blocks, f, p);
      PagesRewritten(old(blocks), blocks, f.Keys, free, p);
    }

    /** Writes every dirty node, and nothing else. */
    method WriteDirty()
      requires Coherent() && forall p {:trigger f[p]} :: p in f ==> Recordable(Data(f[p]))
      modifies this`blocks, this`cache
      ensures Coherent() && cache == Cleaned(old(cache))
      ensures OnlyDirty(old(cache), old(blocks), blocks)
    {
      hide CacheOk, Pages, DecodeNode, NodeBytes, Recordable, CleanedBut, OnlyDirty;
      var todo := cache.Keys;
      NothingWritten(cache, blocks);
      while todo != {}
        invariant Coherent() && todo <= cache.Keys && CleanedBut(old(cache), cache, todo)
        invariant OnlyDirty(old(cache), old(blocks), blocks)
        decreases |todo|
      {
        var p :| p in todo;
        Kept(p);
        CleanStep(old(cache), old(blocks), cache, blocks, todo, p);
        if cache[p].dirty {
          WriteBack(p);
        }
        todo := todo - {p};
      }
      AllCleaned(old(cache), cache);
    }

    /** Writes every dirty node; a cache of more than eight nodes is dropped. */
    method FlushCache()
      requires Coherent() && forall p {:trigger f[p]} :: p in f ==> Recordable(Data(f[p]))
      modifies this`blocks, this`cache
      ensures Coherent() && CacheOk(map[], blocks, f)
      ensures cache == if |old(cache)| > 8 then map[] else Cleaned(old(cache))
      ensures OnlyDirty(old(cache), old(blocks), blocks)
      ensures forall p :: p in f ==> Seen(cache, blocks, p) == Seen(old(cache), old(blocks), p)
    {
      hide Pages, DecodeNode, Recordable, Mirrors, Written;
      WriteDirty();
      CacheDropped(cache, blocks, f);
      CleanedSize(old(cache));
      if |cache| > 8 {
        cache := map[];
      }
      forall p | p in f ensures Seen(cache, blocks, p) == Seen(old(cache), old(blocks), p) {
        TreeSeen(cache, blocks, f, p);
        TreeSeen(old(cache), old(blocks), f, p);
      }
    }

    /** Everything a valid directory of NUL-free names holds can be written. */
    lemma AllRecordable()
      requires Valid() && AllNulFree(table)
      ensures forall p {:trigger f[p]} :: p in f ==> Recordable(Data(f[p]))
    {
      forall p | p in f ensures Recordable(Data(f[p])) {
        forall q | q in f ensures q < 0x1_0000_0000 {
          assert Either(|blocks|, f.Keys, free, q);
        }
        TreeRecordable(f, rootPage, table, p);
      }
    }

    /** Forgets all pages. */
    method Reset()
      modifies this`rootPage, this`blocks, this`headerDirty, this`startFreePage, this`numFreePage, this`free, this`cache, this`f, this`table
      ensures Valid() && free == [] && table == map[]
    {
      cache := map[];
      blocks := [];
      SetNumFreePage(0);
      SetStartFreePage(INVALID_PAGE);
      SetRootPage(INVALID_PAGE);
      f, free, table := map[], [], map[];
      StoresNothing();
    }

    method AddListed(entries: seq<DirEntry>, i: nat, ghost t: Table)
      requires Valid() && free == [] && i < |entries| && Lists(entries, t) && AllLegal(t) && |t| <= MAX_ENTRIES && Lists(entries[..i], table)
      modifies this`rootPage, this`blocks, this`headerDirty, this`startFreePage, this`numFreePage, this`free, this`cache, this`f, this`table
      ensures Valid() && free == [] && Lists(entries[..i + 1], table)
    {
      hide Stores, CacheOk, Pages, Lists;
      ListsFresh(entries, t, i, table);
      ListsCount(entries, t);
      ListsCount(entries[..i], table);
      RoomForEntries();
      var e := entries[i];
      var r := AddEntry(e.name, e.id, e.kind);
      ListsSnoc(entries[..i], old(table), e);
      assert entries[..i + 1] == entries[..i] + [e];
    }

    /** Builds the tree anew from its entries, which drops all free pages. */
    method Rebuild()
      requires Valid() && |table| <= MAX_ENTRIES
      modifies this`rootPage, this`blocks, this`headerDirty, this`startFreePage, this`numFreePage, this`free, this`cache, this`f, this`table
      ensures Valid() && table == old(table)
      ensures old(rootPage) != INVALID_PAGE ==> free == [] && numFreePage == 0 && |blocks| == |f.Keys|
      ensures old(rootPage) == INVALID_PAGE ==> f == old(f) && free == old(free) && blocks == old(blocks) && rootPage == old(rootPage)
    {
      hide CacheOk, Pages, Stores, Shape, Occupied;
      if rootPage == INVALID_PAGE {
        return;
      }
      var entries := IterateOverEntries(e => true);
      ghost var t := table;
      Reset();
      ListsEmpty();
      for i := 0 to |entries|
        invariant Valid() && free == [] && Lists(entries[..i], table)
      {
        AddListed(entries, i, t);
      }
      assert entries[..|entries|] == entries;
      ListsUnique(entries, t, table);
      Sound();
    }

    /** The rebuilding test leaves so few nodes that rebuilding has room. */
    lemma FewLeft()
      requires Valid() && numFreePage > |blocks| * BLOCK_SIZE / (BLOCK_SIZE * 3 / 2)
      ensures |table| <= MAX_ENTRIES
    {
      hide Stores, Shape, CacheOk, Pages, AllLegal;
      Sound();
      if rootPage == INVALID_PAGE {
        NotInEmpty(f, table, []);
      } else {
        ManyPages(f, rootPage, table);
        ThirdLive(|blocks|, |f.Keys|, numFreePage);
      }
    }

    method Subflush()
      requires Valid() && AllNulFree(table)
      modifies this`rootPage, this`blocks, this`headerDirty, this`startFreePage, this`numFreePage, this`free, this`cache, this`f, this`table
      ensures Valid() && table == old(table) && CacheOk(map[], blocks, f)
      ensures if RebuildDue(old(numFreePage), |old(blocks)|) && old(rootPage) != INVALID_PAGE
              then free == [] && |blocks| == |f.Keys|
              else f == old(f) && free == old(free) && |blocks| == |old(blocks)| && rootPage == old(rootPage)
    {
      hide RebuildDue, CacheOk, Pages, Stores, Shape, Occupied, AllLegal, AllNulFree;
      DueExactly(numFreePage, |blocks|);
      if numFreePage > 5 && numFreePage > |blocks| * BLOCK_SIZE / (BLOCK_SIZE * 3 / 2) {
        FewLeft();
        Rebuild();
      }
      AllRecordable();
      FlushCache();
    }

    /** After a flush the blocks and the header hold the directory. */
    method Flush()
      requires Valid() && AllNulFree(table)
      modifies this
      ensures Valid() && table == old(table)
      ensures Image(blocks, saved, f, free, table)
      ensures if RebuildDue(old(numFreePage), |old(blocks)|) && old(rootPage) != INVALID_PAGE
              then free == [] && |blocks| == |f.Keys|
              else f == old(f) && free == old(free) && |blocks| == |old(blocks)| && rootPage == old(rootPage)
    {
      Subflush();
      if headerDirty {
        saved := Some(Header(rootPage, startFreePage, numFreePage));
        headerDirty := false;
      }
    }

    /** Opens a directory on a stream and header. */
    constructor (blocks: seq<Bytes>, header: Option<Header>, ghost f: Forest, ghost free: seq<nat>, ghost t: Table)
      requires Image(blocks, header, f, free, t)
      ensures Valid() && table == t
    {
      var h := ReadHeader(header);
      rootPage, startFreePage, numFreePage := h.rootPage, h.startFreePage, h.numFreePage;
      this.blocks := blocks;
      saved := header;
      headerDirty := header.None?;
      cache := map[];
      this.f, this.free, table := f, free, t;
    }

    /** Follows the links from the header's head, checking the back links; `None` where a page that is
        not free is met, which the directory reports as corruption. It passes exactly if the words of
        the header describe a doubly linked list. */
    method ValidateFreeList() returns (r: Option<bool>)
      ensures r == Some(true) <==> exists list :: FreePages(blocks, startFreePage, numFreePage, list)
    {
      var pg := startFreePage;
      var prev := INVALID_PAGE;
      ghost var seen := [];
      for i := 0 to numFreePage
        invariant |seen| == i && prev == PrevOf(seen, i) && Walked(blocks, startFreePage, seen, pg)
        invariant OnTrack(blocks, startFreePage, numFreePage, pg, prev, i)
      {
        TrackStep(blocks, startFreePage, numFreePage, pg, prev, i);
        var links := LinksAt(blocks, pg);
        if links.None? {
          return None;
        }
        if links.value.1 != prev {
          return Some(false);
        }
        WalkStep(blocks, startFreePage, seen, pg, links.value.0);
        seen := seen + [pg];
        prev := pg;
        pg := links.value.0;
      }
      if pg == INVALID_PAGE {
        WalkDone(blocks, startFreePage, seen);
      }
      r := Some(pg == INVALID_PAGE);
    }

    /** `std::is_sorted` over entries: no entry comes before the one in front of it. */
    static method IsSorted(es: seq<DirEntry>) returns (r: bool)
      ensures r <==> NeverDecreases(es)
    {
      var k := 1;
      while k < |es|
        invariant 1 <= k
        invariant forall i, j :: 0 <= i < j < |es| && j < k ==> Key(es[i]) <= Key(es[j])
      {
        KeyOrder(es[k].name, es[k - 1].name);
        if Less(es[k].name, es[k - 1].name) {
          return false;
        }
        k := k + 1;
      }
      r := true;
    }

    /** Checks a node against its children. The verdicts on the children are dropped, so only the node
        itself counts. */
    method ValidateNode(n: nat, depth: nat) returns (r: bool)
      requires Coherent() && Mirrors(cache, f, n) && AllReadable(f)
      modifies this`cache
      ensures Coherent() && Mirrors(cache, f, n) && forall p :: p in old(cache) ==> p in cache
      ensures Readable(f, n) && (r <==> depth <= BTREE_MAX_DEPTH && Passes(f, n))
      decreases BTREE_MAX_DEPTH + 1 - depth, 1
    {
      hide Pages;
      assert Readable(f, n);
      if depth > BTREE_MAX_DEPTH {
        return false;
      }
      var node := cache[n];
      var sorted := IsSorted(node.entries);
      if !sorted {
        return false;
      }
      if node.parent != INVALID_PAGE && (|node.entries| < BTREE_MAX_NUM_ENTRIES / 2 || |node.entries| > BTREE_MAX_NUM_ENTRIES) {
        return false;
      }
      if !IsLeaf(node) {
        for i := 0 to |node.entries|
          invariant Coherent() && Mirrors(cache, f, n) && forall p :: p in old(cache) ==> p in cache
          invariant forall k :: 0 <= k < i ==> Between(f, n, k)
        {
          var ok := ValidateAround(n, i, depth);
          if !ok {
            return false;
          }
        }
      }
      r := true;
    }

    /** Checks the two children around entry `i`. */
    method ValidateAround(n: nat, i: nat, depth: nat) returns (r: bool)
      requires Coherent() && Mirrors(cache, f, n) && AllReadable(f) && depth <= BTREE_MAX_DEPTH
      requires Readable(f, n) && f[n].children != [] && i < |f[n].entries|
      modifies this`cache
      ensures Coherent() && Mirrors(cache, f, n) && forall p :: p in old(cache) ==> p in cache
      ensures r <==> Between(f, n, i)
      decreases BTREE_MAX_DEPTH + 1 - depth, 0
    {
      var e := cache[n].entries[i];
      var ls := ValidateChild(n, i, depth);
      var rs := ValidateChild(n, i + 1, depth);
      KeyOrder(e.name, ls[|ls| - 1].name);
      KeyOrder(rs[0].name, e.name);
      r := !(Less(e.name, ls[|ls| - 1].name) || Less(rs[0].name, e.name));
    }

    /** Fetches a child, checks it for nothing, and returns its entries. */
    method ValidateChild(n: nat, i: nat, depth: nat) returns (es: seq<DirEntry>)
      requires Coherent() && Mirrors(cache, f, n) && AllReadable(f) && depth <= BTREE_MAX_DEPTH
      requires Readable(f, n) && i < |f[n].children|
      modifies this`cache
      ensures Coherent() && Mirrors(cache, f, n) && forall p :: p in old(cache) ==> p in cache
      ensures ReadableChild(f, n, i) && es == f[f[n].children[i]].entries
      decreases BTREE_MAX_DEPTH - depth, 2
    {
      assert ReadableChild(f, n, i);
      var child := cache[n].children[i];
      RetrieveNode(n, child);
      var ignored := ValidateNode(child, depth + 1);
      assert Mirrors(cache, f, n);
      es := cache[child].entries;
    }

    /** Passes exactly if the root passes by itself. */
    method ValidateBtreeStructure() returns (r: bool)
      requires Coherent() && AllReadable(f)
      requires rootPage != INVALID_PAGE ==> rootPage in f && f[rootPage].par == INVALID_PAGE
      modifies this`cache
      ensures Coherent() && (rootPage != INVALID_PAGE ==> Readable(f, rootPage))
      ensures r <==> (rootPage != INVALID_PAGE ==> Passes(f, rootPage))
    {
      var root := GetRootNode();
      r := true;
      if root != INVALID_PAGE {
        r := ValidateNode(root, 0);
      }
    }

    /** Both checks pass a valid directory. */
    lemma ValidPasses()
      requires Valid()
      ensures FreePages(blocks, startFreePage, numFreePage, free)
      ensures AllReadable(f) && (rootPage != INVALID_PAGE ==> Readable(f, rootPage) && Passes(f, rootPage))
    {
      Sound();
      CoherentList(blocks, free);
      if rootPage != INVALID_PAGE {
        BtreePasses(f, rootPage);
        assert Readable(f, rootPage);
      }
    }
  }

  /** A stream and header that do not exist yet hold the empty directory. */
  lemma FreshImage()
    ensures Image([], None, map[], [], map[])
  {
    StoresNothing();
  }
}
