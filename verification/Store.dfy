/** The page store of a directory: a stream of blocks, the free-page list threaded through it,
    and the node cache that overlays it. */
module Store {
  import opened Common
  import opened Entries
  import opened Codec
  import opened Forest
  import opened Steps
  import opened Search
  import opened Size

  /** A cached node; its page number is the key it is cached under. */
  datatype Node = Node(parent: nat, children: seq<nat>, entries: seq<DirEntry>, dirty: bool)

  type Cache = map<nat, Node>

  /** `is_leaf` reports a node as corrupted unless it has no children or one more than entries. */
  predicate IsLeaf(n: Node)
    requires n.children == [] || |n.children| == |n.entries| + 1
  {
    n.children == []
  }

  // --- Page numbers ---------------------------------------------------------------------------

  /** Pages are located by a 32-bit product of a 32-bit number and a 32-bit block size. */
  function PageOffset(num: nat): nat {
    num * BLOCK_SIZE % 0x1_0000_0000
  }

  function PageIndex(num: nat): nat {
    PageOffset(num) / BLOCK_SIZE
  }

  const MAX_PAGES := 0x10_0000

  lemma PageIndexWraps(num: nat)
    ensures PageIndex(num) == num % MAX_PAGES
  {
    var q, r := num / MAX_PAGES, num % MAX_PAGES;
    assert num * BLOCK_SIZE == q * 0x1_0000_0000 + r * BLOCK_SIZE;
    assert num * BLOCK_SIZE % 0x1_0000_0000 == r * BLOCK_SIZE;
  }

  /** The pages of a stream are addressed faithfully exactly as long as there are at most 2^20. */
  lemma PagesDistinct(n: nat)
    ensures (forall p, q :: 0 <= p < q < n ==> PageOffset(p) != PageOffset(q)) <==> n <= MAX_PAGES
  {
    if n <= MAX_PAGES {
      forall p: nat, q: nat | p < q < n ensures PageOffset(p) != PageOffset(q) {
        PageIndexWraps(p);
        PageIndexWraps(q);
      }
    } else {
      assert PageOffset(0) == PageOffset(MAX_PAGES);
    }
  }

  // --- Cache over blocks -----------------------------------------------------------------------

  function Data(g: Tnode): NodeData {
    NodeData(g.children, g.entries)
  }

  ghost predicate Shows(n: Node, g: Tnode) {
    n.parent == g.par && n.children == g.children && n.entries == g.entries
  }

  /** The cached node `p` shows the tree, and its parent is cached too. */
  ghost predicate Mirrors(cache: Cache, f: Forest, p: nat) {
    && p in cache && p in f && Shows(cache[p], f[p])
    && (f[p].par == INVALID_PAGE || f[p].par in cache)
  }

  /** Page `p` need not be written, or is written already. */
  ghost predicate Written(cache: Cache, blocks: seq<Bytes>, f: Forest, p: nat) {
    && p in f && p < |blocks|
    && ((p in cache && cache[p].dirty) || DecodeNode(blocks[p]) == Some(Data(f[p])))
  }

  /** Cached nodes show the tree, their parents are cached too, and what is not both cached and
      dirty is on disk. */
  ghost predicate CacheOk(cache: Cache, blocks: seq<Bytes>, f: Forest) {
    && (forall p {:trigger Mirrors(cache, f, p)} :: p in cache ==> Mirrors(cache, f, p))
    && (forall p {:trigger Written(cache, blocks, f, p)} :: p in f ==> Written(cache, blocks, f, p))
  }

  predicate IsDirty(cache: Cache, p: nat) {
    p in cache && cache[p].dirty
  }

  function Cleaned(cache: Cache): Cache {
    map p | p in cache :: cache[p].(dirty := false)
  }

  /** Of the blocks exactly those of dirty nodes may have changed. */
  ghost predicate OnlyDirty(cache: Cache, blocks: seq<Bytes>, blocks': seq<Bytes>) {
    |blocks'| == |blocks| && forall q :: 0 <= q < |blocks| && !IsDirty(cache, q) ==> blocks'[q] == blocks[q]
  }

  /** All nodes but those in `todo` have been cleaned. */
  ghost predicate CleanedBut(was: Cache, cache: Cache, todo: set<nat>) {
    && cache.Keys == was.Keys
    && forall p :: p in cache ==> cache[p] == if p in todo then was[p] else was[p].(dirty := false)
  }

  lemma NothingWritten(cache: Cache, blocks: seq<Bytes>)
    ensures CleanedBut(cache, cache, cache.Keys) && OnlyDirty(cache, blocks, blocks)
  {
  }

  lemma CleanStep(was: Cache, before: seq<Bytes>, cache: Cache, blocks: seq<Bytes>, todo: set<nat>, p: nat)
    requires CleanedBut(was, cache, todo) && OnlyDirty(was, before, blocks) && p in todo && p in cache
    ensures if cache[p].dirty
            then CleanedBut(was, cache[p := cache[p].(dirty := false)], todo - {p})
                 && forall blocks' {:trigger OnlyDirty(was, before, blocks')} ::
                      |blocks'| == |blocks| && (forall q :: 0 <= q < |blocks| && q != p ==> blocks'[q] == blocks[q])
                      ==> OnlyDirty(was, before, blocks')
            else CleanedBut(was, cache, todo - {p})
  {
  }

  lemma AllCleaned(was: Cache, cache: Cache)
    requires CleanedBut(was, cache, {})
    ensures cache == Cleaned(was)
  {
  }

  lemma CleanedSize(cache: Cache)
    ensures |Cleaned(cache)| == |cache| && forall p :: p in Cleaned(cache) ==> !Cleaned(cache)[p].dirty
  {
    assert Cleaned(cache).Keys == cache.Keys;
    assert |Cleaned(cache).Keys| == |Cleaned(cache)| && |cache.Keys| == |cache|;
  }

  /** The node a reader sees under a page number: the cached one, or else the one on disk. */
  function Seen(cache: Cache, blocks: seq<Bytes>, p: nat): Option<NodeData> {
    if p in cache then Some(NodeData(cache[p].children, cache[p].entries))
    else if p < |blocks| then DecodeNode(blocks[p])
    else None
  }

  /** Whatever is cached, the tree is what is seen. */
  lemma TreeSeen(cache: Cache, blocks: seq<Bytes>, f: Forest, p: nat)
    requires CacheOk(cache, blocks, f) && p in f
    ensures Seen(cache, blocks, p) == Some(Data(f[p]))
  {
    assert Written(cache, blocks, f, p);
    if p in cache { assert Mirrors(cache, f, p); }
  }

  // --- The free list -----------------------------------------------------------------------------

  /** A page was taken: the head of the free list, or a page added to the stream if there is none. */
  ghost predicate TookOne(pg: nat, n: nat, free: seq<nat>, n': nat, free': seq<nat>) {
    if free != [] then pg == free[0] && free' == free[1..] && n' == n
    else pg == n && free' == [] && n' == n + 1
  }

  /** Pages were taken from the front of the free list, and the stream grew only once it was used up. */
  ghost predicate Took(n: nat, free: seq<nat>, n': nat, free': seq<nat>) {
    |free'| <= |free| && free' == free[|free| - |free'|..] && n <= n' && (n < n' ==> free' == [])
  }

  lemma TookAfter(n: nat, free: seq<nat>, n1: nat, free1: seq<nat>, n2: nat, free2: seq<nat>)
    requires Took(n, free, n1, free1) && Took(n1, free1, n2, free2)
    ensures Took(n, free, n2, free2)
  {
  }

  lemma TookSome(pg: nat, n: nat, free: seq<nat>, n': nat, free': seq<nat>)
    requires TookOne(pg, n, free, n', free')
    ensures Took(n, free, n', free')
  {
  }

  lemma TookNone(n: nat, free: seq<nat>)
    ensures Took(n, free, n, free)
  {
  }

  /** Pages were put in front of the free list, and the stream kept its size. */
  ghost predicate Gave(n: nat, free: seq<nat>, n': nat, free': seq<nat>) {
    n' == n && |free| <= |free'| && free == free'[|free'| - |free|..]
  }

  lemma GaveAfter(n: nat, free: seq<nat>, n1: nat, free1: seq<nat>, n2: nat, free2: seq<nat>)
    requires Gave(n, free, n1, free1) && Gave(n1, free1, n2, free2)
    ensures Gave(n, free, n2, free2)
  {
  }

  lemma GaveFew(n: nat, free: seq<nat>, pg: nat)
    ensures Gave(n, free, n, free) && Gave(n, free, n, [pg] + free)
  {
  }

  ghost function NextOf(free: seq<nat>, i: nat): nat {
    if i + 1 < |free| then free[i + 1] else INVALID_PAGE
  }

  ghost function PrevOf(free: seq<nat>, i: nat): nat
    requires i <= |free|
  {
    if i == 0 then INVALID_PAGE else free[i - 1]
  }

  ghost predicate FreeLinked(blocks: seq<Bytes>, free: seq<nat>, i: nat) {
    && i < |free| && free[i] < |blocks|
    && IsFree(blocks[free[i]], NextOf(free, i), PrevOf(free, i))
  }

  /** `free` lists distinct pages, each a free page linked to its neighbours in the list. */
  ghost predicate FreeOk(blocks: seq<Bytes>, free: seq<nat>) {
    && |blocks| <= MAX_PAGES
    && (forall i {:trigger FreeLinked(blocks, free, i)} :: 0 <= i < |free| ==> FreeLinked(blocks, free, i))
    && (forall i, j :: 0 <= i < j < |free| ==> free[i] != free[j])
  }

  /** Every page is a node or free, and not both. */
  ghost predicate Partition(n: nat, live: set<nat>, free: seq<nat>) {
    forall p: nat {:trigger Either(n, live, free, p)} :: Either(n, live, free, p)
  }

  /** A page number below `n` is live or free but not both, and no other number is either. */
  ghost predicate Either(n: nat, live: set<nat>, free: seq<nat>, p: nat) {
    if p < n then p in live <==> p !in free else p !in live && p !in free
  }

  ghost predicate BlockOk(blocks: seq<Bytes>, p: nat) {
    p < |blocks| && |blocks[p]| == BLOCK_SIZE
  }

  ghost predicate Pages(blocks: seq<Bytes>, live: set<nat>, free: seq<nat>) {
    && FreeOk(blocks, free)
    && Partition(|blocks|, live, free)
    && (forall p {:trigger BlockOk(blocks, p)} :: 0 <= p < |blocks| ==> BlockOk(blocks, p))
  }

  lemma {:induction false} Upto(n: nat) returns (s: set<nat>)
    ensures |s| == n && forall p :: p in s <==> 0 <= p < n
  {
    if n == 0 {
      s := {};
    } else {
      s := Upto(n - 1);
      s := s + {n - 1};
    }
  }

  /** With no free page there are as many blocks as nodes. */
  lemma AllLive(n: nat, live: set<nat>)
    requires Partition(n, live, [])
    ensures n == |live|
  {
    var s := Upto(n);
    forall p: nat ensures p in s <==> p in live {
      assert Either(n, live, [], p);
    }
    assert s == live;
  }

  /** Pages are nodes and free pages. */
  lemma {:induction false} PageCount(n: nat, live: set<nat>, free: seq<nat>)
    requires Partition(n, live, free) && forall i, j :: 0 <= i < j < |free| ==> free[i] != free[j]
    ensures n == |live| + |free|
  {
    ElementsCount(free);
    var all := Upto(n);
    var fs := Elements(free);
    forall p: nat ensures p in all <==> p in live + fs {
      assert Either(n, live, free, p);
    }
    assert all == live + fs;
    forall p | p in live ensures p !in fs {
      assert Either(n, live, free, p);
    }
    assert live !! fs;
    assert |live + fs| == |live| + |fs|;
  }

  lemma InvalidNotLive(blocks: seq<Bytes>, live: set<nat>, free: seq<nat>)
    requires Pages(blocks, live, free)
    ensures INVALID_PAGE !in live
  {
    assert Either(|blocks|, live, free, INVALID_PAGE);
  }

  /** Taking the head of the free list and clearing the back link of the next page. */
  lemma PopFree(blocks: seq<Bytes>, blocks': seq<Bytes>, free: seq<nat>)
    requires FreeOk(blocks, free) && free != [] && |blocks'| == |blocks|
    requires |free| > 1 ==> free[1] < |blocks'| && IsFree(blocks'[free[1]], NextOf(free, 1), INVALID_PAGE)
    requires forall p :: 0 <= p < |blocks| && (|free| > 1 ==> p != free[1]) ==> blocks'[p] == blocks[p]
    ensures FreeOk(blocks', free[1..]) && free[0] !in free[1..]
  {
    var free' := free[1..];
    forall i | 0 <= i < |free'| ensures FreeLinked(blocks', free', i) {
      assert FreeLinked(blocks, free, i + 1);
    }
  }

  /** Putting a page in front of the free list and setting the back link of the former head. */
  lemma PushFree(blocks: seq<Bytes>, blocks': seq<Bytes>, free: seq<nat>, num: nat)
    requires FreeOk(blocks, free) && |blocks'| == |blocks| && num < |blocks| && num !in free
    requires IsFree(blocks'[num], if free == [] then INVALID_PAGE else free[0], INVALID_PAGE)
    requires free != [] ==> free[0] < |blocks'| && IsFree(blocks'[free[0]], NextOf(free, 0), num)
    requires forall p :: 0 <= p < |blocks| && p != num && (free != [] ==> p != free[0]) ==> blocks'[p] == blocks[p]
    ensures FreeOk(blocks', [num] + free)
  {
    var free' := [num] + free;
    forall i | 0 <= i < |free'| ensures FreeLinked(blocks', free', i) {
      if i > 0 { assert FreeLinked(blocks, free, i - 1); }
    }
  }

  /** What a free-list member looks like on disk. */
  lemma FreeMember(blocks: seq<Bytes>, free: seq<nat>, i: nat)
    requires FreeOk(blocks, free) && i < |free|
    ensures free[i] < |blocks| && IsFree(blocks[free[i]], NextOf(free, i), PrevOf(free, i))
    ensures DecodeNode(blocks[free[i]]) == Some(NodeData([], []))
    ensures NextOf(free, i) <= INVALID_PAGE && (NextOf(free, i) == INVALID_PAGE <==> i + 1 == |free|)
  {
    assert FreeLinked(blocks, free, i);
    if i + 1 < |free| { assert FreeLinked(blocks, free, i + 1); }
  }

  /** One more zero page, when no page is free. */
  lemma ExtendPages(blocks: seq<Bytes>, live: set<nat>)
    requires Pages(blocks, live, []) && |live| < MAX_PAGES
    ensures Pages(blocks + [Zeros(BLOCK_SIZE)], live + {|blocks|}, [])
    ensures |blocks| !in live && DecodeNode((blocks + [Zeros(BLOCK_SIZE)])[|blocks|]) == Some(NodeData([], []))
  {
    AllLive(|blocks|, live);
    ZeroPage();
    var blocks' := blocks + [Zeros(BLOCK_SIZE)];
    assert Either(|blocks|, live, [], |blocks|);
    forall p: nat ensures Either(|blocks'|, live + {|blocks|}, [], p) {
      assert Either(|blocks|, live, [], p);
    }
    forall p | 0 <= p < |blocks'| ensures BlockOk(blocks', p) {
      if p < |blocks| { assert BlockOk(blocks, p); }
    }
  }

  lemma PopPages(blocks: seq<Bytes>, blocks': seq<Bytes>, live: set<nat>, free: seq<nat>)
    requires Pages(blocks, live, free) && free != [] && |blocks'| == |blocks|
    requires |free| > 1 ==> free[1] < |blocks'| && IsFree(blocks'[free[1]], NextOf(free, 1), INVALID_PAGE)
    requires forall p :: 0 <= p < |blocks| && (|free| > 1 ==> p != free[1]) ==> blocks'[p] == blocks[p]
    ensures Pages(blocks', live + {free[0]}, free[1..]) && free[0] !in live
    ensures free[0] < |blocks'| && DecodeNode(blocks'[free[0]]) == Some(NodeData([], []))
    ensures forall p :: p in live ==> p < |blocks| && blocks'[p] == blocks[p]
  {
    FreeMember(blocks, free, 0);
    PopFree(blocks, blocks', free);
    assert free == [free[0]] + free[1..];
    assert Either(|blocks|, live, free, free[0]);
    forall p: nat ensures Either(|blocks'|, live + {free[0]}, free[1..], p) {
      assert Either(|blocks|, live, free, p);
    }
    forall p | 0 <= p < |blocks'| ensures BlockOk(blocks', p) {
      assert BlockOk(blocks, p);
    }
    forall p | p in live ensures p < |blocks| && blocks'[p] == blocks[p] {
      assert Either(|blocks|, live, free, p);
    }
  }

  lemma PushPages(blocks: seq<Bytes>, blocks': seq<Bytes>, live: set<nat>, free: seq<nat>, num: nat)
    requires Pages(blocks, live, free) && |blocks'| == |blocks| && num in live
    requires num < |blocks'| && IsFree(blocks'[num], if free == [] then INVALID_PAGE else free[0], INVALID_PAGE)
    requires free != [] ==> free[0] < |blocks'| && IsFree(blocks'[free[0]], NextOf(free, 0), num)
    requires forall p :: 0 <= p < |blocks| && p != num && (free != [] ==> p != free[0]) ==> blocks'[p] == blocks[p]
    ensures Pages(blocks', live - {num}, [num] + free)
    ensures forall p :: p in live && p != num ==> p < |blocks| && blocks'[p] == blocks[p]
  {
    assert Either(|blocks|, live, free, num);
    PushFree(blocks, blocks', free, num);
    forall p: nat ensures Either(|blocks'|, live - {num}, [num] + free, p) {
      assert Either(|blocks|, live, free, p);
    }
    forall p | 0 <= p < |blocks'| ensures BlockOk(blocks', p) {
      assert BlockOk(blocks, p);
    }
    forall p | p in live && p != num ensures p < |blocks| && blocks'[p] == blocks[p] {
      assert Either(|blocks|, live, free, p);
    }
  }

  // --- How the primitive changes keep cache and pages coherent --------------------------------

  /** Overwriting pages outside the tree. */
  lemma CacheOffTree(cache: Cache, blocks: seq<Bytes>, blocks': seq<Bytes>, f: Forest)
    requires CacheOk(cache, blocks, f) && |blocks| <= |blocks'|
    requires forall p :: p in f && p < |blocks| ==> blocks'[p] == blocks[p]
    ensures CacheOk(cache, blocks', f)
  {
    forall p | p in f ensures Written(cache, blocks', f, p) {
      assert Written(cache, blocks, f, p);
    }
  }

  /** A page that reads as an empty node joins the tree. */
  lemma CacheFresh(cache: Cache, blocks: seq<Bytes>, f: Forest, p: nat, g: Tnode)
    requires CacheOk(cache, blocks, f) && p !in f && p < |blocks|
    requires g.children == [] && g.entries == [] && DecodeNode(blocks[p]) == Some(NodeData([], []))
    ensures CacheOk(cache, blocks, f[p := g])
  {
    var f' := f[p := g];
    forall q | q in cache ensures Mirrors(cache, f', q) {
      assert Mirrors(cache, f, q);
    }
    forall q | q in f' ensures Written(cache, blocks, f', q) {
      if q != p { assert Written(cache, blocks, f, q); }
    }
  }

  /** Changing a cached node and marking it dirty. */
  lemma CachePut(cache: Cache, blocks: seq<Bytes>, f: Forest, p: nat, n: Node, g: Tnode)
    requires CacheOk(cache, blocks, f) && p in cache && n.dirty && Shows(n, g)
    requires g.par == INVALID_PAGE || g.par in cache
    ensures CacheOk(cache[p := n], blocks, f[p := g])
  {
    var f', cache' := f[p := g], cache[p := n];
    assert Mirrors(cache, f, p);
    forall q | q in cache' ensures Mirrors(cache', f', q) {
      assert Mirrors(cache, f, q);
    }
    forall q | q in f' ensures Written(cache', blocks, f', q) {
      assert Written(cache, blocks, f, q);
    }
  }

  function AdoptCached(cache: Cache, cs: seq<nat>, q: nat): Cache {
    map p | p in cache :: if p in cs then cache[p].(parent := q, dirty := true) else cache[p]
  }

  lemma AdoptCachedSnoc(cache: Cache, cs: seq<nat>, c: nat, q: nat)
    ensures var a := AdoptCached(cache, cs, q);
            AdoptCached(cache, cs + [c], q) == if c in a then a[c := a[c].(parent := q, dirty := true)] else a
  {
  }

  lemma CacheAdopt(cache: Cache, blocks: seq<Bytes>, f: Forest, cs: seq<nat>, q: nat)
    requires CacheOk(cache, blocks, f) && (q == INVALID_PAGE || q in cache)
    ensures CacheOk(AdoptCached(cache, cs, q), blocks, Adopt(f, cs, q))
  {
    var f', cache' := Adopt(f, cs, q), AdoptCached(cache, cs, q);
    forall p | p in cache' ensures Mirrors(cache', f', p) {
      assert Mirrors(cache, f, p);
    }
    forall p | p in f' ensures Written(cache', blocks, f', p) {
      assert Written(cache, blocks, f, p);
    }
  }

  lemma CacheSameTree(cache: Cache, blocks: seq<Bytes>, f: Forest, f': Forest)
    requires CacheOk(cache, blocks, f) && SameTree(f, f')
    ensures CacheOk(cache, blocks, f')
  {
    forall p | p in cache ensures Mirrors(cache, f', p) {
      assert Mirrors(cache, f, p);
    }
    forall p | p in f' ensures Written(cache, blocks, f', p) {
      assert Written(cache, blocks, f, p);
    }
  }

  /** A node leaves the tree and the cache; its page and other pages outside the tree may change. */
  lemma CacheErase(cache: Cache, blocks: seq<Bytes>, blocks': seq<Bytes>, f: Forest, n: nat)
    requires CacheOk(cache, blocks, f) && n != INVALID_PAGE && |blocks'| == |blocks|
    requires forall p :: p in f && p != n && p < |blocks| ==> blocks'[p] == blocks[p]
    requires forall p :: p in f && p != n ==> f[p].par != n
    ensures CacheOk(cache - {n}, blocks', f - {n})
  {
    var f', cache' := f - {n}, cache - {n};
    forall p | p in cache' ensures Mirrors(cache', f', p) {
      assert Mirrors(cache, f, p);
    }
    forall p | p in f' ensures Written(cache', blocks', f', p) {
      assert Written(cache, blocks, f, p);
    }
  }

  /** A node is written and marked clean. */
  lemma CacheClean(cache: Cache, blocks: seq<Bytes>, blocks': seq<Bytes>, f: Forest, p: nat)
    requires CacheOk(cache, blocks, f) && p in cache && p in f && |blocks'| == |blocks| && p < |blocks|
    requires DecodeNode(blocks'[p]) == Some(Data(f[p]))
    requires forall q :: 0 <= q < |blocks| && q != p ==> blocks'[q] == blocks[q]
    ensures CacheOk(cache[p := cache[p].(dirty := false)], blocks', f)
  {
    var cache' := cache[p := cache[p].(dirty := false)];
    forall q | q in cache' ensures Mirrors(cache', f, q) {
      assert Mirrors(cache, f, q);
    }
    forall q | q in f ensures Written(cache', blocks', f, q) {
      assert Written(cache, blocks, f, q);
    }
  }

  lemma PagesRewritten(blocks: seq<Bytes>, blocks': seq<Bytes>, live: set<nat>, free: seq<nat>, p: nat)
    requires Pages(blocks, live, free) && p in live && |blocks'| == |blocks| && p < |blocks| && |blocks'[p]| == BLOCK_SIZE
    requires forall q :: 0 <= q < |blocks| && q != p ==> blocks'[q] == blocks[q]
    ensures Pages(blocks', live, free)
  {
    assert Either(|blocks|, live, free, p);
    forall i | 0 <= i < |free| ensures FreeLinked(blocks', free, i) {
      assert FreeLinked(blocks, free, i);
    }
    forall q | 0 <= q < |blocks'| ensures BlockOk(blocks', q) {
      assert BlockOk(blocks, q);
    }
  }

  /** When nothing cached is dirty, the pages alone hold the tree. */
  lemma CacheDropped(cache: Cache, blocks: seq<Bytes>, f: Forest)
    requires CacheOk(cache, blocks, f) && forall p :: p in cache ==> !cache[p].dirty
    ensures CacheOk(map[], blocks, f)
  {
    forall p | p in f ensures Written(map[], blocks, f, p) {
      assert Written(cache, blocks, f, p);
    }
  }
}
