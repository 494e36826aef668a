/** How many pages a tree of a given height needs, and how many entries its pages hold. */
module Size {
  import opened Names
  import opened Entries
  import opened Forest

  ghost function Level(f: Forest, h: nat): set<nat> {
    set q | q in f && f[q].ht == h
  }

  ghost function UpTo(f: Forest, h: nat): set<nat> {
    set q | q in f && f[q].ht <= h
  }

  /** The nodes hanging from nodes in `ps`. */
  ghost function KidsOf(f: Forest, ps: set<nat>): set<nat> {
    set q | q in f && f[q].par in ps && Linked(f, q)
  }

  ghost function Elements(cs: seq<nat>): set<nat> {
    set i | 0 <= i < |cs| :: cs[i]
  }

  lemma {:induction false} ElementsCount(cs: seq<nat>)
    requires forall i, j :: 0 <= i < j < |cs| ==> cs[i] != cs[j]
    ensures |Elements(cs)| == |cs|
  {
    if cs != [] {
      var last := |cs| - 1;
      ElementsCount(cs[..last]);
      assert cs == cs[..last] + [cs[last]];
      assert Elements(cs) == Elements(cs[..last]) + {cs[last]} by {
        forall i | 0 <= i < last ensures cs[i] in Elements(cs[..last]) { assert cs[..last][i] == cs[i]; }
      }
    }
  }

  lemma KidsOfOne(f: Forest, p: nat)
    requires Nodes(f) && p in f
    ensures |KidsOf(f, {p})| == |f[p].children|
  {
    assert NodeOk(f, p);
    forall i, j | 0 <= i < j < |f[p].children| ensures f[p].children[i] != f[p].children[j] {
      ChildrenDistinct(f, p, i, j);
    }
    ElementsCount(f[p].children);
    assert KidsOf(f, {p}) == Elements(f[p].children) by {
      forall i | 0 <= i < |f[p].children| ensures f[p].children[i] in KidsOf(f, {p}) {
        assert ChildOk(f, p, i);
      }
    }
  }

  lemma KidsOfMore(f: Forest, ps: set<nat>, p: nat)
    requires Nodes(f) && p in f && p !in ps
    ensures |KidsOf(f, ps + {p})| == |KidsOf(f, ps)| + |f[p].children|
  {
    KidsOfOne(f, p);
    var a, b := KidsOf(f, ps), KidsOf(f, {p});
    assert KidsOf(f, ps + {p}) == a + b && a !! b;
    assert |a + b| == |a| + |b|;
  }

  lemma {:induction false} KidsCount(f: Forest, ps: set<nat>, n: nat, w: nat)
    requires Nodes(f) && ps <= f.Keys && (forall p :: p in ps ==> |f[p].children| >= w)
    requires n == |ps|
    ensures |KidsOf(f, ps)| >= n * w
    decreases n
  {
    if n > 0 {
      var p :| p in ps;
      KidsCount(f, ps - {p}, n - 1, w);
      KidsOfMore(f, ps - {p}, p);
      assert ps - {p} + {p} == ps;
      assert (n - 1) * w + w == n * w;
    } else {
      assert n * w == 0;
    }
  }

  lemma {:induction false} Subset<T>(a: set<T>, b: set<T>)
    requires a <= b
    ensures |a| <= |b|
  {
    assert b == a + (b - a);
  }

  /** Each level below the root's is at least seven times as large as the one above it. */
  lemma LevelGrows(f: Forest, root: nat, h: nat)
    requires Shape(f, root, {}) && Occupied(f, root, root) && 0 < h < f[root].ht
    ensures |Level(f, h - 1)| >= |Level(f, h)| * 7
  {
    forall p | p in Level(f, h) ensures |f[p].children| >= 7 {
      assert NodeOk(f, p) && NodeOccupied(f, root, root, p);
    }
    KidsCount(f, Level(f, h), |Level(f, h)|, 7);
    forall q | q in KidsOf(f, Level(f, h)) ensures q in Level(f, h - 1) {
      var i := ParentSlot(f, q);
    }
    Subset(KidsOf(f, Level(f, h)), Level(f, h - 1));
  }

  /** Pages of a subtree of height `h` whose inner nodes have at least seven children. */
  function MinPages(h: nat): nat {
    if h == 0 then 1 else 1 + 7 * MinPages(h - 1)
  }

  lemma UpToSplits(f: Forest, h: nat)
    requires h > 0
    ensures |UpTo(f, h)| == |Level(f, h)| + |UpTo(f, h - 1)|
  {
    assert UpTo(f, h) == Level(f, h) + UpTo(f, h - 1);
    assert Level(f, h) !! UpTo(f, h - 1);
  }

  lemma {:induction false} LevelsBelow(f: Forest, root: nat, h: nat, m: nat)
    requires Shape(f, root, {}) && Occupied(f, root, root) && h < f[root].ht && m == MinPages(h)
    ensures |UpTo(f, h)| >= |Level(f, h)| * m
  {
    if h == 0 {
      assert UpTo(f, h) == Level(f, h);
    } else {
      var m' := MinPages(h - 1);
      LevelsBelow(f, root, h - 1, m');
      LevelGrows(f, root, h);
      UpToSplits(f, h);
      Product(|Level(f, h)|, |Level(f, h - 1)|, m');
    }
  }

  lemma Product(a: nat, b: nat, m: nat)
    requires b >= a * 7
    ensures b * m + a >= a * (1 + 7 * m)
  {
    assert b * m >= (a * 7) * m;
  }

  lemma UnderRoot(f: Forest, root: nat)
    requires Shape(f, root, {}) && f[root].ht > 0 && f[root].entries != []
    ensures |Level(f, f[root].ht - 1)| >= 2
    ensures |f.Keys| >= 1 + |UpTo(f, f[root].ht - 1)|
  {
    var h := f[root].ht - 1;
    assert NodeOk(f, root);
    KidsOfOne(f, root);
    forall q | q in KidsOf(f, {root}) ensures q in Level(f, h) {
      var i := ParentSlot(f, q);
    }
    Subset(KidsOf(f, {root}), Level(f, h));
    assert |{root} + UpTo(f, h)| == 1 + |UpTo(f, h)|;
    Subset({root} + UpTo(f, h), f.Keys);
  }

  /** A tree of height `h` above its leaves occupies at least `1 + 2 * MinPages(h - 1)` pages. */
  lemma TreeSize(f: Forest, root: nat)
    requires Shape(f, root, {}) && Occupied(f, root, root) && f[root].ht > 0 && f[root].entries != []
    ensures |f.Keys| >= 1 + 2 * MinPages(f[root].ht - 1)
  {
    var h := f[root].ht - 1;
    var m := MinPages(h);
    UnderRoot(f, root);
    LevelsBelow(f, root, h, m);
    assert |Level(f, h)| * m >= 2 * m;
  }

  lemma {:induction false} MinPagesGrows(h: nat, k: nat)
    requires h <= k
    ensures MinPages(h) <= MinPages(k)
  {
    if h < k { MinPagesGrows(h, k - 1); }
  }

  lemma MinPagesAt()
    ensures MinPages(7) == 960800 && MinPages(11) == 2306881200
  {
    assert MinPages(2) == 57;
    assert MinPages(4) == 2801;
    assert MinPages(6) == 137257;
    assert MinPages(8) == 6725601;
    assert MinPages(10) == 329554457;
  }

  /** With 32-bit page numbers a tree has at most 12 levels; with the 2^20 pages that distinct
      32-bit byte offsets allow, at most 8. */
  lemma DepthBound(f: Forest, root: nat)
    requires Shape(f, root, {}) && Occupied(f, root, root) && (f[root].ht > 0 ==> f[root].entries != [])
    ensures |f.Keys| <= 0xFFFF_FFFF ==> f[root].ht <= 11
    ensures |f.Keys| <= 0x10_0000 ==> f[root].ht <= 7
  {
    MinPagesAt();
    if f[root].ht > 0 {
      TreeSize(f, root);
      if f[root].ht > 11 { MinPagesGrows(11, f[root].ht - 1); }
      if f[root].ht > 7 { MinPagesGrows(7, f[root].ht - 1); }
    }
  }

  // --- Entries --------------------------------------------------------------------------------

  ghost function NamesIn(f: Forest, ps: set<nat>): set<Name> {
    set p, i | p in ps && p in f && 0 <= i < |f[p].entries| :: f[p].entries[i].name
  }

  ghost function NodeNames(es: seq<DirEntry>): set<Name> {
    set i | 0 <= i < |es| :: es[i].name
  }

  lemma NodeNamesSnoc(es: seq<DirEntry>, e: DirEntry)
    ensures NodeNames(es + [e]) == NodeNames(es) + {e.name}
  {
    var es' := es + [e];
    forall x | x in NodeNames(es) + {e.name} ensures x in NodeNames(es') {
      if x == e.name {
        assert es'[|es|].name == x;
      } else {
        var i :| 0 <= i < |es| && es[i].name == x;
        assert es'[i].name == x;
      }
    }
  }

  lemma {:induction false} NodeNamesCount(es: seq<DirEntry>)
    requires Sorted(es)
    ensures |NodeNames(es)| == |es|
  {
    if es != [] {
      var last := |es| - 1;
      NodeNamesCount(es[..last]);
      assert es == es[..last] + [es[last]];
      NodeNamesSnoc(es[..last], es[last]);
    }
  }

  lemma NamesInMore(f: Forest, root: nat, ps: set<nat>, p: nat)
    requires Shape(f, root, {}) && p in f && p !in ps
    ensures NamesIn(f, ps + {p}) == NamesIn(f, ps) + NodeNames(f[p].entries)
    ensures NamesIn(f, ps) !! NodeNames(f[p].entries)
  {
    forall x | x in NamesIn(f, ps) && x in NodeNames(f[p].entries) ensures false {
      var q, j :| q in ps && q in f && 0 <= j < |f[q].entries| && f[q].entries[j].name == x;
      var i :| 0 <= i < |f[p].entries| && f[p].entries[i].name == x;
      UniqueKey(f, root, p, i, q, j);
    }
  }

  lemma Union(a: set<Name>, b: set<Name>)
    requires a !! b
    ensures |a + b| == |a| + |b|
  {
  }

  lemma {:induction false} ThirteenNamesPerPage(f: Forest, root: nat, ps: set<nat>)
    requires Shape(f, root, {}) && Occupied(f, root, INVALID_PAGE) && ps <= f.Keys
    ensures |NamesIn(f, ps)| <= 13 * |ps|
  {
    if ps != {} {
      var p :| p in ps;
      var rest := ps - {p};
      assert ps == rest + {p};
      ThirteenNamesPerPage(f, root, rest);
      assert NodeOk(f, p) && NodeOccupied(f, root, INVALID_PAGE, p);
      NodeNamesCount(f[p].entries);
      NamesInMore(f, root, rest, p);
      Union(NamesIn(f, rest), NodeNames(f[p].entries));
    }
  }

  /** Every non-root page accounts for six names. */
  lemma {:induction false} SixNamesPerPage(f: Forest, root: nat, ps: set<nat>)
    requires Shape(f, root, {}) && Occupied(f, root, root) && ps <= f.Keys - {root}
    ensures |NamesIn(f, ps)| >= 6 * |ps|
  {
    if ps != {} {
      var p :| p in ps;
      var rest := ps - {p};
      assert ps == rest + {p};
      SixNamesPerPage(f, root, rest);
      assert NodeOk(f, p) && NodeOccupied(f, root, root, p);
      NodeNamesCount(f[p].entries);
      NamesInMore(f, root, rest, p);
      Union(NamesIn(f, rest), NodeNames(f[p].entries));
    }
  }
}
