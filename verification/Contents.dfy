/** What each change does to the set of stored entries. */
module Contents {
  import opened Entries
  import opened Forest
  import opened Steps
  import opened RootSteps

  ghost predicate Same(f: Forest, f': Forest) {
    forall x :: Has(f, x) <==> Has(f', x)
  }

  ghost predicate Gains(f: Forest, f': Forest, e: DirEntry) {
    forall x :: Has(f', x) <==> Has(f, x) || x == e
  }

  ghost predicate Loses(f: Forest, f': Forest, e: DirEntry) {
    && Has(f, e)
    && forall x :: Has(f', x) <==> Has(f, x) && x != e
  }

  /** What gains the same entry from the same forest stores the same. */
  lemma GainsTwice(f: Forest, g: Forest, h: Forest, e: DirEntry)
    requires Gains(f, g, e) && Gains(f, h, e)
    ensures Same(g, h)
  {
  }

  /** Nodes other than those in `ps` store the same entries in `f` and `f'`. */
  ghost predicate AgreeOff(f: Forest, f': Forest, ps: set<nat>) {
    && (forall p :: p in f && p !in ps ==> p in f' && f'[p].entries == f[p].entries)
    && (forall p :: p in f' && p !in ps ==> p in f && f'[p].entries == f[p].entries)
  }

  ghost predicate HasIn(f: Forest, ps: set<nat>, x: DirEntry) {
    exists p :: p in ps && p in f && x in f[p].entries
  }

  /** Only the touched nodes matter. */
  lemma Local(f: Forest, f': Forest, ps: set<nat>, x: DirEntry)
    requires AgreeOff(f, f', ps)
    ensures HasIn(f, ps, x) ==> Has(f, x)
    ensures HasIn(f', ps, x) ==> Has(f', x)
    ensures Has(f, x) ==> HasIn(f, ps, x) || Has(f', x)
    ensures Has(f', x) ==> HasIn(f', ps, x) || Has(f, x)
  {
  }

  lemma InsertMembers(s: seq<DirEntry>, j: nat, e: DirEntry, x: DirEntry)
    requires j <= |s|
    ensures x in InsertAt(s, j, e) <==> x in s || x == e
  {
    assert s == s[..j] + s[j..];
  }

  lemma RemoveMembers(s: seq<DirEntry>, j: nat, x: DirEntry)
    requires j < |s|
    ensures x in s <==> x in RemoveAt(s, j) || x == s[j]
  {
    assert s == s[..j] + [s[j]] + s[j + 1..];
  }

  lemma EntryInsertGains(f: Forest, f': Forest, n: nat, j: nat, e: DirEntry)
    requires n in f && n in f' && j <= |f[n].entries| && f'[n].entries == InsertAt(f[n].entries, j, e)
    requires AgreeOff(f, f', {n})
    ensures Gains(f, f', e)
  {
    forall x ensures Has(f', x) <==> Has(f, x) || x == e {
      Local(f, f', {n}, x);
      InsertMembers(f[n].entries, j, e, x);
      assert x in f[n].entries ==> HasIn(f, {n}, x);
      assert x in f'[n].entries ==> HasIn(f', {n}, x);
    }
  }

  lemma SplitEntries(f: Forest, n: nat, s: nat, m: nat)
    requires Nodes(f) && n in f && m < |f[n].entries| && s !in f
    ensures var f' := Split(f, n, s, m);
            && AgreeOff(f, f', {n, s}) && n in f' && s in f'
            && f'[n].entries == f[n].entries[..m] && f'[s].entries == f[n].entries[m + 1..]
  {
  }

  /** Splitting only takes the middle entry out. */
  lemma SplitGains(f: Forest, n: nat, s: nat, m: nat)
    requires Nodes(f) && n in f && m < |f[n].entries| && s !in f
    ensures Gains(Split(f, n, s, m), f, f[n].entries[m])
  {
    hide NodeOk, Split;
    var f' := Split(f, n, s, m);
    var es := f[n].entries;
    SplitEntries(f, n, s, m);
    forall x ensures Has(f, x) <==> Has(f', x) || x == es[m] {
      Local(f, f', {n, s}, x);
      assert es == es[..m] + [es[m]] + es[m + 1..];
      assert x in es <==> x in es[..m] || x == es[m] || x in es[m + 1..];
      assert x in es ==> HasIn(f, {n, s}, x);
      assert x in es[..m] ==> HasIn(f', {n, s}, x);
      assert x in es[m + 1..] ==> HasIn(f', {n, s}, x);
    }
  }

  lemma NewRootGains(f: Forest, n: nat, s: nat, r: nat, e: DirEntry)
    requires n in f && s in f && r !in f
    ensures Gains(f, NewRoot(f, n, s, r, e), e)
  {
    var f' := NewRoot(f, n, s, r, e);
    forall x ensures Has(f', x) <==> Has(f, x) || x == e {
      Local(f, f', {r}, x);
      assert e in f'[r].entries;
      assert x == e ==> HasIn(f', {r}, x);
    }
  }

  lemma MergeSame(f: Forest, q: nat, k: nat, l: nat, r: nat)
    requires Nodes(f) && Neighbours(f, q, k, l, r)
    ensures Same(f, Merge(f, q, k, l, r))
  {
    var f' := Merge(f, q, k, l, r);
    MergeView(f, q, k, l, r);
    MergeFacts(f, q, k, l, r);
    var e := f[q].entries[k];
    forall x ensures Has(f, x) <==> Has(f', x) {
      Local(f, f', {q, l, r}, x);
      RemoveMembers(f[q].entries, k, x);
      assert x in f'[l].entries <==> x in f[l].entries || x == e || x in f[r].entries;
      assert x in f[q].entries || x in f[l].entries || x in f[r].entries ==> HasIn(f, {q, l, r}, x);
      assert x in f'[q].entries || x in f'[l].entries ==> HasIn(f', {q, l, r}, x);
    }
  }

  lemma RotateSame(f: Forest, tops: set<nat>, q: nat, k: nat, l: nat, r: nat, m: nat)
    requires Nodes(f) && Links(f, tops) && Neighbours(f, q, k, l, r) && m < |f[l].entries| + 1 + |f[r].entries|
    ensures Same(f, Rotate(f, q, k, l, r, m))
  {
    var f1 := Merge(f, q, k, l, r);
    MergeFacts(f, q, k, l, r);
    MergeView(f, q, k, l, r);
    RotateIsMergeSplit(f, q, k, l, r, m);
    MergeOk(f, tops, q, k, l, r);
    MergeSame(f, q, k, l, r);
    SplitGains(f1, l, r, m);
    var f2 := Split(f1, l, r, m);
    EntryInsertGains(f2, Rotate(f, q, k, l, r, m), q, k, f1[l].entries[m]);
  }

  lemma CollapseSame(f: Forest, root: nat, c: nat)
    requires root in f && c in f && c != root && f[root].entries == []
    ensures Same(f, Collapse(f, root, c))
  {
    var f' := Collapse(f, root, c);
    forall x ensures Has(f, x) <==> Has(f', x) {
      Local(f, f', {root}, x);
    }
  }

  lemma LeafEraseLoses(f: Forest, root: nat, n: nat, i: nat)
    requires Shape(f, root, {}) && n in f && i < |f[n].entries|
    ensures Loses(f, LeafErase(f, n, i), f[n].entries[i])
  {
    var f' := LeafErase(f, n, i);
    var e := f[n].entries[i];
    forall x ensures Has(f, x) <==> Has(f', x) || x == e {
      Local(f, f', {n}, x);
      RemoveMembers(f[n].entries, i, x);
      assert x in f[n].entries ==> HasIn(f, {n}, x);
      assert x in f'[n].entries ==> HasIn(f', {n}, x);
    }
    if Has(f', e) {
      var p :| p in f' && e in f'[p].entries;
      var j :| 0 <= j < |f'[p].entries| && f'[p].entries[j] == e;
      UniqueKey(f, root, n, i, p, if p == n && j >= i then j + 1 else j);
    }
  }

  lemma ReplaceEntries(f: Forest, n: nat, i: nat, sp: seq<nat>)
    requires Nodes(f) && Spine(f, n, i, sp) && f[Leaf(sp)].entries != []
    ensures var f', leaf := Replace(f, n, i, sp), Leaf(sp);
            var es := f[leaf].entries;
            && leaf != n && leaf in f && AgreeOff(f, f', {n, leaf}) && n in f' && leaf in f' && i < |f[n].entries|
            && f'[n].entries == f[n].entries[i := es[|es| - 1]] && f'[leaf].entries == es[..|es| - 1]
  {
    SpineAway(f, n, i, sp, |sp| - 1);
  }

  lemma ReplaceMembers(f: Forest, n: nat, i: nat, sp: seq<nat>, x: DirEntry)
    requires Nodes(f) && Spine(f, n, i, sp) && f[Leaf(sp)].entries != []
    ensures Leaf(sp) != n
    ensures Has(f, x) <==> Has(Replace(f, n, i, sp), x) || x == f[n].entries[i]
  {
    ReplaceEntries(f, n, i, sp);
    hide NodeOk, Replace, Spine;
    var f' := Replace(f, n, i, sp);
    var leaf := Leaf(sp);
    var es := f[leaf].entries;
    var e := es[|es| - 1];
    Local(f, f', {n, leaf}, x);
    assert es == es[..|es| - 1] + [e];
    assert x in es <==> x in es[..|es| - 1] || x == e;
    SetMembers(f[n].entries, i, e, x);
    assert x in f[n].entries || x in es ==> HasIn(f, {n, leaf}, x);
    assert x in f'[n].entries || x in f'[leaf].entries ==> HasIn(f', {n, leaf}, x);
  }

  lemma SetMembers(s: seq<DirEntry>, i: nat, e: DirEntry, x: DirEntry)
    requires i < |s|
    ensures x in s || x == e <==> x in s[i := e] || x == s[i] || x == e
    ensures e in s[i := e]
  {
    assert s == s[..i] + [s[i]] + s[i + 1..];
    assert s[i := e] == s[..i] + [e] + s[i + 1..];
  }

  lemma ReplaceLoses(f: Forest, root: nat, n: nat, i: nat, sp: seq<nat>)
    requires Shape(f, root, {}) && Spine(f, n, i, sp) && f[Leaf(sp)].entries != []
    ensures Loses(f, Replace(f, n, i, sp), f[n].entries[i])
  {
    var f' := Replace(f, n, i, sp);
    var e := f[n].entries[i];
    forall x ensures Has(f, x) <==> Has(f', x) || x == e {
      ReplaceMembers(f, n, i, sp, x);
    }
    ReplaceGone(f, root, n, i, sp);
  }

  lemma ReplaceGone(f: Forest, root: nat, n: nat, i: nat, sp: seq<nat>)
    requires Shape(f, root, {}) && Spine(f, n, i, sp) && f[Leaf(sp)].entries != []
    ensures !Has(Replace(f, n, i, sp), f[n].entries[i])
  {
    var f' := Replace(f, n, i, sp);
    var e := f[n].entries[i];
    var leaf := Leaf(sp);
    SpineAway(f, n, i, sp, |sp| - 1);
    var last := |f[leaf].entries| - 1;
    if Key(f[leaf].entries[last]) == Key(e) { UniqueKey(f, root, n, i, leaf, last); }
    if Has(f', e) {
      var p :| p in f' && e in f'[p].entries;
      var j :| 0 <= j < |f'[p].entries| && f'[p].entries[j] == e;
      assert p != n || j != i;
      UniqueKey(f, root, n, i, p, j);
    }
  }
}
