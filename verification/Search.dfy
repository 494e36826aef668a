/** Descending the tree towards a name. */
module Search {
  import opened Names
  import opened Entries
  import opened Forest
  import opened Steps
  import opened RootSteps
  import opened Contents

  /** The two forests differ at most in the intervals recorded for their nodes. */
  ghost predicate SameTree(f: Forest, f': Forest) {
    && f.Keys == f'.Keys
    && forall p :: p in f ==> f'[p] == f[p].(lo := f'[p].lo, hi := f'[p].hi)
  }

  lemma SameTreeHas(f: Forest, f': Forest)
    requires SameTree(f, f')
    ensures Same(f, f')
  {
    forall x ensures Has(f, x) <==> Has(f', x) {
      Local(f, f', {}, x);
    }
  }

  lemma SameTreeOccupied(f: Forest, f': Forest, root: nat, slack: nat)
    requires SameTree(f, f') && Occupied(f, root, slack)
    ensures Occupied(f', root, slack)
  {
    forall p | p in f' ensures NodeOccupied(f', root, slack, p) {
      assert NodeOccupied(f, root, slack, p);
    }
  }

  /** Lets the interval of a child fill its slot. */
  ghost function Widen(f: Forest, p: nat, i: int): Forest
    requires ChildOk(f, p, i)
  {
    var c := f[p].children[i];
    f[c := f[c].(lo := SlotLo(f[p], i), hi := SlotHi(f[p], i))]
  }

  lemma WidenNodes(f: Forest, p: nat, i: int)
    requires Nodes(f) && ChildOk(f, p, i)
    ensures Nodes(Widen(f, p, i)) && SameTree(f, Widen(f, p, i))
  {
    var f' := Widen(f, p, i);
    var c := f[p].children[i];
    assert NodeOk(f, p) && NodeOk(f, c);
    WidenNode(f, f', c);
    WidenParent(f, p, i);
    forall q | q in f' ensures NodeOk(f', q) {
      if q != c && q != p { NodeOkFrame(f, f', q); }
    }
  }

  lemma WidenParent(f: Forest, p: nat, i: int)
    requires Nodes(f) && ChildOk(f, p, i)
    ensures NodeOk(Widen(f, p, i), p)
  {
    var f' := Widen(f, p, i);
    assert NodeOk(f, p);
    forall j | 0 <= j < |f'[p].children| ensures ChildOk(f', p, j) {
      assert ChildOk(f, p, j);
      if j < i { ChildrenDistinct(f, p, j, i); }
      if i < j { ChildrenDistinct(f, p, i, j); }
    }
  }

  lemma WidenOk(f: Forest, root: nat, p: nat, i: int)
    requires Shape(f, root, {}) && ChildOk(f, p, i)
    ensures Shape(Widen(f, p, i), root, {}) && SameTree(f, Widen(f, p, i))
  {
    WidenNodes(f, p, i);
    var f' := Widen(f, p, i);
    forall q | q in f' && q !in {root} + {} ensures Linked(f', q) {
      assert Linked(f, q);
    }
  }

  /** Node `n` has no entry of rank `x`. */
  ghost predicate Absent(f: Forest, n: nat, x: real) {
    n in f && forall i :: 0 <= i < |f[n].entries| ==> Key(f[n].entries[i]) != x
  }

  /** Rank `x` is not stored above height `h`. */
  ghost predicate AbsentAbove(f: Forest, h: int, x: real) {
    forall q :: q in f && f[q].ht > h ==> Absent(f, q, x)
  }

  /** If neither `n` nor any higher node stores `x`, no node at or above the height of `n` does. */
  lemma AbsentHere(f: Forest, root: nat, n: nat, x: real)
    requires Shape(f, root, {}) && n in f && f[n].lo < x < f[n].hi
    requires Absent(f, n, x) && AbsentAbove(f, f[n].ht, x)
    ensures AbsentAbove(f, f[n].ht - 1, x)
  {
    forall q | q in f && f[q].ht > f[n].ht - 1 ensures Absent(f, q, x) {
      if f[q].ht == f[n].ht && q != n {
        forall i | 0 <= i < |f[q].entries| ensures Key(f[q].entries[i]) != x {
          assert NodeOk(f, q);
          if Key(f[q].entries[i]) == x { UniqueAt(f, root, q, n, x); }
        }
      }
    }
  }

  /** Position `k` splits the entries of a node at rank `x`. */
  ghost predicate Splits(es: seq<DirEntry>, k: nat, x: real) {
    && k <= |es|
    && (forall i :: 0 <= i < k ==> Key(es[i]) < x)
    && (forall i :: k <= i < |es| ==> x <= Key(es[i]))
  }

  lemma SplitSlot(f: Forest, n: nat, k: nat, x: real)
    requires NodeOk(f, n) && f[n].lo < x < f[n].hi && Splits(f[n].entries, k, x)
    requires k < |f[n].entries| ==> Key(f[n].entries[k]) != x
    ensures Absent(f, n, x)
    ensures SlotLo(f[n], k) < x < SlotHi(f[n], k)
  {
    forall i | 0 <= i < |f[n].entries| ensures Key(f[n].entries[i]) != x {
      if i > k { assert Key(f[n].entries[k]) < Key(f[n].entries[i]); }
    }
  }

  lemma SameTreeAbsent(f: Forest, f': Forest, h: int, x: real)
    requires SameTree(f, f') && AbsentAbove(f, h, x)
    ensures AbsentAbove(f', h, x)
  {
    forall q | q in f' && f'[q].ht > h ensures Absent(f', q, x) {
      assert Absent(f, q, x);
    }
  }

  lemma NowhereStored(f: Forest, name: Name)
    requires AbsentAbove(f, -1, Order()(name))
    ensures forall e :: Has(f, e) ==> e.name != name
  {
    forall e | Has(f, e) ensures e.name != name {
      var p :| p in f && e in f[p].entries;
      assert Absent(f, p, Order()(name));
    }
  }

  /** One step down: after widening, the child in slot `k` covers `x`. */
  lemma Descend(f: Forest, root: nat, n: nat, k: nat, x: real)
    requires Shape(f, root, {}) && n in f && f[n].ht > 0 && f[n].lo < x < f[n].hi && Splits(f[n].entries, k, x)
    requires k < |f[n].entries| ==> Key(f[n].entries[k]) != x
    requires AbsentAbove(f, f[n].ht, x)
    ensures ChildOk(f, n, k)
    ensures var f', c := Widen(f, n, k), f[n].children[k];
            && Shape(f', root, {}) && SameTree(f, f')
            && f'[c].lo < x < f'[c].hi && AbsentAbove(f', f[c].ht, x)
  {
    assert NodeOk(f, n) && ChildOk(f, n, k);
    SplitSlot(f, n, k, x);
    AbsentHere(f, root, n, x);
    WidenOk(f, root, n, k);
    SameTreeAbsent(f, Widen(f, n, k), f[n].ht - 1, x);
  }

  /** `std::lower_bound` over the entries of a node. */
  method LowerBound(es: seq<DirEntry>, name: Name) returns (k: nat)
    requires Sorted(es)
    ensures Splits(es, k, Order()(name))
  {
    ghost var x := Order()(name);
    var hi := |es|;
    k := 0;
    while k < hi
      invariant k <= hi <= |es|
      invariant forall i :: 0 <= i < k ==> Key(es[i]) < x
      invariant forall i :: hi <= i < |es| ==> x <= Key(es[i])
    {
      var mid := (k + hi) / 2;
      KeyOrder(es[mid].name, name);
      if Less(es[mid].name, name) {
        k := mid + 1;
      } else {
        hi := mid;
      }
    }
  }
}
