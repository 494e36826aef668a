/** Directory entries and the contents of one B-tree node. */
module Entries {
  import opened Common
  import opened Names

  const INVALID_PAGE := 0xFFFF_FFFF
  const BTREE_MAX_DEPTH := 32
  const BTREE_MAX_NUM_ENTRIES := 13

  datatype DirEntry = DirEntry(name: Name, id: seq<byte>, kind: int)

  datatype NodeData = NodeData(children: seq<nat>, entries: seq<DirEntry>)

  ghost function Key(e: DirEntry): real
  {
    Order()(e.name)
  }

  /** Keys order entries as their names are ordered. */
  lemma KeyOrder(a: Name, b: Name)
    ensures 0.0 <= Order()(a) < 1.0
    ensures Less(a, b) <==> Order()(a) < Order()(b)
    ensures a == b <==> Order()(a) == Order()(b)
  {
    RankEmbeds();
    assert Embeds(Order());
    assert Less(a, b) || !Less(a, b);
  }

  ghost predicate Sorted(es: seq<DirEntry>) {
    forall i, j :: 0 <= i < j < |es| ==> Key(es[i]) < Key(es[j])
  }

  ghost predicate Within(es: seq<DirEntry>, lo: real, hi: real) {
    forall i :: 0 <= i < |es| ==> lo < Key(es[i]) < hi
  }
}
