/** File names as byte strings, ordered the way `std::string::compare` orders them, and an
    embedding of that order into the reals that the tree proofs compute with. */
module Names {
  import opened Common

  type Name = seq<byte>

  const MAX_FILENAME_LENGTH := 255

  /** Lexicographic order on unsigned bytes; a proper prefix comes first. */
  predicate Less(a: Name, b: Name) {
    if b == [] then false
    else if a == [] then true
    else a[0] < b[0] || (a[0] == b[0] && Less(a[1..], b[1..]))
  }

  /** `a` and `b` agree up to `k`, where `a` ends or has the smaller byte. */
  ghost predicate DiffersAt(a: Name, b: Name, k: nat) {
    k < |b| && k <= |a| && a[..k] == b[..k] && (k == |a| || a[k] < b[k])
  }

  lemma FirstSame(a: Name, b: Name, k: nat)
    requires DiffersAt(a, b, k) && k > 0
    ensures a != [] && b != [] && a[0] == b[0]
  {
    assert a[..k][0] == b[..k][0];
  }

  /** One name comes before another exactly if at their first difference it ends or has the smaller byte. */
  lemma {:induction false} LessMeans(a: Name, b: Name)
    ensures Less(a, b) <==> exists k: nat :: DiffersAt(a, b, k)
  {
    if a != [] && b != [] {
      var a', b' := a[1..], b[1..];
      LessMeans(a', b');
      if a[0] == b[0] {
        if k: nat :| DiffersAt(a', b', k) {
          assert a[..k + 1] == [a[0]] + a'[..k] && b[..k + 1] == [b[0]] + b'[..k];
          assert DiffersAt(a, b, k + 1);
        }
        if k: nat :| DiffersAt(a, b, k) {
          assert k > 0;
          assert a'[..k - 1] == a[..k][1..] && b'[..k - 1] == b[..k][1..];
          assert DiffersAt(a', b', k - 1);
        }
      } else {
        assert a[0] < b[0] ==> DiffersAt(a, b, 0);
        forall k: nat | DiffersAt(a, b, k) ensures a[0] < b[0] {
          if k > 0 { FirstSame(a, b, k); }
        }
      }
    } else if a == [] && b != [] {
      assert DiffersAt(a, b, 0);
    }
  }

  /** The base-257 fraction whose digits are the bytes from `i` on, each plus one. */
  function RankFrom(name: Name, i: nat): (r: real)
    ensures 0.0 <= r < 1.0
    decreases |name| - i
  {
    if i >= |name| then 0.0 else (name[i] as real + 1.0 + RankFrom(name, i + 1)) / 257.0
  }

  function Rank(name: Name): real {
    RankFrom(name, 0)
  }

  /** The rank is an order embedding of names, for strings of any length. */
  lemma RankEmbedsOrder(a: Name, b: Name)
    ensures Less(a, b) <==> Rank(a) < Rank(b)
    ensures Rank(a) == Rank(b) <==> a == b
  {
    RankFromEmbeds(a, b, 0);
    assert a[0..] == a && b[0..] == b;
  }

  lemma {:induction false} RankFromEmbeds(a: Name, b: Name, i: nat)
    requires i <= |a| && i <= |b|
    ensures Less(a[i..], b[i..]) <==> RankFrom(a, i) < RankFrom(b, i)
    ensures RankFrom(a, i) == RankFrom(b, i) <==> a[i..] == b[i..]
    decreases |a| - i
  {
    if i < |a| && i < |b| {
      RankFromEmbeds(a, b, i + 1);
      assert a[i..] == [a[i]] + a[i + 1..] && b[i..] == [b[i]] + b[i + 1..];
    }
  }

  /** `order` embeds the order of names into the reals between 0 and 1. */
  ghost predicate Embeds(order: Name -> real) {
    && (forall a :: 0.0 <= order(a) < 1.0)
    && (forall a, b {:trigger Less(a, b)} :: Less(a, b) <==> order(a) < order(b))
    && (forall a, b {:trigger Less(a, b)} :: order(a) == order(b) <==> a == b)
  }

  lemma RankEmbeds()
    ensures Embeds(name => Rank(name))
  {
    forall a: Name, b: Name
      ensures Less(a, b) <==> Rank(a) < Rank(b)
      ensures Rank(a) == Rank(b) <==> a == b
    {
      RankEmbedsOrder(a, b);
    }
  }

  ghost function Order(): (order: Name -> real)
  {
    RankEmbeds();
    var order :| Embeds(order);
    order
  }

  /** A name that survives being stored as a C string. */
  predicate NulFree(name: Name) {
    forall i :: 0 <= i < |name| ==> name[i] != 0
  }
}
