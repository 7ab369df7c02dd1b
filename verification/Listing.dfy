/** A listing of leaves: the values of a set of paths, each path once. */
module Listing {
  import opened Leaves
  import opened Paths
  import opened Schema

  type Pairs = seq<(Path, Value)>

  ghost predicate Lists(pairs: Pairs, tree: Tree, want: set<Path>) {
    && (forall i :: 0 <= i < |pairs| ==> pairs[i].0 in want && pairs[i].0 in tree && tree[pairs[i].0] == pairs[i].1)
    && (forall i, j :: 0 <= i < j < |pairs| ==> pairs[i].0 != pairs[j].0)
    && (forall p <- want :: exists i :: 0 <= i < |pairs| && pairs[i].0 == p)
  }

  lemma ListsOne(tree: Tree, p: Path)
    requires p in tree
    ensures Lists([(p, tree[p])], tree, {p})
  {
    assert [(p, tree[p])][0].0 == p;
  }

  lemma ListsUnion(a: Pairs, b: Pairs, tree: Tree, wantA: set<Path>, wantB: set<Path>)
    requires Lists(a, tree, wantA) && Lists(b, tree, wantB) && wantA !! wantB
    ensures Lists(a + b, tree, wantA + wantB)
  {
    var c := a + b;
    forall p | p in wantA + wantB ensures exists i :: 0 <= i < |c| && c[i].0 == p {
      if p in wantA {
        var i :| 0 <= i < |a| && a[i].0 == p;
        assert c[i].0 == p;
      } else {
        var i :| 0 <= i < |b| && b[i].0 == p;
        assert c[|a| + i].0 == p;
      }
    }
  }

  /** A listing has as many pairs as the set has paths. */
  lemma {:induction false} ListsCount(pairs: Pairs, tree: Tree, want: set<Path>)
    requires Lists(pairs, tree, want)
    ensures |pairs| == |want|
    decreases pairs
  {
    if pairs == [] {
      assert want == {};
    } else {
      var rest, left := pairs[1..], want - {pairs[0].0};
      forall p | p in left ensures exists i :: 0 <= i < |rest| && rest[i].0 == p {
        var i :| 0 <= i < |pairs| && pairs[i].0 == p;
        assert rest[i - 1].0 == p;
      }
      ListsCount(rest, tree, left);
    }
  }
}
