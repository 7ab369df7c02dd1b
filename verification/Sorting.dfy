/** Sorting with a comparison given as a function, as the sort package of the Go library does. */
module Sorting {
  /** `leq` orders these elements, up to ties. */
  ghost predicate OrdersAll<T(!new)>(leq: (T, T) -> bool, s: seq<T>) {
    && (forall x, y :: x in s && y in s ==> leq(x, y) || leq(y, x))
    && (forall x, y, z :: x in s && y in s && z in s && leq(x, y) && leq(y, z) ==> leq(x, z))
  }

  ghost predicate SortedBy<T>(leq: (T, T) -> bool, s: seq<T>) {
    forall i, j :: 0 <= i < j < |s| ==> leq(s[i], s[j])
  }

  method Sort<T(!new)>(leq: (T, T) -> bool, s: seq<T>) returns (r: seq<T>)
    ensures multiset(r) == multiset(s)
    ensures OrdersAll(leq, s) ==> SortedBy(leq, r)
  {
    r := [];
    for i := 0 to |s|
      invariant multiset(r) == multiset(s[..i])
      invariant OrdersAll(leq, s) ==> SortedBy(leq, r)
    {
      assert s[..i + 1] == s[..i] + [s[i]];
      forall x | x in r ensures x in s { assert x in multiset(r); assert x in s[..i]; }
      r := Insert(leq, r, s[i], s);
    }
    assert s[..|s|] == s;
  }

  method Insert<T(!new)>(leq: (T, T) -> bool, sorted: seq<T>, x: T, ghost all: seq<T>) returns (r: seq<T>)
    requires x in all && forall y :: y in sorted ==> y in all
    requires OrdersAll(leq, all) ==> SortedBy(leq, sorted)
    ensures multiset(r) == multiset(sorted) + multiset{x}
    ensures OrdersAll(leq, all) ==> SortedBy(leq, r)
  {
    var k := |sorted|;
    while k > 0 && !leq(sorted[k - 1], x)
      invariant 0 <= k <= |sorted|
      invariant forall j :: k <= j < |sorted| ==> !leq(sorted[j], x)
    {
      k := k - 1;
    }
    r := sorted[..k] + [x] + sorted[k..];
    assert sorted == sorted[..k] + sorted[k..];
    if OrdersAll(leq, all) { InsertSorted(leq, sorted, x, k, all); }
  }

  lemma InsertSorted<T(!new)>(leq: (T, T) -> bool, sorted: seq<T>, x: T, k: nat, all: seq<T>)
    requires OrdersAll(leq, all) && x in all && (forall y :: y in sorted ==> y in all)
    requires SortedBy(leq, sorted) && k <= |sorted| && (k > 0 ==> leq(sorted[k - 1], x))
    requires forall j :: k <= j < |sorted| ==> !leq(sorted[j], x)
    ensures SortedBy(leq, sorted[..k] + [x] + sorted[k..])
  {
    forall i | 0 <= i < k ensures leq(sorted[i], x) {
      assert sorted[i] in all && sorted[k - 1] in all;
    }
    forall j | k <= j < |sorted| ensures leq(x, sorted[j]) {
      assert sorted[j] in all;
    }
  }

  /** An element that stands in two places is counted twice. */
  lemma TwiceIn<T>(s: seq<T>, i: nat, j: nat)
    requires i < j < |s| && s[i] == s[j]
    ensures multiset(s)[s[i]] >= 2
  {
    assert s == s[..j] + s[j..];
    assert s[i] == s[..j][i] && s[j] == s[j..][0];
    assert multiset(s) == multiset(s[..j]) + multiset(s[j..]);
  }
}
