/** The flat datastore content every component shares: leaf values keyed by path text. */
module Leaves {
  import opened Wrappers

  /** A stored leaf: one of the supported Go types, or a value the store refuses. */
  datatype Value =
    | Bool(b: bool)
    | Int(i: int)
    | Uint(width: nat, u: nat)
    | Float(r: real)
    | Chars(s: string)
    | Unsupported

  type Values = map<string, Value>

  predicate Supported(v: Value) {
    v != Unsupported
  }

  /** The two maps hold the same thing at `p`: the same value, or nothing. */
  predicate AgreeAt(a: Values, b: Values, p: string) {
    (p in a <==> p in b) && (p in a ==> a[p] == b[p])
  }

  /** What a content holds at a path. */
  function ValueAt(values: Values, s: string): Option<Value> {
    if s in values then Some(values[s]) else None
  }

  /** The paths two contents differ on. */
  function ChangedPaths(a: Values, b: Values): (changed: set<string>)
    ensures forall p :: p in changed <==> !AgreeAt(a, b, p)
    ensures changed == {} <==> a == b
  {
    var changed := set p | p in a.Keys + b.Keys && !AgreeAt(a, b, p);
    assert changed == {} ==> forall p | p in a.Keys + b.Keys :: AgreeAt(a, b, p) by {
      forall p | p in a.Keys + b.Keys && !AgreeAt(a, b, p) ensures p in changed {}
    }
    assert changed == {} ==> a.Keys == b.Keys;
    changed
  }

  // ------------------------------------------------------------ text order

  /** The byte order of `sort.Strings`. */
  predicate Less(a: string, b: string) {
    if b == "" then false
    else if a == "" then true
    else if a[0] != b[0] then a[0] < b[0]
    else Less(a[1..], b[1..])
  }

  /** Up to `i` the texts are the same, and there the first has the smaller character. */
  predicate SmallerAt(a: string, b: string, i: nat) {
    i < |a| && i < |b| && a[..i] == b[..i] && a[i] < b[i]
  }

  lemma SmallerNext(a: string, b: string, i: nat)
    requires a != "" && b != "" && a[0] == b[0]
    ensures SmallerAt(a, b, i + 1) <==> SmallerAt(a[1..], b[1..], i)
    ensures !SmallerAt(a, b, 0)
  {
    if i + 1 < |a| && i + 1 < |b| {
      assert a[..i + 1] == [a[0]] + a[1..][..i] && b[..i + 1] == [b[0]] + b[1..][..i];
      if a[..i + 1] == b[..i + 1] { assert a[..i + 1][1..] == a[1..][..i] && b[..i + 1][1..] == b[1..][..i]; }
    }
  }

  /** One text is a beginning of the other, or the first character that differs is smaller. */
  lemma {:induction false} LessIff(a: string, b: string)
    ensures Less(a, b) <==> a < b || exists i: nat :: SmallerAt(a, b, i)
    decreases |a|
  {
    if a != "" && b != "" {
      if a[0] == b[0] {
        hide SmallerAt;
        LessIff(a[1..], b[1..]);
        assert a == [a[0]] + a[1..] && b == [b[0]] + b[1..];
        SmallerNext(a, b, 0);
        if i: nat :| SmallerAt(a, b, i) { SmallerNext(a, b, i - 1); }
        if i: nat :| SmallerAt(a[1..], b[1..], i) { SmallerNext(a, b, i); }
      } else {
        assert SmallerAt(a, b, 0) <==> a[0] < b[0];
        forall i: nat | i > 0 ensures !SmallerAt(a, b, i) {
          if i < |a| && i < |b| { assert a[..i][0] == a[0] && b[..i][0] == b[0]; }
        }
      }
    }
  }

  lemma {:induction false} LessTotal(a: string, b: string)
    ensures Less(a, b) || a == b || Less(b, a)
    ensures !(Less(a, b) && (a == b || Less(b, a)))
  {
    if a != "" && b != "" && a[0] == b[0] {
      LessTotal(a[1..], b[1..]);
      assert a == [a[0]] + a[1..] && b == [b[0]] + b[1..];
    }
  }

  lemma {:induction false} LessTransitive(a: string, b: string, c: string)
    requires Less(a, b) && Less(b, c)
    ensures Less(a, c)
  {
    if a != "" && a[0] == b[0] && b[0] == c[0] { LessTransitive(a[1..], b[1..], c[1..]); }
  }

  predicate StrictlySorted(paths: seq<string>) {
    forall i, j :: 0 <= i < j < |paths| ==> Less(paths[i], paths[j])
  }

  /** `sort.Strings` on the keys of a map: insertion of each key into its place. */
  method SortPaths(paths: set<string>) returns (ordered: seq<string>)
    ensures StrictlySorted(ordered)
    ensures forall p :: p in ordered <==> p in paths
  {
    ordered := [];
    var todo := paths;
    while todo != {}
      invariant todo <= paths
      invariant StrictlySorted(ordered)
      invariant forall p :: p in ordered <==> p in paths - todo
      decreases todo
    {
      var p :| p in todo;
      todo := todo - {p};
      ordered := Insert(ordered, p);
    }
  }

  method Insert(ordered: seq<string>, p: string) returns (r: seq<string>)
    requires StrictlySorted(ordered) && p !in ordered
    ensures StrictlySorted(r)
    ensures forall q :: q in r <==> q in ordered || q == p
  {
    var k := 0;
    while k < |ordered| && Less(ordered[k], p)
      invariant 0 <= k <= |ordered|
      invariant forall i :: 0 <= i < k ==> Less(ordered[i], p)
    {
      k := k + 1;
    }
    r := ordered[..k] + [p] + ordered[k..];
    forall j | k <= j < |ordered| ensures Less(p, ordered[j]) {
      LessTotal(p, ordered[k]);
      if j > k { LessTransitive(p, ordered[k], ordered[j]); }
    }
    forall q | q in ordered ensures q in r {
      var i :| 0 <= i < |ordered| && ordered[i] == q;
      assert r[if i < k then i else i + 1] == q;
    }
    assert r[k] == p;
  }

  /** A strictly sorted list is determined by its elements. */
  lemma {:induction false} SortedUnique(a: seq<string>, b: seq<string>)
    requires StrictlySorted(a) && StrictlySorted(b)
    requires forall p :: p in a <==> p in b
    ensures a == b
  {
    assert b != [] ==> b[0] in b;
    if a != [] {
      assert a[0] in b && b != [];
      assert b[0] in a;
      HeadLeast(a, b[0]);
      HeadLeast(b, a[0]);
      LessTotal(a[0], b[0]);
      assert a[0] == b[0];
      forall p ensures p in a[1..] <==> p in b[1..] {
        LessTotal(a[0], a[0]);
        InTail(a, p);
        InTail(b, p);
      }
      SortedUnique(a[1..], b[1..]);
      assert a == [a[0]] + a[1..] && b == [b[0]] + b[1..];
    }
  }

  lemma HeadLeast(a: seq<string>, p: string)
    requires StrictlySorted(a) && p in a
    ensures a[0] == p || Less(a[0], p)
  {
  }

  lemma InTail(a: seq<string>, p: string)
    requires StrictlySorted(a) && a != []
    ensures p in a[1..] <==> p in a && p != a[0]
  {
    LessTotal(a[0], a[0]);
    if p in a && p != a[0] {
      var i :| 0 <= i < |a| && a[i] == p;
      assert a[1..][i - 1] == p;
    }
  }
}
