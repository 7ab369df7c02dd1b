/** internal/store/diff.go: the ordered list of changes between two contents, and why it
    is the smallest list that turns one into the other. */
module Diff {
  import opened Wrappers
  import opened Leaves

  datatype Change =
    | Create(path: string, new_: Value)
    | Update(path: string, old_: Value, new_: Value)
    | Delete(path: string, old_: Value)

  /** The change a path needs, if any. */
  function ChangeAt(a: Values, b: Values, p: string): Option<Change> {
    if p in a && p in b then
      if a[p] != b[p] then Some(Update(p, a[p], b[p])) else None
    else if p in b then Some(Create(p, b[p]))
    else if p in a then Some(Delete(p, a[p]))
    else None
  }

  function PathsOf(changes: seq<Change>): (paths: seq<string>)
    ensures |paths| == |changes|
    ensures forall i :: 0 <= i < |changes| ==> paths[i] == changes[i].path
  {
    seq(|changes|, i requires 0 <= i < |changes| => changes[i].path)
  }

  /** `changes` lists, in path order, exactly the paths on which `a` and `b` differ. */
  predicate Describes(a: Values, b: Values, changes: seq<Change>) {
    && StrictlySorted(PathsOf(changes))
    && (forall c <- changes :: ChangeAt(a, b, c.path) == Some(c))
    && (forall p <- ChangedPaths(a, b) :: p in PathsOf(changes))
  }

  /** The changes are those at the given paths. */
  ghost predicate Found(a: Values, b: Values, changes: seq<Change>, paths: seq<string>) {
    && (forall c <- changes :: ChangeAt(a, b, c.path) == Some(c) && c.path in paths)
    && (forall p <- paths :: ChangeAt(a, b, p).Some? ==> p in PathsOf(changes))
  }

  lemma FoundSnoc(a: Values, b: Values, changes: seq<Change>, paths: seq<string>, p: string)
    requires Found(a, b, changes, paths)
    ensures ChangeAt(a, b, p).None? ==> Found(a, b, changes, paths + [p])
    ensures ChangeAt(a, b, p).Some? ==> Found(a, b, changes + [ChangeAt(a, b, p).value], paths + [p])
  {
    if ChangeAt(a, b, p).Some? {
      var change := ChangeAt(a, b, p).value;
      assert change.path == p;
      hide ChangeAt;
      assert PathsOf(changes + [change]) == PathsOf(changes) + [p];
    }
  }

  /** `diffValues`. */
  method DiffValues(running: Values, candidate: Values) returns (changes: seq<Change>)
    ensures Describes(running, candidate, changes)
  {
    var ordered := SortPaths(running.Keys + candidate.Keys);
    assert forall p <- ordered :: p in running || p in candidate;
    changes := [];
    for i := 0 to |ordered|
      invariant Found(running, candidate, changes, ordered[..i])
      invariant StrictlySorted(PathsOf(changes))
    {
      var p := ordered[i];
      assert p in ordered;
      var entry := Compare(running, candidate, p);
      FoundSnoc(running, candidate, changes, ordered[..i], p);
      ListedBefore(changes, ordered[..i]);
      SortedSnoc(PathsOf(changes), ordered, i);
      hide ChangeAt, StrictlySorted, Found;
      assert ordered[..i + 1] == ordered[..i] + [p];
      if entry.Some? {
        assert PathsOf(changes + [entry.value]) == PathsOf(changes) + [p];
        changes := changes + [entry.value];
      }
    }
    assert ordered[..|ordered|] == ordered;
  }

  /** The body of the loop: how the two contents differ at one path. */
  method Compare(running: Values, candidate: Values, p: string) returns (entry: Option<Change>)
    requires p in running || p in candidate
    ensures entry == ChangeAt(running, candidate, p) && (entry.Some? ==> entry.value.path == p)
  {
    entry := None;
    if p in running && p in candidate {
      if running[p] != candidate[p] { entry := Some(Update(p, running[p], candidate[p])); }
    } else if p in candidate {
      entry := Some(Create(p, candidate[p]));
    } else {
      entry := Some(Delete(p, running[p]));
    }
  }

  lemma ListedBefore(changes: seq<Change>, paths: seq<string>)
    requires forall c <- changes :: c.path in paths
    ensures forall p <- PathsOf(changes) :: p in paths
  {
  }

  lemma SortedSnoc(paths: seq<string>, ordered: seq<string>, i: nat)
    requires StrictlySorted(ordered) && i < |ordered| && StrictlySorted(paths) && forall p <- paths :: p in ordered[..i]
    ensures StrictlySorted(paths + [ordered[i]])
  {
    forall k | 0 <= k < |paths| ensures Less(paths[k], ordered[i]) {
      assert paths[k] in ordered[..i];
    }
  }

  /** Applying a list of changes, first to last. */
  function Patch(m: Values, changes: seq<Change>): Values
    decreases changes
  {
    if changes == [] then m
    else
      match changes[0]
      case Create(p, v) => Patch(m[p := v], changes[1..])
      case Update(p, _, v) => Patch(m[p := v], changes[1..])
      case Delete(p, _) => Patch(m - {p}, changes[1..])
  }

  function Invert(c: Change): Change {
    match c
    case Create(p, v) => Delete(p, v)
    case Update(p, o, n) => Update(p, n, o)
    case Delete(p, v) => Create(p, v)
  }

  function Inverse(changes: seq<Change>): (r: seq<Change>)
    ensures |r| == |changes|
    ensures forall i :: 0 <= i < |changes| ==> r[i] == Invert(changes[i])
  {
    seq(|changes|, i requires 0 <= i < |changes| => Invert(changes[i]))
  }

  /** Patching changes exactly the listed paths, and makes them agree with `b`. */
  lemma {:induction false} PatchAt(a: Values, m: Values, b: Values, changes: seq<Change>, p: string)
    requires forall c <- changes :: ChangeAt(a, b, c.path) == Some(c)
    ensures AgreeAt(Patch(m, changes), if p in PathsOf(changes) then b else m, p)
    decreases changes
  {
    if changes != [] {
      var first := changes[0];
      var next := if first.Delete? then m - {first.path} else m[first.path := first.new_];
      PatchAt(a, next, b, changes[1..], p);
      assert PathsOf(changes) == [first.path] + PathsOf(changes[1..]);
    }
  }

  /** The diff turns the first content into the second. */
  lemma DiffPatches(a: Values, b: Values, changes: seq<Change>)
    requires Describes(a, b, changes)
    ensures Patch(a, changes) == b
  {
    forall p ensures AgreeAt(Patch(a, changes), b, p) {
      PatchAt(a, a, b, changes, p);
    }
    assert ChangedPaths(Patch(a, changes), b) == {};
  }

  /** The inverted diff is the diff the other way, so it undoes the patch. */
  lemma InverseDescribes(a: Values, b: Values, changes: seq<Change>)
    requires Describes(a, b, changes)
    ensures Describes(b, a, Inverse(changes))
    ensures Patch(b, Inverse(changes)) == a
  {
    assert PathsOf(Inverse(changes)) == PathsOf(changes);
    forall c | c in Inverse(changes) ensures ChangeAt(b, a, c.path) == Some(c) {
      var i :| 0 <= i < |changes| && c == Invert(changes[i]);
      assert changes[i] in changes;
    }
    forall p <- ChangedPaths(b, a) ensures p in PathsOf(Inverse(changes)) { assert p in ChangedPaths(a, b); }
    DiffPatches(b, a, Inverse(changes));
  }

  /** There is one diff, it is empty exactly for equal contents, and no patch that names
      fewer paths does the same work. */
  lemma DiffMinimal(a: Values, b: Values, changes: seq<Change>)
    requires Describes(a, b, changes)
    ensures changes == [] <==> a == b
    ensures forall other | Describes(a, b, other) :: other == changes
    ensures forall other: seq<Change> | Patch(a, other) == b :: forall p <- PathsOf(changes) :: p in PathsOf(other)
  {
    forall p ensures p in PathsOf(changes) <==> p in ChangedPaths(a, b) {
      PathListed(a, b, changes, p);
    }
    if changes != [] { assert PathsOf(changes)[0] in ChangedPaths(a, b); }
    if changes == [] { assert ChangedPaths(a, b) == {}; }
    forall other | Describes(a, b, other) ensures other == changes {
      SamePaths(a, b, other, changes);
    }
    forall other: seq<Change>, p | Patch(a, other) == b && p in PathsOf(changes)
      ensures p in PathsOf(other)
    {
      if p !in PathsOf(other) { PatchFrame(a, other, p); }
    }
  }

  lemma SamePaths(a: Values, b: Values, x: seq<Change>, y: seq<Change>)
    requires Describes(a, b, x) && Describes(a, b, y)
    ensures x == y
  {
    forall p ensures p in PathsOf(x) <==> p in PathsOf(y) {
      PathListed(a, b, x, p);
      PathListed(a, b, y, p);
    }
    SortedUnique(PathsOf(x), PathsOf(y));
    forall i | 0 <= i < |x| ensures x[i] == y[i] {
      assert PathsOf(x)[i] == PathsOf(y)[i];
      assert x[i] in x && y[i] in y;
    }
  }

  lemma PathListed(a: Values, b: Values, changes: seq<Change>, p: string)
    requires Describes(a, b, changes)
    ensures p in PathsOf(changes) <==> p in ChangedPaths(a, b)
  {
    if p in PathsOf(changes) {
      var i :| 0 <= i < |changes| && p == changes[i].path;
      assert changes[i] in changes;
    }
  }

  lemma {:induction false} PatchFrame(m: Values, changes: seq<Change>, p: string)
    requires p !in PathsOf(changes)
    ensures AgreeAt(Patch(m, changes), m, p)
    decreases changes
  {
    if changes != [] {
      var first := changes[0];
      assert PathsOf(changes) == [first.path] + PathsOf(changes[1..]);
      PatchFrame(if first.Delete? then m - {first.path} else m[first.path := first.new_], changes[1..], p);
    }
  }
}
