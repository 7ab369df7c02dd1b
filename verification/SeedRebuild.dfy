/** The round trip between a device and the flat map: walking the leaves of a device and
    rebuilding from them gives a device with the same leaves and the same list entries. */
module SeedRebuild {
  import opened Wrappers
  import opened Paths
  import opened DeviceTree
  import opened Hydrate
  import opened HydrateEntries
  import opened Prune
  import opened Rebuild
  import opened WalkLeaves

  function MapOf(ws: seq<Stored>): LeafMap
    requires Once(ws)
  {
    map w | w in ws :: w.path := w.value
  }

  /** The flat map a walk of the device gives. */
  function SeedOf(env: Env, fields: seq<Field>, device: seq<Obj>): (leaves: LeafMap)
    requires Walkable(env, fields, device)
  {
    WalkVisitsEveryLeafOnce(env, fields, device);
    MapOf(WalkFields(env, fields, device, 0, []))
  }

  lemma {:induction false} SeedHolds(env: Env, fields: seq<Field>, device: seq<Obj>, p: Path)
    requires Walkable(env, fields, device)
    ensures var leaves := SeedOf(env, fields, device);
            && (p in leaves <==> Address(env, fields, p) && ReadLeaf(env, fields, device, p).Some?)
            && (p in leaves ==> ReadLeaf(env, fields, device, p) == Some(leaves[p]))
  {
    WalkVisitsEveryLeafOnce(env, fields, device);
    var ws := WalkFields(env, fields, device, 0, []);
    if ReadLeaf(env, fields, device, p).Some? && Address(env, fields, p) {
      assert Stored(p, ReadLeaf(env, fields, device, p).value) in ws;
    }
    if p in MapOf(ws) {
      var w :| w in ws && w.path == p;
      assert w == Stored(p, w.value);
    }
  }

  /** A leaf of the device can be stored where it came from. */
  lemma {:induction false} LeafStorable(env: Env, fields: seq<Field>, objs: seq<Obj>, p: Path)
    requires GoodFields(fields) && Typed(env, fields, objs) && |objs| == |fields| && Address(env, fields, p)
    requires ReadLeaf(env, fields, objs, p).Some?
    ensures Storable(env, fields, p, ReadLeaf(env, fields, objs, p).value)
    decreases |p|, 1
  {
    hide GoodFields, GoodType, TypedObj, CanonicalKey, Enter;
    var i := Match(fields, p).value;
    FieldTyped(env, fields, objs, i);
    if fields[i].type_.Scalar? {
      ScalarFits(env, fields[i], objs[i]);
    } else {
      LeafStorableBelow(env, fields, objs, p, i);
    }
  }

  lemma ScalarFits(env: Env, field: Field, obj: Obj)
    requires field.type_.Scalar? && TypedObj(env, field.type_, obj)
    ensures obj.Val? && env.fits(field.type_.kind, obj.value)
  {
  }

  lemma {:induction false} LeafStorableBelow(env: Env, fields: seq<Field>, objs: seq<Obj>, p: Path, i: nat)
    requires GoodFields(fields) && Typed(env, fields, objs) && |objs| == |fields| && Address(env, fields, p)
    requires Match(fields, p) == Some(i) && !fields[i].type_.Scalar? && ReadLeaf(env, fields, objs, p).Some?
    ensures Storable(env, fields, p, ReadLeaf(env, fields, objs, p).value)
    decreases |p|, 0
  {
    hide Match, ReadLeaf, Address, GoodFields, GoodType, Typed, TypedObj, CanonicalKey, Enter, ElemKey;
    var t, n := fields[i].type_, |fields[i].tag|;
    GoodInner(fields, i);
    FieldTyped(env, fields, objs, i);
    AddressStep(env, fields, p, i);
    ReadEnters(env, fields, objs, p, i);
    EnterTyped(env, fields[i], objs[i], p[n - 1]);
    var inner := Enter(env, fields[i], objs[i], p[n - 1]).value;
    TypedLength(env, t.fields, inner);
    ReadUnfold(env, fields, objs, p, i, inner);
    LeafStorable(env, t.fields, inner, p[n..]);
    if t.Slice? && Match(t.fields, p[n..]) == Some(t.key) {
      KeyLeaf(env, t, inner, p[n..]);
      KeyIsNamed(env, fields[i], objs[i], p[n - 1]);
    }
  }

  lemma KeyLeaf(env: Env, t: Type, inner: seq<Obj>, q: Path)
    requires GoodType(t) && t.Slice? && Typed(env, t.fields, inner) && Match(t.fields, q) == Some(t.key)
    requires ReadLeaf(env, t.fields, inner, q).Some?
    ensures env.render(ReadLeaf(env, t.fields, inner, q).value) == ElemKey(env, t.key, Rec(inner))
  {
  }

  lemma {:induction false} SeedHydratable(env: Env, fields: seq<Field>, device: seq<Obj>)
    requires Walkable(env, fields, device)
    requires forall p <- SeedOf(env, fields, device) :: WellFormed(p)
    ensures Hydratable(env, fields, SeedOf(env, fields, device))
  {
    var leaves := SeedOf(env, fields, device);
    forall p <- leaves ensures WellFormed(p) && Address(env, fields, p) && Storable(env, fields, p, leaves[p]) {
      SeedHolds(env, fields, device, p);
      LeafStorable(env, fields, device, p);
    }
  }

  // --------------------------------------------------------------- entries have leaves

  lemma {:induction false} ReadMeansEntry(env: Env, fields: seq<Field>, objs: seq<Obj>, p: Path, e: Path)
    requires GoodFields(fields) && Typed(env, fields, objs) && ReadLeaf(env, fields, objs, p).Some?
    requires EntryAddress(env, fields, e) && e <= p
    ensures HasEntry(env, fields, objs, e)
    decreases |p|
  {
    var i := EntryMatches(env, fields, e);
    var t, n := fields[i].type_, |fields[i].tag|;
    MatchPrefix(fields, e, p);
    EntryStep(env, fields, e, i);
    var inner := ReadEntered(env, fields, objs, p, i);
    hide GoodFields, GoodType, Typed, TypedObj, EntryAddress, Enter, HasEntry, ReadLeaf, CanonicalKey;
    HasUnfold(env, fields, objs, e, i, inner);
    if |e| > n { ReadMeansEntry(env, t.fields, inner, p[n..], e[n..]); }
  }

  /** The key leaf of an entry. */
  lemma {:induction false} EntryHasKey(env: Env, fields: seq<Field>, objs: seq<Obj>, e: Path) returns (p: Path)
    requires GoodFields(fields) && Typed(env, fields, objs) && EntryAddress(env, fields, e)
             && HasEntry(env, fields, objs, e)
    ensures e <= p && Address(env, fields, p) && ReadLeaf(env, fields, objs, p).Some?
    decreases |e|
  {
    var i, inner := Entered(env, fields, objs, e);
    var t, n := fields[i].type_, |fields[i].tag|;
    var rest: Path;
    if |e| > n {
      rest := EntryHasKey(env, t.fields, inner, e[n..]);
    } else {
      rest := KeyPath(env, t, inner);
    }
    p := e[..n] + rest;
    LeafBelow(env, fields, objs, e, i, inner, rest);
    PrefixOf(e, rest, n);
  }

  lemma PrefixOf(e: Path, rest: Path, n: nat)
    requires n <= |e| && e[n..] <= rest
    ensures e <= e[..n] + rest
  {
    assert e == e[..n] + e[n..];
  }

  lemma {:induction false} Entered(
    env: Env, fields: seq<Field>, objs: seq<Obj>, e: Path)
    returns (i: nat, inner: seq<Obj>)
    requires GoodFields(fields) && Typed(env, fields, objs) && EntryAddress(env, fields, e)
             && HasEntry(env, fields, objs, e)
    ensures Match(fields, e) == Some(i) && !fields[i].type_.Scalar? && 0 < |fields[i].tag| <= |e|
    ensures Enter(env, fields[i], objs[i], e[|fields[i].tag| - 1]) == Some(inner)
    ensures var t, n := fields[i].type_, |fields[i].tag|;
            && GoodType(t) && GoodFields(t.fields) && Typed(env, t.fields, inner) && (|e| == n ==> t.Slice?)
            && (|e| > n ==> EntryAddress(env, t.fields, e[n..]) && HasEntry(env, t.fields, inner, e[n..]))
  {
    i := Match(fields, e).value;
    EntryStep(env, fields, e, i);
    GoodInner(fields, i);
    HasEnters(env, fields, objs, e, i);
    inner := Enter(env, fields[i], objs[i], e[|fields[i].tag| - 1]).value;
  }

  lemma {:induction false} HasEnters(env: Env, fields: seq<Field>, objs: seq<Obj>, e: Path, i: nat)
    requires Typed(env, fields, objs) && HasEntry(env, fields, objs, e) && Match(fields, e) == Some(i)
             && !fields[i].type_.Scalar?
    ensures var t, n := fields[i].type_, |fields[i].tag|;
            && Enter(env, fields[i], objs[i], e[n - 1]).Some?
            && var inner := Enter(env, fields[i], objs[i], e[n - 1]).value;
               && Typed(env, t.fields, inner) && (|e| == n ==> t.Slice?)
               && (|e| > n ==> HasEntry(env, t.fields, inner, e[n..]))
  {
    EnterTyped(env, fields[i], objs[i], e[|fields[i].tag| - 1]);
  }

  lemma {:induction false} KeyPath(env: Env, t: Type, inner: seq<Obj>) returns (q: Path)
    requires GoodType(t) && t.Slice? && Typed(env, t.fields, inner)
    ensures Address(env, t.fields, q) && ReadLeaf(env, t.fields, inner, q).Some?
  {
    q := [Segment(KeyName(t), "", "")];
    OnlyMatch(t.fields, q, t.key);
    assert q[1..] == [];
    assert TypedObj(env, t.fields[t.key].type_, inner[t.key]);
  }

  lemma {:induction false} LeafBelow(
    env: Env, fields: seq<Field>, objs: seq<Obj>, e: Path, i: nat, inner: seq<Obj>, rest: Path)
    requires GoodFields(fields) && |objs| == |fields| && EntryAddress(env, fields, e) && Match(fields, e) == Some(i)
    requires !fields[i].type_.Scalar? && |inner| == |fields[i].type_.fields|
    requires Enter(env, fields[i], objs[i], e[|fields[i].tag| - 1]) == Some(inner)
    requires Address(env, fields[i].type_.fields, rest) && ReadLeaf(env, fields[i].type_.fields, inner, rest).Some?
    ensures var p := e[..|fields[i].tag|] + rest; Address(env, fields, p) && ReadLeaf(env, fields, objs, p).Some?
  {
    var n := |fields[i].tag|;
    var p := e[..n] + rest;
    assert p[..n] == e[..n] && p[n..] == rest;
    EntryStep(env, fields, e, i);
    SameFront(fields[i], e, p);
    OnlyMatch(fields, p, i);
    AddressBelow(env, fields, p, i);
    ReadUnfold(env, fields, objs, p, i, inner);
  }

  lemma SameFront(field: Field, e: Path, p: Path)
    requires SpelledAs(field, e) && |field.tag| <= |p| && p[..|field.tag|] == e[..|field.tag|]
    ensures SpelledAs(field, p) && p[|field.tag| - 1] == e[|field.tag| - 1]
  {
    forall k | 0 <= k < |field.tag| ensures p[k] == e[k] { assert p[..|field.tag|][k] == e[..|field.tag|][k]; }
  }

  lemma {:induction false} AddressBelow(env: Env, fields: seq<Field>, p: Path, i: nat)
    requires Match(fields, p) == Some(i) && !fields[i].type_.Scalar? && SpelledAs(fields[i], p)
    requires Address(env, fields[i].type_.fields, p[|fields[i].tag|..])
    requires var t, last := fields[i].type_, p[|fields[i].tag| - 1];
             t.Slice? ==> last.key == KeyName(t) && CanonicalKey(env, t, last.value)
    ensures Address(env, fields, p)
  {
  }

  // ------------------------------------------------------------------- the round trip

  lemma {:induction false} SeedRebuildLeaf(env: Env, fields: seq<Field>, device: seq<Obj>, rebuilt: seq<Obj>, q: Path)
    requires Walkable(env, fields, device) && Rebuilt(env, fields, device, SeedOf(env, fields, device), rebuilt)
             && Address(env, fields, q)
    ensures ReadLeaf(env, fields, rebuilt, q) == ReadLeaf(env, fields, device, q)
  {
    var leaves := SeedOf(env, fields, device);
    forall p <- leaves ensures ReadLeaf(env, fields, device, p).Some? { SeedHolds(env, fields, device, p); }
    SeedHolds(env, fields, device, q);
    assert NothingNew(env, fields, device, leaves, rebuilt) && ReadsExpected(env, fields, device, leaves, rebuilt);
  }

  lemma {:induction false} SeedRebuildEntry(env: Env, fields: seq<Field>, device: seq<Obj>, rebuilt: seq<Obj>, e: Path)
    requires Walkable(env, fields, device) && Rebuilt(env, fields, device, SeedOf(env, fields, device), rebuilt)
             && EntryAddress(env, fields, e)
    ensures HasEntry(env, fields, rebuilt, e) <==> HasEntry(env, fields, device, e)
  {
    var leaves := SeedOf(env, fields, device);
    if leaves != map[] {
      assert EntriesAreStored(env, fields, leaves, rebuilt);
      if HasEntry(env, fields, device, e) {
        var p := EntryHasKey(env, fields, device, e);
        SeedHolds(env, fields, device, p);
      }
      if p :| p in leaves && e <= p {
        SeedHolds(env, fields, device, p);
        ReadMeansEntry(env, fields, device, p, e);
      }
    }
  }

  /** The two devices hold the same leaves and the same list entries. */
  ghost predicate SameContent(env: Env, fields: seq<Field>, a: seq<Obj>, b: seq<Obj>)
    requires |a| == |b| == |fields|
  {
    && (forall q :: Address(env, fields, q) ==> ReadLeaf(env, fields, a, q) == ReadLeaf(env, fields, b, q))
    && (forall e :: EntryAddress(env, fields, e) ==> (HasEntry(env, fields, a, e) <==> HasEntry(env, fields, b, e)))
  }

  lemma {:induction false} SeedRebuilt(env: Env, fields: seq<Field>, device: seq<Obj>, rebuilt: seq<Obj>)
    requires Walkable(env, fields, device) && Rebuilt(env, fields, device, SeedOf(env, fields, device), rebuilt)
    ensures SameContent(env, fields, rebuilt, device)
  {
    forall q | Address(env, fields, q)
      ensures ReadLeaf(env, fields, rebuilt, q) == ReadLeaf(env, fields, device, q)
    {
      SeedRebuildLeaf(env, fields, device, rebuilt, q);
    }
    forall e | EntryAddress(env, fields, e)
      ensures HasEntry(env, fields, rebuilt, e) <==> HasEntry(env, fields, device, e)
    {
      SeedRebuildEntry(env, fields, device, rebuilt, e);
    }
  }

  /** Walking a device into a flat map, recording its list entries, pruning the device by them and
      assigning the leaves back, in any order, succeeds and loses and invents nothing. */
  lemma {:induction false} SeedRebuildRoundTrip(
    env: Env, fields: seq<Field>, device: seq<Obj>, instances: Instances, plan: seq<Stored>)
    requires GoodEnv(env) && Walkable(env, fields, device)
    requires forall p <- SeedOf(env, fields, device) :: WellFormed(p)
    requires Enumerates(plan, SeedOf(env, fields, device)) && Records(instances, SeedOf(env, fields, device).Keys)
    ensures var start := if SeedOf(env, fields, device) == map[] then device
                         else PruneFields(env, instances, fields, device, []);
            && AssignAll(env, fields, start, plan).Some?
            && SameContent(env, fields, AssignAll(env, fields, start, plan).value, device)
  {
    hide Rebuilt, SameContent, Hydratable, Enumerates, Records, AssignAll, GoodEnv;
    var leaves := SeedOf(env, fields, device);
    SeedHydratable(env, fields, device);
    RebuildTheorem(env, fields, device, instances, leaves, plan);
    var start := if leaves == map[] then device else PruneFields(env, instances, fields, device, []);
    SeedRebuilt(env, fields, device, AssignAll(env, fields, start, plan).value);
  }
}
