/** internal/router/hydrate.go: rebuilding a device from its pruned template and a flat map. */
module Rebuild {
  import opened Wrappers
  import opened Leaves
  import opened Paths
  import opened DeviceTree
  import opened Hydrate
  import opened HydrateEntries
  import opened HydrateFresh
  import opened HydrateTakes
  import opened Prune

  datatype Fault = Unparsable | Unassignable

  /** One entry of the flat map, its path parsed. */
  datatype Stored = Stored(path: Path, value: Value)

  ghost predicate StoredLeaf(env: Env, fields: seq<Field>, w: Stored) {
    Address(env, fields, w.path) && Storable(env, fields, w.path, w.value)
  }

  /** Some stored leaf lies at or below `e`. */
  ghost predicate StoredIn(plan: seq<Stored>, e: Path) {
    exists i :: 0 <= i < |plan| && e <= plan[i].path
  }

  // ------------------------------------------------------------ one path after another

  /** Assigning the paths one after the other; the first failure stops the rebuild. */
  function AssignAll(env: Env, fields: seq<Field>, objs: seq<Obj>, plan: seq<Stored>): (r: Option<seq<Obj>>)
    requires |objs| == |fields|
    ensures r.Some? ==> |r.value| == |fields|
    decreases |plan|
  {
    if plan == [] then Some(objs)
    else
      var k := |plan| - 1;
      match AssignAll(env, fields, objs, plan[..k])
      case None => None
      case Some(now) => Assign(env, fields, now, plan[k].path, plan[k].value)
  }

  ghost predicate Ready(env: Env, fields: seq<Field>, objs: seq<Obj>, plan: seq<Stored>) {
    && GoodEnv(env) && GoodFields(fields) && |objs| == |fields| && Typed(env, fields, objs)
    && (forall i :: 0 <= i < |plan| ==> StoredLeaf(env, fields, plan[i]))
  }

  /** The last step of the sequence, spelled out. */
  lemma {:induction false} AllStep(
    env: Env, fields: seq<Field>, objs: seq<Obj>, plan: seq<Stored>)
    returns (now: seq<Obj>)
    requires Ready(env, fields, objs, plan) && plan != []
    ensures var k := |plan| - 1; var p, v := plan[k].path, plan[k].value;
            && Ready(env, fields, objs, plan[..k])
            && AssignAll(env, fields, objs, plan[..k]) == Some(now) && Assignable(env, fields, now, p, v)
            && Assign(env, fields, now, p, v).Some?
            && AssignAll(env, fields, objs, plan) == Assign(env, fields, now, p, v)
    decreases |plan|, 0
  {
    hide Assign, Match, ReadLeaf, HasEntry, Address, EntryAddress, Storable, GoodFields, GoodEnv, Typed;
    var k := |plan| - 1;
    AllTyped(env, fields, objs, plan[..k]);
    now := AssignAll(env, fields, objs, plan[..k]).value;
    assert StoredLeaf(env, fields, plan[k]);
    AssignReads(env, fields, now, plan[k].path, plan[k].value);
  }

  lemma {:induction false} AllTyped(env: Env, fields: seq<Field>, objs: seq<Obj>, plan: seq<Stored>)
    requires Ready(env, fields, objs, plan)
    ensures AssignAll(env, fields, objs, plan).Some?
    ensures Typed(env, fields, AssignAll(env, fields, objs, plan).value)
    decreases |plan|, 1
  {
    hide Assign, Match, ReadLeaf, HasEntry, Address, EntryAddress, Storable, GoodFields, GoodEnv, Typed;
    if plan != [] {
      var now := AllStep(env, fields, objs, plan);
      AssignReads(env, fields, now, plan[|plan| - 1].path, plan[|plan| - 1].value);
    }
  }

  /** Every assigned leaf reads back. */
  lemma {:induction false} AllRead(env: Env, fields: seq<Field>, objs: seq<Obj>, plan: seq<Stored>, i: nat)
    requires Ready(env, fields, objs, plan) && i < |plan|
    requires forall j, k :: 0 <= j < k < |plan| ==> plan[j].path != plan[k].path
    ensures AssignAll(env, fields, objs, plan).Some?
    ensures ReadLeaf(env, fields, AssignAll(env, fields, objs, plan).value, plan[i].path) == Some(plan[i].value)
    decreases |plan|
  {
    hide Assign, Match, ReadLeaf, HasEntry, Address, EntryAddress, Storable, GoodFields, GoodEnv, Typed;
    var k := |plan| - 1;
    var now, after := LastRead(env, fields, objs, plan, plan[i]);
    if i < k {
      AllRead(env, fields, objs, plan[..k], i);
      assert plan[..k][i] == plan[i];
    }
  }

  /** The last assignment reads back, and leaves what was read at other paths. */
  lemma {:induction false} LastRead(env: Env, fields: seq<Field>, objs: seq<Obj>, plan: seq<Stored>, w: Stored)
    returns (now: seq<Obj>, after: seq<Obj>)
    requires Ready(env, fields, objs, plan) && plan != [] && StoredLeaf(env, fields, w)
    ensures |now| == |after| == |fields| && Ready(env, fields, objs, plan[..|plan| - 1])
    ensures AssignAll(env, fields, objs, plan[..|plan| - 1]) == Some(now)
            && AssignAll(env, fields, objs, plan) == Some(after)
    ensures w == plan[|plan| - 1] ==> ReadLeaf(env, fields, after, w.path) == Some(w.value)
    ensures w.path != plan[|plan| - 1].path && ReadLeaf(env, fields, now, w.path) == Some(w.value) ==>
              ReadLeaf(env, fields, after, w.path) == Some(w.value)
  {
    hide Assign, Match, ReadLeaf, HasEntry, Address, EntryAddress, Storable, GoodFields, GoodEnv, Typed;
    var k := |plan| - 1;
    now := AllStep(env, fields, objs, plan);
    AssignReads(env, fields, now, plan[k].path, plan[k].value);
    after := Assign(env, fields, now, plan[k].path, plan[k].value).value;
    if w.path != plan[k].path && ReadLeaf(env, fields, now, w.path) == Some(w.value) {
      StillRead(env, fields, now, plan[k], w);
    }
  }

  lemma {:induction false} StillRead(env: Env, fields: seq<Field>, now: seq<Obj>, w: Stored, other: Stored)
    requires Assignable(env, fields, now, w.path, w.value) && Address(env, fields, other.path) && other.path != w.path
    requires ReadLeaf(env, fields, now, other.path) == Some(other.value)
    ensures Assign(env, fields, now, w.path, w.value).Some?
    ensures ReadLeaf(env, fields, Assign(env, fields, now, w.path, w.value).value, other.path) == Some(other.value)
  {
    hide Assign, Match, ReadLeaf, HasEntry, Address, EntryAddress, Storable, GoodFields, GoodEnv, Typed;
    AssignFrame(env, fields, now, w.path, w.value, other.path);
  }

  /** A leaf no path assigns keeps its value. */
  lemma {:induction false} AllKeep(env: Env, fields: seq<Field>, objs: seq<Obj>, plan: seq<Stored>, q: Path)
    requires Ready(env, fields, objs, plan) && Address(env, fields, q) && ReadLeaf(env, fields, objs, q).Some?
    requires forall i :: 0 <= i < |plan| ==> plan[i].path != q
    ensures AssignAll(env, fields, objs, plan).Some?
    ensures ReadLeaf(env, fields, AssignAll(env, fields, objs, plan).value, q) == ReadLeaf(env, fields, objs, q)
    decreases |plan|
  {
    hide Assign, Match, ReadLeaf, HasEntry, Address, EntryAddress, Storable, GoodFields, GoodEnv, Typed;
    if plan != [] {
      var k := |plan| - 1;
      var now := AllStep(env, fields, objs, plan);
      AllKeep(env, fields, objs, plan[..k], q);
      AssignFrame(env, fields, now, plan[k].path, plan[k].value, q);
    }
  }

  /** A leaf that was not there and is not assigned comes to be there, fresh, exactly when some path
      goes through its holder. */
  lemma {:induction false} AllMake(env: Env, fields: seq<Field>, objs: seq<Obj>, plan: seq<Stored>, q: Path)
    requires Ready(env, fields, objs, plan) && Address(env, fields, q) && ReadLeaf(env, fields, objs, q).None?
    requires forall i :: 0 <= i < |plan| ==> plan[i].path != q
    ensures AssignAll(env, fields, objs, plan).Some?
    ensures ReadLeaf(env, fields, AssignAll(env, fields, objs, plan).value, q) ==
              if StoredIn(plan, Holder(fields, q)) then FreshValue(env, fields, q) else None
    decreases |plan|
  {
    hide Assign, Match, ReadLeaf, HasEntry, Address, EntryAddress, Storable, GoodFields, GoodEnv, Typed;
    hide Holder, FreshValue;
    if plan != [] {
      var k := |plan| - 1;
      var now := AllStep(env, fields, objs, plan);
      AllMake(env, fields, objs, plan[..k], q);
      StoredInLast(plan, Holder(fields, q));
      FreshExists(env, fields, q);
      if ReadLeaf(env, fields, now, q).Some? {
        AssignFrame(env, fields, now, plan[k].path, plan[k].value, q);
      } else {
        AssignMakes(env, fields, now, plan[k].path, plan[k].value, q);
      }
    }
  }

  /** The list entries afterwards are those there before and those the paths go through. */
  lemma {:induction false} AllEntries(env: Env, fields: seq<Field>, objs: seq<Obj>, plan: seq<Stored>, e: Path)
    requires Ready(env, fields, objs, plan) && EntryAddress(env, fields, e)
    ensures AssignAll(env, fields, objs, plan).Some?
    ensures HasEntry(env, fields, AssignAll(env, fields, objs, plan).value, e)
            == (HasEntry(env, fields, objs, e) || StoredIn(plan, e))
    decreases |plan|
  {
    hide Assign, Match, ReadLeaf, HasEntry, Address, EntryAddress, Storable, GoodFields, GoodEnv, Typed;
    if plan != [] {
      var k := |plan| - 1;
      var now := AllStep(env, fields, objs, plan);
      AllEntries(env, fields, objs, plan[..k], e);
      AssignEntries(env, fields, now, plan[k].path, plan[k].value, e);
      StoredInLast(plan, e);
    }
  }

  lemma StoredInLast(plan: seq<Stored>, e: Path)
    requires plan != []
    ensures StoredIn(plan, e) <==> StoredIn(plan[..|plan| - 1], e) || e <= plan[|plan| - 1].path
  {
    var k := |plan| - 1;
    if StoredIn(plan[..k], e) {
      var i :| 0 <= i < k && e <= plan[..k][i].path;
      assert plan[i] == plan[..k][i];
    }
    if StoredIn(plan, e) {
      var i :| 0 <= i < |plan| && e <= plan[i].path;
      if i < k { assert plan[..k][i] == plan[i]; }
    }
  }

  /** If the stored leaves are all leaves of `tmpl`, no leaf outside `tmpl` comes into being. */
  lemma {:induction false} AllWithin(
    env: Env, fields: seq<Field>, objs: seq<Obj>, tmpl: seq<Obj>, plan: seq<Stored>, q: Path)
    requires Ready(env, fields, objs, plan) && Typed(env, fields, tmpl) && Address(env, fields, q)
    requires forall i :: 0 <= i < |plan| ==> ReadLeaf(env, fields, tmpl, plan[i].path).Some?
    requires ReadLeaf(env, fields, objs, q).Some? ==> ReadLeaf(env, fields, tmpl, q).Some?
    ensures AssignAll(env, fields, objs, plan).Some?
    ensures ReadLeaf(env, fields, AssignAll(env, fields, objs, plan).value, q).Some? ==>
            ReadLeaf(env, fields, tmpl, q).Some?
    decreases |plan|
  {
    hide Assign, Match, ReadLeaf, HasEntry, Address, EntryAddress, Storable, GoodFields, GoodEnv, Typed;
    if plan != [] {
      var k := |plan| - 1;
      var now := AllStep(env, fields, objs, plan);
      AllWithin(env, fields, objs, tmpl, plan[..k], q);
      if ReadLeaf(env, fields, AssignAll(env, fields, objs, plan).value, q).Some? {
        AssignWithin(env, fields, now, tmpl, plan[k].path, plan[k].value, q);
      }
    }
  }

  /** All paths are assigned if and only if the model takes each of them, in whatever order. */
  lemma {:induction false} AllTaken(env: Env, fields: seq<Field>, objs: seq<Obj>, plan: seq<Stored>)
    requires GoodEnv(env) && KeysParse(env) && Shaped(env, fields, objs) && |objs| == |fields|
    ensures AssignAll(env, fields, objs, plan).Some? <==> forall w <- plan :: Takes(env, fields, w.path, w.value)
    ensures AssignAll(env, fields, objs, plan).Some? ==> Shaped(env, fields, AssignAll(env, fields, objs, plan).value)
    decreases |plan|
  {
    hide Shaped, Takes, Assign, GoodEnv, KeysParse;
    if plan != [] {
      var k := |plan| - 1;
      AllTaken(env, fields, objs, plan[..k]);
      assert plan == plan[..k] + [plan[k]];
      var now := AssignAll(env, fields, objs, plan[..k]);
      if now.Some? { AssignTakes(env, fields, now.value, plan[k].path, plan[k].value); }
    }
  }

  // --------------------------------------------------------------------- the whole map

  type LeafMap = map<Path, Value>

  ghost predicate Enumerates(plan: seq<Stored>, leaves: LeafMap) {
    && (forall i :: 0 <= i < |plan| ==> plan[i].path in leaves && leaves[plan[i].path] == plan[i].value)
    && (forall p <- leaves :: exists i :: 0 <= i < |plan| && plan[i].path == p)
    && (forall i, j :: 0 <= i < j < |plan| ==> plan[i].path != plan[j].path)
  }

  /** Every stored path is one the parser accepts and strictly spells a leaf of the model that
      can hold its value. */
  ghost predicate Hydratable(env: Env, fields: seq<Field>, leaves: LeafMap) {
    forall p <- leaves :: WellFormed(p) && Address(env, fields, p) && Storable(env, fields, p, leaves[p])
  }

  ghost predicate EntryStored(leaves: LeafMap, e: Path) {
    exists p :: p in leaves && e <= p
  }

  /** The template's value of a leaf outlives the rebuild: the leaf is outside all lists, or in
      one list in whose entry something is stored. */
  ghost predicate Kept(fields: seq<Field>, leaves: LeafMap, q: Path) {
    ListsOn(fields, q) == 0 || (ListsOn(fields, q) == 1 && EntryStored(leaves, EntryOf(fields, q)))
  }

  /** What the rebuilt device holds at an address: the stored value; or else the template's, where
      it is kept; or else, where something is stored in the same optional struct or list entry, the
      entry's key or a zero value; or else nothing. */
  ghost function Expected(env: Env, fields: seq<Field>, template: seq<Obj>, leaves: LeafMap, q: Path): Option<Value>
    requires |template| == |fields|
  {
    if q in leaves then Some(leaves[q])
    else if leaves == map[] || (Kept(fields, leaves, q) && ReadLeaf(env, fields, template, q).Some?)
    then ReadLeaf(env, fields, template, q)
    else if EntryStored(leaves, Holder(fields, q)) then FreshValue(env, fields, q)
    else None
  }

  ghost predicate ReadsExpected(env: Env, fields: seq<Field>, template: seq<Obj>, leaves: LeafMap, device: seq<Obj>)
    requires |device| == |template| == |fields|
  {
    forall q :: Address(env, fields, q) ==>
      ReadLeaf(env, fields, device, q) == Expected(env, fields, template, leaves, q)
  }

  ghost predicate EntriesAreStored(env: Env, fields: seq<Field>, leaves: LeafMap, device: seq<Obj>)
    requires |device| == |fields|
  {
    forall e :: EntryAddress(env, fields, e) ==> (HasEntry(env, fields, device, e) <==> EntryStored(leaves, e))
  }

  /** If every stored leaf is one the template has, so is every leaf of the device. */
  ghost predicate NothingNew(env: Env, fields: seq<Field>, template: seq<Obj>, leaves: LeafMap, device: seq<Obj>)
    requires |device| == |template| == |fields|
  {
    (forall p <- leaves :: ReadLeaf(env, fields, template, p).Some?) ==>
      forall q :: Address(env, fields, q) && ReadLeaf(env, fields, device, q).Some? ==>
        ReadLeaf(env, fields, template, q).Some?
  }

  /** What the rebuilt device is: the template if nothing is stored; otherwise its list entries are
      exactly the stored ones, and each of its leaves is as expected. */
  ghost predicate Rebuilt(env: Env, fields: seq<Field>, template: seq<Obj>, leaves: LeafMap, device: seq<Obj>) {
    && Typed(env, fields, device) && |template| == |fields|
    && (leaves == map[] ==> device == template)
    && (leaves != map[] ==> EntriesAreStored(env, fields, leaves, device))
    && ReadsExpected(env, fields, template, leaves, device)
    && NothingNew(env, fields, template, leaves, device)
  }

  ghost predicate Given(
    env: Env, fields: seq<Field>, template: seq<Obj>, instances: Instances, leaves: LeafMap, plan: seq<Stored>) {
    && GoodEnv(env) && GoodFields(fields) && |template| == |fields| && Typed(env, fields, template)
    && Hydratable(env, fields, leaves) && leaves != map[] && Enumerates(plan, leaves)
    && Records(instances, leaves.Keys) && Bracketless(instances)
  }

  lemma {:induction false} GivenReady(
    env: Env, fields: seq<Field>, template: seq<Obj>, instances: Instances, leaves: LeafMap, plan: seq<Stored>)
    requires Given(env, fields, template, instances, leaves, plan)
    ensures Ready(env, fields, PruneFields(env, instances, fields, template, []), plan)
  {
    hide Assign, Match, ReadLeaf, HasEntry, Address, EntryAddress, Storable, GoodFields, GoodEnv, Typed;
    PruneTyped(env, instances, fields, template, []);
    forall i | 0 <= i < |plan| ensures StoredLeaf(env, fields, plan[i]) {
      assert plan[i].path in leaves;
    }
  }

  lemma {:induction false} StoredEither(plan: seq<Stored>, leaves: LeafMap, e: Path)
    requires Enumerates(plan, leaves)
    ensures StoredIn(plan, e) <==> EntryStored(leaves, e)
  {
    if p :| p in leaves && e <= p {
      var i :| 0 <= i < |plan| && plan[i].path == p;
    }
  }

  lemma {:induction false} RebuildEntries(
    env: Env, fields: seq<Field>, template: seq<Obj>, instances: Instances, leaves: LeafMap, plan: seq<Stored>)
    requires Given(env, fields, template, instances, leaves, plan)
    ensures var pruned := PruneFields(env, instances, fields, template, []);
            AssignAll(env, fields, pruned, plan).Some?
              && EntriesAreStored(env, fields, leaves, AssignAll(env, fields, pruned, plan).value)
  {
    hide Assign, Match, ReadLeaf, HasEntry, Address, EntryAddress, Storable, GoodFields, GoodEnv, Typed;
    var pruned := PruneFields(env, instances, fields, template, []);
    GivenReady(env, fields, template, instances, leaves, plan);
    AllTyped(env, fields, pruned, plan);
    forall e | EntryAddress(env, fields, e)
      ensures HasEntry(env, fields, AssignAll(env, fields, pruned, plan).value, e) <==> EntryStored(leaves, e)
    {
      AllEntries(env, fields, pruned, plan, e);
      StoredEither(plan, leaves, e);
      PruneEntries(env, instances, fields, template, [], e);
      if Spared(instances, fields, [], e) { SurvivorStored(env, instances, fields, leaves, e); }
    }
  }

  lemma {:induction false} SurvivorStored(env: Env, instances: Instances, fields: seq<Field>, leaves: LeafMap, e: Path)
    requires GoodFields(fields) && Hydratable(env, fields, leaves) && Records(instances, leaves.Keys)
             && Bracketless(instances)
    requires EntryAddress(env, fields, e) && Spared(instances, fields, [], e)
    ensures EntryStored(leaves, e)
  {
    hide Assign, Match, ReadLeaf, HasEntry, Address, EntryAddress, Storable, GoodFields, GoodEnv, Typed;
    SparedIsLive(env, instances, fields, [], e);
    EntryRecorded(env, instances, fields, leaves, e);
  }

  /** The leaves the template keeps are those the prune spares. */
  lemma {:induction false} KeptIsSpared(env: Env, instances: Instances, fields: seq<Field>, leaves: LeafMap, q: Path)
    requires GoodFields(fields) && Hydratable(env, fields, leaves) && Records(instances, leaves.Keys)
             && Bracketless(instances)
    requires Address(env, fields, q)
    ensures Spared(instances, fields, [], q) <==> Kept(fields, leaves, q)
  {
    hide Spared, ListsOn, EntryOf, Names, OneList;
    hide Assign, Match, ReadLeaf, HasEntry, Address, EntryAddress, Storable, GoodFields, GoodEnv, Typed;
    SparedLeaf(env, instances, fields, [], q);
    if ListsOn(fields, q) == 1 {
      EntryOfLeaf(env, fields, q);
      EntryRecorded(env, instances, fields, leaves, EntryOf(fields, q));
    }
  }

  lemma {:induction false} EntryRecorded(env: Env, instances: Instances, fields: seq<Field>, leaves: LeafMap, e: Path)
    requires GoodFields(fields) && Hydratable(env, fields, leaves) && Records(instances, leaves.Keys)
    requires EntryAddress(env, fields, e) && OneList(fields, e)
    ensures e != [] && (Live(instances, [] + Names(e), e[|e| - 1].value) <==> EntryStored(leaves, e))
  {
    hide Assign, Match, ReadLeaf, HasEntry, Address, EntryAddress, Storable, GoodFields, GoodEnv, Typed;
    assert [] + Names(e) == Names(e);
    RecordedIsStored(env, instances, fields, leaves.Keys, e);
  }

  lemma {:induction false} ReadsAt(
    env: Env, fields: seq<Field>, template: seq<Obj>, instances: Instances, leaves: LeafMap, plan: seq<Stored>, q: Path)
    requires Given(env, fields, template, instances, leaves, plan) && Address(env, fields, q)
    ensures var pruned := PruneFields(env, instances, fields, template, []);
            && AssignAll(env, fields, pruned, plan).Some?
            && ReadLeaf(env, fields, AssignAll(env, fields, pruned, plan).value, q)
               == Expected(env, fields, template, leaves, q)
  {
    hide Assign, Match, ReadLeaf, HasEntry, Address, EntryAddress, Storable, GoodFields, GoodEnv, Typed;
    hide Holder, FreshValue, Kept, PruneFields, Spared;
    var pruned := PruneFields(env, instances, fields, template, []);
    GivenReady(env, fields, template, instances, leaves, plan);
    if q in leaves {
      var i :| 0 <= i < |plan| && plan[i].path == q;
      AllRead(env, fields, pruned, plan, i);
    } else {
      KeptIsSpared(env, instances, fields, leaves, q);
      PruneReads(env, instances, fields, template, [], q);
      if ReadLeaf(env, fields, pruned, q).Some? {
        AllKeep(env, fields, pruned, plan, q);
      } else {
        AllMake(env, fields, pruned, plan, q);
        StoredEither(plan, leaves, Holder(fields, q));
      }
    }
  }

  lemma {:induction false} RebuildReads(
    env: Env, fields: seq<Field>, template: seq<Obj>, instances: Instances, leaves: LeafMap, plan: seq<Stored>)
    requires Given(env, fields, template, instances, leaves, plan)
    ensures var pruned := PruneFields(env, instances, fields, template, []);
            && AssignAll(env, fields, pruned, plan).Some?
            && ReadsExpected(env, fields, template, leaves, AssignAll(env, fields, pruned, plan).value)
  {
    hide Assign, Match, ReadLeaf, HasEntry, Address, EntryAddress, Storable, GoodFields, GoodEnv, Typed;
    hide Expected, PruneFields;
    var pruned := PruneFields(env, instances, fields, template, []);
    GivenReady(env, fields, template, instances, leaves, plan);
    AllTyped(env, fields, pruned, plan);
    forall q | Address(env, fields, q)
      ensures ReadLeaf(env, fields, AssignAll(env, fields, pruned, plan).value, q)
              == Expected(env, fields, template, leaves, q)
    {
      ReadsAt(env, fields, template, instances, leaves, plan, q);
    }
  }

  lemma {:induction false} RebuildWithin(
    env: Env, fields: seq<Field>, template: seq<Obj>, instances: Instances, leaves: LeafMap, plan: seq<Stored>)
    requires Given(env, fields, template, instances, leaves, plan)
    ensures var pruned := PruneFields(env, instances, fields, template, []);
            AssignAll(env, fields, pruned, plan).Some?
              && NothingNew(env, fields, template, leaves, AssignAll(env, fields, pruned, plan).value)
  {
    hide Assign, Match, ReadLeaf, HasEntry, Address, EntryAddress, Storable, GoodFields, GoodEnv, Typed;
    var pruned := PruneFields(env, instances, fields, template, []);
    GivenReady(env, fields, template, instances, leaves, plan);
    AllTyped(env, fields, pruned, plan);
    if forall p <- leaves :: ReadLeaf(env, fields, template, p).Some? {
      forall i | 0 <= i < |plan| ensures ReadLeaf(env, fields, template, plan[i].path).Some? {
        assert plan[i].path in leaves;
      }
      forall q | Address(env, fields, q) && ReadLeaf(env, fields, AssignAll(env, fields, pruned, plan).value, q).Some?
        ensures ReadLeaf(env, fields, template, q).Some?
      {
        PruneReads(env, instances, fields, template, [], q);
        AllWithin(env, fields, pruned, template, plan, q);
      }
    }
  }

  /** Whatever the order of assignment, the rebuild gives the device the map stands for. */
  lemma {:induction false} RebuildTheorem(
    env: Env, fields: seq<Field>, template: seq<Obj>, instances: Instances, leaves: LeafMap, plan: seq<Stored>)
    requires GoodEnv(env) && GoodFields(fields) && Typed(env, fields, template)
    requires Hydratable(env, fields, leaves) && Enumerates(plan, leaves) && Records(instances, leaves.Keys)
    ensures var start := if leaves == map[] then template else PruneFields(env, instances, fields, template, []);
            AssignAll(env, fields, start, plan).Some?
              && Rebuilt(env, fields, template, leaves, AssignAll(env, fields, start, plan).value)
  {
    assert plan != [] ==> plan[0].path in leaves;
    if leaves != map[] {
      RecordedBracketless(instances, leaves.Keys);
      GivenReady(env, fields, template, instances, leaves, plan);
      AllTyped(env, fields, PruneFields(env, instances, fields, template, []), plan);
      RebuildReads(env, fields, template, instances, leaves, plan);
      RebuildEntries(env, fields, template, instances, leaves, plan);
      RebuildWithin(env, fields, template, instances, leaves, plan);
    }
  }
}
