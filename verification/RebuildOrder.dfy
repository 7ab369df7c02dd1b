/** The order of the list entries of the rebuilt device. */
module RebuildOrder {
  import opened Paths
  import opened DeviceTree
  import opened Hydrate
  import opened Prune
  import opened Rebuild
  import opened ListOrder

  /** A list of keys after all the paths of a plan. */
  function MetAll(keys: seq<string>, l: Path, plan: seq<Stored>): seq<string> {
    if plan == [] then keys
    else
      var k := |plan| - 1;
      Met(MetAll(keys, l, plan[..k]), l, plan[k].path)
  }

  /** The keys of a list in the order in which the plan first mentions them. */
  function FirstMet(l: Path, plan: seq<Stored>): seq<string> {
    MetAll([], l, plan)
  }

  function Without(keys: seq<string>, others: seq<string>): seq<string> {
    if keys == [] then []
    else
      var k := |keys| - 1;
      Without(keys[..k], others) + (if keys[k] in others then [] else [keys[k]])
  }

  lemma {:induction false} WithoutHas(keys: seq<string>, others: seq<string>, k: string)
    ensures k in Without(keys, others) <==> k in keys && k !in others
    decreases |keys|
  {
    if keys != [] { WithoutHas(keys[..|keys| - 1], others, k); }
  }

  /** Keys that are there already keep their places; the others follow in order of mention. */
  lemma {:induction false} MetAllSplits(keys: seq<string>, l: Path, plan: seq<Stored>)
    ensures MetAll(keys, l, plan) == keys + Without(FirstMet(l, plan), keys)
    decreases |plan|
  {
    if plan != [] {
      var k := |plan| - 1;
      var met, p := FirstMet(l, plan[..k]), plan[k].path;
      MetAllSplits(keys, l, plan[..k]);
      if Through(l, p) {
        var value := p[|l| - 1].value;
        WithoutHas(met, keys, value);
        if value !in met {
          assert (met + [value])[..|met|] == met;
          assert keys + Without(met, keys) + [value] == keys + (Without(met, keys) + [value]);
        }
      }
    }
  }

  /** The first-mentioned keys are the stored ones, each once. */
  lemma {:induction false} FirstMetHas(l: Path, plan: seq<Stored>, value: string)
    ensures value in FirstMet(l, plan) <==>
            exists i :: 0 <= i < |plan| && Through(l, plan[i].path) && plan[i].path[|l| - 1].value == value
    ensures forall i, j :: 0 <= i < j < |FirstMet(l, plan)| ==> FirstMet(l, plan)[i] != FirstMet(l, plan)[j]
    decreases |plan|
  {
    if plan != [] {
      var k := |plan| - 1;
      FirstMetHas(l, plan[..k], value);
      if i :| 0 <= i < |plan| && Through(l, plan[i].path) && plan[i].path[|l| - 1].value == value {
        if i < k { assert plan[..k][i] == plan[i]; }
      }
      if i :| 0 <= i < k && Through(l, plan[..k][i].path) && plan[..k][i].path[|l| - 1].value == value {
        assert plan[i] == plan[..k][i];
      }
    }
  }

  /** What all the assignments make of the keys of a list. */
  lemma {:induction false} AllKeys(env: Env, fields: seq<Field>, objs: seq<Obj>, plan: seq<Stored>, l: Path)
    requires Ready(env, fields, objs, plan) && ListAddress(env, fields, l)
    ensures AssignAll(env, fields, objs, plan).Some?
    ensures KeysAt(env, fields, AssignAll(env, fields, objs, plan).value, l)
            == MetAll(KeysAt(env, fields, objs, l), l, plan)
    decreases |plan|
  {
    hide Assign, Match, ListAddress, KeysAt, Address, Storable, GoodFields, GoodEnv, Typed, Met;
    if plan != [] {
      var k := |plan| - 1;
      var now := AllStep(env, fields, objs, plan);
      AllKeys(env, fields, objs, plan[..k], l);
      AssignKeys(env, fields, now, plan[k].path, plan[k].value, l);
    }
  }

  // ------------------------------------------------------------------- the whole rebuild

  /** The stored keys among these, in their order. */
  ghost function StoredKeys(paths: set<Path>, l: Path, keys: seq<string>): seq<string> {
    if keys == [] then []
    else
      var k := |keys| - 1;
      StoredKeys(paths, l, keys[..k]) + (if KeyStored(paths, l, keys[k]) then [keys[k]] else [])
  }

  lemma {:induction false} KeptAreStored(
    env: Env, instances: Instances, fields: seq<Field>, paths: set<Path>, l: Path, keys: seq<string>)
    requires GoodFields(fields) && ListAddress(env, fields, l) && Outermost(fields, l) && Records(instances, paths)
    requires forall p <- paths :: Address(env, fields, p)
    ensures Keep(instances, Names(l), keys) == StoredKeys(paths, l, keys)
    decreases |keys|
  {
    hide GoodFields, ListAddress, Outermost, Records, Address, Live, KeyStored;
    if keys != [] {
      var k := |keys| - 1;
      KeptAreStored(env, instances, fields, paths, l, keys[..k]);
      RecordedKeys(env, instances, fields, paths, l, keys[k]);
    }
  }

  /** The template entries a list keeps: all of them when nothing is stored, the stored ones of an
      outermost list, none of a list inside a list. */
  ghost function TemplateKeys(env: Env, fields: seq<Field>, template: seq<Obj>, leaves: LeafMap, l: Path): seq<string>
    requires |template| == |fields|
  {
    var keys := KeysAt(env, fields, template, l);
    if leaves == map[] then keys else if Outermost(fields, l) then StoredKeys(leaves.Keys, l, keys) else []
  }

  /** The keys of every list of the device: the template entries it keeps, in template order, then
      the other stored keys in the order the plan first mentions them. */
  ghost predicate ListsInOrder(
    env: Env, fields: seq<Field>, template: seq<Obj>, leaves: LeafMap, plan: seq<Stored>, device: seq<Obj>)
    requires |template| == |device| == |fields|
  {
    forall l :: ListAddress(env, fields, l) ==>
      KeysAt(env, fields, device, l) ==
        var kept := TemplateKeys(env, fields, template, leaves, l);
        kept + Without(FirstMet(l, plan), kept)
  }

  lemma {:induction false} OrderAt(
    env: Env, fields: seq<Field>, template: seq<Obj>, instances: Instances, leaves: LeafMap, plan: seq<Stored>, l: Path)
    requires Given(env, fields, template, instances, leaves, plan) && ListAddress(env, fields, l)
    ensures var pruned := PruneFields(env, instances, fields, template, []);
            var kept := TemplateKeys(env, fields, template, leaves, l);
            && AssignAll(env, fields, pruned, plan).Some?
            && KeysAt(env, fields, AssignAll(env, fields, pruned, plan).value, l)
               == kept + Without(FirstMet(l, plan), kept)
  {
    hide Assign, Match, ListAddress, KeysAt, Address, Storable, GoodFields, GoodEnv;
    hide Typed, PruneFields, Keep, AssignAll;
    var pruned := PruneFields(env, instances, fields, template, []);
    GivenReady(env, fields, template, instances, leaves, plan);
    AllKeys(env, fields, pruned, plan, l);
    MetAllSplits(KeysAt(env, fields, pruned, l), l, plan);
    PruneKeys(env, instances, fields, template, [], l);
    assert [] + Names(l) == Names(l);
    if Outermost(fields, l) {
      KeptAreStored(env, instances, fields, leaves.Keys, l, KeysAt(env, fields, template, l));
    }
  }

  /** The rebuild keeps the lists in that order. */
  lemma {:induction false} RebuildKeepsOrder(
    env: Env, fields: seq<Field>, template: seq<Obj>, instances: Instances, leaves: LeafMap, plan: seq<Stored>)
    requires GoodEnv(env) && GoodFields(fields) && Typed(env, fields, template)
    requires Hydratable(env, fields, leaves) && Enumerates(plan, leaves) && Records(instances, leaves.Keys)
    ensures var start := if leaves == map[] then template else PruneFields(env, instances, fields, template, []);
            && AssignAll(env, fields, start, plan).Some?
            && ListsInOrder(env, fields, template, leaves, plan, AssignAll(env, fields, start, plan).value)
  {
    hide Assign, Match, ListAddress, KeysAt, Address, Storable, GoodFields, GoodEnv, PruneFields, Outermost;
    assert plan != [] ==> plan[0].path in leaves;
    if leaves == map[] {
      forall l | ListAddress(env, fields, l)
        ensures KeysAt(env, fields, template, l) + Without(FirstMet(l, plan), KeysAt(env, fields, template, l))
                == KeysAt(env, fields, template, l)
      {}
    } else {
      RecordedBracketless(instances, leaves.Keys);
      GivenReady(env, fields, template, instances, leaves, plan);
      AllTyped(env, fields, PruneFields(env, instances, fields, template, []), plan);
      hide AssignAll, TemplateKeys, FirstMet, Without, Given;
      forall l | ListAddress(env, fields, l)
        ensures KeysAt(env, fields,
                AssignAll(env, fields, PruneFields(env, instances, fields, template, []), plan).value, l)
                == var kept := TemplateKeys(env, fields, template, leaves, l); kept + Without(FirstMet(l, plan), kept)
      {
        OrderAt(env, fields, template, instances, leaves, plan, l);
      }
    }
  }

  // ------------------------------------------------------ when the template's order is kept

  /** The keys that are among the others, in their order. */
  function Common(keys: seq<string>, others: seq<string>): seq<string> {
    if keys == [] then []
    else
      var k := |keys| - 1;
      Common(keys[..k], others) + (if keys[k] in others then [keys[k]] else [])
  }

  lemma {:induction false} CommonConcat(a: seq<string>, b: seq<string>, others: seq<string>)
    ensures Common(a + b, others) == Common(a, others) + Common(b, others)
    decreases |b|
  {
    if b == [] {
      assert a + b == a;
    } else {
      assert (a + b)[..|a + b| - 1] == a + b[..|b| - 1];
      CommonConcat(a, b[..|b| - 1], others);
    }
  }

  lemma {:induction false} CommonWhole(keys: seq<string>, others: seq<string>)
    ensures (forall k <- keys :: k in others) ==> Common(keys, others) == keys
    ensures (forall k <- keys :: k !in others) ==> Common(keys, others) == []
    decreases |keys|
  {
    if keys != [] {
      CommonWhole(keys[..|keys| - 1], others);
      assert keys == keys[..|keys| - 1] + [keys[|keys| - 1]];
    }
  }

  lemma {:induction false} StoredKeysHas(paths: set<Path>, l: Path, keys: seq<string>, k: string)
    ensures k in StoredKeys(paths, l, keys) <==> k in keys && KeyStored(paths, l, k)
    decreases |keys|
  {
    if keys != [] { StoredKeysHas(paths, l, keys[..|keys| - 1], k); }
  }

  lemma FirstMetStored(leaves: LeafMap, plan: seq<Stored>, l: Path, k: string)
    requires Enumerates(plan, leaves)
    ensures k in FirstMet(l, plan) <==> KeyStored(leaves.Keys, l, k)
  {
    FirstMetHas(l, plan, k);
    if KeyStored(leaves.Keys, l, k) {
      var p: Path :| p in leaves.Keys && Through(l, p) && p[|l| - 1].value == k;
      var i :| 0 <= i < |plan| && plan[i].path == p;
    }
  }

  /** The stored template entries of a list are still in template order. */
  ghost predicate OrderKept(
    env: Env, fields: seq<Field>, template: seq<Obj>, leaves: LeafMap, device: seq<Obj>, l: Path)
    requires |template| == |device| == |fields|
  {
    var keys := KeysAt(env, fields, template, l);
    Common(KeysAt(env, fields, device, l), keys) == StoredKeys(leaves.Keys, l, keys)
  }

  /** Template order is kept, for a seeded store, if and only if the list is inside no other list or
      the plan happens to mention the template's entries in template order. */
  lemma {:induction false} OrderKeptIff(
    env: Env, fields: seq<Field>, template: seq<Obj>, leaves: LeafMap, plan: seq<Stored>, device: seq<Obj>, l: Path)
    requires |template| == |device| == |fields| && ListsInOrder(env, fields, template, leaves, plan, device)
    requires ListAddress(env, fields, l) && Enumerates(plan, leaves) && leaves != map[]
    ensures var keys := KeysAt(env, fields, template, l);
            OrderKept(env, fields, template, leaves, device, l) <==>
            Outermost(fields, l) || Common(FirstMet(l, plan), keys) == StoredKeys(leaves.Keys, l, keys)
  {
    hide ListAddress, Outermost, FirstMet, StoredKeys, Enumerates, KeysAt;
    var keys, met := KeysAt(env, fields, template, l), FirstMet(l, plan);
    var stored := StoredKeys(leaves.Keys, l, keys);
    if Outermost(fields, l) {
      var rest := Without(met, stored);
      CommonConcat(stored, rest, keys);
      forall k ensures k in stored ==> k in keys { StoredKeysHas(leaves.Keys, l, keys, k); }
      forall k ensures k in rest ==> k !in keys {
        WithoutHas(met, stored, k);
        StoredKeysHas(leaves.Keys, l, keys, k);
        FirstMetStored(leaves, plan, l, k);
      }
      CommonWhole(stored, keys);
      CommonWhole(rest, keys);
      assert stored + [] == stored;
    } else {
      WithoutNothing(met);
    }
  }

  lemma {:induction false} WithoutNothing(keys: seq<string>)
    ensures [] + Without(keys, []) == keys
    decreases |keys|
  {
    if keys != [] {
      WithoutNothing(keys[..|keys| - 1]);
      assert keys == keys[..|keys| - 1] + [keys[|keys| - 1]];
    }
  }
}
