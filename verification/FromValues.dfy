/** internal/router/hydrate.go, `deviceFromValues`: the device a flat map of stored text stands for. */
module FromValues {
  import opened Wrappers
  import opened Leaves
  import opened Paths
  import opened DeviceTree
  import opened Hydrate
  import opened HydrateTakes
  import opened Prune
  import opened Rebuild
  import opened RebuildOrder

  lemma ParsesApart(values: Values)
    ensures forall s, t :: s in values && t in values && Parse(s).Some? && Parse(s) == Parse(t) ==> s == t
  {
    forall s, t | s in values && t in values && Parse(s).Some? && Parse(s) == Parse(t) ensures s == t {
      FormatParse(s);
      FormatParse(t);
    }
  }

  /** The flat map with its paths parsed. */
  function LeavesOf(values: Values): LeafMap {
    ParsesApart(values);
    map s | s in values && Parse(s).Some? :: Parse(s).value := values[s]
  }

  lemma LeavesAt(values: Values, s: string)
    requires s in values && Parse(s).Some?
    ensures Parse(s).value in LeavesOf(values) && LeavesOf(values)[Parse(s).value] == values[s]
  {
    ParsesApart(values);
  }

  lemma LeavesEmpty(values: Values)
    requires AllParse(values.Keys)
    ensures LeavesOf(values) == map[] <==> values == map[]
  {
    if values != map[] {
      var s :| s in values;
      LeavesAt(values, s);
    }
  }

  lemma LeavesKeys(values: Values)
    ensures LeavesOf(values).Keys == Parsed(values.Keys)
  {
  }

  /** Entry `s` of the map, parsed. */
  ghost predicate PlannedAt(values: Values, s: string, w: Stored) {
    s in values && Parse(s) == Some(w.path) && values[s] == w.value
  }

  lemma PlannedIn(values: Values, s: string, w: Stored)
    requires PlannedAt(values, s, w)
    ensures w.path in LeavesOf(values) && LeavesOf(values)[w.path] == w.value
  {
    LeavesAt(values, s);
  }

  lemma PlannedApart(values: Values, s: string, t: string, w: Stored, u: Stored)
    requires PlannedAt(values, s, w) && PlannedAt(values, t, u) && s != t
    ensures w.path != u.path
  {
    FormatParse(s);
    FormatParse(t);
  }

  ghost predicate Planned(values: Values, texts: seq<string>, plan: seq<Stored>) {
    |plan| == |texts| && forall i :: 0 <= i < |texts| ==> PlannedAt(values, texts[i], plan[i])
  }

  lemma {:induction false} PlanCovers(values: Values, texts: seq<string>, plan: seq<Stored>, p: Path)
    requires Planned(values, texts, plan) && p in LeavesOf(values) && forall s <- values :: s in texts
    ensures exists i :: 0 <= i < |plan| && plan[i].path == p
  {
    var s :| s in values && Parse(s) == Some(p);
    var i :| 0 <= i < |texts| && texts[i] == s;
    assert PlannedAt(values, texts[i], plan[i]);
  }

  lemma {:induction false} PlanEnumerates(values: Values, texts: seq<string>, plan: seq<Stored>)
    requires Planned(values, texts, plan) && forall s <- values :: s in texts
    requires forall i, j :: 0 <= i < j < |texts| ==> texts[i] != texts[j]
    ensures Enumerates(plan, LeavesOf(values))
  {
    var leaves := LeavesOf(values);
    forall i | 0 <= i < |plan| ensures plan[i].path in leaves && leaves[plan[i].path] == plan[i].value {
      PlannedIn(values, texts[i], plan[i]);
    }
    forall p <- leaves ensures exists i :: 0 <= i < |plan| && plan[i].path == p {
      PlanCovers(values, texts, plan, p);
    }
    forall i, j | 0 <= i < j < |plan| ensures plan[i].path != plan[j].path {
      PlannedApart(values, texts[i], texts[j], plan[i], plan[j]);
    }
  }

  method ParseStored(values: Values, s: string) returns (w: Stored)
    requires s in values && AllParse(values.Keys)
    ensures PlannedAt(values, s, w)
  {
    var parsed := ParsePath(s);
    w := Stored(parsed.value, values[s]);
  }

  /** The paths in text order, each parsed. */
  method ParseInOrder(values: Values) returns (plan: seq<Stored>)
    requires AllParse(values.Keys)
    ensures Enumerates(plan, LeavesOf(values)) && InTextOrder(values, plan)
  {
    var texts := SortPaths(values.Keys);
    plan := [];
    for i := 0 to |texts|
      invariant Planned(values, texts[..i], plan)
    {
      assert texts[i] in values.Keys && texts[..i + 1] == texts[..i] + [texts[i]];
      var stored := ParseStored(values, texts[i]);
      plan := plan + [stored];
    }
    assert texts[..|texts|] == texts;
    SortedApart(texts);
    PlanEnumerates(values, texts, plan);
    assert TextOrder(values, texts);
  }

  /** The stored texts in increasing order. */
  ghost predicate TextOrder(values: Values, texts: seq<string>) {
    StrictlySorted(texts) && forall s :: s in texts <==> s in values
  }

  /** The plan lists the stored leaves in the order of their texts. */
  ghost predicate InTextOrder(values: Values, plan: seq<Stored>) {
    exists texts :: TextOrder(values, texts) && Planned(values, texts, plan)
  }

  /** There is only one such plan. */
  lemma OnePlan(values: Values, a: seq<Stored>, b: seq<Stored>)
    requires InTextOrder(values, a) && InTextOrder(values, b)
    ensures a == b
  {
    hide Parse;
    var x :| TextOrder(values, x) && Planned(values, x, a);
    var y :| TextOrder(values, y) && Planned(values, y, b);
    SortedUnique(x, y);
    forall i | 0 <= i < |a| ensures a[i] == b[i] {
      assert PlannedAt(values, x[i], a[i]) && PlannedAt(values, y[i], b[i]);
    }
  }

  lemma SortedApart(texts: seq<string>)
    requires StrictlySorted(texts)
    ensures forall i, j :: 0 <= i < j < |texts| ==> texts[i] != texts[j]
  {
    forall i, j | 0 <= i < j < |texts| ensures texts[i] != texts[j] { LessTotal(texts[i], texts[j]); }
  }

  method AssignEach(env: Env, fields: seq<Field>, start: seq<Obj>, plan: seq<Stored>) returns (r: Option<seq<Obj>>)
    requires |start| == |fields|
    ensures r == AssignAll(env, fields, start, plan)
  {
    var device := start;
    for i := 0 to |plan|
      invariant |device| == |fields| && AssignAll(env, fields, start, plan[..i]) == Some(device)
    {
      assert plan[..i + 1][..i] == plan[..i];
      var now := Assign(env, fields, device, plan[i].path, plan[i].value);
      if now.None? {
        AssignAllStops(env, fields, start, plan, i + 1);
        return None;
      }
      device := now.value;
    }
    assert plan[..|plan|] == plan;
    return Some(device);
  }

  lemma {:induction false} AssignAllStops(env: Env, fields: seq<Field>, start: seq<Obj>, plan: seq<Stored>, i: nat)
    requires |start| == |fields| && i <= |plan| && AssignAll(env, fields, start, plan[..i]).None?
    ensures AssignAll(env, fields, start, plan).None?
    decreases |plan|
  {
    hide Assign;
    if i == |plan| {
      assert plan[..i] == plan;
    } else {
      var k := |plan| - 1;
      assert plan[..k][..i] == plan[..i];
      AssignAllStops(env, fields, start, plan[..k], i);
    }
  }

  /** The model takes every stored leaf. */
  predicate AllTake(env: Env, fields: seq<Field>, leaves: LeafMap) {
    forall p <- leaves :: Takes(env, fields, p, leaves[p])
  }

  lemma {:induction false} StartTakes(
    env: Env, fields: seq<Field>, template: seq<Obj>, instances: Instances, leaves: LeafMap, plan: seq<Stored>)
    requires GoodEnv(env) && KeysParse(env) && GoodFields(fields) && Typed(env, fields, template)
    requires |template| == |fields| && Enumerates(plan, leaves)
    ensures var start := if leaves == map[] then template else PruneFields(env, instances, fields, template, []);
            AssignAll(env, fields, start, plan).Some? <==> AllTake(env, fields, leaves)
  {
    hide Takes, Assign, GoodEnv, KeysParse, AssignAll, PruneFields, GoodFields, Shaped;
    var start := if leaves == map[] then template else PruneFields(env, instances, fields, template, []);
    PruneTyped(env, instances, fields, template, []);
    TypedIsShaped(env, fields, start);
    AllTaken(env, fields, start, plan);
    hide Typed;
    if AllTake(env, fields, leaves) {
      forall w <- plan ensures Takes(env, fields, w.path, w.value) {
        var i :| 0 <= i < |plan| && plan[i] == w;
        assert plan[i].path in leaves;
      }
    }
    if forall w <- plan :: Takes(env, fields, w.path, w.value) {
      forall p <- leaves ensures Takes(env, fields, p, leaves[p]) {
        var i :| 0 <= i < |plan| && plan[i].path == p;
        assert plan[i] in plan;
      }
    }
  }

  /** `deviceFromValues`. */
  method DeviceFromValues(
    env: Env, fields: seq<Field>, template: seq<Obj>, values: Values)
    returns (r: Result<seq<Obj>, Fault>)
    requires GoodEnv(env) && GoodFields(fields) && Typed(env, fields, template)
    ensures r == Err(Unparsable) <==> !AllParse(values.Keys)
    ensures AllParse(values.Keys) && KeysParse(env) ==> (r.Ok? <==> AllTake(env, fields, LeavesOf(values)))
    ensures AllParse(values.Keys) && Hydratable(env, fields, LeavesOf(values)) ==>
      && r.Ok? && Rebuilt(env, fields, template, LeavesOf(values), r.value)
      && forall plan | InTextOrder(values, plan) ::
           ListsInOrder(env, fields, template, LeavesOf(values), plan, r.value)
  {
    var hydrator := NewHydrator(values);
    if hydrator.None? { return Err(Unparsable); }
    LeavesKeys(values);
    var plan := ParseInOrder(values);
    LeavesEmpty(values);
    var start := if values == map[] then template else PruneFields(env, hydrator.value, fields, template, []);
    var device := AssignEach(env, fields, start, plan);
    if KeysParse(env) { StartTakes(env, fields, template, hydrator.value, LeavesOf(values), plan); }
    if Hydratable(env, fields, LeavesOf(values)) {
      RebuildTheorem(env, fields, template, hydrator.value, LeavesOf(values), plan);
      RebuildKeepsOrder(env, fields, template, hydrator.value, LeavesOf(values), plan);
      forall other | InTextOrder(values, other) ensures other == plan { OnePlan(values, other, plan); }
    }
    r := if device.None? then Err(Unassignable) else Ok(device.value);
  }
}
