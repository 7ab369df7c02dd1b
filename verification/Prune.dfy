/** internal/router/hydrate.go: which template list entries survive when the device is rebuilt
    from the flat map. */
module Prune {
  import opened Wrappers
  import opened Leaves
  import opened Paths
  import opened DeviceTree
  import opened Hydrate
  import opened HydrateEntries

  /** For each list, by the names leading to it, the key values the datastore holds. The
      source joins the names with slashes, which no name contains. */
  type Instances = map<seq<string>, set<string>>

  predicate Live(instances: Instances, parts: seq<string>, value: string) {
    parts in instances && value in instances[parts]
  }

  function Names(p: Path): (names: seq<string>)
    ensures |names| == |p|
    ensures forall i :: 0 <= i < |p| ==> names[i] == p[i].name
  {
    if p == [] then [] else Names(p[..|p| - 1]) + [p[|p| - 1].name]
  }

  /** Segment `j` of `p` selects entry `value` of the list at `parts`. */
  predicate Selects(p: Path, j: nat, parts: seq<string>, value: string) {
    j < |p| && p[j].key != "" && p[j].value == value && parts == Names(p[..j + 1])
  }

  /** Some stored path goes through that entry. */
  ghost predicate Mentioned(paths: set<Path>, parts: seq<string>, value: string) {
    exists p, j :: p in paths && Selects(p, j, parts, value)
  }

  /** The recorded entries are exactly those some stored path goes through. */
  ghost predicate Records(instances: Instances, paths: set<Path>) {
    forall parts, value :: Live(instances, parts, value) <==> Mentioned(paths, parts, value)
  }

  function Parsed(texts: set<string>): set<Path> {
    set s | s in texts && Parse(s).Some? :: Parse(s).value
  }

  predicate AllParse(texts: set<string>) {
    forall s <- texts :: Parse(s).Some?
  }

  /** `newHydrator`: fails on an unparsable path, else records the entries of all paths. */
  method NewHydrator(values: Values) returns (r: Option<Instances>)
    ensures r.Some? <==> AllParse(values.Keys)
    ensures r.Some? ==> Records(r.value, Parsed(values.Keys))
  {
    var instances: Instances := map[];
    var todo := values.Keys;
    ghost var done: set<string> := {};
    while todo != {}
      invariant done + todo == values.Keys && done !! todo
      invariant AllParse(done)
      invariant Records(instances, Parsed(done))
    {
      var s :| s in todo;
      var parsed := ParsePath(s);
      if parsed.None? { return None; }
      instances := Record(instances, parsed.value, Parsed(done));
      todo := todo - {s};
      assert Parsed(done + {s}) == Parsed(done) + {parsed.value};
      done := done + {s};
    }
    assert done == values.Keys;
    r := Some(instances);
  }

  /** The segments of one path. */
  method Record(before: Instances, p: Path, ghost paths: set<Path>) returns (instances: Instances)
    requires Records(before, paths)
    ensures Records(instances, paths + {p})
  {
    instances := before;
    var prefix: seq<string> := [];
    for i := 0 to |p|
      invariant prefix == Names(p[..i])
      invariant forall parts, value ::
        Live(instances, parts, value) <==>
          Live(before, parts, value) || exists j :: 0 <= j < i && Selects(p, j, parts, value)
    {
      assert p[..i + 1][..i] == p[..i];
      prefix := prefix + [p[i].name];
      ghost var was := instances;
      if p[i].key != "" {
        instances := WithKey(instances, prefix, p[i].value);
      }
      forall parts, value
        ensures Live(instances, parts, value) <==> Live(was, parts, value) || Selects(p, i, parts, value)
      {}
    }
    forall parts, value ensures Live(instances, parts, value) <==> Mentioned(paths + {p}, parts, value) {
      if j :| Selects(p, j, parts, value) { assert p in paths + {p}; }
    }
  }

  function WithKey(instances: Instances, parts: seq<string>, value: string): (r: Instances)
    ensures forall other, v :: Live(r, other, v) <==> Live(instances, other, v) || (other == parts && v == value)
  {
    instances[parts := (if parts in instances then instances[parts] else {}) + {value}]
  }

  // ------------------------------------------------------------------------- prune

  /** `pruneList`: the elements whose key the datastore holds, in their order. */
  function KeepLive(env: Env, instances: Instances, key: nat, elems: seq<Obj>, parts: seq<string>): (kept: seq<Obj>)
    ensures forall x :: x in kept <==> x in elems && Live(instances, parts, ElemKey(env, key, x))
  {
    if elems == [] then []
    else
      var k := |elems| - 1;
      var rest := KeepLive(env, instances, key, elems[..k], parts);
      if Live(instances, parts, ElemKey(env, key, elems[k])) then rest + [elems[k]] else rest
  }

  method PruneList(
    env: Env, instances: Instances, key: nat, elems: seq<Obj>, parts: seq<string>)
    returns (kept: seq<Obj>)
    ensures kept == KeepLive(env, instances, key, elems, parts)
  {
    kept := [];
    for i := 0 to |elems|
      invariant kept == KeepLive(env, instances, key, elems[..i], parts)
    {
      assert elems[..i + 1][..i] == elems[..i];
      if Live(instances, parts, ElemKey(env, key, elems[i])) {
        kept := kept + [elems[i]];
      }
    }
    assert elems[..|elems|] == elems;
  }

  /** The path of a list element carries its key predicate. */
  function ElementParts(t: Type, value: string, parts: seq<string>): seq<string> {
    if parts == [] then parts
    else parts[..|parts| - 1] + [Bracketed(parts[|parts| - 1], KeyName(t) + "=" + value)]
  }

  /** `pruneLists`. */
  function PruneFields(
    env: Env, instances: Instances, fields: seq<Field>, objs: seq<Obj>, parts: seq<string>): (r: seq<Obj>)
    requires |objs| == |fields|
    ensures |r| == |fields|
    ensures forall i :: 0 <= i < |fields| ==>
            r[i] == PruneObj(env, instances, fields[i].type_, objs[i], parts + fields[i].tag)
    decreases fields, 0
  {
    if fields == [] then []
    else [PruneObj(env, instances, fields[0].type_, objs[0], parts + fields[0].tag)]
         + PruneFields(env, instances, fields[1..], objs[1..], parts)
  }

  function PruneObj(env: Env, instances: Instances, t: Type, obj: Obj, parts: seq<string>): Obj
    decreases t, 0
  {
    match t
    case Scalar(_) => obj
    case Struct(fields) => PruneRec(env, instances, fields, obj, parts)
    case Pointer(fields) => PruneRec(env, instances, fields, obj, parts)
    case Slice(key, fields) =>
      if obj.Elems?
        then Elems(PruneElems(env, instances, t, KeepLive(env, instances, key, obj.elems, parts), parts)) else obj
  }

  function PruneRec(env: Env, instances: Instances, fields: seq<Field>, obj: Obj, parts: seq<string>): Obj
    decreases fields, 1
  {
    if obj.Rec? && |obj.objs| == |fields| then Rec(PruneFields(env, instances, fields, obj.objs, parts)) else obj
  }

  function PruneElems(env: Env, instances: Instances, t: Type, elems: seq<Obj>, parts: seq<string>): (r: seq<Obj>)
    requires t.Slice?
    ensures |r| == |elems|
    ensures forall i :: 0 <= i < |elems| ==>
      r[i] == PruneRec(env, instances, t.fields, elems[i], ElementParts(t, ElemKey(env, t.key, elems[i]), parts))
    decreases t.fields, 2, |elems|
  {
    if elems == [] then []
    else [PruneRec(env, instances, t.fields, elems[0], ElementParts(t, ElemKey(env, t.key, elems[0]), parts))]
         + PruneElems(env, instances, t, elems[1..], parts)
  }

  // ------------------------------------------------------------------ what survives

  lemma {:induction false} KeepDistinct(env: Env, instances: Instances, key: nat, elems: seq<Obj>, parts: seq<string>)
    requires DistinctKeys(env, key, elems)
    ensures DistinctKeys(env, key, KeepLive(env, instances, key, elems, parts))
  {
    if elems != [] {
      var k := |elems| - 1;
      KeepDistinct(env, instances, key, elems[..k], parts);
      var rest := KeepLive(env, instances, key, elems[..k], parts);
      forall i | 0 <= i < |rest| ensures ElemKey(env, key, rest[i]) != ElemKey(env, key, elems[k]) {
        assert rest[i] in rest;
        var j :| 0 <= j < k && elems[j] == rest[i];
      }
    }
  }

  lemma {:induction false} PruneTyped(
    env: Env, instances: Instances, fields: seq<Field>, objs: seq<Obj>, parts: seq<string>)
    requires GoodFields(fields) && Typed(env, fields, objs)
    ensures Typed(env, fields, PruneFields(env, instances, fields, objs, parts))
    decreases fields, 1
  {
    forall i | 0 <= i < |fields|
      ensures TypedObj(env, fields[i].type_, PruneObj(env, instances, fields[i].type_, objs[i], parts + fields[i].tag))
    {
      PruneTypedObj(env, instances, fields[i].type_, objs[i], parts + fields[i].tag);
    }
  }

  lemma {:induction false} PruneTypedObj(env: Env, instances: Instances, t: Type, obj: Obj, parts: seq<string>)
    requires GoodType(t) && TypedObj(env, t, obj)
    ensures TypedObj(env, t, PruneObj(env, instances, t, obj, parts))
    decreases t, 0
  {
    match t
    case Scalar(_) =>
    case Struct(fields) => PruneTyped(env, instances, fields, obj.objs, parts);
    case Pointer(fields) => if obj.Rec? { PruneTyped(env, instances, fields, obj.objs, parts); }
    case Slice(key, fields) =>
      var kept := KeepLive(env, instances, key, obj.elems, parts);
      KeepDistinct(env, instances, key, obj.elems, parts);
      forall i | 0 <= i < |kept| ensures kept[i].Rec? && Typed(env, fields, kept[i].objs) {
        assert kept[i] in kept;
      }
      PruneTypedElems(env, instances, t, kept, parts);
  }

  lemma {:induction false} PruneTypedElems(env: Env, instances: Instances, t: Type, elems: seq<Obj>, parts: seq<string>)
    requires GoodType(t) && t.Slice? && TypedObj(env, t, Elems(elems))
    ensures TypedObj(env, t, Elems(PruneElems(env, instances, t, elems, parts)))
    decreases t.fields, 2
  {
    var pruned := PruneElems(env, instances, t, elems, parts);
    forall i | 0 <= i < |elems|
      ensures pruned[i].Rec? && Typed(env, t.fields, pruned[i].objs)
              && ElemKey(env, t.key, pruned[i]) == ElemKey(env, t.key, elems[i])
    {
      PruneTyped(env, instances, t.fields, elems[i].objs, ElementParts(t, ElemKey(env, t.key, elems[i]), parts));
    }
  }

  /** A path to a leaf or an entry passes only entries that are live. Once the path of an
      element carries its predicate, the lists inside it are looked up under a name that is
      never recorded. */
  predicate Spared(instances: Instances, fields: seq<Field>, parts: seq<string>, q: Path)
    decreases |q|
  {
    match Match(fields, q)
    case None => true
    case Some(i) =>
      var t, n, here := fields[i].type_, |fields[i].tag|, parts + fields[i].tag;
      if t.Scalar? then true
      else if t.Slice? then
        Live(instances, here, q[n - 1].value)
          && Spared(instances, t.fields, ElementParts(t, q[n - 1].value, here), q[n..])
      else Spared(instances, t.fields, here, q[n..])
  }

  lemma {:induction false} SameFind(env: Env, key: nat, a: seq<Obj>, b: seq<Obj>, value: string)
    requires |a| == |b| && forall i :: 0 <= i < |a| ==> ElemKey(env, key, a[i]) == ElemKey(env, key, b[i])
    ensures FindElem(env, key, a, value) == FindElem(env, key, b, value)
  {
    if a != [] { SameFind(env, key, a[1..], b[1..], value); }
  }

  /** One step into the pruned device. */
  lemma {:induction false} PruneEnters(
    env: Env, instances: Instances, field: Field, obj: Obj, parts: seq<string>, last: Segment)
    requires GoodType(field.type_) && !field.type_.Scalar? && TypedObj(env, field.type_, obj)
    ensures var t, was := field.type_, Enter(env, field, obj, last);
            Enter(env, field, PruneObj(env, instances, t, obj, parts), last) ==
              if was.None? || (t.Slice? && !Live(instances, parts, last.value)) then None
              else if |was.value| != |t.fields| then was
              else
                var inside := if t.Slice? then ElementParts(t, last.value, parts) else parts;
                Some(PruneFields(env, instances, t.fields, was.value, inside))
  {
    var t := field.type_;
    if t.Slice? { PruneEntersList(env, instances, t, obj.elems, parts, last.value); }
  }

  lemma {:induction false} PruneEntersList(
    env: Env, instances: Instances, t: Type, elems: seq<Obj>, parts: seq<string>, value: string)
    requires GoodType(t) && t.Slice? && TypedObj(env, t, Elems(elems))
    ensures var kept := KeepLive(env, instances, t.key, elems, parts);
            var pruned := PruneElems(env, instances, t, kept, parts);
            var i, j := FindElem(env, t.key, elems, value), FindElem(env, t.key, pruned, value);
            && (j.Some? <==> i.Some? && Live(instances, parts, value))
            && (j.Some? ==>
                  pruned[j.value]
                  == PruneRec(env, instances, t.fields, elems[i.value], ElementParts(t, value, parts)))
  {
    hide Live, ElementParts, PruneFields;
    var kept := KeepLive(env, instances, t.key, elems, parts);
    var pruned := PruneElems(env, instances, t, kept, parts);
    forall i | 0 <= i < |kept|
      ensures kept[i] in elems && kept[i].Rec? && ElemKey(env, t.key, pruned[i]) == ElemKey(env, t.key, kept[i]) {
      assert kept[i] in kept;
    }
    SameFind(env, t.key, pruned, kept, value);
    var i, j := FindElem(env, t.key, elems, value), FindElem(env, t.key, kept, value);
    if i.Some? && Live(instances, parts, value) { assert elems[i.value] in kept; }
    if j.Some? { assert kept[j.value] in elems; }
  }

  /** The names under which the lists inside a field's value are looked up. */
  function Inside(field: Field, parts: seq<string>, last: Segment): seq<string> {
    if field.type_.Slice? then ElementParts(field.type_, last.value, parts + field.tag) else parts + field.tag
  }

  /** Reading one step down, before and after the prune. */
  lemma {:induction false} PruneReadsStep(
    env: Env, instances: Instances, fields: seq<Field>, objs: seq<Obj>, parts: seq<string>, q: Path, i: nat)
    requires |objs| == |fields| && Match(fields, q) == Some(i) && !fields[i].type_.Scalar?
    requires TypedObj(env, fields[i].type_, objs[i]) && GoodType(fields[i].type_) && GoodFields(fields[i].type_.fields)
    ensures var t, n := fields[i].type_, |fields[i].tag|;
            var was, pruned := Enter(env, fields[i], objs[i], q[n - 1]),
              PruneFields(env, instances, fields, objs, parts);
            if was.None? then ReadLeaf(env, fields, objs, q).None? && ReadLeaf(env, fields, pruned, q).None?
            else
              && Typed(env, t.fields, was.value) && |was.value| == |t.fields|
              && ReadLeaf(env, fields, objs, q) == ReadLeaf(env, t.fields, was.value, q[n..])
              && ReadLeaf(env, fields, pruned, q) ==
                   if t.Slice? && !Live(instances, parts + fields[i].tag, q[n - 1].value) then None
                   else ReadLeaf(env, t.fields,
                     PruneFields(env, instances, t.fields, was.value, Inside(fields[i], parts, q[n - 1])), q[n..])
  {
    hide Typed, TypedObj, GoodFields, GoodType, PruneFields, PruneObj, Enter, ElementParts;
    var n := |fields[i].tag|;
    PruneEnters(env, instances, fields[i], objs[i], parts + fields[i].tag, q[n - 1]);
    if Enter(env, fields[i], objs[i], q[n - 1]).Some? { EnterTyped(env, fields[i], objs[i], q[n - 1]); }
  }

  /** Exactly the spared leaves are still there, with their values. */
  lemma {:induction false} PruneReads(
    env: Env, instances: Instances, fields: seq<Field>, objs: seq<Obj>, parts: seq<string>, q: Path)
    requires GoodFields(fields) && Typed(env, fields, objs)
    ensures ReadLeaf(env, fields, PruneFields(env, instances, fields, objs, parts), q) ==
              if Spared(instances, fields, parts, q) then ReadLeaf(env, fields, objs, q) else None
    decreases |q|, 1
  {
    var i := Match(fields, q);
    if i.Some? && !fields[i.value].type_.Scalar? {
      FieldTyped(env, fields, objs, i.value);
      GoodInner(fields, i.value);
      PruneReadsBelow(env, instances, fields, objs, parts, q, i.value);
    } else {
      ScalarKept(env, instances, fields, objs, parts, q);
    }
  }

  lemma {:induction false} PruneReadsBelow(
    env: Env, instances: Instances, fields: seq<Field>, objs: seq<Obj>, parts: seq<string>, q: Path, i: nat)
    requires |objs| == |fields| && Match(fields, q) == Some(i) && !fields[i].type_.Scalar?
    requires TypedObj(env, fields[i].type_, objs[i]) && GoodType(fields[i].type_) && GoodFields(fields[i].type_.fields)
    ensures ReadLeaf(env, fields, PruneFields(env, instances, fields, objs, parts), q) ==
              if Spared(instances, fields, parts, q) then ReadLeaf(env, fields, objs, q) else None
    decreases |q|, 0
  {
    hide ReadLeaf, PruneFields, PruneObj, Enter, Typed, TypedObj, GoodFields, GoodType;
    var n := |fields[i].tag|;
    PruneReadsStep(env, instances, fields, objs, parts, q, i);
    var was := Enter(env, fields[i], objs[i], q[n - 1]);
    if was.Some? {
      PruneReads(env, instances, fields[i].type_.fields, was.value, Inside(fields[i], parts, q[n - 1]), q[n..]);
    }
  }

  lemma {:induction false} ScalarKept(
    env: Env, instances: Instances, fields: seq<Field>, objs: seq<Obj>, parts: seq<string>, q: Path)
    requires |objs| == |fields| && (Match(fields, q).None? || fields[Match(fields, q).value].type_.Scalar?)
    ensures ReadLeaf(env, fields, PruneFields(env, instances, fields, objs, parts), q) == ReadLeaf(env, fields, objs, q)
    ensures Spared(instances, fields, parts, q)
  {
  }

  /** Exactly the spared entries are still there. */
  lemma {:induction false} PruneEntries(
    env: Env, instances: Instances, fields: seq<Field>, objs: seq<Obj>, parts: seq<string>, e: Path)
    requires GoodFields(fields) && Typed(env, fields, objs)
    ensures HasEntry(env, fields, PruneFields(env, instances, fields, objs, parts), e) ==
              (HasEntry(env, fields, objs, e) && Spared(instances, fields, parts, e))
    decreases |e|, 1
  {
    hide PruneFields, PruneObj, Enter, Typed, TypedObj, GoodFields, GoodType, ElementParts;
    TypedLength(env, fields, objs);
    if Match(fields, e).Some? {
      var i := Match(fields, e).value;
      if fields[i].type_.Scalar? {
        var pruned := PruneFields(env, instances, fields, objs, parts);
        NoEntryInScalar(env, fields[i], objs[i], pruned[i], e[|fields[i].tag| - 1]);
      } else {
        PruneEntriesBelow(env, instances, fields, objs, parts, e, i);
      }
    }
  }

  lemma NoEntryInScalar(env: Env, field: Field, a: Obj, b: Obj, last: Segment)
    requires field.type_.Scalar?
    ensures Enter(env, field, a, last).None? && Enter(env, field, b, last).None?
  {
  }

  lemma {:induction false} HasNothing(env: Env, fields: seq<Field>, objs: seq<Obj>, e: Path, i: nat)
    requires |objs| == |fields| && Match(fields, e) == Some(i)
    requires Enter(env, fields[i], objs[i], e[|fields[i].tag| - 1]).None?
    ensures !HasEntry(env, fields, objs, e)
  {
  }

  lemma {:induction false} SparedStep(instances: Instances, fields: seq<Field>, parts: seq<string>, e: Path, i: nat)
    requires Match(fields, e) == Some(i) && !fields[i].type_.Scalar?
    ensures var t, last := fields[i].type_, e[|fields[i].tag| - 1];
            Spared(instances, fields, parts, e) <==>
            && (t.Slice? ==> Live(instances, parts + fields[i].tag, last.value))
            && Spared(instances, t.fields, Inside(fields[i], parts, last), e[|fields[i].tag|..])
  {
  }

  lemma {:induction false} PruneEntriesBelow(
    env: Env, instances: Instances, fields: seq<Field>, objs: seq<Obj>, parts: seq<string>, e: Path, i: nat)
    requires GoodFields(fields) && Typed(env, fields, objs) && |objs| == |fields|
    requires Match(fields, e) == Some(i) && !fields[i].type_.Scalar?
    ensures HasEntry(env, fields, PruneFields(env, instances, fields, objs, parts), e) ==
              (HasEntry(env, fields, objs, e) && Spared(instances, fields, parts, e))
    decreases |e|, 0
  {
    hide Match, HasEntry, Spared, Live, PruneFields, PruneObj, Enter, Typed;
    hide TypedObj, GoodFields, GoodType, ElementParts;
    var t, n, pruned := fields[i].type_, |fields[i].tag|, PruneFields(env, instances, fields, objs, parts);
    FieldTyped(env, fields, objs, i);
    GoodStep(fields, i);
    PruneEnters(env, instances, fields[i], objs[i], parts + fields[i].tag, e[n - 1]);
    SparedStep(instances, fields, parts, e, i);
    var was := Enter(env, fields[i], objs[i], e[n - 1]);
    if was.None? {
      HasNothing(env, fields, objs, e, i);
      HasNothing(env, fields, pruned, e, i);
    } else {
      EnterTyped(env, fields[i], objs[i], e[n - 1]);
      TypedLength(env, t.fields, was.value);
      HasUnfold(env, fields, objs, e, i, was.value);
      if t.Slice? && !Live(instances, parts + fields[i].tag, e[n - 1].value) {
        HasNothing(env, fields, pruned, e, i);
      } else {
        var inside := Inside(fields[i], parts, e[n - 1]);
        HasUnfold(env, fields, pruned, e, i, PruneFields(env, instances, t.fields, was.value, inside));
        if |e| > n {
          PruneEntries(env, instances, t.fields, was.value, inside, e[n..]);
        } else {
          SparedAtEnd(instances, t.fields, inside, e[n..]);
        }
      }
    }
  }

  lemma SparedAtEnd(instances: Instances, fields: seq<Field>, parts: seq<string>, e: Path)
    requires e == []
    ensures Spared(instances, fields, parts, e)
  {
    NothingHere(fields);
  }

  lemma NothingHere(fields: seq<Field>)
    ensures Match(fields, []).None?
  {
  }

  // ------------------------------------------------------- surviving means mentioned

  ghost predicate Bracketless(instances: Instances) {
    forall parts, value, k :: Live(instances, parts, value) && 0 <= k < |parts| ==> '[' !in parts[k]
  }

  lemma RecordedBracketless(instances: Instances, paths: set<Path>)
    requires Records(instances, paths) && forall p <- paths :: WellFormed(p)
    ensures Bracketless(instances)
  {
    forall parts, value, k | Live(instances, parts, value) && 0 <= k < |parts| ensures '[' !in parts[k] {
      var p, j :| p in paths && Selects(p, j, parts, value);
      assert WellFormedSegment(p[k]);
    }
  }

  /** No entry of a list inside a list survives. */
  lemma {:induction false} NestedNotSpared(
    env: Env, instances: Instances, fields: seq<Field>, parts: seq<string>, k: nat, e: Path)
    requires Bracketless(instances) && k < |parts| && '[' in parts[k] && EntryAddress(env, fields, e)
    ensures !Spared(instances, fields, parts, e)
    decreases |e|
  {
    var i := Match(fields, e).value;
    var t, n, here := fields[i].type_, |fields[i].tag|, parts + fields[i].tag;
    assert here[k] == parts[k];
    if !t.Slice? { NestedNotSpared(env, instances, t.fields, here, k, e[n..]); }
  }

  /** The path meets its first list at its very end. */
  predicate OneList(fields: seq<Field>, e: Path)
    decreases |e|
  {
    Match(fields, e).Some? &&
    var field := fields[Match(fields, e).value];
    if field.type_.Scalar? then false
    else if field.type_.Slice? then |e| == |field.tag|
    else OneList(field.type_.fields, e[|field.tag|..])
  }

  lemma {:induction false} SparedIsLive(env: Env, instances: Instances, fields: seq<Field>, parts: seq<string>, e: Path)
    requires Bracketless(instances) && EntryAddress(env, fields, e) && Spared(instances, fields, parts, e)
    ensures OneList(fields, e) && Live(instances, parts + Names(e), e[|e| - 1].value)
    decreases |e|
  {
    hide EntryAddress, Bracketless, ElementParts, CanonicalKey;
    var i := EntryMatches(env, fields, e);
    var t, n, here := fields[i].type_, |fields[i].tag|, parts + fields[i].tag;
    EntryStep(env, fields, e, i);
    NamesSplit(fields[i].tag, e);
    assert parts + Names(e) == here + Names(e[n..]);
    if t.Slice? {
      if |e| > n {
        var inside := ElementParts(t, e[n - 1].value, here);
        BracketedParts(t, e[n - 1].value, here);
        NestedNotSpared(env, instances, t.fields, inside, |inside| - 1, e[n..]);
      } else {
        assert here + Names(e[n..]) == here;
      }
    } else {
      SparedIsLive(env, instances, t.fields, here, e[n..]);
    }
  }

  lemma NamesSplit(tag: seq<string>, e: Path)
    requires NamesMatch(tag, e)
    ensures Names(e) == tag + Names(e[|tag|..])
  {
  }

  /** A stored leaf with the names and the last key value of an entry lies in that entry. */
  lemma {:induction false} SameNames(env: Env, fields: seq<Field>, e: Path, p: Path)
    requires GoodFields(fields) && EntryAddress(env, fields, e) && OneList(fields, e) && Address(env, fields, p)
    requires |e| <= |p| && Names(p[..|e|]) == Names(e) && p[|e| - 1].value == e[|e| - 1].value
    ensures e <= p
    decreases |e|
  {
    hide EntryAddress, Address, OneList, GoodFields, CanonicalKey, Match, Names, SpelledAs, NamesMatch;
    var i := EntryMatches(env, fields, e);
    var t, n := fields[i].type_, |fields[i].tag|;
    SameNamesMatch(fields, e, p, i);
    EntryStep(env, fields, e, i);
    AddressStep(env, fields, p, i);
    OneListStep(fields, e, i);
    SameField(fields[i], p, e);
    SharedFront(p, e, n);
    if !t.Slice? {
      GoodInner(fields, i);
      SameRest(e, p, n);
      SameNames(env, t.fields, e[n..], p[n..]);
    } else {
      assert e[n..] == [];
    }
  }

  lemma SameNamesMatch(fields: seq<Field>, e: Path, p: Path, i: nat)
    requires GoodFields(fields) && Match(fields, e) == Some(i) && |e| <= |p| && Names(p[..|e|]) == Names(e)
    ensures Match(fields, p) == Some(i)
  {
    forall k | 0 <= k < |e| ensures p[k].name == e[k].name {
      assert p[..|e|][k] == p[k] && Names(e)[k] == e[k].name;
    }
    OnlyMatch(fields, p, i);
  }

  lemma {:induction false} OneListStep(fields: seq<Field>, e: Path, i: nat)
    requires OneList(fields, e) && Match(fields, e) == Some(i)
    ensures var t, n := fields[i].type_, |fields[i].tag|;
            !t.Scalar? && (if t.Slice? then |e| == n else |e| > n && OneList(t.fields, e[n..]))
  {
    NothingHere(if fields[i].type_.Scalar? then [] else fields[i].type_.fields);
  }

  lemma SameRest(e: Path, p: Path, n: nat)
    requires n < |e| <= |p| && Names(p[..|e|]) == Names(e)
    ensures Names(p[n..][..|e[n..]|]) == Names(e[n..])
  {
    forall k | n <= k < |e| ensures p[k].name == e[k].name { assert Names(p[..|e|])[k] == Names(e)[k]; }
  }

  /** An entry of an outermost list is recorded exactly when some stored leaf lies in it. */
  lemma {:induction false} RecordedIsStored(
    env: Env, instances: Instances, fields: seq<Field>, paths: set<Path>, e: Path)
    requires GoodFields(fields) && EntryAddress(env, fields, e) && OneList(fields, e)
    requires Records(instances, paths) && forall p <- paths :: Address(env, fields, p)
    ensures Live(instances, Names(e), e[|e| - 1].value) <==> exists p :: p in paths && e <= p
  {
    if Live(instances, Names(e), e[|e| - 1].value) {
      var p, j :| p in paths && Selects(p, j, Names(e), e[|e| - 1].value);
      SelectsLast(p, j, e);
      SameNames(env, fields, e, p);
    }
    if p :| p in paths && e <= p {
      OneListKeyed(env, fields, e);
      assert p[..|e|] == e;
      assert Selects(p, |e| - 1, Names(e), e[|e| - 1].value);
    }
  }

  lemma {:induction false} OneListKeyed(env: Env, fields: seq<Field>, e: Path)
    requires GoodFields(fields) && EntryAddress(env, fields, e) && OneList(fields, e)
    ensures e[|e| - 1].key != ""
    decreases |e|
  {
    var i := Match(fields, e).value;
    GoodInner(fields, i);
    if !fields[i].type_.Slice? { OneListKeyed(env, fields[i].type_.fields, e[|fields[i].tag|..]); }
  }

  lemma SelectsLast(p: Path, j: nat, e: Path)
    requires e != [] && Selects(p, j, Names(e), e[|e| - 1].value)
    ensures |e| <= |p| && Names(p[..|e|]) == Names(e) && p[|e| - 1].value == e[|e| - 1].value
  {
    assert |Names(e)| == j + 1;
  }

  // ------------------------------------------------------------------ surviving leaves

  /** How many lists a path passes. */
  function ListsOn(fields: seq<Field>, q: Path): nat
    decreases |q|
  {
    match Match(fields, q)
    case None => 0
    case Some(i) =>
      var t := fields[i].type_;
      if t.Scalar? then 0 else (if t.Slice? then 1 else 0) + ListsOn(t.fields, q[|fields[i].tag|..])
  }

  /** The part of a path up to its first list entry. */
  function EntryOf(fields: seq<Field>, q: Path): Path
    decreases |q|
  {
    match Match(fields, q)
    case None => q
    case Some(i) =>
      var t, n := fields[i].type_, |fields[i].tag|;
      if t.Scalar? || t.Slice? then q[..n] else q[..n] + EntryOf(t.fields, q[n..])
  }

  lemma {:induction false} EntryOfLeaf(env: Env, fields: seq<Field>, q: Path)
    requires GoodFields(fields) && Address(env, fields, q) && ListsOn(fields, q) > 0
    ensures var e := EntryOf(fields, q); e <= q && EntryAddress(env, fields, e) && OneList(fields, e)
    decreases |q|
  {
    var i := Match(fields, q).value;
    var t, n := fields[i].type_, |fields[i].tag|;
    if t.Slice? {
      ListStep(env, fields, q, i);
    } else {
      GoodInner(fields, i);
      EntryOfLeaf(env, t.fields, q[n..]);
      StructStep(env, fields, q, i, EntryOf(t.fields, q[n..]));
    }
  }

  lemma {:induction false} ListStep(env: Env, fields: seq<Field>, q: Path, i: nat)
    requires GoodFields(fields) && Address(env, fields, q) && Match(fields, q) == Some(i) && fields[i].type_.Slice?
    ensures EntryAddress(env, fields, q[..|fields[i].tag|]) && OneList(fields, q[..|fields[i].tag|])
  {
    var e := q[..|fields[i].tag|];
    OnlyMatch(fields, e, i);
    assert e[|fields[i].tag|..] == [];
  }

  lemma {:induction false} StructStep(env: Env, fields: seq<Field>, q: Path, i: nat, rest: Path)
    requires GoodFields(fields) && Address(env, fields, q) && Match(fields, q) == Some(i)
    requires !fields[i].type_.Slice? && !fields[i].type_.Scalar?
    requires EntryAddress(env, fields[i].type_.fields, rest) && OneList(fields[i].type_.fields, rest)
             && rest <= q[|fields[i].tag|..]
    ensures var e := q[..|fields[i].tag|] + rest; e <= q && EntryAddress(env, fields, e) && OneList(fields, e)
  {
    hide Match, GoodFields, Address, EntryAddress, OneList;
    var n := |fields[i].tag|;
    AddressStep(env, fields, q, i);
    assert n <= |q|;
    hide SpelledAs, NamesMatch;
    var e := q[..n] + rest;
    assert e[..n] == q[..n] && e[n..] == rest;
    SpelledFront(fields[i], q, e);
    OnlyMatch(fields, e, i);
    assert q == q[..n] + q[n..];
    StructEntry(env, fields, e, i);
  }

  lemma SpelledFront(field: Field, q: Path, e: Path)
    requires SpelledAs(field, q) && |field.tag| <= |e| && e[..|field.tag|] == q[..|field.tag|]
    ensures SpelledAs(field, e) && NamesMatch(field.tag, e)
  {
    forall k | 0 <= k < |field.tag| ensures e[k] == q[k] {
      assert e[..|field.tag|][k] == q[..|field.tag|][k];
    }
  }

  lemma {:induction false} StructEntry(env: Env, fields: seq<Field>, e: Path, i: nat)
    requires Match(fields, e) == Some(i) && SpelledAs(fields[i], e)
    requires !fields[i].type_.Slice? && !fields[i].type_.Scalar?
    requires var rest := e[|fields[i].tag|..];
             EntryAddress(env, fields[i].type_.fields, rest) && OneList(fields[i].type_.fields, rest)
    ensures EntryAddress(env, fields, e) && OneList(fields, e)
  {
  }

  /** Inside an element, only leaves outside further lists survive. */
  lemma {:induction false} InsideSpared(instances: Instances, fields: seq<Field>, parts: seq<string>, k: nat, q: Path)
    requires Bracketless(instances) && k < |parts| && '[' in parts[k]
    ensures Spared(instances, fields, parts, q) <==> ListsOn(fields, q) == 0
    decreases |q|
  {
    if Match(fields, q).Some? {
      var i := Match(fields, q).value;
      var t, n, here := fields[i].type_, |fields[i].tag|, parts + fields[i].tag;
      assert here[k] == parts[k];
      if !t.Slice? && !t.Scalar? { InsideSpared(instances, t.fields, here, k, q[n..]); }
    }
  }

  /** A leaf survives exactly when it is in no list, or in one list and its entry recorded. */
  lemma {:induction false} SparedLeaf(env: Env, instances: Instances, fields: seq<Field>, parts: seq<string>, q: Path)
    requires GoodFields(fields) && Bracketless(instances) && Address(env, fields, q)
    ensures ListsOn(fields, q) == 0 ==> Spared(instances, fields, parts, q)
    ensures ListsOn(fields, q) > 0 ==> EntryOf(fields, q) != []
    ensures ListsOn(fields, q) == 1 ==>
      (Spared(instances, fields, parts, q) <==>
         Live(instances, parts + Names(EntryOf(fields, q)), EntryOf(fields, q)[|EntryOf(fields, q)| - 1].value))
    ensures ListsOn(fields, q) >= 2 ==> !Spared(instances, fields, parts, q)
    decreases |q|
  {
    var i := Match(fields, q).value;
    var t, n, here := fields[i].type_, |fields[i].tag|, parts + fields[i].tag;
    GoodStep(fields, i);
    if t.Slice? {
      EntryNames(fields, parts, q, i);
      SparedInList(instances, fields, parts, q, i);
    } else if !t.Scalar? {
      SparedLeaf(env, instances, t.fields, here, q[n..]);
      EntryNames(fields, parts, q, i);
    }
  }

  lemma {:induction false} SparedInList(instances: Instances, fields: seq<Field>, parts: seq<string>, q: Path, i: nat)
    requires Bracketless(instances) && Match(fields, q) == Some(i) && fields[i].type_.Slice?
    ensures Spared(instances, fields, parts, q) <==>
              Live(instances, parts + fields[i].tag, q[|fields[i].tag| - 1].value) && ListsOn(fields, q) == 1
    ensures ListsOn(fields, q) >= 1
  {
    var t, n, here := fields[i].type_, |fields[i].tag|, parts + fields[i].tag;
    BracketedParts(t, q[n - 1].value, here);
    var inside := ElementParts(t, q[n - 1].value, here);
    InsideSpared(instances, t.fields, inside, |inside| - 1, q[n..]);
  }

  lemma BracketedParts(t: Type, value: string, parts: seq<string>)
    requires parts != []
    ensures var inside := ElementParts(t, value, parts); |inside| == |parts| && '[' in inside[|inside| - 1]
  {
    var inside := ElementParts(t, value, parts);
    assert inside[|inside| - 1][|parts[|parts| - 1]|] == '[';
  }

  lemma {:induction false} EntryNames(fields: seq<Field>, parts: seq<string>, q: Path, i: nat)
    requires Match(fields, q) == Some(i) && !fields[i].type_.Scalar?
    ensures var t, n, here, e := fields[i].type_, |fields[i].tag|, parts + fields[i].tag, EntryOf(fields, q);
            && e != []
            && (t.Slice? ==> e == q[..n] && parts + Names(e) == here)
            && (!t.Slice? ==>
               e == q[..n] + EntryOf(t.fields, q[n..]) && parts + Names(e) == here + Names(EntryOf(t.fields, q[n..])))
  {
    var t, n := fields[i].type_, |fields[i].tag|;
    FrontNames(fields[i].tag, q, if t.Slice? then [] else EntryOf(t.fields, q[n..]), parts);
    assert q[..n] + [] == q[..n];
  }

  lemma FrontNames(tag: seq<string>, q: Path, rest: Path, parts: seq<string>)
    requires NamesMatch(tag, q)
    ensures parts + Names(q[..|tag|] + rest) == parts + tag + Names(rest)
  {
    var e := q[..|tag|] + rest;
    NamesSplit(tag, e);
    assert e[|tag|..] == rest;
  }

  lemma GoodStep(fields: seq<Field>, i: nat)
    requires GoodFields(fields) && i < |fields|
    ensures fields[i].tag != [] && GoodType(fields[i].type_)
    ensures !fields[i].type_.Scalar? ==> GoodFields(fields[i].type_.fields)
  {
  }
}
