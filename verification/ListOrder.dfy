/** The order of list entries: what one assignment and the prune of the template do to it. */
module ListOrder {
  import opened Wrappers
  import opened Leaves
  import opened Paths
  import opened DeviceTree
  import opened Hydrate
  import opened HydrateEntries
  import opened Prune

  /** `l` strictly spells a list, without a key on the list itself. */
  predicate ListAddress(env: Env, fields: seq<Field>, l: Path)
    decreases |l|
  {
    Match(fields, l).Some? &&
    var field := fields[Match(fields, l).value];
    var t, n := field.type_, |field.tag|;
    && SpelledAs(field, l) && !t.Scalar?
    && if |l| == n then t.Slice? && l[n - 1] == Segment(field.tag[n - 1], "", "")
       else
         && ListAddress(env, t.fields, l[n..])
         && (t.Slice? ==> l[n - 1].key == KeyName(t) && CanonicalKey(env, t, l[n - 1].value))
  }

  /** The list is inside no other list. */
  predicate Outermost(fields: seq<Field>, l: Path)
    decreases |l|
  {
    Match(fields, l).Some? &&
    var t, n := fields[Match(fields, l).value].type_, |fields[Match(fields, l).value].tag|;
    |l| == n || (!t.Scalar? && !t.Slice? && Outermost(t.fields, l[n..]))
  }

  function ElemKeys(env: Env, key: nat, elems: seq<Obj>): (keys: seq<string>)
    ensures |keys| == |elems|
    ensures forall i :: 0 <= i < |elems| ==> keys[i] == ElemKey(env, key, elems[i])
  {
    seq(|elems|, i requires 0 <= i < |elems| => ElemKey(env, key, elems[i]))
  }

  /** The keys of the list at `l`, in order; none where there is no such list. */
  function KeysAt(env: Env, fields: seq<Field>, objs: seq<Obj>, l: Path): seq<string>
    requires |objs| == |fields|
    decreases |l|
  {
    match Match(fields, l)
    case None => []
    case Some(i) =>
      var t, n := fields[i].type_, |fields[i].tag|;
      if |l| == n then if t.Slice? && objs[i].Elems? then ElemKeys(env, t.key, objs[i].elems) else []
      else
        match Enter(env, fields[i], objs[i], l[n - 1])
        case None => []
        case Some(inner) => if |inner| == |t.fields| then KeysAt(env, t.fields, inner, l[n..]) else []
  }

  /** The path goes through an entry of the list. */
  predicate Through(l: Path, p: Path) {
    0 < |l| <= |p| && p[..|l| - 1] == l[..|l| - 1] && p[|l| - 1].name == l[|l| - 1].name
  }

  /** A list of keys after one more path: the path's key is appended if it is new. */
  function Met(keys: seq<string>, l: Path, p: Path): seq<string> {
    if Through(l, p) && p[|l| - 1].value !in keys then keys + [p[|l| - 1].value] else keys
  }

  // -------------------------------------------------------------------- one assignment

  lemma {:induction false} ListAddressStep(env: Env, fields: seq<Field>, l: Path, j: nat)
    requires ListAddress(env, fields, l) && Match(fields, l) == Some(j)
    ensures var t, n := fields[j].type_, |fields[j].tag|;
            && !t.Scalar? && SpelledAs(fields[j], l) && 0 < n <= |l|
            && (|l| == n ==> t.Slice? && l[n - 1] == Segment(fields[j].tag[n - 1], "", ""))
            && (|l| > n ==>
                  && ListAddress(env, t.fields, l[n..])
                  && (t.Slice? ==> l[n - 1].key == KeyName(t) && CanonicalKey(env, t, l[n - 1].value)))
  {
  }

  lemma {:induction false} KeysUnfold(env: Env, fields: seq<Field>, objs: seq<Obj>, l: Path, j: nat)
    requires |objs| == |fields| && Match(fields, l) == Some(j)
    ensures var t, n := fields[j].type_, |fields[j].tag|;
            KeysAt(env, fields, objs, l) ==
              if |l| == n then if t.Slice? && objs[j].Elems? then ElemKeys(env, t.key, objs[j].elems) else []
              else
                var inner := Enter(env, fields[j], objs[j], l[n - 1]);
                if inner.Some? && |inner.value| == |t.fields| then KeysAt(env, t.fields, inner.value, l[n..]) else []
  {
  }

  lemma {:induction false} ZeroHasNoKeys(env: Env, fields: seq<Field>, objs: seq<Obj>, l: Path)
    requires |objs| == |fields|
    requires forall i :: 0 <= i < |fields| && !fields[i].type_.Scalar? ==> objs[i] == ZeroObj(env, fields[i].type_)
    ensures KeysAt(env, fields, objs, l) == []
    decreases |l|
  {
    if Match(fields, l).Some? {
      var i := Match(fields, l).value;
      var t, n := fields[i].type_, |fields[i].tag|;
      if t.Struct? && |l| != n { ZeroHasNoKeys(env, t.fields, ZeroFields(env, t.fields), l[n..]); }
    }
  }

  /** A path through an entry of the list takes the list's own steps. */
  lemma {:induction false} ThroughMatches(env: Env, fields: seq<Field>, l: Path, p: Path, j: nat)
    requires GoodFields(fields) && ListAddress(env, fields, l) && Match(fields, l) == Some(j) && Through(l, p)
    ensures Match(fields, p) == Some(j)
  {
    var n := |fields[j].tag|;
    ListAddressStep(env, fields, l, j);
    forall k | 0 <= k < n ensures p[k].name == fields[j].tag[k] {
      if k < |l| - 1 { assert p[k] == p[..|l| - 1][k] == l[..|l| - 1][k]; }
    }
    OnlyMatch(fields, p, j);
  }

  /** One step down on both. */
  lemma ThroughBelow(l: Path, p: Path, n: nat)
    requires 0 < n < |l| && n <= |p| && p[..n] == l[..n]
    ensures Through(l, p) <==> Through(l[n..], p[n..])
    ensures Through(l, p) ==> p[|l| - 1] == p[n..][|l[n..]| - 1]
  {
    if |l| <= |p| {
      var k := |l| - 1;
      assert p[..k] == p[..n] + p[n..][..k - n] && l[..k] == l[..n] + l[n..][..k - n];
      assert p[..k] == l[..k] <==> p[n..][..k - n] == l[n..][..k - n] by {
        assert p[..k][n..] == p[n..][..k - n] && l[..k][n..] == l[n..][..k - n];
      }
    }
  }

  /** Preparing an entry appends its key if it is new; writing into it keeps the keys. */
  lemma PrepareKeys(env: Env, field: Field, obj: Obj, last: Segment)
    requires GoodEnv(env) && GoodType(field.type_) && field.type_.Slice? && TypedObj(env, field.type_, obj)
             && obj.Elems?
    requires last.key == KeyName(field.type_) && last.key != "" && CanonicalKey(env, field.type_, last.value)
    ensures var t, made := field.type_, Prepare(env, field, obj, last);
            && made.Some? && made.value.Elems?
            && ElemKeys(env, t.key, made.value.elems) ==
                 var keys := ElemKeys(env, t.key, obj.elems);
                 if last.value in keys then keys else keys + [last.value]
  {
    hide GoodEnv, GoodType, CanonicalKey, TypedObj;
    var t := field.type_;
    var keys := ElemKeys(env, t.key, obj.elems);
    var found := FindElem(env, t.key, obj.elems, last.value);
    if found.Some? {
      assert keys[found.value] == last.value;
      FoundIsPrepared(env, field, obj, last);
    } else {
      AppendTyped(env, t, obj, last);
      var more := Prepare(env, field, obj, last).value.elems;
      hide FindElem;
      assert more == obj.elems + [more[|obj.elems|]];
      assert ElemKeys(env, t.key, more) == keys + [last.value];
    }
  }

  lemma FoundIsPrepared(env: Env, field: Field, obj: Obj, last: Segment)
    requires GoodType(field.type_) && field.type_.Slice? && obj.Elems?
    requires last.key == KeyName(field.type_) && last.key != ""
    requires FindElem(env, field.type_.key, obj.elems, last.value).Some?
    ensures Prepare(env, field, obj, last) == Some(obj)
  {
  }

  lemma PutBackKeys(env: Env, field: Field, obj: Obj, last: Segment, inner: seq<Obj>)
    requires field.type_.Slice? && obj.Elems? && ElemKey(env, field.type_.key, Rec(inner)) == last.value
    requires FindElem(env, field.type_.key, obj.elems, last.value).Some?
    ensures var after := PutBack(env, field, obj, last, inner);
            after.Elems? && ElemKeys(env, field.type_.key, after.elems) == ElemKeys(env, field.type_.key, obj.elems)
  {
  }

  /** The list the assignment goes through at this very step. */
  lemma {:induction false} AssignKeysHere(
    env: Env, fields: seq<Field>, objs: seq<Obj>, p: Path, v: Value, l: Path, j: nat)
    requires Assignable(env, fields, objs, p, v) && ListAddress(env, fields, l)
    requires Match(fields, p) == Some(j) && Match(fields, l) == Some(j) && |l| == |fields[j].tag|
    ensures Assign(env, fields, objs, p, v).Some?
    ensures KeysAt(env, fields, Assign(env, fields, objs, p, v).value, l) == Met(KeysAt(env, fields, objs, l), l, p)
  {
    hide Assign, Match, ListAddress, Address, GoodFields, GoodEnv, Storable, CanonicalKey, Prepare, PutBack, KeysAt;
    var t, n := fields[j].type_, |fields[j].tag|;
    ListAddressStep(env, fields, l, j);
    var obj, inner, written := Written(env, fields, objs, p, v, j);
    AddressStep(env, fields, p, j);
    FieldTyped(env, fields, objs, j);
    PrepareKeys(env, fields[j], objs[j], p[n - 1]);
    EnterFinds(env, fields[j], obj, p[n - 1]);
    PutBackKeys(env, fields[j], obj, p[n - 1], written);
    KeysUnfold(env, fields, objs, l, j);
    KeysUnfold(env, fields, Assign(env, fields, objs, p, v).value, l, j);
    SameFrontNames(fields[j], p, l);
  }

  lemma EnterFinds(env: Env, field: Field, obj: Obj, last: Segment)
    requires field.type_.Slice? && Enter(env, field, obj, last).Some?
    ensures obj.Elems? && FindElem(env, field.type_.key, obj.elems, last.value).Some?
  {
  }

  lemma SameFrontNames(field: Field, p: Path, l: Path)
    requires SpelledAs(field, p) && SpelledAs(field, l) && |l| == |field.tag|
    ensures Through(l, p)
  {
    var n := |field.tag|;
    forall k | 0 <= k < n - 1 ensures p[k] == l[k] {}
    assert p[..n - 1] == l[..n - 1];
  }

  /** After an assignment the list has the keys it had, and the key the path goes through at the
      end if that is new. */
  lemma {:induction false} AssignKeys(env: Env, fields: seq<Field>, objs: seq<Obj>, p: Path, v: Value, l: Path)
    requires Assignable(env, fields, objs, p, v) && ListAddress(env, fields, l)
    ensures Assign(env, fields, objs, p, v).Some?
    ensures KeysAt(env, fields, Assign(env, fields, objs, p, v).value, l) == Met(KeysAt(env, fields, objs, l), l, p)
    decreases |p|, 1
  {
    hide Assign, Address, GoodFields, GoodEnv, Storable, CanonicalKey, Prepare, KeysAt;
    AssignReads(env, fields, objs, p, v);
    var after := Assign(env, fields, objs, p, v).value;
    var j := Match(fields, l).value;
    if Match(fields, p) != Some(j) {
      AssignTouches(env, fields, objs, p, v, j);
      KeysUnfold(env, fields, objs, l, j);
      KeysUnfold(env, fields, after, l, j);
      if Through(l, p) { ThroughMatches(env, fields, l, p, j); }
    } else if |l| == |fields[j].tag| {
      AssignKeysHere(env, fields, objs, p, v, l, j);
    } else {
      AssignKeysBelow(env, fields, objs, p, v, l, j);
    }
  }

  lemma {:induction false} AssignKeysBelow(
    env: Env, fields: seq<Field>, objs: seq<Obj>, p: Path, v: Value, l: Path, j: nat)
    requires Assignable(env, fields, objs, p, v) && ListAddress(env, fields, l)
    requires Match(fields, p) == Some(j) && Match(fields, l) == Some(j) && |l| != |fields[j].tag|
    ensures Assign(env, fields, objs, p, v).Some?
    ensures KeysAt(env, fields, Assign(env, fields, objs, p, v).value, l) == Met(KeysAt(env, fields, objs, l), l, p)
    decreases |p|, 0
  {
    hide Assign, Match, ListAddress, Address, GoodFields, GoodEnv, Storable, CanonicalKey, Prepare, KeysAt, Through;
    hide Met, Enter, Typed, TypedObj, GoodType;
    var t, n := fields[j].type_, |fields[j].tag|;
    ListAddressStep(env, fields, l, j);
    AddressStep(env, fields, p, j);
    var inner, written := AssignStep(env, fields, objs, p, v, j, l[n - 1]);
    var after := Assign(env, fields, objs, p, v).value;
    KeysUnfold(env, fields, objs, l, j);
    KeysUnfold(env, fields, after, l, j);
    SameField(fields[j], p, l);
    if t.Slice? && l[n - 1].value != p[n - 1].value {
      if Through(l, p) { ThroughShares(l, p, n); }
      NotMet(KeysAt(env, fields, objs, l), l, p);
    } else {
      AssignKeys(env, t.fields, inner, p[n..], v, l[n..]);
      MetBelow(KeysAt(env, fields, objs, l), l, p, n);
      KeysBefore(env, fields, objs, p, v, l, j, inner, written);
    }
  }

  lemma NotMet(keys: seq<string>, l: Path, p: Path)
    requires !Through(l, p)
    ensures Met(keys, l, p) == keys
  {
  }

  lemma MetBelow(keys: seq<string>, l: Path, p: Path, n: nat)
    requires 0 < n < |l| && n <= |p| && p[..n] == l[..n]
    ensures Met(keys, l, p) == Met(keys, l[n..], p[n..])
  {
    ThroughBelow(l, p, n);
  }

  lemma ThroughShares(l: Path, p: Path, n: nat)
    requires Through(l, p) && 0 < n < |l|
    ensures p[n - 1] == l[n - 1]
  {
    assert p[n - 1] == p[..|l| - 1][n - 1] == l[..|l| - 1][n - 1];
  }

  /** Before the assignment the list had the keys it has in the sub-struct found or made. */
  lemma {:induction false} KeysBefore(
    env: Env, fields: seq<Field>, objs: seq<Obj>, p: Path, v: Value, l: Path, j: nat,
    inner: seq<Obj>, written: seq<Obj>)
    requires Assignable(env, fields, objs, p, v) && Match(fields, l) == Some(j) && Match(fields, p) == Some(j)
    requires var n := |fields[j].tag|; 0 < n < |l| && n <= |p| && p[n - 1] == l[n - 1] && !fields[j].type_.Scalar?
    requires |inner| == |fields[j].type_.fields| && Below(env, fields[j], objs[j], p, v, inner, written)
    ensures KeysAt(env, fields, objs, l) == KeysAt(env, fields[j].type_.fields, inner, l[|fields[j].tag|..])
  {
    hide Assign, Match, Address, GoodFields, GoodEnv, Storable, CanonicalKey, Prepare, KeysAt;
    var last := p[|fields[j].tag| - 1];
    KeysUnfold(env, fields, objs, l, j);
    if Enter(env, fields[j], objs[j], last).None? {
      FieldTyped(env, fields, objs, j);
      PreparedIsZero(env, fields[j], objs[j], last);
      ZeroHasNoKeys(env, fields[j].type_.fields, inner, l[|fields[j].tag|..]);
    }
  }

  // ------------------------------------------------------------------------- the prune

  /** The keys that are recorded, in their order. */
  function Keep(instances: Instances, parts: seq<string>, keys: seq<string>): seq<string> {
    if keys == [] then []
    else
      var k := |keys| - 1;
      Keep(instances, parts, keys[..k]) + (if Live(instances, parts, keys[k]) then [keys[k]] else [])
  }

  lemma {:induction false} KeepKeys(env: Env, instances: Instances, key: nat, elems: seq<Obj>, parts: seq<string>)
    ensures ElemKeys(env, key, KeepLive(env, instances, key, elems, parts))
            == Keep(instances, parts, ElemKeys(env, key, elems))
    decreases |elems|
  {
    if elems != [] {
      var k := |elems| - 1;
      KeepKeys(env, instances, key, elems[..k], parts);
      assert ElemKeys(env, key, elems)[..k] == ElemKeys(env, key, elems[..k]);
    }
  }

  lemma {:induction false} KeepNothing(instances: Instances, parts: seq<string>, k: nat, keys: seq<string>)
    requires Bracketless(instances) && k < |parts| && '[' in parts[k]
    ensures Keep(instances, parts, keys) == []
    decreases |keys|
  {
    if keys != [] { KeepNothing(instances, parts, k, keys[..|keys| - 1]); }
  }

  /** The list at this very step. */
  lemma PruneKeysHere(env: Env, instances: Instances, t: Type, obj: Obj, parts: seq<string>)
    requires GoodType(t) && t.Slice? && TypedObj(env, t, obj)
    ensures var pruned := PruneObj(env, instances, t, obj, parts);
            && pruned.Elems?
            && ElemKeys(env, t.key, pruned.elems) == Keep(instances, parts, ElemKeys(env, t.key, obj.elems))
  {
    var kept := KeepLive(env, instances, t.key, obj.elems, parts);
    var pruned := PruneElems(env, instances, t, kept, parts);
    KeepKeys(env, instances, t.key, obj.elems, parts);
    forall i | 0 <= i < |kept| ensures ElemKey(env, t.key, pruned[i]) == ElemKey(env, t.key, kept[i]) {
      assert kept[i] in kept;
    }
    assert ElemKeys(env, t.key, pruned) == ElemKeys(env, t.key, kept);
  }

  /** Inside an element no list keeps an entry. */
  lemma {:induction false} PruneKeysNested(
    env: Env, instances: Instances, fields: seq<Field>, objs: seq<Obj>, parts: seq<string>, k: nat, l: Path)
    requires GoodFields(fields) && Typed(env, fields, objs) && ListAddress(env, fields, l)
    requires Bracketless(instances) && k < |parts| && '[' in parts[k]
    ensures KeysAt(env, fields, PruneFields(env, instances, fields, objs, parts), l) == []
    decreases |l|
  {
    hide ListAddress, GoodFields, PruneObj, Enter, ElementParts, KeysAt;
    var j := ListMatches(env, fields, l);
    var t, n, here := fields[j].type_, |fields[j].tag|, parts + fields[j].tag;
    ListAddressStep(env, fields, l, j);
    GoodStep(fields, j);
    FieldTyped(env, fields, objs, j);
    KeysUnfold(env, fields, PruneFields(env, instances, fields, objs, parts), l, j);
    assert here[k] == parts[k];
    if |l| == n {
      PruneKeysHere(env, instances, t, objs[j], here);
      KeepNothing(instances, here, k, ElemKeys(env, t.key, objs[j].elems));
    } else {
      PruneEnters(env, instances, fields[j], objs[j], here, l[n - 1]);
      var was := Enter(env, fields[j], objs[j], l[n - 1]);
      if was.Some? && !t.Slice? {
        EnterTyped(env, fields[j], objs[j], l[n - 1]);
        PruneKeysNested(env, instances, t.fields, was.value, here, k, l[n..]);
      }
    }
  }

  lemma {:induction false} ListMatches(env: Env, fields: seq<Field>, l: Path) returns (j: nat)
    requires ListAddress(env, fields, l)
    ensures Match(fields, l) == Some(j) && j < |fields|
  {
    j := Match(fields, l).value;
  }

  /** After the prune an outermost list has its recorded keys, in their order, and a list inside a
      list has none. */
  lemma {:induction false} PruneKeys(
    env: Env, instances: Instances, fields: seq<Field>, objs: seq<Obj>, parts: seq<string>, l: Path)
    requires GoodFields(fields) && Typed(env, fields, objs) && ListAddress(env, fields, l) && Bracketless(instances)
    ensures KeysAt(env, fields, PruneFields(env, instances, fields, objs, parts), l) ==
              if Outermost(fields, l) then Keep(instances, parts + Names(l), KeysAt(env, fields, objs, l)) else []
    decreases |l|, 1
  {
    hide ListAddress, GoodFields, PruneObj, Enter, ElementParts, KeysAt, Keep;
    var j := ListMatches(env, fields, l);
    var t, n, here := fields[j].type_, |fields[j].tag|, parts + fields[j].tag;
    ListAddressStep(env, fields, l, j);
    NamesSplit(fields[j].tag, l);
    if |l| == n {
      GoodStep(fields, j);
      FieldTyped(env, fields, objs, j);
      KeysUnfold(env, fields, objs, l, j);
      KeysUnfold(env, fields, PruneFields(env, instances, fields, objs, parts), l, j);
      PruneKeysHere(env, instances, t, objs[j], here);
      assert l[n..] == [] && parts + Names(l) == here;
    } else {
      assert parts + Names(l) == here + Names(l[n..]);
      PruneKeysBelow(env, instances, fields, objs, parts, l, j);
      if !t.Slice? { KeysUnfold(env, fields, objs, l, j); }
    }
  }

  lemma {:induction false} PruneKeysBelow(
    env: Env, instances: Instances, fields: seq<Field>, objs: seq<Obj>, parts: seq<string>, l: Path, j: nat)
    requires GoodFields(fields) && Typed(env, fields, objs) && ListAddress(env, fields, l) && Bracketless(instances)
    requires Match(fields, l) == Some(j) && |l| > |fields[j].tag| && |objs| == |fields|
    ensures var t, n := fields[j].type_, |fields[j].tag|;
            KeysAt(env, fields, PruneFields(env, instances, fields, objs, parts), l) ==
              if !t.Slice? && Outermost(t.fields, l[n..])
              then Keep(instances, parts + fields[j].tag + Names(l[n..]), KeysAt(env, fields, objs, l)) else []
    decreases |l|, 0
  {
    hide ListAddress, GoodFields, GoodType, Typed, TypedObj, PruneFields, PruneObj;
    hide Enter, ElementParts, KeysAt, Outermost;
    hide Keep, Match, Bracketless, Live;
    var t, n, here := fields[j].type_, |fields[j].tag|, parts + fields[j].tag;
    ListAddressStep(env, fields, l, j);
    GoodStep(fields, j);
    FieldTyped(env, fields, objs, j);
    TypedLength(env, fields, objs);
    KeysUnfold(env, fields, objs, l, j);
    KeysUnfold(env, fields, PruneFields(env, instances, fields, objs, parts), l, j);
    PruneEnters(env, instances, fields[j], objs[j], here, l[n - 1]);
    var was := Enter(env, fields[j], objs[j], l[n - 1]);
    if was.Some? {
      EnterTyped(env, fields[j], objs[j], l[n - 1]);
      TypedLength(env, t.fields, was.value);
      if t.Slice? {
        BracketedParts(t, l[n - 1].value, here);
        var inside := ElementParts(t, l[n - 1].value, here);
        PruneKeysNested(env, instances, t.fields, was.value, inside, |inside| - 1, l[n..]);
      } else {
        PruneKeys(env, instances, t.fields, was.value, here, l[n..]);
      }
    } else {
      KeepNone(instances, parts + fields[j].tag + Names(l[n..]));
    }
  }

  lemma KeepNone(instances: Instances, parts: seq<string>)
    ensures Keep(instances, parts, []) == []
  {
  }

  // ---------------------------------------------------------------- recorded means stored

  /** A stored leaf lies in that entry of the list. */
  ghost predicate KeyStored(paths: set<Path>, l: Path, value: string) {
    exists p: Path :: p in paths && Through(l, p) && p[|l| - 1].value == value
  }

  /** A leaf with the names of an outermost list goes through it, with a key. */
  lemma {:induction false} NamesGoThrough(env: Env, fields: seq<Field>, l: Path, p: Path)
    requires GoodFields(fields) && ListAddress(env, fields, l) && Outermost(fields, l) && Address(env, fields, p)
    requires |l| <= |p| && Names(p[..|l|]) == Names(l)
    ensures Through(l, p) && p[|l| - 1].key != ""
    decreases |l|
  {
    hide ListAddress, Address, GoodFields, CanonicalKey, Match;
    var i := ListMatches(env, fields, l);
    var t, n := fields[i].type_, |fields[i].tag|;
    ListAddressStep(env, fields, l, i);
    SameNamesMatch(fields, l, p, i);
    AddressStep(env, fields, p, i);
    GoodStep(fields, i);
    if |l| == n {
      SameFrontNames(fields[i], p, l);
    } else {
      SameField(fields[i], p, l);
      SameRest(l, p, n);
      NamesGoThrough(env, t.fields, l[n..], p[n..]);
      ThroughBelow(l, p, n);
    }
  }

  lemma ThroughNames(l: Path, p: Path)
    requires Through(l, p)
    ensures Names(p[..|l|]) == Names(l)
  {
    hide Names;
    forall k | 0 <= k < |l| ensures p[k].name == l[k].name {
      if k < |l| - 1 { assert p[k] == p[..|l| - 1][k] == l[..|l| - 1][k]; }
    }
    hide Through;
    assert forall k :: 0 <= k < |l| ==> p[..|l|][k].name == l[k].name;
  }

  /** For an outermost list the recorded keys are the stored ones. */
  lemma {:induction false} RecordedKeys(
    env: Env, instances: Instances, fields: seq<Field>, paths: set<Path>, l: Path, value: string)
    requires GoodFields(fields) && ListAddress(env, fields, l) && Outermost(fields, l) && Records(instances, paths)
    requires forall p <- paths :: Address(env, fields, p)
    ensures Live(instances, Names(l), value) <==> KeyStored(paths, l, value)
  {
    hide ListAddress, Address, GoodFields, Outermost;
    assert l != [] by { var i := ListMatches(env, fields, l); ListAddressStep(env, fields, l, i); }
    if Mentioned(paths, Names(l), value) {
      var p: Path, j: nat :| p in paths && Selects(p, j, Names(l), value);
      assert |Names(l)| == j + 1 == |l|;
      NamesGoThrough(env, fields, l, p);
    }
    if KeyStored(paths, l, value) {
      var p: Path :| p in paths && Through(l, p) && p[|l| - 1].value == value;
      ThroughNames(l, p);
      NamesGoThrough(env, fields, l, p);
      assert Selects(p, |l| - 1, Names(l), value);
    }
  }
}
