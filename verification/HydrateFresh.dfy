/** What an assignment leaves at the addresses it brings into being without writing them: the
    leaves of a just allocated optional struct or list entry. */
module HydrateFresh {
  import opened Wrappers
  import opened Leaves
  import opened Paths
  import opened DeviceTree
  import opened Hydrate

  /** The part of a leaf's path up to its last optional struct or list entry: the leaf exists when
      that does. */
  function Holder(fields: seq<Field>, q: Path): (h: Path)
    ensures h <= q
    decreases |q|
  {
    match Match(fields, q)
    case None => []
    case Some(i) =>
      var t, n := fields[i].type_, |fields[i].tag|;
      if t.Scalar? then []
      else
        var rest := Holder(t.fields, q[n..]);
        assert q == q[..n] + q[n..];
        if rest != [] then q[..n] + rest else if t.Struct? then [] else q[..n]
  }

  /** The leaf at the end of the path is the key of the list entry just before it. */
  predicate IsKey(t: Type, rest: Path) {
    Keyed(t) && Match(t.fields, rest) == Some(t.key)
  }

  /** The value of a leaf nobody wrote, in a structure allocated on the way to another leaf: the
      key a list entry is addressed by, or the zero value. */
  function FreshValue(env: Env, fields: seq<Field>, q: Path): Option<Value>
    decreases |q|
  {
    match Match(fields, q)
    case None => None
    case Some(i) =>
      var t, n := fields[i].type_, |fields[i].tag|;
      if t.Scalar? then Some(env.zero(t.kind))
      else if IsKey(t, q[n..]) then env.parse(t.fields[t.key].type_.kind, q[n - 1].value)
      else FreshValue(env, t.fields, q[n..])
  }

  lemma {:induction false} FreshExists(env: Env, fields: seq<Field>, q: Path)
    requires Address(env, fields, q)
    ensures FreshValue(env, fields, q).Some?
    decreases |q|
  {
    var i := Match(fields, q).value;
    var t, n := fields[i].type_, |fields[i].tag|;
    if !t.Scalar? && !IsKey(t, q[n..]) { FreshExists(env, t.fields, q[n..]); }
  }

  /** A leaf without a holder is there in every device. */
  lemma {:induction false} AlwaysThere(env: Env, fields: seq<Field>, objs: seq<Obj>, q: Path)
    requires GoodFields(fields) && Typed(env, fields, objs) && Address(env, fields, q) && Holder(fields, q) == []
    ensures ReadLeaf(env, fields, objs, q).Some?
    decreases |q|
  {
    var i := Match(fields, q).value;
    var t, n := fields[i].type_, |fields[i].tag|;
    assert TypedObj(env, t, objs[i]);
    if t.Struct? {
      GoodInner(fields, i);
      AlwaysThere(env, t.fields, objs[i].objs, q[n..]);
      ReadUnfold(env, fields, objs, q, i, objs[i].objs);
    }
  }

  /** What a zero struct holds. */
  lemma {:induction false} ZeroReads(env: Env, fields: seq<Field>, objs: seq<Obj>, q: Path)
    requires GoodFields(fields) && Address(env, fields, q) && objs == ZeroFields(env, fields)
    ensures ReadLeaf(env, fields, objs, q) == if Holder(fields, q) == [] then FreshValue(env, fields, q) else None
    decreases |q|
  {
    var i := Match(fields, q).value;
    var t, n := fields[i].type_, |fields[i].tag|;
    if t.Struct? {
      GoodInner(fields, i);
      ZeroReads(env, t.fields, ZeroFields(env, t.fields), q[n..]);
      ReadUnfold(env, fields, objs, q, i, ZeroFields(env, t.fields));
    }
  }

  lemma {:induction false} ScalarReads(env: Env, fields: seq<Field>, objs: seq<Obj>, q: Path, i: nat)
    requires |objs| == |fields| && Address(env, fields, q) && Match(fields, q) == Some(i) && fields[i].type_.Scalar?
    ensures ReadLeaf(env, fields, objs, q) == if objs[i].Val? then Some(objs[i].value) else None
    ensures Holder(fields, q) == []
  {
    AddressRest(env, fields, q, i);
  }

  /** A sub-struct prepared where there was none: all zero, but for the key of a list entry. */
  lemma {:induction false} PreparedInner(env: Env, field: Field, obj: Obj, last: Segment)
    requires GoodEnv(env) && GoodType(field.type_) && !field.type_.Scalar? && TypedObj(env, field.type_, obj)
    requires Enter(env, field, obj, last).None?
    requires field.type_.Slice? ==>
             last.key == KeyName(field.type_) && last.key != "" && CanonicalKey(env, field.type_, last.value)
    ensures var t, made := field.type_, Prepare(env, field, obj, last);
            && made.Some? && Enter(env, field, made.value, last).Some? && !t.Struct?
            && var inner, zero := Enter(env, field, made.value, last).value, ZeroFields(env, t.fields);
               if t.Slice? then
                 && t.key < |t.fields| && t.fields[t.key].type_.Scalar?
                 && env.parse(t.fields[t.key].type_.kind, last.value).Some?
                 && inner == zero[t.key := Val(env.parse(t.fields[t.key].type_.kind, last.value).value)]
               else inner == zero
  {
    PrepareOk(env, field, obj, last);
    if field.type_.Slice? { AppendTyped(env, field.type_, obj, last); }
  }

  /** What a sub-struct prepared for a path holds below that step. */
  lemma {:induction false} PreparedReads(env: Env, fields: seq<Field>, j: nat, obj: Obj, q: Path)
    requires GoodEnv(env) && GoodFields(fields) && Address(env, fields, q) && Match(fields, q) == Some(j)
    requires var t, last := fields[j].type_, q[|fields[j].tag| - 1];
             && !t.Scalar? && GoodType(t) && TypedObj(env, t, obj) && Enter(env, fields[j], obj, last).None?
             && (t.Slice? ==> last.key == KeyName(t) && last.key != "" && CanonicalKey(env, t, last.value))
    ensures var t, n := fields[j].type_, |fields[j].tag|;
            var made := Prepare(env, fields[j], obj, q[n - 1]);
            && made.Some? && Enter(env, fields[j], made.value, q[n - 1]).Some?
            && var inner := Enter(env, fields[j], made.value, q[n - 1]).value;
               && |inner| == |t.fields| && !t.Struct?
               && ReadLeaf(env, t.fields, inner, q[n..]) ==
                    if Holder(t.fields, q[n..]) == [] then FreshValue(env, fields, q) else None
  {
    hide ReadLeaf, Address, GoodFields, GoodType, Typed, TypedObj, Prepare, Enter, CanonicalKey, Match, Holder;
    var t, n := fields[j].type_, |fields[j].tag|;
    AddressStep(env, fields, q, j);
    PreparedInner(env, fields[j], obj, q[n - 1]);
    var inner := Enter(env, fields[j], Prepare(env, fields[j], obj, q[n - 1]).value, q[n - 1]).value;
    var zero := ZeroFields(env, t.fields);
    GoodInner(fields, j);
    ZeroReads(env, t.fields, zero, q[n..]);
    if t.Slice? {
      if IsKey(t, q[n..]) {
        ScalarReads(env, t.fields, inner, q[n..], t.key);
      } else {
        ReadDependsOnField(env, t.fields, zero, inner, q[n..], Match(t.fields, q[n..]).value);
      }
    } else {
      assert inner == zero;
    }
  }

  lemma {:induction false} HolderMatches(env: Env, fields: seq<Field>, q: Path, p: Path, j: nat)
    requires GoodFields(fields) && Address(env, fields, q) && Match(fields, q) == Some(j)
    requires Holder(fields, q) != [] && Holder(fields, q) <= p
    ensures Match(fields, p) == Some(j) && |fields[j].tag| <= |p| && p[..|fields[j].tag|] == q[..|fields[j].tag|]
  {
    var n := |fields[j].tag|;
    var h := Holder(fields, q);
    assert |h| >= n && h[..n] == q[..n];
    assert p[..n] == h[..n];
    forall k | 0 <= k < n ensures p[k].name == fields[j].tag[k] { assert p[..n][k] == q[..n][k]; }
    OnlyMatch(fields, p, j);
  }

  /** After an assignment, a leaf that was not there before and was not written is there exactly
      when the path goes through its holder, and then has its fresh value. */
  lemma {:induction false} AssignMakes(env: Env, fields: seq<Field>, objs: seq<Obj>, p: Path, v: Value, q: Path)
    requires Assignable(env, fields, objs, p, v) && Address(env, fields, q) && q != p
    requires ReadLeaf(env, fields, objs, q).None?
    ensures Holder(fields, q) != [] && Assign(env, fields, objs, p, v).Some?
    ensures ReadLeaf(env, fields, Assign(env, fields, objs, p, v).value, q) ==
              if Holder(fields, q) <= p then FreshValue(env, fields, q) else None
    decreases |p|, 1
  {
    hide Assign, ReadLeaf, Address, GoodFields, GoodEnv, Prepare, Storable, CanonicalKey, Holder, FreshValue;
    if Holder(fields, q) == [] { AlwaysThere(env, fields, objs, q); }
    AssignReads(env, fields, objs, p, v);
    var j := AddressMatches(env, fields, q);
    if Match(fields, p) == Some(j) {
      SameStep(env, fields, p, q, j);
      AssignMakesInner(env, fields, objs, p, v, q, j);
    } else {
      AssignTouches(env, fields, objs, p, v, j);
      ReadDependsOnField(env, fields, objs, Assign(env, fields, objs, p, v).value, q, j);
      if Holder(fields, q) <= p { HolderMatches(env, fields, q, p, j); }
    }
  }

  lemma {:induction false} AddressMatches(env: Env, fields: seq<Field>, q: Path) returns (j: nat)
    requires Address(env, fields, q)
    ensures Match(fields, q) == Some(j) && j < |fields|
  {
    j := Match(fields, q).value;
  }

  lemma {:induction false} AssignMakesInner(
    env: Env, fields: seq<Field>, objs: seq<Obj>, p: Path, v: Value, q: Path, j: nat)
    requires Assignable(env, fields, objs, p, v) && Address(env, fields, q) && Holder(fields, q) != []
    requires Match(fields, p) == Some(j) && Match(fields, q) == Some(j) && !fields[j].type_.Scalar?
    requires var n := |fields[j].tag|;
             (fields[j].type_.Slice? && q[n - 1].value != p[n - 1].value) || (p[n - 1] == q[n - 1] && p[n..] != q[n..])
    requires ReadLeaf(env, fields, objs, q).None?
    ensures Assign(env, fields, objs, p, v).Some?
    ensures ReadLeaf(env, fields, Assign(env, fields, objs, p, v).value, q) ==
              if Holder(fields, q) <= p then FreshValue(env, fields, q) else None
    decreases |p|, 0
  {
    hide Assign, Match, ReadLeaf, Address, GoodFields, GoodEnv, Prepare, Storable, CanonicalKey, Holder, FreshValue;
    var t, n := fields[j].type_, |fields[j].tag|;
    var inner, written := AssignStep(env, fields, objs, p, v, j, q[n - 1]);
    var after := Assign(env, fields, objs, p, v).value;
    if t.Slice? && q[n - 1].value != p[n - 1].value {
      SameEnterSameRead(env, fields, objs, after, q, j);
      if Holder(fields, q) <= p {
        HolderMatches(env, fields, q, p, j);
        SharedFront(p, q, n);
      }
    } else {
      ReadUnfold(env, fields, after, q, j, written);
      MadeBelow(env, fields, objs, p, v, q, j, inner, written);
    }
  }

  /** Where both paths take the same step. */
  lemma {:induction false} MadeBelow(
    env: Env, fields: seq<Field>, objs: seq<Obj>, p: Path, v: Value, q: Path, j: nat,
    inner: seq<Obj>, written: seq<Obj>)
    requires Assignable(env, fields, objs, p, v) && Address(env, fields, q) && Holder(fields, q) != []
    requires Match(fields, p) == Some(j) && Match(fields, q) == Some(j) && !fields[j].type_.Scalar?
    requires var n := |fields[j].tag|; 0 < n <= |p| && p[n - 1] == q[n - 1] && p[n..] != q[n..]
    requires |inner| == |written| == |fields[j].type_.fields| && Below(env, fields[j], objs[j], p, v, inner, written)
    requires ReadLeaf(env, fields, objs, q).None?
    ensures ReadLeaf(env, fields[j].type_.fields, written, q[|fields[j].tag|..]) ==
              if Holder(fields, q) <= p then FreshValue(env, fields, q) else None
    decreases |p|, 0, 0
  {
    hide Assign, Match, ReadLeaf, Address, GoodFields, GoodEnv, Prepare, Storable, CanonicalKey, Holder, FreshValue;
    var t, n := fields[j].type_, |fields[j].tag|;
    AddressStep(env, fields, q, j);
    AddressStep(env, fields, p, j);
    HolderStep(env, fields, p, q, j);
    if ReadLeaf(env, t.fields, inner, q[n..]).Some? {
      AssignFrame(env, t.fields, inner, p[n..], v, q[n..]);
      if Enter(env, fields[j], objs[j], q[n - 1]).Some? {
        ReadUnfold(env, fields, objs, q, j, inner);
      } else {
        FieldTyped(env, fields, objs, j);
        PreparedReads(env, fields, j, objs[j], q);
      }
    } else {
      AssignMakes(env, t.fields, inner, p[n..], v, q[n..]);
    }
  }

  /** The holder and the fresh value of a leaf, one step down. */
  lemma {:induction false} HolderStep(env: Env, fields: seq<Field>, p: Path, q: Path, j: nat)
    requires GoodFields(fields) && Address(env, fields, p) && Address(env, fields, q) && Holder(fields, q) != []
    requires Match(fields, p) == Some(j) && Match(fields, q) == Some(j) && !fields[j].type_.Scalar?
    requires p[|fields[j].tag| - 1] == q[|fields[j].tag| - 1]
    ensures var t, n := fields[j].type_, |fields[j].tag|;
            && (Holder(t.fields, q[n..]) == [] ==> Holder(fields, q) <= p && !t.Struct?)
            && (Holder(t.fields, q[n..]) != [] ==>
                  && (Holder(fields, q) <= p <==> Holder(t.fields, q[n..]) <= p[n..])
                  && FreshValue(env, fields, q) == FreshValue(env, t.fields, q[n..]))
  {
    var t, n := fields[j].type_, |fields[j].tag|;
    SameField(fields[j], p, q);
    var rest := Holder(t.fields, q[n..]);
    if rest == [] {
      assert Holder(fields, q) == q[..n] == p[..n];
    } else {
      var h := Holder(fields, q);
      assert h == q[..n] + rest && h[n..] == rest && h[..n] == p[..n];
      SharedFront(p, h, n);
      if IsKey(t, q[n..]) {
        AddressStep(env, fields, q, j);
        ScalarReads(env, t.fields, ZeroFields(env, t.fields), q[n..], t.key);
      }
    }
  }
}
