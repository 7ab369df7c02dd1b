/** Which paths `assignPath` takes, strictly spelled or not, whatever was assigned before. */
module HydrateTakes {
  import opened Leaves
  import opened Paths
  import opened DeviceTree
  import opened Hydrate

  /** The device has the shape of the model; keys of list entries may repeat. */
  ghost predicate Shaped(env: Env, fields: seq<Field>, objs: seq<Obj>) {
    |objs| == |fields| && forall i :: 0 <= i < |fields| ==> ShapedObj(env, fields[i].type_, objs[i])
  }

  ghost predicate ShapedObj(env: Env, t: Type, obj: Obj) {
    match t
    case Scalar(kind) => obj.Val? && env.fits(kind, obj.value)
    case Struct(fields) => obj.Rec? && Shaped(env, fields, obj.objs)
    case Pointer(fields) => obj.Nil? || (obj.Rec? && Shaped(env, fields, obj.objs))
    case Slice(_, fields) =>
      obj.Elems? && forall i :: 0 <= i < |obj.elems| ==> obj.elems[i].Rec? && Shaped(env, fields, obj.elems[i].objs)
  }

  lemma {:induction false} TypedIsShaped(env: Env, fields: seq<Field>, objs: seq<Obj>)
    requires Typed(env, fields, objs)
    ensures Shaped(env, fields, objs)
    decreases fields, 1
  {
    forall i | 0 <= i < |fields| ensures ShapedObj(env, fields[i].type_, objs[i]) {
      TypedObjIsShaped(env, fields[i].type_, objs[i]);
    }
  }

  lemma {:induction false} TypedObjIsShaped(env: Env, t: Type, obj: Obj)
    requires TypedObj(env, t, obj)
    ensures ShapedObj(env, t, obj)
    decreases t, 0
  {
    match t
    case Struct(fields) => TypedIsShaped(env, fields, obj.objs);
    case Pointer(fields) => if obj.Rec? { TypedIsShaped(env, fields, obj.objs); }
    case Slice(_, fields) =>
      forall i | 0 <= i < |obj.elems| ensures obj.elems[i].Rec? && Shaped(env, fields, obj.elems[i].objs) {
        TypedIsShaped(env, fields, obj.elems[i].objs);
      }
    case _ =>
  }

  /** The text of a key parses. */
  ghost predicate KeysParse(env: Env) {
    forall kind, v :: env.fits(kind, v) ==> env.parse(kind, env.render(v)).Some?
  }

  /** The list's own key is given, in a text that parses. */
  predicate KeyGiven(env: Env, t: Type, last: Segment) {
    && last.key != "" && Keyed(t) && KeyName(t) == last.key
    && env.parse(t.fields[t.key].type_.kind, last.value).Some?
  }

  /** The path leads, name by name and with the keys of its lists, to a scalar that can hold the
      value. Predicates on anything else go unnoticed. */
  predicate Takes(env: Env, fields: seq<Field>, segs: Path, v: Value)
    decreases |segs|
  {
    Match(fields, segs).Some? &&
    var field := fields[Match(fields, segs).value];
    var n := |field.tag|;
    match field.type_
    case Scalar(kind) => |segs| == n && env.fits(kind, v)
    case Slice(_, fs) => KeyGiven(env, field.type_, segs[n - 1]) && Takes(env, fs, segs[n..], v)
    case _ => Takes(env, field.type_.fields, segs[n..], v)
  }

  lemma ZeroShaped(env: Env, fields: seq<Field>)
    requires GoodEnv(env)
    ensures Shaped(env, fields, ZeroFields(env, fields))
  {
    ZeroTyped(env, fields);
    TypedIsShaped(env, fields, ZeroFields(env, fields));
  }

  /** An entry that is found has a key that parses. */
  lemma FoundKeyParses(env: Env, t: Type, obj: Obj, last: Segment)
    requires KeysParse(env) && ShapedObj(env, t, obj) && Keyed(t)
    requires FindElem(env, t.key, obj.elems, last.value).Some?
    ensures env.parse(t.fields[t.key].type_.kind, last.value).Some?
  {
    var elem := obj.elems[FindElem(env, t.key, obj.elems, last.value).value];
    assert Shaped(env, t.fields, elem.objs);
    assert ShapedObj(env, t.fields[t.key].type_, elem.objs[t.key]);
  }

  /** Preparing succeeds exactly when the key is given, and keeps the shape. */
  lemma PrepareTakes(env: Env, field: Field, obj: Obj, last: Segment)
    requires GoodEnv(env) && KeysParse(env) && !field.type_.Scalar? && ShapedObj(env, field.type_, obj)
    ensures var made := Prepare(env, field, obj, last);
            && (made.Some? <==> (field.type_.Slice? ==> KeyGiven(env, field.type_, last)))
            && (made.Some? ==>
                  && ShapedObj(env, field.type_, made.value) && EnterMade(env, field, made.value, last).Some?
                  && Shaped(env, field.type_.fields, EnterMade(env, field, made.value, last).value))
  {
    var t := field.type_;
    match t
    case Pointer(fields) => ZeroShaped(env, fields);
    case Slice(_, _) => AppendTakes(env, t, obj, last);
    case _ =>
  }

  lemma AppendTakes(env: Env, t: Type, obj: Obj, last: Segment)
    requires GoodEnv(env) && KeysParse(env) && t.Slice? && ShapedObj(env, t, obj)
    ensures var made := AppendOrSelect(env, t, obj, last);
            && (made.Some? <==> KeyGiven(env, t, last))
            && (made.Some? ==> made.value.Elems? && made.value.elems != [] && ShapedObj(env, t, made.value))
  {
    if last.key != "" && Keyed(t) && KeyName(t) == last.key {
      if FindElem(env, t.key, obj.elems, last.value).Some? {
        FoundKeyParses(env, t, obj, last);
      } else if KeyGiven(env, t, last) {
        FreshShaped(env, t, env.parse(t.fields[t.key].type_.kind, last.value).value);
      }
    }
  }

  lemma FreshShaped(env: Env, t: Type, k: Value)
    requires GoodEnv(env) && Keyed(t) && env.fits(t.fields[t.key].type_.kind, k)
    ensures Shaped(env, t.fields, ZeroFields(env, t.fields)[t.key := Val(k)])
  {
    ZeroShaped(env, t.fields);
    ScalarShaped(env, t.fields, ZeroFields(env, t.fields), t.key, k);
  }

  lemma PutBackShaped(env: Env, field: Field, obj: Obj, last: Segment, inner: seq<Obj>)
    requires !field.type_.Scalar? && ShapedObj(env, field.type_, obj) && Shaped(env, field.type_.fields, inner)
    ensures ShapedObj(env, field.type_, PutBackMade(env, field, obj, last, inner))
  {
  }

  lemma ShapedUpdate(env: Env, fields: seq<Field>, objs: seq<Obj>, i: nat, obj: Obj)
    requires Shaped(env, fields, objs) && i < |fields| && ShapedObj(env, fields[i].type_, obj)
    ensures Shaped(env, fields, objs[i := obj])
  {
  }

  /** In a device of the right shape an assignment succeeds if and only if the path is one the model
      takes; what was assigned before does not matter. */
  lemma {:induction false} AssignTakes(env: Env, fields: seq<Field>, objs: seq<Obj>, p: Path, v: Value)
    requires GoodEnv(env) && KeysParse(env) && Shaped(env, fields, objs)
    ensures Assign(env, fields, objs, p, v).Some? <==> Takes(env, fields, p, v)
    ensures Assign(env, fields, objs, p, v).Some? ==> Shaped(env, fields, Assign(env, fields, objs, p, v).value)
    decreases |p|
  {
    hide Shaped, ShapedObj, Prepare, EnterMade, PutBackMade, KeyGiven, GoodEnv, KeysParse;
    ShapedLength(env, fields, objs);
    if Match(fields, p).Some? {
      var i := Match(fields, p).value;
      var t, n := fields[i].type_, |fields[i].tag|;
      ShapedField(env, fields, objs, i);
      if t.Scalar? {
        if |p| == n && env.fits(t.kind, v) { ScalarShaped(env, fields, objs, i, v); }
      } else {
        PrepareTakes(env, fields[i], objs[i], p[n - 1]);
        var made := Prepare(env, fields[i], objs[i], p[n - 1]);
        if made.Some? {
          var inner := EnterMade(env, fields[i], made.value, p[n - 1]).value;
          ShapedLength(env, t.fields, inner);
          AssignTakes(env, t.fields, inner, p[n..], v);
          var written := Assign(env, t.fields, inner, p[n..], v);
          if written.Some? {
            PutBackShaped(env, fields[i], made.value, p[n - 1], written.value);
            ShapedUpdate(env, fields, objs, i, PutBackMade(env, fields[i], made.value, p[n - 1], written.value));
          }
        }
      }
    }
  }

  lemma ShapedField(env: Env, fields: seq<Field>, objs: seq<Obj>, i: nat)
    requires Shaped(env, fields, objs) && i < |fields|
    ensures ShapedObj(env, fields[i].type_, objs[i])
  {
  }

  lemma ShapedLength(env: Env, fields: seq<Field>, objs: seq<Obj>)
    requires Shaped(env, fields, objs)
    ensures |objs| == |fields|
  {
  }

  lemma ScalarShaped(env: Env, fields: seq<Field>, objs: seq<Obj>, i: nat, v: Value)
    requires Shaped(env, fields, objs) && i < |fields| && fields[i].type_.Scalar? && env.fits(fields[i].type_.kind, v)
    ensures Shaped(env, fields, objs[i := Val(v)])
  {
    assert ShapedObj(env, fields[i].type_, Val(v));
    ShapedUpdate(env, fields, objs, i, Val(v));
  }
}
