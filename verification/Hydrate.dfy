/** internal/router/hydrate.go: writing one leaf of the flat map into the device, allocating
    optional structs and list entries on the way. */
module Hydrate {
  import opened Wrappers
  import opened Leaves
  import opened Paths
  import opened DeviceTree

  /** What `assignPath` does before it descends: allocate a nil pointer, append a missing entry. */
  function Prepare(env: Env, field: Field, obj: Obj, last: Segment): Option<Obj> {
    match field.type_
    case Scalar(_) => None
    case Struct(_) => Some(obj)
    case Pointer(fields) => Some(if obj.Nil? then Rec(ZeroFields(env, fields)) else obj)
    case Slice(_, _) => if obj.Elems? then AppendOrSelect(env, field.type_, obj, last) else None
  }

  /** `appendOrSelect`. */
  function AppendOrSelect(env: Env, t: Type, obj: Obj, last: Segment): Option<Obj>
    requires t.Slice? && obj.Elems?
  {
    if last.key == "" || !Keyed(t) || KeyName(t) != last.key then None
    else if FindElem(env, t.key, obj.elems, last.value).Some? then Some(obj)
    else
      match env.parse(t.fields[t.key].type_.kind, last.value)
      case None => None
      case Some(k) => Some(Elems(obj.elems + [Rec(ZeroFields(env, t.fields)[t.key := Val(k)])]))
  }

  /** The value with its sub-struct replaced, as a write through the reference leaves it. */
  function PutBack(env: Env, field: Field, obj: Obj, last: Segment, inner: seq<Obj>): Obj {
    if !field.type_.Slice? then Rec(inner)
    else if !obj.Elems? then obj
    else
      match FindElem(env, field.type_.key, obj.elems, last.value)
      case None => obj
      case Some(e) => Elems(obj.elems[e := Rec(inner)])
  }

  /** The sub-struct `assignPath` goes on with: the one found, or else the entry just appended, whose
      key need not read as the text it was parsed from. */
  function EnterMade(env: Env, field: Field, obj: Obj, last: Segment): Option<seq<Obj>> {
    var found := Enter(env, field, obj, last);
    if found.Some? || !field.type_.Slice? || !obj.Elems? || obj.elems == [] then found
    else
      var made := obj.elems[|obj.elems| - 1];
      if made.Rec? then Some(made.objs) else None
  }

  function PutBackMade(env: Env, field: Field, obj: Obj, last: Segment, inner: seq<Obj>): Obj {
    if Enter(env, field, obj, last).Some? || !field.type_.Slice? || !obj.Elems? || obj.elems == []
    then PutBack(env, field, obj, last, inner)
    else Elems(obj.elems[|obj.elems| - 1 := Rec(inner)])
  }

  /** `assignPath`. */
  function Assign(env: Env, fields: seq<Field>, objs: seq<Obj>, segs: Path, v: Value): (r: Option<seq<Obj>>)
    requires |objs| == |fields|
    ensures r.Some? ==> |r.value| == |fields|
    decreases |segs|
  {
    match Match(fields, segs)
    case None => None
    case Some(i) =>
      var n := |fields[i].tag|;
      match fields[i].type_
      case Scalar(kind) => if |segs| == n && env.fits(kind, v) then Some(objs[i := Val(v)]) else None
      case _ =>
        match Prepare(env, fields[i], objs[i], segs[n - 1])
        case None => None
        case Some(obj) =>
          match EnterMade(env, fields[i], obj, segs[n - 1])
          case None => None
          case Some(inner) =>
            if |inner| != |fields[i].type_.fields| then None
            else
              match Assign(env, fields[i].type_.fields, inner, segs[n..], v)
              case None => None
              case Some(written) => Some(objs[i := PutBackMade(env, fields[i], obj, segs[n - 1], written)])
  }

  /** The value fits its leaf, and if the leaf is the key of a list entry it is the very key
      the path addresses the entry by. */
  predicate Storable(env: Env, fields: seq<Field>, segs: Path, v: Value)
    decreases |segs|
  {
    Match(fields, segs).Some? &&
    var field := fields[Match(fields, segs).value];
    var n := |field.tag|;
    match field.type_
    case Scalar(kind) => env.fits(kind, v)
    case Slice(key, fs) => (Match(fs, segs[n..]) == Some(key) ==> env.render(v) == segs[n - 1].value)
      && Storable(env, fs, segs[n..], v)
    case _ => Storable(env, field.type_.fields, segs[n..], v)
  }

  // ------------------------------------------------------------------- one step

  lemma PrepareOk(env: Env, field: Field, obj: Obj, last: Segment)
    requires GoodEnv(env) && GoodType(field.type_) && !field.type_.Scalar? && TypedObj(env, field.type_, obj)
    requires field.type_.Slice? ==>
             last.key == KeyName(field.type_) && last.key != "" && CanonicalKey(env, field.type_, last.value)
    ensures var o := Prepare(env, field, obj, last);
            && o.Some? && TypedObj(env, field.type_, o.value)
            && Enter(env, field, o.value, last).Some?
            && Typed(env, field.type_.fields, Enter(env, field, o.value, last).value)
            && (Enter(env, field, obj, last).Some? ==> Enter(env, field, o.value, last) == Enter(env, field, obj, last))
  {
    match field.type_
    case Pointer(fields) => ZeroTyped(env, fields);
    case Slice(key, fields) =>
      if FindElem(env, key, obj.elems, last.value).None? { AppendTyped(env, field.type_, obj, last); }
    case _ =>
  }

  lemma AppendTyped(env: Env, t: Type, obj: Obj, last: Segment)
    requires GoodEnv(env) && t.Slice? && GoodType(t) && TypedObj(env, t, obj)
    requires last.key == KeyName(t) && last.key != "" && CanonicalKey(env, t, last.value)
    requires FindElem(env, t.key, obj.elems, last.value).None?
    ensures var o := AppendOrSelect(env, t, obj, last);
            && o.Some? && o.value.Elems? && TypedObj(env, t, o.value)
            && FindElem(env, t.key, o.value.elems, last.value) == Some(|obj.elems|)
            && o.value.elems[..|obj.elems|] == obj.elems && |o.value.elems| == |obj.elems| + 1
            && o.value.elems[|obj.elems|].Rec? && Typed(env, t.fields, o.value.elems[|obj.elems|].objs)
  {
    var k := env.parse(t.fields[t.key].type_.kind, last.value).value;
    var fresh_ := Rec(ZeroFields(env, t.fields)[t.key := Val(k)]);
    ZeroTyped(env, t.fields);
    assert Typed(env, t.fields, fresh_.objs);
    assert ElemKey(env, t.key, fresh_) == last.value;
    FindAppended(env, t.key, obj.elems, fresh_, last.value);
  }

  lemma {:induction false} FindAppended(env: Env, key: nat, elems: seq<Obj>, elem: Obj, value: string)
    ensures FindElem(env, key, elems + [elem], value) ==
              if FindElem(env, key, elems, value).Some? then FindElem(env, key, elems, value)
              else if ElemKey(env, key, elem) == value then Some(|elems|) else None
    decreases elems
  {
    if elems != [] {
      FindAppended(env, key, elems[1..], elem, value);
      assert (elems + [elem])[1..] == elems[1..] + [elem];
    } else {
      assert elems + [elem] == [elem];
    }
  }

  lemma {:induction false} FindUpdated(env: Env, key: nat, elems: seq<Obj>, e: nat, elem: Obj, value: string)
    requires e < |elems| && ElemKey(env, key, elem) == ElemKey(env, key, elems[e])
    ensures FindElem(env, key, elems[e := elem], value) == FindElem(env, key, elems, value)
    decreases elems
  {
    if e > 0 {
      FindUpdated(env, key, elems[1..], e - 1, elem, value);
      assert elems[e := elem][1..] == elems[1..][e - 1 := elem];
    } else {
      assert elems[e := elem][1..] == elems[1..];
    }
  }

  /** Replacing the sub-struct of one entry, its key unchanged, is seen through that entry
      alone. */
  lemma PutBackEnters(env: Env, field: Field, obj: Obj, last: Segment, inner: seq<Obj>, other: Segment)
    requires GoodType(field.type_) && !field.type_.Scalar? && TypedObj(env, field.type_, obj)
    requires Enter(env, field, obj, last).Some? && Typed(env, field.type_.fields, inner)
    requires field.type_.Slice? ==> ElemKey(env, field.type_.key, Rec(inner)) == last.value
    ensures TypedObj(env, field.type_, PutBack(env, field, obj, last, inner))
    ensures Enter(env, field, PutBack(env, field, obj, last, inner), other) ==
              if field.type_.Slice? && other.value != last.value then Enter(env, field, obj, other) else Some(inner)
  {
    if field.type_.Slice? {
      var key := field.type_.key;
      var e := FindElem(env, key, obj.elems, last.value).value;
      FindUpdated(env, key, obj.elems, e, Rec(inner), other.value);
    }
  }

  /** Preparing for one entry shows or hides nothing else. */
  lemma PrepareEnters(env: Env, field: Field, obj: Obj, last: Segment, other: Segment)
    requires GoodEnv(env) && GoodType(field.type_) && !field.type_.Scalar? && TypedObj(env, field.type_, obj)
    requires field.type_.Slice? ==>
             last.key == KeyName(field.type_) && last.key != "" && CanonicalKey(env, field.type_, last.value)
    requires field.type_.Slice? && other.value != last.value
    ensures Enter(env, field, Prepare(env, field, obj, last).value, other) == Enter(env, field, obj, other)
  {
    var key := field.type_.key;
    if FindElem(env, key, obj.elems, last.value).None? {
      AppendTyped(env, field.type_, obj, last);
      var more := Prepare(env, field, obj, last).value.elems;
      assert more == obj.elems + [more[|obj.elems|]];
      FindAppended(env, key, obj.elems, more[|obj.elems|], other.value);
    }
  }

  // ----------------------------------------------------------------- whole paths

  /** A strictly spelled path and what it needs to be stored. */
  ghost predicate Assignable(env: Env, fields: seq<Field>, objs: seq<Obj>, p: Path, v: Value) {
    && GoodEnv(env) && GoodFields(fields) && |objs| == |fields| && Typed(env, fields, objs)
    && Address(env, fields, p) && Storable(env, fields, p, v)
  }

  lemma {:induction false} AssignTouches(env: Env, fields: seq<Field>, objs: seq<Obj>, p: Path, v: Value, j: nat)
    requires |objs| == |fields| && Assign(env, fields, objs, p, v).Some? && j < |fields|
    ensures Match(fields, p) != Some(j) ==> Assign(env, fields, objs, p, v).value[j] == objs[j]
    ensures Match(fields, p) == Some(j) && fields[j].type_.Scalar? ==>
            Assign(env, fields, objs, p, v).value[j] == Val(v)
  {
  }

  lemma {:induction false} AddressStep(env: Env, fields: seq<Field>, p: Path, i: nat)
    requires Address(env, fields, p) && Match(fields, p) == Some(i) && !fields[i].type_.Scalar?
    ensures var t, n := fields[i].type_, |fields[i].tag|;
            && SpelledAs(fields[i], p) && Address(env, t.fields, p[n..])
            && (t.Slice? ==> p[n - 1].key == KeyName(t) && CanonicalKey(env, t, p[n - 1].value))
  {
  }

  lemma {:induction false} StorableStep(env: Env, fields: seq<Field>, p: Path, v: Value, i: nat)
    requires Storable(env, fields, p, v) && Match(fields, p) == Some(i) && !fields[i].type_.Scalar?
    ensures Storable(env, fields[i].type_.fields, p[|fields[i].tag|..], v)
  {
  }

  lemma KeyIsNamed(env: Env, field: Field, obj: Obj, last: Segment)
    requires field.type_.Slice? && Enter(env, field, obj, last).Some?
    ensures ElemKey(env, field.type_.key, Rec(Enter(env, field, obj, last).value)) == last.value
  {
  }

  lemma KeyNamed(t: Type)
    requires GoodType(t) && t.Slice?
    ensures KeyName(t) != ""
  {
  }

  /** One level of an assignment: `inner` is the sub-struct it descends into, `written` what
      the rest of the path makes of it, and the key of the entry is still the key. */
  lemma {:induction false} Descend(env: Env, fields: seq<Field>, objs: seq<Obj>, p: Path, v: Value)
    returns (i: nat, obj: Obj, inner: seq<Obj>)
    requires Assignable(env, fields, objs, p, v) && Match(fields, p).Some?
    requires !fields[Match(fields, p).value].type_.Scalar?
    ensures Match(fields, p) == Some(i) && i < |fields|
    ensures var t, n := fields[i].type_, |fields[i].tag|;
            && 0 < n <= |p| && GoodType(t) && GoodFields(t.fields)
            && Prepare(env, fields[i], objs[i], p[n - 1]) == Some(obj) && TypedObj(env, t, obj)
            && Enter(env, fields[i], obj, p[n - 1]) == Some(inner)
            && (Enter(env, fields[i], objs[i], p[n - 1]).Some? ==>
               Enter(env, fields[i], objs[i], p[n - 1]) == Some(inner))
            && Assignable(env, t.fields, inner, p[n..], v)
            && (t.Slice? ==> ElemKey(env, t.key, Rec(inner)) == p[n - 1].value
                             && p[n - 1].key == KeyName(t) && p[n - 1].key != ""
                                && CanonicalKey(env, t, p[n - 1].value))
  {
    hide Address, Storable, GoodFields, GoodEnv, CanonicalKey, Prepare, Enter, ElemKey;
    hide Match, GoodType, Typed, TypedObj;
    i := Match(fields, p).value;
    StepFacts(env, fields, objs, p, v, i);
    var last := p[|fields[i].tag| - 1];
    PrepareOk(env, fields[i], objs[i], last);
    obj := Prepare(env, fields[i], objs[i], last).value;
    inner := Enter(env, fields[i], obj, last).value;
    TypedLength(env, fields[i].type_.fields, inner);
    if fields[i].type_.Slice? { KeyIsNamed(env, fields[i], obj, last); }
  }

  /** What one step of an assignable path gives. */
  lemma {:induction false} StepFacts(env: Env, fields: seq<Field>, objs: seq<Obj>, p: Path, v: Value, i: nat)
    requires Assignable(env, fields, objs, p, v) && Match(fields, p) == Some(i) && !fields[i].type_.Scalar?
    ensures var t, n := fields[i].type_, |fields[i].tag|;
            && 0 < n <= |p| && GoodType(t) && GoodFields(t.fields) && TypedObj(env, t, objs[i])
            && Address(env, t.fields, p[n..]) && Storable(env, t.fields, p[n..], v)
            && (t.Slice? ==> p[n - 1].key == KeyName(t) && p[n - 1].key != "" && CanonicalKey(env, t, p[n - 1].value))
  {
    hide Address, Storable, GoodFields, GoodEnv, CanonicalKey, Match;
    GoodInner(fields, i);
    FieldTyped(env, fields, objs, i);
    AddressStep(env, fields, p, i);
    StorableStep(env, fields, p, v, i);
    if fields[i].type_.Slice? { KeyNamed(fields[i].type_); }
  }

  lemma {:induction false} AssignUnfold(
    env: Env, fields: seq<Field>, objs: seq<Obj>, p: Path, v: Value, i: nat, obj: Obj, inner: seq<Obj>)
    requires |objs| == |fields| && Match(fields, p) == Some(i) && !fields[i].type_.Scalar?
    requires Prepare(env, fields[i], objs[i], p[|fields[i].tag| - 1]) == Some(obj)
    requires Enter(env, fields[i], obj, p[|fields[i].tag| - 1]) == Some(inner) && |inner| == |fields[i].type_.fields|
    requires Assign(env, fields[i].type_.fields, inner, p[|fields[i].tag|..], v).Some?
    ensures var written := Assign(env, fields[i].type_.fields, inner, p[|fields[i].tag|..], v).value;
            Assign(env, fields, objs, p, v)
              == Some(objs[i := PutBack(env, fields[i], obj, p[|fields[i].tag| - 1], written)])
  {
  }

  lemma {:induction false} ReadUnfold(env: Env, fields: seq<Field>, objs: seq<Obj>, q: Path, i: nat, inner: seq<Obj>)
    requires |objs| == |fields| && Match(fields, q) == Some(i) && !fields[i].type_.Scalar?
    requires Enter(env, fields[i], objs[i], q[|fields[i].tag| - 1]) == Some(inner)
             && |inner| == |fields[i].type_.fields|
    ensures ReadLeaf(env, fields, objs, q) == ReadLeaf(env, fields[i].type_.fields, inner, q[|fields[i].tag|..])
  {
  }

  lemma {:induction false} TypedUpdate(env: Env, fields: seq<Field>, objs: seq<Obj>, i: nat, obj: Obj)
    requires Typed(env, fields, objs) && i < |fields| && TypedObj(env, fields[i].type_, obj)
    ensures Typed(env, fields, objs[i := obj])
  {
  }

  /** Assigning a conforming leaf succeeds, keeps the device well-typed and reads back. */
  lemma {:induction false} AssignReads(env: Env, fields: seq<Field>, objs: seq<Obj>, p: Path, v: Value)
    requires Assignable(env, fields, objs, p, v)
    ensures Assign(env, fields, objs, p, v).Some?
    ensures Typed(env, fields, Assign(env, fields, objs, p, v).value)
    ensures ReadLeaf(env, fields, Assign(env, fields, objs, p, v).value, p) == Some(v)
    decreases |p|, 1
  {
    if fields[Match(fields, p).value].type_.Scalar? {
      AssignScalar(env, fields, objs, p, v);
    } else {
      AssignReadsInner(env, fields, objs, p, v);
    }
  }

  lemma {:induction false} AssignScalar(env: Env, fields: seq<Field>, objs: seq<Obj>, p: Path, v: Value)
    requires Typed(env, fields, objs) && Address(env, fields, p) && Storable(env, fields, p, v)
    requires fields[Match(fields, p).value].type_.Scalar?
    ensures Assign(env, fields, objs, p, v) == Some(objs[Match(fields, p).value := Val(v)])
    ensures Typed(env, fields, objs[Match(fields, p).value := Val(v)])
    ensures ReadLeaf(env, fields, objs[Match(fields, p).value := Val(v)], p) == Some(v)
  {
    TypedUpdate(env, fields, objs, Match(fields, p).value, Val(v));
  }

  lemma {:induction false} AssignReadsInner(env: Env, fields: seq<Field>, objs: seq<Obj>, p: Path, v: Value)
    requires Assignable(env, fields, objs, p, v) && !fields[Match(fields, p).value].type_.Scalar?
    ensures Assign(env, fields, objs, p, v).Some?
    ensures Typed(env, fields, Assign(env, fields, objs, p, v).value)
    ensures ReadLeaf(env, fields, Assign(env, fields, objs, p, v).value, p) == Some(v)
    decreases |p|, 0
  {
    var i, obj, inner := Descend(env, fields, objs, p, v);
    var t, n := fields[i].type_, |fields[i].tag|;
    AssignReads(env, t.fields, inner, p[n..], v);
    var written := Assign(env, t.fields, inner, p[n..], v).value;
    KeyKept(env, t, inner, p, n, v);
    AssignUnfold(env, fields, objs, p, v, i, obj, inner);
    PutBackEnters(env, fields[i], obj, p[n - 1], written, p[n - 1]);
    var after := PutBack(env, fields[i], obj, p[n - 1], written);
    TypedUpdate(env, fields, objs, i, after);
    ReadUnfold(env, fields, objs[i := after], p, i, written);
  }

  lemma {:induction false} KeyKept(env: Env, t: Type, inner: seq<Obj>, p: Path, n: nat, v: Value)
    requires 0 < n <= |p| && !t.Scalar? && GoodType(t) && |inner| == |t.fields|
    requires t.Slice? ==> ElemKey(env, t.key, Rec(inner)) == p[n - 1].value
    requires t.Slice? ==> (Match(t.fields, p[n..]) == Some(t.key) ==> env.render(v) == p[n - 1].value)
    requires Assign(env, t.fields, inner, p[n..], v).Some?
    ensures t.Slice? ==> ElemKey(env, t.key, Rec(Assign(env, t.fields, inner, p[n..], v).value)) == p[n - 1].value
  {
    if t.Slice? { AssignTouches(env, t.fields, inner, p[n..], v, t.key); }
  }

  /** Two strictly spelled addresses of the same field agree on its own segments, but for the
      key value of a list. */
  lemma SameField(field: Field, p: Path, q: Path)
    requires SpelledAs(field, p) && SpelledAs(field, q)
    requires field.type_.Slice? ==> p[|field.tag| - 1].key == q[|field.tag| - 1].key
    ensures var n := |field.tag|;
            !field.type_.Slice? || p[n - 1].value == q[n - 1].value ==> p[..n] == q[..n]
  {
    var n := |field.tag|;
    if !field.type_.Slice? || p[n - 1].value == q[n - 1].value {
      assert p[n - 1] == q[n - 1];
      forall j | 0 <= j < n ensures p[j] == q[j] {}
    }
  }

  /** No other leaf that could be read changes. */
  lemma {:induction false} AssignFrame(env: Env, fields: seq<Field>, objs: seq<Obj>, p: Path, v: Value, q: Path)
    requires Assignable(env, fields, objs, p, v) && Address(env, fields, q) && q != p
    requires ReadLeaf(env, fields, objs, q).Some?
    ensures Assign(env, fields, objs, p, v).Some?
    ensures ReadLeaf(env, fields, Assign(env, fields, objs, p, v).value, q) == ReadLeaf(env, fields, objs, q)
    decreases |p|, 1
  {
    AssignReads(env, fields, objs, p, v);
    var j := Match(fields, q).value;
    if Match(fields, p) == Some(j) {
      SameStep(env, fields, p, q, j);
      AssignFrameInner(env, fields, objs, p, v, q, j);
    } else {
      AssignTouches(env, fields, objs, p, v, j);
      ReadDependsOnField(env, fields, objs, Assign(env, fields, objs, p, v).value, q, j);
    }
  }

  lemma {:induction false} ReadDependsOnField(env: Env, fields: seq<Field>, a: seq<Obj>, b: seq<Obj>, q: Path, j: nat)
    requires |a| == |b| == |fields| && Match(fields, q) == Some(j) && a[j] == b[j]
    ensures ReadLeaf(env, fields, a, q) == ReadLeaf(env, fields, b, q)
  {
  }

  /** Different addresses through the same field part ways at its key or below it. */
  lemma {:induction false} SameStep(env: Env, fields: seq<Field>, p: Path, q: Path, j: nat)
    requires Address(env, fields, p) && Address(env, fields, q) && p != q
    requires Match(fields, p) == Some(j) && Match(fields, q) == Some(j)
    ensures !fields[j].type_.Scalar?
    ensures var n := |fields[j].tag|;
            (fields[j].type_.Slice? && q[n - 1].value != p[n - 1].value) || (p[n - 1] == q[n - 1] && p[n..] != q[n..])
  {
    SameField(fields[j], p, q);
    var n := |fields[j].tag|;
    AddressRest(env, fields, p, j);
    AddressRest(env, fields, q, j);
    if p[..n] == q[..n] { SharedFront(p, q, n); }
  }

  lemma SharedFront(p: Path, q: Path, n: nat)
    requires n <= |p| && n <= |q| && p[..n] == q[..n]
    ensures p == q <==> p[n..] == q[n..]
    ensures q <= p <==> q[n..] <= p[n..]
    ensures n > 0 ==> p[n - 1] == q[n - 1]
  {
    assert p == p[..n] + p[n..] && q == q[..n] + q[n..];
    assert n > 0 ==> p[n - 1] == p[..n][n - 1] && q[n - 1] == q[..n][n - 1];
  }

  lemma {:induction false} AddressRest(env: Env, fields: seq<Field>, p: Path, j: nat)
    requires Address(env, fields, p) && Match(fields, p) == Some(j)
    ensures fields[j].type_.Scalar? ==> p[|fields[j].tag|..] == []
  {
  }

  /** The case where both paths go through the same field. */
  lemma {:induction false} AssignFrameInner(
    env: Env, fields: seq<Field>, objs: seq<Obj>, p: Path, v: Value, q: Path, j: nat)
    requires Assignable(env, fields, objs, p, v) && Address(env, fields, q)
    requires Match(fields, p) == Some(j) && Match(fields, q) == Some(j) && !fields[j].type_.Scalar?
    requires var n := |fields[j].tag|;
             (fields[j].type_.Slice? && q[n - 1].value != p[n - 1].value) || (p[n - 1] == q[n - 1] && p[n..] != q[n..])
    requires ReadLeaf(env, fields, objs, q).Some?
    ensures Assign(env, fields, objs, p, v).Some?
    ensures ReadLeaf(env, fields, Assign(env, fields, objs, p, v).value, q) == ReadLeaf(env, fields, objs, q)
    decreases |p|, 0
  {
    hide Assign, Match, ReadLeaf, Address, GoodFields, GoodEnv, Prepare, Storable, CanonicalKey;
    var t, n := fields[j].type_, |fields[j].tag|;
    var inner, written := AssignStep(env, fields, objs, p, v, j, q[n - 1]);
    var after := Assign(env, fields, objs, p, v).value;
    if t.Slice? && q[n - 1].value != p[n - 1].value {
      SameEnterSameRead(env, fields, objs, after, q, j);
    } else {
      ReadEnters(env, fields, objs, q, j);
      ReadUnfold(env, fields, objs, q, j, inner);
      ReadUnfold(env, fields, after, q, j, written);
      AddressStep(env, fields, q, j);
      AssignFrame(env, t.fields, inner, p[n..], v, q[n..]);
    }
  }

  lemma {:induction false} ReadEnters(env: Env, fields: seq<Field>, objs: seq<Obj>, q: Path, j: nat)
    requires |objs| == |fields| && Match(fields, q) == Some(j) && !fields[j].type_.Scalar?
    requires ReadLeaf(env, fields, objs, q).Some?
    ensures Enter(env, fields[j], objs[j], q[|fields[j].tag| - 1]).Some?
  {
  }

  lemma {:induction false} SameEnterSameRead(env: Env, fields: seq<Field>, a: seq<Obj>, b: seq<Obj>, q: Path, j: nat)
    requires |a| == |b| == |fields| && Match(fields, q) == Some(j) && !fields[j].type_.Scalar?
    requires Enter(env, fields[j], a[j], q[|fields[j].tag| - 1]) == Enter(env, fields[j], b[j], q[|fields[j].tag| - 1])
    ensures ReadLeaf(env, fields, a, q) == ReadLeaf(env, fields, b, q)
  {
  }

  /** The sub-struct an assignment descends into, and what the rest of the path made of it. */
  ghost predicate Below(env: Env, field: Field, obj: Obj, p: Path, v: Value, inner: seq<Obj>, written: seq<Obj>)
    requires 0 < |field.tag| <= |p| && !field.type_.Scalar? && |inner| == |field.type_.fields|
  {
    var t, n, last := field.type_, |field.tag|, p[|field.tag| - 1];
    && GoodType(t) && GoodFields(t.fields)
    && Assignable(env, t.fields, inner, p[n..], v) && Assign(env, t.fields, inner, p[n..], v) == Some(written)
    && (Enter(env, field, obj, last).Some? ==> Enter(env, field, obj, last) == Some(inner))
    && Prepare(env, field, obj, last).Some?
       && Enter(env, field, Prepare(env, field, obj, last).value, last) == Some(inner)
    && (t.Slice? ==> last.key == KeyName(t) && last.key != "" && CanonicalKey(env, t, last.value))
  }

  /** One level of an assignment, as seen through any segment `other`: another entry is as it
      was, the addressed sub-struct is what the rest of the path made of it. */
  lemma {:induction false} AssignStep(
    env: Env, fields: seq<Field>, objs: seq<Obj>, p: Path, v: Value, j: nat, other: Segment)
    returns (inner: seq<Obj>, written: seq<Obj>)
    requires Assignable(env, fields, objs, p, v) && Match(fields, p) == Some(j) && !fields[j].type_.Scalar?
    ensures Assign(env, fields, objs, p, v).Some?
    ensures 0 < |fields[j].tag| <= |p| && |inner| == |written| == |fields[j].type_.fields|
    ensures Below(env, fields[j], objs[j], p, v, inner, written)
    ensures var t, last := fields[j].type_, p[|fields[j].tag| - 1];
            Enter(env, fields[j], Assign(env, fields, objs, p, v).value[j], other) ==
              (if t.Slice? && other.value != last.value then Enter(env, fields[j], objs[j], other) else Some(written))
  {
    var obj: Obj;
    obj, inner, written := Written(env, fields, objs, p, v, j);
    var t, last := fields[j].type_, p[|fields[j].tag| - 1];
    PrepareOk(env, fields[j], objs[j], last);
    PutBackEnters(env, fields[j], obj, last, written, other);
    if t.Slice? && other.value != last.value { PrepareEnters(env, fields[j], objs[j], last, other); }
  }

  lemma {:induction false} Written(env: Env, fields: seq<Field>, objs: seq<Obj>, p: Path, v: Value, j: nat)
    returns (obj: Obj, inner: seq<Obj>, written: seq<Obj>)
    requires Assignable(env, fields, objs, p, v) && Match(fields, p) == Some(j) && !fields[j].type_.Scalar?
    ensures 0 < |fields[j].tag| <= |p| && |inner| == |written| == |fields[j].type_.fields|
    ensures Below(env, fields[j], objs[j], p, v, inner, written)
    ensures var field, last := fields[j], p[|fields[j].tag| - 1];
            && Prepare(env, field, objs[j], last) == Some(obj) && Typed(env, field.type_.fields, written)
            && (field.type_.Slice? ==> ElemKey(env, field.type_.key, Rec(written)) == last.value)
            && Assign(env, fields, objs, p, v) == Some(objs[j := PutBack(env, field, obj, last, written)])
  {
    hide Assign, Match, FindElem, Prepare, Enter, PutBack, Storable, Address, GoodFields, GoodEnv, CanonicalKey;
    var i: nat;
    i, obj, inner := Descend(env, fields, objs, p, v);
    var t, n := fields[j].type_, |fields[j].tag|;
    if t.Slice? { StorableKey(env, fields, p, v, j); }
    written := WrittenInner(env, t, inner, p, n, v);
    AssignUnfold(env, fields, objs, p, v, i, obj, inner);
  }

  lemma {:induction false} StorableKey(env: Env, fields: seq<Field>, p: Path, v: Value, j: nat)
    requires Storable(env, fields, p, v) && Match(fields, p) == Some(j) && fields[j].type_.Slice?
    ensures Match(fields[j].type_.fields, p[|fields[j].tag|..]) == Some(fields[j].type_.key) ==>
              env.render(v) == p[|fields[j].tag| - 1].value
  {
  }

  lemma {:induction false} WrittenInner(
    env: Env, t: Type, inner: seq<Obj>, p: Path, n: nat, v: Value)
    returns (written: seq<Obj>)
    requires 0 < n <= |p| && !t.Scalar? && GoodType(t) && Assignable(env, t.fields, inner, p[n..], v)
    requires t.Slice? ==> ElemKey(env, t.key, Rec(inner)) == p[n - 1].value
    requires t.Slice? ==> (Match(t.fields, p[n..]) == Some(t.key) ==> env.render(v) == p[n - 1].value)
    ensures Assign(env, t.fields, inner, p[n..], v) == Some(written) && Typed(env, t.fields, written)
    ensures t.Slice? ==> ElemKey(env, t.key, Rec(written)) == p[n - 1].value
  {
    AssignReads(env, t.fields, inner, p[n..], v);
    written := Assign(env, t.fields, inner, p[n..], v).value;
    KeyKept(env, t, inner, p, n, v);
  }
}
