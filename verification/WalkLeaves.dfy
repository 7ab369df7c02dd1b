/** internal/router/reflect.go, `walkLeaves`: every leaf of a device with its address; and the
    round trip through the flat map. */
module WalkLeaves {
  import opened Wrappers
  import opened Paths
  import opened DeviceTree
  import opened Hydrate
  import opened Rebuild

  function TagSegs(tag: seq<string>): (segs: Path)
    ensures |segs| == |tag|
    ensures forall i :: 0 <= i < |tag| ==> segs[i] == Segment(tag[i], "", "")
  {
    if tag == [] then [] else TagSegs(tag[..|tag| - 1]) + [Segment(tag[|tag| - 1], "", "")]
  }

  /** The address of a list, turned into that of one of its elements. */
  function WithPredicate(segs: Path, key: string, value: string): Path {
    if segs == [] then segs else segs[..|segs| - 1] + [Segment(segs[|segs| - 1].name, key, value)]
  }

  function WalkFields(env: Env, fields: seq<Field>, objs: seq<Obj>, i: nat, segs: Path): seq<Stored>
    requires |objs| == |fields| && i <= |fields|
    decreases fields, 1, |fields| - i
  {
    if i == |fields| then []
    else
      WalkObj(env, fields[i].type_, objs[i], segs + TagSegs(fields[i].tag))
      + WalkFields(env, fields, objs, i + 1, segs)
  }

  function WalkObj(env: Env, t: Type, obj: Obj, segs: Path): seq<Stored>
    decreases t, 0, 0
  {
    match t
    case Scalar(_) => if obj.Val? then [Stored(segs, obj.value)] else []
    case Struct(fields) => WalkRec(env, fields, obj, segs)
    case Pointer(fields) => WalkRec(env, fields, obj, segs)
    case Slice(_, _) => if obj.Elems? then WalkElems(env, t, obj.elems, 0, segs) else []
  }

  function WalkRec(env: Env, fields: seq<Field>, obj: Obj, segs: Path): seq<Stored>
    decreases fields, 2, 0
  {
    if obj.Rec? && |obj.objs| == |fields| then WalkFields(env, fields, obj.objs, 0, segs) else []
  }

  function WalkElems(env: Env, t: Type, elems: seq<Obj>, i: nat, segs: Path): seq<Stored>
    requires t.Slice? && i <= |elems|
    decreases t.fields, 3, |elems| - i
  {
    if i == |elems| then []
    else WalkRec(env, t.fields, elems[i], WithPredicate(segs, KeyName(t), ElemKey(env, t.key, elems[i])))
         + WalkElems(env, t, elems, i + 1, segs)
  }

  // ------------------------------------------------------------------- what it visits

  /** Rendering a key value, parsing it and rendering it again gives the same text. */
  ghost predicate StableKeys(env: Env) {
    forall kind, v :: env.fits(kind, v) ==>
      env.parse(kind, env.render(v)).Some? && env.render(env.parse(kind, env.render(v)).value) == env.render(v)
  }

  /** `w` is a leaf of the struct at address `segs`. */
  ghost predicate LeafAt(env: Env, fields: seq<Field>, objs: seq<Obj>, segs: Path, w: Stored)
    requires |objs| == |fields|
  {
    && segs <= w.path
    && Address(env, fields, w.path[|segs|..]) && ReadLeaf(env, fields, objs, w.path[|segs|..]) == Some(w.value)
  }

  /** ... below its field number `i`. */
  ghost predicate FieldLeaf(env: Env, fields: seq<Field>, objs: seq<Obj>, segs: Path, i: nat, w: Stored)
    requires |objs| == |fields|
  {
    LeafAt(env, fields, objs, segs, w) && Match(fields, w.path[|segs|..]) == Some(i)
  }

  ghost predicate Once(ws: seq<Stored>) {
    forall i, j :: 0 <= i < j < |ws| ==> ws[i].path != ws[j].path
  }

  lemma OnceConcat(a: seq<Stored>, b: seq<Stored>)
    requires Once(a) && Once(b) && forall x, y :: x in a && y in b ==> x.path != y.path
    ensures Once(a + b)
  {
    var c := a + b;
    forall i, j | 0 <= i < j < |c| ensures c[i].path != c[j].path {
      if i < |a| <= j { assert c[i] in a && c[j] in b; }
    }
  }

  /** Stepping from a struct through a field that is not a list. */
  lemma {:induction false} StepLeaf(env: Env, fields: seq<Field>, objs: seq<Obj>, segs: Path, i: nat, w: Stored)
    requires GoodFields(fields) && |objs| == |fields| && i < |fields| && !fields[i].type_.Slice?
             && !fields[i].type_.Scalar?
    requires objs[i].Rec? && |objs[i].objs| == |fields[i].type_.fields|
    ensures FieldLeaf(env, fields, objs, segs, i, w) <==>
            LeafAt(env, fields[i].type_.fields, objs[i].objs, segs + TagSegs(fields[i].tag), w)
  {
    var here, n := segs + TagSegs(fields[i].tag), |fields[i].tag|;
    if segs <= w.path {
      var q := w.path[|segs|..];
      assert w.path == segs + q;
      Spelling(fields[i], q);
      assert here <= w.path <==> n <= |q| && q[..n] == TagSegs(fields[i].tag);
      if here <= w.path {
        assert q[n..] == w.path[|here|..];
        OnlyMatch(fields, q, i);
        ReadUnfold(env, fields, objs, q, i, objs[i].objs);
      }
    } else {
      assert here <= w.path ==> segs <= w.path;
    }
  }

  lemma Spelling(field: Field, q: Path)
    requires field.tag != [] && !field.type_.Slice?
    ensures SpelledAs(field, q) <==> |field.tag| <= |q| && q[..|field.tag|] == TagSegs(field.tag)
  {
    if SpelledAs(field, q) {
      forall k | 0 <= k < |field.tag| ensures q[k] == TagSegs(field.tag)[k] {}
    }
    if |field.tag| <= |q| && q[..|field.tag|] == TagSegs(field.tag) {
      forall k | 0 <= k < |field.tag| ensures q[k] == Segment(field.tag[k], "", "") {
        assert q[k] == q[..|field.tag|][k];
      }
    }
  }

  lemma {:induction false} ScalarLeaf(env: Env, fields: seq<Field>, objs: seq<Obj>, segs: Path, i: nat, w: Stored)
    requires GoodFields(fields) && |objs| == |fields| && i < |fields| && fields[i].type_.Scalar? && objs[i].Val?
    ensures FieldLeaf(env, fields, objs, segs, i, w) <==> w == Stored(segs + TagSegs(fields[i].tag), objs[i].value)
  {
    var here, n := segs + TagSegs(fields[i].tag), |fields[i].tag|;
    if segs <= w.path {
      var q := w.path[|segs|..];
      assert w.path == segs + q;
      Spelling(fields[i], q);
      if FieldLeaf(env, fields, objs, segs, i, w) {
        assert q == q[..n] + q[n..];
      }
      if w == Stored(here, objs[i].value) {
        assert q == TagSegs(fields[i].tag);
        assert q[..n] == q && q[n..] == [];
        OnlyMatch(fields, q, i);
      }
    }
  }

  /** `w` is a leaf of element `j` of the list at `segs`. */
  ghost predicate ElemLeaf(env: Env, t: Type, elems: seq<Obj>, segs: Path, j: nat, w: Stored) {
    && t.Slice? && j < |elems| && elems[j].Rec? && |elems[j].objs| == |t.fields|
    && LeafAt(env, t.fields, elems[j].objs, WithPredicate(segs, KeyName(t), ElemKey(env, t.key, elems[j])), w)
  }

  lemma {:induction false} FindOwn(env: Env, key: nat, elems: seq<Obj>, j: nat)
    requires DistinctKeys(env, key, elems) && j < |elems|
    ensures FindElem(env, key, elems, ElemKey(env, key, elems[j])) == Some(j)
  {
  }

  /** The key of an element is one its address can be spelled with. */
  lemma KeyIsCanonical(env: Env, t: Type, elems: seq<Obj>, j: nat)
    requires StableKeys(env) && GoodType(t) && t.Slice? && TypedObj(env, t, Elems(elems)) && j < |elems|
    ensures CanonicalKey(env, t, ElemKey(env, t.key, elems[j]))
  {
    assert TypedObj(env, t.fields[t.key].type_, elems[j].objs[t.key]);
  }

  lemma ListSpelling(field: Field, q: Path, value: string)
    requires field.tag != [] && field.type_.Slice?
    ensures WithPredicate(TagSegs(field.tag), KeyName(field.type_), value) <= q <==>
            SpelledAs(field, q) && q[|field.tag| - 1].key == KeyName(field.type_) && q[|field.tag| - 1].value == value
  {
    var n, here := |field.tag|, WithPredicate(TagSegs(field.tag), KeyName(field.type_), value);
    assert |here| == n && here[n - 1] == Segment(field.tag[n - 1], KeyName(field.type_), value);
    assert forall k :: 0 <= k < n - 1 ==> here[k] == Segment(field.tag[k], "", "");
    if here <= q { forall k | 0 <= k < n ensures q[k] == here[k] {} }
  }

  lemma {:induction false} ElemStep(env: Env, fields: seq<Field>, objs: seq<Obj>, segs: Path, i: nat, j: nat, w: Stored)
    requires StableKeys(env) && GoodFields(fields) && Typed(env, fields, objs) && i < |fields| && fields[i].type_.Slice?
    requires objs[i].Elems? && j < |objs[i].elems|
    ensures ElemLeaf(env, fields[i].type_, objs[i].elems, segs + TagSegs(fields[i].tag), j, w) <==>
            FieldLeaf(env, fields, objs, segs, i, w)
            && w.path[|segs| + |fields[i].tag| - 1].value == ElemKey(env, fields[i].type_.key, objs[i].elems[j])
  {
    var t, n, elems := fields[i].type_, |fields[i].tag|, objs[i].elems;
    assert TypedObj(env, t, objs[i]) && Typed(env, t.fields, elems[j].objs);
    hide StableKeys, TypedObj, Typed, CanonicalKey;
    var value := ElemKey(env, t.key, elems[j]);
    var here := WithPredicate(segs + TagSegs(fields[i].tag), KeyName(t), value);
    assert here == segs + WithPredicate(TagSegs(fields[i].tag), KeyName(t), value);
    if segs <= w.path {
      var q := w.path[|segs|..];
      assert w.path == segs + q;
      ListSpelling(fields[i], q, value);
      assert here <= w.path <==> WithPredicate(TagSegs(fields[i].tag), KeyName(t), value) <= q;
      if here <= w.path {
        assert q[n..] == w.path[|here|..];
        OnlyMatch(fields, q, i);
        KeyIsCanonical(env, t, elems, j);
        FindOwn(env, t.key, elems, j);
        ReadUnfold(env, fields, objs, q, i, elems[j].objs);
      }
    } else {
      assert here <= w.path ==> segs <= w.path;
    }
  }

  /** A leaf below a list is a leaf of one of its elements. */
  lemma {:induction false} SomeElem(
    env: Env, fields: seq<Field>, objs: seq<Obj>, segs: Path, i: nat, w: Stored)
    returns (j: nat)
    requires StableKeys(env) && GoodFields(fields) && Typed(env, fields, objs) && i < |fields| && fields[i].type_.Slice?
    requires FieldLeaf(env, fields, objs, segs, i, w)
    ensures objs[i].Elems? && j < |objs[i].elems|
    ensures ElemLeaf(env, fields[i].type_, objs[i].elems, segs + TagSegs(fields[i].tag), j, w)
  {
    var q := w.path[|segs|..];
    assert TypedObj(env, fields[i].type_, objs[i]);
    j := FindElem(env, fields[i].type_.key, objs[i].elems, q[|fields[i].tag| - 1].value).value;
    ElemStep(env, fields, objs, segs, i, j, w);
  }

  // ------------------------------------------------------------------- every leaf, once

  ghost predicate Walkable(env: Env, fields: seq<Field>, objs: seq<Obj>) {
    StableKeys(env) && GoodFields(fields) && Typed(env, fields, objs)
  }

  ghost predicate LeafFrom(env: Env, fields: seq<Field>, objs: seq<Obj>, segs: Path, i: nat, w: Stored)
    requires |objs| == |fields|
  {
    LeafAt(env, fields, objs, segs, w) && Match(fields, w.path[|segs|..]).value >= i
  }

  lemma {:induction false} WalkFieldsVisit(env: Env, fields: seq<Field>, objs: seq<Obj>, i: nat, segs: Path)
    requires Walkable(env, fields, objs) && i <= |fields|
    ensures var ws := WalkFields(env, fields, objs, i, segs);
            Once(ws) && forall w :: w in ws <==> LeafFrom(env, fields, objs, segs, i, w)
    decreases fields, 1, |fields| - i
  {
    if i < |fields| {
      var a := WalkObj(env, fields[i].type_, objs[i], segs + TagSegs(fields[i].tag));
      var b := WalkFields(env, fields, objs, i + 1, segs);
      WalkFieldVisits(env, fields, objs, i, segs);
      WalkFieldsVisit(env, fields, objs, i + 1, segs);
      OnceConcat(a, b);
    }
  }

  lemma {:induction false} WalkFieldVisits(env: Env, fields: seq<Field>, objs: seq<Obj>, i: nat, segs: Path)
    requires Walkable(env, fields, objs) && i < |fields|
    ensures var ws := WalkObj(env, fields[i].type_, objs[i], segs + TagSegs(fields[i].tag));
            Once(ws) && forall w :: w in ws <==> FieldLeaf(env, fields, objs, segs, i, w)
    decreases fields, 0, 0
  {
    var t, here := fields[i].type_, segs + TagSegs(fields[i].tag);
    assert TypedObj(env, t, objs[i]) && GoodType(t);
    if t.Scalar? {
      forall w ensures w in WalkObj(env, t, objs[i], here) <==> FieldLeaf(env, fields, objs, segs, i, w) {
        ScalarLeaf(env, fields, objs, segs, i, w);
      }
    } else if t.Slice? {
      WalkListVisits(env, fields, objs, i, segs);
    } else if objs[i].Rec? {
      WalkFieldsVisit(env, t.fields, objs[i].objs, 0, here);
      forall w ensures w in WalkObj(env, t, objs[i], here) <==> FieldLeaf(env, fields, objs, segs, i, w) {
        StepLeaf(env, fields, objs, segs, i, w);
      }
    }
  }

  lemma {:induction false} WalkListVisits(env: Env, fields: seq<Field>, objs: seq<Obj>, i: nat, segs: Path)
    requires Walkable(env, fields, objs) && i < |fields| && fields[i].type_.Slice? && objs[i].Elems?
    ensures var ws := WalkElems(env, fields[i].type_, objs[i].elems, 0, segs + TagSegs(fields[i].tag));
            Once(ws) && forall w :: w in ws <==> FieldLeaf(env, fields, objs, segs, i, w)
    decreases fields[i].type_, 1, 0
  {
    var t, elems, here := fields[i].type_, objs[i].elems, segs + TagSegs(fields[i].tag);
    assert TypedObj(env, t, objs[i]) && GoodType(t);
    WalkElemsVisit(env, t, elems, 0, here);
    forall w ensures w in WalkElems(env, t, elems, 0, here) <==> FieldLeaf(env, fields, objs, segs, i, w) {
      if FieldLeaf(env, fields, objs, segs, i, w) { var j := SomeElem(env, fields, objs, segs, i, w); }
      if ElemFrom(env, t, elems, here, 0, w) {
        var j :| 0 <= j < |elems| && ElemLeaf(env, t, elems, here, j, w);
        ElemStep(env, fields, objs, segs, i, j, w);
      }
    }
  }

  /** Leaves of the elements from number `i` on. */
  ghost predicate ElemFrom(env: Env, t: Type, elems: seq<Obj>, segs: Path, i: nat, w: Stored) {
    exists j :: i <= j < |elems| && ElemLeaf(env, t, elems, segs, j, w)
  }

  lemma {:induction false} WalkElemsVisit(env: Env, t: Type, elems: seq<Obj>, i: nat, segs: Path)
    requires StableKeys(env) && GoodType(t) && t.Slice? && TypedObj(env, t, Elems(elems)) && i <= |elems| && segs != []
    ensures var ws := WalkElems(env, t, elems, i, segs);
            Once(ws) && forall w :: w in ws <==> ElemFrom(env, t, elems, segs, i, w)
    decreases t.fields, 3, |elems| - i
  {
    if i < |elems| {
      var a, b := WalkElemAt(env, t, elems, i, segs), WalkElems(env, t, elems, i + 1, segs);
      WalkElemVisits(env, t, elems, i, segs);
      WalkElemsVisit(env, t, elems, i + 1, segs);
      forall x, y | x in a && y in b ensures x.path != y.path {
        var j :| i + 1 <= j < |elems| && ElemLeaf(env, t, elems, segs, j, y);
        ElemsApart(env, t, elems, segs, i, j, x, y);
      }
      OnceConcat(a, b);
      forall w ensures w in a + b <==> ElemFrom(env, t, elems, segs, i, w) {
        if j :| i <= j < |elems| && ElemLeaf(env, t, elems, segs, j, w) {
          assert j == i || ElemFrom(env, t, elems, segs, i + 1, w);
        }
      }
    }
  }

  function WalkElemAt(env: Env, t: Type, elems: seq<Obj>, i: nat, segs: Path): seq<Stored>
    requires t.Slice? && i < |elems|
  {
    WalkRec(env, t.fields, elems[i], WithPredicate(segs, KeyName(t), ElemKey(env, t.key, elems[i])))
  }

  lemma {:induction false} WalkElemVisits(env: Env, t: Type, elems: seq<Obj>, i: nat, segs: Path)
    requires StableKeys(env) && GoodType(t) && t.Slice? && TypedObj(env, t, Elems(elems)) && i < |elems|
    ensures var ws := WalkElemAt(env, t, elems, i, segs);
            Once(ws) && forall w :: w in ws <==> ElemLeaf(env, t, elems, segs, i, w)
    decreases t.fields, 2, 0
  {
    assert Typed(env, t.fields, elems[i].objs);
    WalkFieldsVisit(env, t.fields, elems[i].objs, 0, WithPredicate(segs, KeyName(t), ElemKey(env, t.key, elems[i])));
  }

  lemma ElemsApart(env: Env, t: Type, elems: seq<Obj>, segs: Path, i: nat, j: nat, x: Stored, y: Stored)
    requires t.Slice? && segs != [] && DistinctKeys(env, t.key, elems) && i < j
    requires ElemLeaf(env, t, elems, segs, i, x) && ElemLeaf(env, t, elems, segs, j, y)
    ensures x.path != y.path
  {
    assert x.path[|segs| - 1].value == ElemKey(env, t.key, elems[i]);
    assert y.path[|segs| - 1].value == ElemKey(env, t.key, elems[j]);
  }

  /** The walk of a device visits every leaf, each once, with its address and value. */
  lemma {:induction false} WalkVisitsEveryLeafOnce(env: Env, fields: seq<Field>, device: seq<Obj>)
    requires Walkable(env, fields, device)
    ensures var ws := WalkFields(env, fields, device, 0, []);
            && Once(ws)
            && forall p, v :: Stored(p, v) in ws <==>
               Address(env, fields, p) && ReadLeaf(env, fields, device, p) == Some(v)
  {
    WalkFieldsVisit(env, fields, device, 0, []);
    forall p, v ensures LeafFrom(env, fields, device, [], 0, Stored(p, v)) <==>
                        Address(env, fields, p) && ReadLeaf(env, fields, device, p) == Some(v)
    {
      assert p[0..] == p;
    }
  }
}
