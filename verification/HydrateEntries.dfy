/** Which list entries and which leaves an assignment brings into being. */
module HydrateEntries {
  import opened Wrappers
  import opened Leaves
  import opened Paths
  import opened DeviceTree
  import opened Hydrate

  lemma MatchPrefix(fields: seq<Field>, e: Path, p: Path)
    requires GoodFields(fields) && e <= p && Match(fields, e).Some?
    ensures Match(fields, p) == Match(fields, e)
  {
    OnlyMatch(fields, p, Match(fields, e).value);
  }

  lemma {:induction false} HasUnfold(env: Env, fields: seq<Field>, objs: seq<Obj>, e: Path, i: nat, inner: seq<Obj>)
    requires |objs| == |fields| && Match(fields, e) == Some(i)
    requires Enter(env, fields[i], objs[i], e[|fields[i].tag| - 1]) == Some(inner)
             && |inner| == |fields[i].type_.fields|
    ensures HasEntry(env, fields, objs, e) ==
              if |e| == |fields[i].tag| then fields[i].type_.Slice?
              else HasEntry(env, fields[i].type_.fields, inner, e[|fields[i].tag|..])
  {
  }

  lemma {:induction false} HasDependsOnField(env: Env, fields: seq<Field>, a: seq<Obj>, b: seq<Obj>, e: Path, j: nat)
    requires |a| == |b| == |fields| && Match(fields, e) == Some(j) && a[j] == b[j]
    ensures HasEntry(env, fields, a, e) == HasEntry(env, fields, b, e)
  {
  }

  /** Fresh values hold no entries, and every leaf of theirs is in any value of the type. */
  lemma {:induction false} ZeroHasNothing(env: Env, fields: seq<Field>, objs: seq<Obj>, e: Path)
    requires |objs| == |fields|
    requires forall i :: 0 <= i < |fields| && !fields[i].type_.Scalar? ==> objs[i] == ZeroObj(env, fields[i].type_)
    ensures !HasEntry(env, fields, objs, e)
    decreases |e|
  {
    if Match(fields, e).Some? {
      var i := Match(fields, e).value;
      if fields[i].type_.Struct? {
        ZeroHasNothing(env, fields[i].type_.fields, ZeroFields(env, fields[i].type_.fields), e[|fields[i].tag|..]);
      }
    }
  }

  lemma {:induction false} ZeroIsLeast(env: Env, fields: seq<Field>, objs: seq<Obj>, other: seq<Obj>, q: Path)
    requires |objs| == |fields| && Typed(env, fields, other)
    requires forall i :: 0 <= i < |fields| && !fields[i].type_.Scalar? ==> objs[i] == ZeroObj(env, fields[i].type_)
    requires ReadLeaf(env, fields, objs, q).Some?
    ensures ReadLeaf(env, fields, other, q).Some?
    decreases |q|
  {
    var i := Match(fields, q).value;
    if fields[i].type_.Struct? {
      ZeroIsLeast(env, fields[i].type_.fields, ZeroFields(env, fields[i].type_.fields), other[i].objs,
        q[|fields[i].tag|..]);
    }
  }

  /** A freshly prepared sub-struct is a zero value, apart from its key. */
  lemma {:induction false} PreparedIsZero(env: Env, field: Field, obj: Obj, last: Segment)
    requires GoodEnv(env) && GoodType(field.type_) && !field.type_.Scalar? && TypedObj(env, field.type_, obj)
    requires field.type_.Slice? ==>
             last.key == KeyName(field.type_) && last.key != "" && CanonicalKey(env, field.type_, last.value)
    requires Enter(env, field, obj, last).None?
    ensures Prepare(env, field, obj, last).Some? && Enter(env, field, Prepare(env, field, obj, last).value, last).Some?
    ensures var inner, fs := Enter(env, field, Prepare(env, field, obj, last).value, last).value, field.type_.fields;
            |inner| == |fs| && forall i :: 0 <= i < |fs| && !fs[i].type_.Scalar? ==>
              inner[i] == ZeroObj(env, fs[i].type_)
  {
    PrepareOk(env, field, obj, last);
    if field.type_.Slice? { AppendTyped(env, field.type_, obj, last); }
  }

  /** Entries after an assignment: those there before, and those the path goes through. */
  lemma {:induction false} AssignEntries(env: Env, fields: seq<Field>, objs: seq<Obj>, p: Path, v: Value, e: Path)
    requires Assignable(env, fields, objs, p, v) && EntryAddress(env, fields, e)
    ensures Assign(env, fields, objs, p, v).Some?
    ensures HasEntry(env, fields, Assign(env, fields, objs, p, v).value, e) <==>
            HasEntry(env, fields, objs, e) || e <= p
    decreases |p|, 1
  {
    AssignReads(env, fields, objs, p, v);
    var j := Match(fields, e).value;
    if Match(fields, p) == Some(j) {
      AssignEntriesInner(env, fields, objs, p, v, e, j);
    } else {
      AssignTouches(env, fields, objs, p, v, j);
      HasDependsOnField(env, fields, objs, Assign(env, fields, objs, p, v).value, e, j);
      if e <= p { MatchPrefix(fields, e, p); }
    }
  }

  lemma {:induction false} AssignEntriesInner(
    env: Env, fields: seq<Field>, objs: seq<Obj>, p: Path, v: Value, e: Path, j: nat)
    requires Assignable(env, fields, objs, p, v) && EntryAddress(env, fields, e)
    requires Match(fields, p) == Some(j) && Match(fields, e) == Some(j)
    ensures Assign(env, fields, objs, p, v).Some?
    ensures HasEntry(env, fields, Assign(env, fields, objs, p, v).value, e) <==>
            HasEntry(env, fields, objs, e) || e <= p
    decreases |p|, 0
  {
    hide Assign, Match, HasEntry, EntryAddress, Address, GoodFields, GoodEnv, Typed;
    hide Enter, Prepare, Storable, CanonicalKey;
    var t, n := fields[j].type_, |fields[j].tag|;
    EntryStep(env, fields, e, j);
    var inner, written := AssignStep(env, fields, objs, p, v, j, e[n - 1]);
    var after := Assign(env, fields, objs, p, v).value;
    if t.Slice? && e[n - 1].value != p[n - 1].value {
      SameEnterSameEntry(env, fields, objs, after, e, j);
    } else {
      SharedStep(env, fields, p, e, j);
      HasUnfold(env, fields, after, e, j, written);
      if |e| > n {
        AssignEntries(env, t.fields, inner, p[n..], v, e[n..]);
        EntryBefore(env, fields, objs, p, e, j, inner);
      }
    }
  }

  lemma {:induction false} SharedStep(env: Env, fields: seq<Field>, p: Path, e: Path, j: nat)
    requires Address(env, fields, p) && EntryAddress(env, fields, e) && Match(fields, p) == Some(j)
             && Match(fields, e) == Some(j)
    requires fields[j].type_.Slice? ==> e[|fields[j].tag| - 1].value == p[|fields[j].tag| - 1].value
    ensures e[|fields[j].tag| - 1] == p[|fields[j].tag| - 1]
    ensures e <= p <==> e[|fields[j].tag|..] <= p[|fields[j].tag|..]
  {
    var n := |fields[j].tag|;
    EntryStep(env, fields, e, j);
    SameField(fields[j], p, e);
    SharedFront(p, e, n);
  }

  lemma {:induction false} EntryStep(env: Env, fields: seq<Field>, e: Path, j: nat)
    requires EntryAddress(env, fields, e) && Match(fields, e) == Some(j)
    ensures var t, n := fields[j].type_, |fields[j].tag|;
            && !t.Scalar? && SpelledAs(fields[j], e)
            && (t.Slice? ==> e[n - 1].key == KeyName(t) && CanonicalKey(env, t, e[n - 1].value))
            && (|e| == n ==> t.Slice?)
            && (|e| > n ==> EntryAddress(env, t.fields, e[n..]))
  {
    assert |e| == |fields[j].tag| ==> e[|fields[j].tag|..] == [];
  }

  lemma {:induction false} EntryMatches(env: Env, fields: seq<Field>, e: Path) returns (i: nat)
    requires EntryAddress(env, fields, e)
    ensures Match(fields, e) == Some(i) && i < |fields| && !fields[i].type_.Scalar? && 0 < |fields[i].tag| <= |e|
  {
    i := Match(fields, e).value;
  }

  lemma {:induction false} SameEnterSameEntry(env: Env, fields: seq<Field>, a: seq<Obj>, b: seq<Obj>, e: Path, j: nat)
    requires |a| == |b| == |fields| && Match(fields, e) == Some(j)
    requires Enter(env, fields[j], a[j], e[|fields[j].tag| - 1]) == Enter(env, fields[j], b[j], e[|fields[j].tag| - 1])
    ensures HasEntry(env, fields, a, e) == HasEntry(env, fields, b, e)
  {
  }

  /** Below the step both paths share, an entry was there before exactly when the sub-struct
      the assignment found or made has it. */
  lemma {:induction false} EntryBefore(
    env: Env, fields: seq<Field>, objs: seq<Obj>, p: Path, e: Path, j: nat, inner: seq<Obj>)
    requires GoodEnv(env) && GoodFields(fields) && Typed(env, fields, objs) && Match(fields, e) == Some(j)
             && !fields[j].type_.Scalar?
    requires |e| > |fields[j].tag| && |fields[j].tag| <= |p| && e[|fields[j].tag| - 1] == p[|fields[j].tag| - 1]
    requires var last, t := e[|fields[j].tag| - 1], fields[j].type_;
             t.Slice? ==> last.key == KeyName(t) && last.key != "" && CanonicalKey(env, t, last.value)
    requires var last := e[|fields[j].tag| - 1];
             && Prepare(env, fields[j], objs[j], last).Some?
             && Enter(env, fields[j], Prepare(env, fields[j], objs[j], last).value, last) == Some(inner)
             && (Enter(env, fields[j], objs[j], last).Some? ==> Enter(env, fields[j], objs[j], last) == Some(inner))
    requires |inner| == |fields[j].type_.fields|
    ensures HasEntry(env, fields, objs, e) == HasEntry(env, fields[j].type_.fields, inner, e[|fields[j].tag|..])
  {
    var last := e[|fields[j].tag| - 1];
    if Enter(env, fields[j], objs[j], last).Some? {
      HasUnfold(env, fields, objs, e, j, inner);
    } else {
      GoodInner(fields, j);
      PreparedIsZero(env, fields[j], objs[j], last);
      ZeroHasNothing(env, fields[j].type_.fields, inner, e[|fields[j].tag|..]);
    }
  }

  lemma {:induction false} ReadEntered(
    env: Env, fields: seq<Field>, objs: seq<Obj>, p: Path, i: nat)
    returns (inner: seq<Obj>)
    requires GoodFields(fields) && Typed(env, fields, objs) && ReadLeaf(env, fields, objs, p).Some?
    requires Match(fields, p) == Some(i) && !fields[i].type_.Scalar?
    ensures var t, n := fields[i].type_, |fields[i].tag|;
            && Enter(env, fields[i], objs[i], p[n - 1]) == Some(inner) && |inner| == |t.fields|
            && GoodFields(t.fields) && Typed(env, t.fields, inner) && ReadLeaf(env, t.fields, inner, p[n..]).Some?
  {
    GoodInner(fields, i);
    inner := Enter(env, fields[i], objs[i], p[|fields[i].tag| - 1]).value;
    EnterTyped(env, fields[i], objs[i], p[|fields[i].tag| - 1]);
  }

  /** Leaves after an assignment: those there before, and ones that any device holding the
      assigned leaf must have. */
  lemma {:induction false} AssignWithin(
    env: Env, fields: seq<Field>, objs: seq<Obj>, tmpl: seq<Obj>, p: Path, v: Value, q: Path)
    requires Assignable(env, fields, objs, p, v) && Typed(env, fields, tmpl) && ReadLeaf(env, fields, tmpl, p).Some?
    requires Address(env, fields, q)
    requires Assign(env, fields, objs, p, v).Some?
             && ReadLeaf(env, fields, Assign(env, fields, objs, p, v).value, q).Some?
    ensures ReadLeaf(env, fields, objs, q).Some? || ReadLeaf(env, fields, tmpl, q).Some?
    decreases |p|, 1
  {
    var j := Match(fields, q).value;
    if Match(fields, p) == Some(j) {
      if p != q {
        SameStep(env, fields, p, q, j);
        AssignWithinInner(env, fields, objs, tmpl, p, v, q, j);
      }
    } else {
      AssignTouches(env, fields, objs, p, v, j);
      ReadDependsOnField(env, fields, objs, Assign(env, fields, objs, p, v).value, q, j);
    }
  }

  lemma {:induction false} AssignWithinInner(
    env: Env, fields: seq<Field>, objs: seq<Obj>, tmpl: seq<Obj>, p: Path, v: Value, q: Path, j: nat)
    requires Assignable(env, fields, objs, p, v) && Typed(env, fields, tmpl) && ReadLeaf(env, fields, tmpl, p).Some?
    requires Address(env, fields, q)
    requires Match(fields, p) == Some(j) && Match(fields, q) == Some(j) && !fields[j].type_.Scalar?
    requires var n := |fields[j].tag|;
             (fields[j].type_.Slice? && q[n - 1].value != p[n - 1].value) || (p[n - 1] == q[n - 1] && p[n..] != q[n..])
    requires Assign(env, fields, objs, p, v).Some?
             && ReadLeaf(env, fields, Assign(env, fields, objs, p, v).value, q).Some?
    ensures ReadLeaf(env, fields, objs, q).Some? || ReadLeaf(env, fields, tmpl, q).Some?
    decreases |p|, 0
  {
    hide Assign, Match, ReadLeaf, Address, GoodFields, GoodEnv, Prepare, Storable, CanonicalKey;
    var t, n := fields[j].type_, |fields[j].tag|;
    var inner, written := AssignStep(env, fields, objs, p, v, j, q[n - 1]);
    var after := Assign(env, fields, objs, p, v).value;
    if t.Slice? && q[n - 1].value != p[n - 1].value {
      SameEnterSameRead(env, fields, objs, after, q, j);
    } else {
      ReadUnfold(env, fields, after, q, j, written);
      var tinner := ReadEntered(env, fields, tmpl, p, j);
      AddressStep(env, fields, q, j);
      ReadUnfold(env, fields, tmpl, q, j, tinner);
      AssignWithin(env, t.fields, inner, tinner, p[n..], v, q[n..]);
      if Enter(env, fields[j], objs[j], p[n - 1]).Some? {
        ReadUnfold(env, fields, objs, q, j, inner);
      } else {
        PreparedIsZero(env, fields[j], objs[j], p[n - 1]);
        if ReadLeaf(env, t.fields, inner, q[n..]).Some? { ZeroIsLeast(env, t.fields, inner, tinner, q[n..]); }
      }
    }
  }

  lemma {:induction false} EnterTyped(env: Env, field: Field, obj: Obj, last: Segment)
    requires !field.type_.Scalar? && TypedObj(env, field.type_, obj) && Enter(env, field, obj, last).Some?
    ensures Typed(env, field.type_.fields, Enter(env, field, obj, last).value)
  {
  }
}
