/** The managed object behind the flat map, as the reflection code of internal/router sees
    it: structs with tagged fields, optional sub-structs, keyed lists and scalars. */
module DeviceTree {
  import opened Wrappers
  import opened Leaves
  import opened Paths
  import opened Schema

  /** A struct field with its path tag; a tag of several parts names implicit containers. */
  datatype Field = Field(tag: seq<string>, type_: Type)

  /** `key` is the index of the key field of a list element. */
  datatype Type =
    | Scalar(kind: LeafKind)
    | Struct(fields: seq<Field>)
    | Pointer(fields: seq<Field>)
    | Slice(key: nat, fields: seq<Field>)

  datatype Obj = Val(value: Value) | Rec(objs: seq<Obj>) | Nil | Elems(elems: seq<Obj>)

  /** Value handling: how a key is rendered and parsed, which values a kind holds and what its
      zero value is. */
  datatype Env = Env(
    render: Value -> string,
    parse: (LeafKind, string) -> Option<Value>,
    fits: (LeafKind, Value) -> bool,
    zero: LeafKind -> Value)

  ghost predicate GoodEnv(env: Env) {
    && (forall kind :: env.fits(kind, env.zero(kind)))
    && (forall kind, s :: env.parse(kind, s).Some? ==> env.fits(kind, env.parse(kind, s).value))
  }

  // ------------------------------------------------------------------- field match

  predicate NamesMatch(tag: seq<string>, segs: Path) {
    |tag| <= |segs| && forall j :: 0 <= j < |tag| ==> segs[j].name == tag[j]
  }

  /** `matchField`: the longest matching tag, the first one of that length. */
  function Match(fields: seq<Field>, segs: Path): (r: Option<nat>)
    ensures r.Some? ==> r.value < |fields| && NamesMatch(fields[r.value].tag, segs) && fields[r.value].tag != []
    ensures r.None? ==> forall i :: 0 <= i < |fields| && NamesMatch(fields[i].tag, segs) ==> fields[i].tag == []
  {
    if fields == [] then None
    else
      var k := |fields| - 1;
      var best := Match(fields[..k], segs);
      var bestLen := if best.Some? then |fields[best.value].tag| else 0;
      if NamesMatch(fields[k].tag, segs) && |fields[k].tag| > bestLen then Some(k) else best
  }

  /** No matching tag is longer, and none as long comes before it. */
  lemma {:induction false} LongestMatch(fields: seq<Field>, segs: Path, i: nat)
    requires i < |fields| && NamesMatch(fields[i].tag, segs) && fields[i].tag != []
    ensures var r := Match(fields, segs);
            && r.Some? && |fields[i].tag| <= |fields[r.value].tag|
            && (|fields[i].tag| == |fields[r.value].tag| ==> r.value <= i)
    decreases |fields|
  {
    var k := |fields| - 1;
    if i < k { LongestMatch(fields[..k], segs, i); }
  }

  method MatchField(fields: seq<Field>, segs: Path) returns (r: Option<nat>)
    ensures r == Match(fields, segs)
  {
    var bestLen := 0;
    r := None;
    for i := 0 to |fields|
      invariant r == Match(fields[..i], segs)
      invariant bestLen == if r.Some? then |fields[r.value].tag| else 0
    {
      assert fields[..i + 1][..i] == fields[..i];
      if NamesMatch(fields[i].tag, segs) && |fields[i].tag| > bestLen {
        bestLen := |fields[i].tag|;
        r := Some(i);
      }
    }
    assert fields[..|fields|] == fields;
  }

  /** No tag is empty or a prefix of a sibling's. */
  predicate GoodFields(fields: seq<Field>) {
    && (forall i :: 0 <= i < |fields| ==> fields[i].tag != [])
    && (forall i, j :: 0 <= i < |fields| && 0 <= j < |fields| && i != j ==> !(fields[i].tag <= fields[j].tag))
    && (forall i :: 0 <= i < |fields| ==> GoodType(fields[i].type_))
  }

  /** A list element has a scalar key field with a one-part tag. */
  predicate GoodType(t: Type) {
    match t
    case Scalar(_) => true
    case Struct(fields) => GoodFields(fields)
    case Pointer(fields) => GoodFields(fields)
    case Slice(key, fields) =>
      GoodFields(fields) && key < |fields| && fields[key].type_.Scalar? && |fields[key].tag| == 1
        && fields[key].tag[0] != ""
  }

  lemma OnlyMatch(fields: seq<Field>, segs: Path, i: nat)
    requires GoodFields(fields) && i < |fields| && NamesMatch(fields[i].tag, segs)
    ensures Match(fields, segs) == Some(i)
  {
    var r := Match(fields, segs);
    var a, b := fields[i].tag, fields[r.value].tag;
    assert a <= b || b <= a;
  }

  lemma GoodInner(fields: seq<Field>, i: nat)
    requires GoodFields(fields) && i < |fields| && !fields[i].type_.Scalar?
    ensures GoodType(fields[i].type_) && GoodFields(fields[i].type_.fields)
  {
  }

  predicate Keyed(t: Type) {
    t.Slice? && t.key < |t.fields| && t.fields[t.key].type_.Scalar? && |t.fields[t.key].tag| == 1
  }

  /** `keyTagName`. */
  function KeyName(t: Type): string {
    if Keyed(t) then t.fields[t.key].tag[0] else ""
  }

  // ------------------------------------------------------------------ typed values

  ghost predicate Typed(env: Env, fields: seq<Field>, objs: seq<Obj>) {
    |objs| == |fields| && forall i :: 0 <= i < |fields| ==> TypedObj(env, fields[i].type_, objs[i])
  }

  ghost predicate TypedObj(env: Env, t: Type, obj: Obj) {
    match t
    case Scalar(kind) => obj.Val? && env.fits(kind, obj.value)
    case Struct(fields) => obj.Rec? && Typed(env, fields, obj.objs)
    case Pointer(fields) => obj.Nil? || (obj.Rec? && Typed(env, fields, obj.objs))
    case Slice(key, fields) =>
      && obj.Elems?
      && (forall i :: 0 <= i < |obj.elems| ==> obj.elems[i].Rec? && Typed(env, fields, obj.elems[i].objs))
      && (key < |fields| && fields[key].type_.Scalar? ==> DistinctKeys(env, key, obj.elems))
  }

  predicate DistinctKeys(env: Env, key: nat, elems: seq<Obj>) {
    forall i, j :: 0 <= i < j < |elems| ==> ElemKey(env, key, elems[i]) != ElemKey(env, key, elems[j])
  }

  /** The rendered key of a list element. */
  function ElemKey(env: Env, key: nat, elem: Obj): string {
    if elem.Rec? && key < |elem.objs| && elem.objs[key].Val? then env.render(elem.objs[key].value) else ""
  }

  function FindElem(env: Env, key: nat, elems: seq<Obj>, value: string): (r: Option<nat>)
    ensures r.Some? ==> r.value < |elems| && ElemKey(env, key, elems[r.value]) == value
    ensures r.None? ==> forall i :: 0 <= i < |elems| ==> ElemKey(env, key, elems[i]) != value
  {
    if elems == [] then None
    else if ElemKey(env, key, elems[0]) == value then Some(0)
    else
      match FindElem(env, key, elems[1..], value)
      case None => None
      case Some(i) => Some(i + 1)
  }

  lemma FieldTyped(env: Env, fields: seq<Field>, objs: seq<Obj>, i: nat)
    requires Typed(env, fields, objs) && i < |fields|
    ensures TypedObj(env, fields[i].type_, objs[i])
  {
  }

  lemma TypedLength(env: Env, fields: seq<Field>, objs: seq<Obj>)
    requires Typed(env, fields, objs)
    ensures |objs| == |fields|
  {
  }

  /** A freshly allocated value: zero scalars, no lists entries, nil pointers. */
  function ZeroObj(env: Env, t: Type): Obj {
    match t
    case Scalar(kind) => Val(env.zero(kind))
    case Struct(fields) => Rec(ZeroFields(env, fields))
    case Pointer(_) => Nil
    case Slice(_, _) => Elems([])
  }

  function ZeroFields(env: Env, fields: seq<Field>): (objs: seq<Obj>)
    ensures |objs| == |fields|
    ensures forall i :: 0 <= i < |fields| ==> objs[i] == ZeroObj(env, fields[i].type_)
  {
    if fields == [] then [] else [ZeroObj(env, fields[0].type_)] + ZeroFields(env, fields[1..])
  }

  lemma {:induction false} ZeroTyped(env: Env, fields: seq<Field>)
    requires GoodEnv(env)
    ensures Typed(env, fields, ZeroFields(env, fields))
    decreases fields, 1
  {
    forall i | 0 <= i < |fields| ensures TypedObj(env, fields[i].type_, ZeroObj(env, fields[i].type_)) {
      if fields[i].type_.Struct? { ZeroTyped(env, fields[i].type_.fields); }
    }
  }

  // --------------------------------------------------------------------- addresses

  /** The strict spelling of a field's own segments, given its key predicate if it is a list. */
  predicate SpelledAs(field: Field, segs: Path) {
    && NamesMatch(field.tag, segs) && field.tag != []
    && (forall j :: 0 <= j < |field.tag| - 1 ==> segs[j] == Segment(field.tag[j], "", ""))
    && (!field.type_.Slice? ==> segs[|field.tag| - 1] == Segment(field.tag[|field.tag| - 1], "", ""))
  }

  /** The key text survives being parsed into the key field and rendered again. */
  predicate CanonicalKey(env: Env, t: Type, value: string) {
    Keyed(t) && var v := env.parse(t.fields[t.key].type_.kind, value); v.Some? && env.render(v.value) == value
  }

  /** `segs` is the strictly spelled address of a scalar. */
  predicate Address(env: Env, fields: seq<Field>, segs: Path)
    decreases |segs|
  {
    Match(fields, segs).Some? &&
    var field := fields[Match(fields, segs).value];
    var last, rest := segs[|field.tag| - 1], segs[|field.tag|..];
    && SpelledAs(field, segs)
    && match field.type_ {
         case Scalar(_) => rest == []
         case Struct(fs) => Address(env, fs, rest)
         case Pointer(fs) => Address(env, fs, rest)
         case Slice(_, fs) =>
           last.key == KeyName(field.type_) && CanonicalKey(env, field.type_, last.value) && Address(env, fs, rest)
       }
  }

  /** `segs` strictly spells a list entry. */
  predicate EntryAddress(env: Env, fields: seq<Field>, segs: Path)
    decreases |segs|
  {
    Match(fields, segs).Some? &&
    var field := fields[Match(fields, segs).value];
    var last, rest := segs[|field.tag| - 1], segs[|field.tag|..];
    && SpelledAs(field, segs)
    && match field.type_ {
         case Scalar(_) => false
         case Struct(fs) => EntryAddress(env, fs, rest)
         case Pointer(fs) => EntryAddress(env, fs, rest)
         case Slice(_, fs) =>
           && last.key == KeyName(field.type_) && CanonicalKey(env, field.type_, last.value)
           && (rest == [] || EntryAddress(env, fs, rest))
       }
  }

  /** Where a strictly spelled step leads: the fields and values of the sub-struct. */
  function Enter(env: Env, field: Field, obj: Obj, last: Segment): Option<seq<Obj>> {
    match field.type_
    case Scalar(_) => None
    case Struct(_) => if obj.Rec? then Some(obj.objs) else None
    case Pointer(_) => if obj.Rec? then Some(obj.objs) else None
    case Slice(key, _) =>
      if !obj.Elems? then None
      else
        match FindElem(env, key, obj.elems, last.value)
        case None => None
        case Some(e) => if obj.elems[e].Rec? then Some(obj.elems[e].objs) else None
  }

  /** Reading the leaf at an address. */
  function ReadLeaf(env: Env, fields: seq<Field>, objs: seq<Obj>, segs: Path): Option<Value>
    requires |objs| == |fields|
    decreases |segs|
  {
    match Match(fields, segs)
    case None => None
    case Some(i) =>
      var n := |fields[i].tag|;
      if fields[i].type_.Scalar? then
        if |segs| == n && objs[i].Val? then Some(objs[i].value) else None
      else
        match Enter(env, fields[i], objs[i], segs[n - 1])
        case None => None
        case Some(inner) =>
          if |inner| == |fields[i].type_.fields| then ReadLeaf(env, fields[i].type_.fields, inner, segs[n..]) else None
  }

  /** The list entry at an address exists. */
  predicate HasEntry(env: Env, fields: seq<Field>, objs: seq<Obj>, segs: Path)
    requires |objs| == |fields|
    decreases |segs|
  {
    match Match(fields, segs)
    case None => false
    case Some(i) =>
      var n := |fields[i].tag|;
      match Enter(env, fields[i], objs[i], segs[n - 1])
      case None => false
      case Some(inner) =>
        if |segs| == n then fields[i].type_.Slice?
        else |inner| == |fields[i].type_.fields| && HasEntry(env, fields[i].type_.fields, inner, segs[n..])
  }
}
