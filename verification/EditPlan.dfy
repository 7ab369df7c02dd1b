/** The meaning of an edit request (internal/datatree/edit.go) without the walk: a document
    tree denotes a list of primitive actions on the flat map, fixed before the map is looked
    at. Its laws follow from that list alone. */
module EditPlan {
  import opened Wrappers
  import opened Text
  import opened Leaves
  import opened Paths
  import opened Schema

  datatype Op = Merge | Replace | Create | Delete | Remove | Keep

  /** A request node; `operation` is its operation attribute, if it has one. */
  datatype Document = Document(name: string, text: string, operation: Option<string>, children: seq<Document>)

  datatype Error = UnknownElement | InvalidValue | AccessDenied | DataExists | DataMissing | MissingElement | Failed

  /** What the engine asks of the router. `parse` reads character data, `present` says that the
      device template can hold a path, `coerce` fits a value to the leaf's type. */
  datatype Router = Router(
    schema: seq<Node>,
    parse: (LeafKind, string) -> Option<Value>,
    present: Path -> bool,
    coerce: (LeafKind, Value) -> Option<Value>)

  datatype ConvertError = NotFound | ReadOnly | BadValue

  /** `Router.Convert`. */
  function Convert(r: Router, path: Path, value: Value): (res: Result<Value, ConvertError>)
    ensures res.Ok? ==> IsConfig(r.schema, path)
  {
    match Resolve(r.schema, path)
    case None => Err(NotFound)
    case Some(leaf) =>
      if !r.present(path) then Err(NotFound)
      else if !leaf.config then Err(ReadOnly)
      else
        match r.coerce(leaf.kind, value)
        case None => Err(BadValue)
        case Some(v) => Ok(v)
  }

  // ----------------------------------------------------------- primitive actions

  /** `Clear` drops the configuration leaves of a subtree, `Put` sets one leaf, `DeleteLeaf`
      and `RemoveLeaf` drop one; the others only check. A check that fails stops the edit, and
      `Fail` stands for a fault of the document itself. */
  datatype Action =
    | Clear(path: Path)
    | Put(path: Path, value: Value)
    | DeleteLeaf(path: Path)
    | RemoveLeaf(path: Path)
    | NeedData(path: Path)
    | NeedNoData(path: Path)
    | NeedNoLeaf(path: Path)
    | Fail(error: Error)

  predicate ConfigIn(r: Router, t: Tree, p: Path) {
    p in t && IsConfig(r.schema, p)
  }

  /** The node at `path` holds configuration data. */
  predicate HoldsData(r: Router, t: Tree, path: Path) {
    exists p :: p in t && path <= p && IsConfig(r.schema, p)
  }

  function Cleared(r: Router, t: Tree, path: Path): Tree {
    map p | p in t && !(path < p && IsConfig(r.schema, p)) && p != path :: t[p]
  }

  predicate Passes(r: Router, t: Tree, a: Action) {
    match a
    case NeedData(path) => HoldsData(r, t, path)
    case NeedNoData(path) => !HoldsData(r, t, path)
    case NeedNoLeaf(path) => !ConfigIn(r, t, path)
    case DeleteLeaf(path) => ConfigIn(r, t, path)
    case RemoveLeaf(path) => path in t ==> IsConfig(r.schema, path)
    case Fail(_) => false
    case _ => true
  }

  /** The error a failing check reports. */
  function Fault(t: Tree, a: Action): Error {
    match a
    case NeedData(_) => DataMissing
    case DeleteLeaf(path) => if path in t then AccessDenied else DataMissing
    case RemoveLeaf(_) => AccessDenied
    case Fail(error) => error
    case _ => DataExists
  }

  function Effect(r: Router, t: Tree, a: Action): Tree {
    match a
    case Clear(path) => Cleared(r, t, path)
    case Put(path, value) => t[path := value]
    case DeleteLeaf(path) => t - {path}
    case RemoveLeaf(path) => t - {path}
    case _ => t
  }

  /** The document-order composition, up to the first check that fails. */
  function Perform(r: Router, t: Tree, actions: seq<Action>): Result<Tree, Error>
    decreases actions
  {
    if actions == [] then Ok(t)
    else if !Passes(r, t, actions[0]) then Err(Fault(t, actions[0]))
    else Perform(r, Effect(r, t, actions[0]), actions[1..])
  }

  // ------------------------------------------------------------------ the plan

  function ParseOperation(attribute: Option<string>): Result<Option<Op>, Error> {
    match attribute
    case None => Ok(None)
    case Some(text) =>
      if text == "merge" then Ok(Some(Merge))
      else if text == "replace" then Ok(Some(Replace))
      else if text == "create" then Ok(Some(Create))
      else if text == "delete" then Ok(Some(Delete))
      else if text == "remove" then Ok(Some(Remove))
      else Err(InvalidValue)
  }

  function ChildOperation(op: Op): Op {
    if op == Replace || op == Create then Merge else op
  }

  function FirstChild(docs: seq<Document>, name: string): (r: Option<Document>)
    ensures r.Some? ==> r.value in docs && r.value.name == name
  {
    if docs == [] then None
    else if docs[0].name == name then Some(docs[0])
    else FirstChild(docs[1..], name)
  }

  /** `listKey`. */
  function ListKey(doc: Document, key: string): (res: Result<string, Error>)
    ensures res.Ok? ==> res.value != "" && '/' !in res.value && '[' !in res.value && ']' !in res.value
    ensures res.Ok? ==> FirstChild(doc.children, key).Some?
  {
    match FirstChild(doc.children, key)
    case None => Err(MissingElement)
    case Some(child) =>
      var value := Trim(child.text);
      if value == "" then Err(MissingElement)
      else if '/' in value || '[' in value || ']' in value then Err(InvalidValue)
      else Ok(value)
  }

  function PlanLeaf(r: Router, path: Path, text: string, kind: LeafKind, op: Op): seq<Action> {
    match op
    case Keep => []
    case Delete => [DeleteLeaf(path)]
    case Remove => [RemoveLeaf(path)]
    case _ =>
      match r.parse(kind, Trim(text))
      case None => [Fail(InvalidValue)]
      case Some(value) =>
        match Convert(r, path, value)
        case Err(NotFound) => [Fail(UnknownElement)]
        case Err(ReadOnly) => [Fail(AccessDenied)]
        case Err(BadValue) => [Fail(InvalidValue)]
        case Ok(v) => if op == Create then [NeedNoLeaf(path), Put(path, v)] else [Put(path, v)]
  }

  function PlanSubtree(path: Path, op: Op): seq<Action> {
    match op
    case Create => [NeedNoData(path)]
    case Delete => [NeedData(path), Clear(path)]
    case Remove => [Clear(path)]
    case Replace => [Clear(path)]
    case _ => []
  }

  /** The actions of one document below `base`, whose schema children are `schema`. */
  function Plan(r: Router, doc: Document, base: Path, schema: seq<Node>, inherited: Op): seq<Action>
    decreases doc, 1
  {
    match ChildNamed(schema, doc.name)
    case None => [Fail(UnknownElement)]
    case Some(node) =>
      match ParseOperation(doc.operation)
      case Err(e) => [Fail(e)]
      case Ok(explicit) =>
        var op := if explicit.Some? then explicit.value else inherited;
        match node
        case Leaf(_, kind, _) => PlanLeaf(r, base + [Segment(doc.name, "", "")], doc.text, kind, op)
        case Container(_, _) => PlanInner(r, doc, base + [Segment(doc.name, "", "")], op)
        case List(_, key, _) =>
          match ListKey(doc, key)
          case Err(e) => [Fail(e)]
          case Ok(value) => PlanInner(r, doc, base + [Segment(doc.name, key, value)], op)
  }

  function PlanInner(r: Router, doc: Document, path: Path, op: Op): seq<Action>
    decreases doc, 0
  {
    if op == Delete || op == Remove then PlanSubtree(path, op)
    else
      PlanSubtree(path, op) +
      match Children(r.schema, path) {
        case None => [Fail(UnknownElement)]
        case Some(children) => PlanAll(r, doc.children, path, children, ChildOperation(op))
      }
  }

  function PlanAll(r: Router, docs: seq<Document>, base: Path, schema: seq<Node>, op: Op): seq<Action>
    decreases docs, 0
  {
    if docs == [] then []
    else Plan(r, docs[0], base, schema, op) + PlanAll(r, docs[1..], base, schema, op)
  }

  lemma {:induction false} PerformConcat(r: Router, t: Tree, a: seq<Action>, b: seq<Action>)
    ensures Perform(r, t, a + b) == if Perform(r, t, a).Err?
            then Perform(r, t, a) else Perform(r, Perform(r, t, a).value, b)
    decreases a
  {
    if a == [] {
      assert a + b == b;
    } else {
      assert (a + b)[0] == a[0] && (a + b)[1..] == a[1..] + b;
      if Passes(r, t, a[0]) { PerformConcat(r, Effect(r, t, a[0]), a[1..], b); }
    }
  }

  // -------------------------------------------------------------- what is planned

  /** The value came out of a conversion for that leaf. */
  ghost predicate Fitted(r: Router, path: Path, value: Value) {
    exists v :: Convert(r, path, v) == Ok(value)
  }

  /** Every action of a plan lies below `base`, values are put on configuration leaves only
      and cleared nodes are inner nodes. */
  ghost predicate SoundAction(r: Router, base: Path, a: Action) {
    a.Fail? ||
    (&& base < a.path
     && (a.Put? ==> IsConfig(r.schema, a.path) && Fitted(r, a.path, a.value))
     && (a.Clear? ==> !IsLeaf(r.schema, a.path)))
  }

  ghost predicate Sound(r: Router, base: Path, actions: seq<Action>) {
    forall a <- actions :: SoundAction(r, base, a)
  }

  lemma {:induction false} PlanSound(r: Router, doc: Document, base: Path, schema: seq<Node>, inherited: Op)
    requires Children(r.schema, base) == Some(schema)
    ensures Sound(r, base, Plan(r, doc, base, schema, inherited))
    decreases doc, 1
  {
    if ParseOperation(doc.operation).Ok? {
      var explicit := ParseOperation(doc.operation).value;
      var op := if explicit.Some? then explicit.value else inherited;
      match ChildNamed(schema, doc.name)
      case Some(Container(_, _)) => PlanInnerSound(r, doc, base, schema, Segment(doc.name, "", ""), op);
      case Some(List(_, key, _)) =>
        if ListKey(doc, key).Ok? {
          PlanInnerSound(r, doc, base, schema, Segment(doc.name, key, ListKey(doc, key).value), op);
        }
      case _ =>
    }
  }

  lemma {:induction false} PlanInnerSound(
    r: Router, doc: Document, base: Path, schema: seq<Node>, segment: Segment, op: Op)
    requires Children(r.schema, base) == Some(schema)
    requires ChildNamed(schema, segment.name).Some? && !ChildNamed(schema, segment.name).value.Leaf?
    ensures Sound(r, base, PlanInner(r, doc, base + [segment], op))
    decreases doc, 0
  {
    var path := base + [segment];
    ChildrenExtend(r.schema, base, segment);
    assert !IsLeaf(r.schema, path);
    if op != Delete && op != Remove && Children(r.schema, path).Some? {
      PlanAllSound(r, doc.children, path, Children(r.schema, path).value, ChildOperation(op));
    }
  }

  lemma {:induction false} PlanAllSound(r: Router, docs: seq<Document>, base: Path, schema: seq<Node>, op: Op)
    requires Children(r.schema, base) == Some(schema)
    ensures Sound(r, base, PlanAll(r, docs, base, schema, op))
    decreases docs, 0
  {
    if docs != [] {
      PlanSound(r, docs[0], base, schema, op);
      PlanAllSound(r, docs[1..], base, schema, op);
    }
  }

  // ------------------------------------------------------------------- frame

  function At(t: Tree, p: Path): Option<Value> {
    if p in t then Some(t[p]) else None
  }

  lemma EffectFrame(r: Router, base: Path, t: Tree, a: Action, p: Path)
    requires Conforms(r.schema, t) && SoundAction(r, base, a) && Passes(r, t, a)
    requires !IsConfig(r.schema, p) || !(base < p)
    ensures At(Effect(r, t, a), p) == At(t, p)
  {
    if a.path == p || (a.path < p && IsConfig(r.schema, p)) {
      assert base < p;
    }
  }

  /** State leaves and everything outside `base` are out of reach of an edit, and the map
      stays within the schema; every value it brings in was converted for its leaf. */
  lemma {:induction false} PerformFrame(r: Router, base: Path, t: Tree, actions: seq<Action>)
    requires Conforms(r.schema, t) && Sound(r, base, actions)
    requires Perform(r, t, actions).Ok?
    ensures Conforms(r.schema, Perform(r, t, actions).value)
    ensures forall p :: !IsConfig(r.schema, p) || !(base < p) ==> At(Perform(r, t, actions).value, p) == At(t, p)
    ensures forall p <- Perform(r, t, actions).value ::
              At(Perform(r, t, actions).value, p) == At(t, p) || Fitted(r, p, Perform(r, t, actions).value[p])
    decreases actions
  {
    if actions != [] {
      var next := Effect(r, t, actions[0]);
      assert SoundAction(r, base, actions[0]);
      PerformFrame(r, base, next, actions[1..]);
      forall p | !IsConfig(r.schema, p) || !(base < p)
        ensures At(Perform(r, t, actions).value, p) == At(t, p)
      {
        EffectFrame(r, base, t, actions[0], p);
      }
    }
  }

  // --------------------------------------------------------------- path spelling

  predicate Spellable(actions: seq<Action>) {
    forall a <- actions :: a.Fail? || (a.path != [] && WellFormed(a.path))
  }

  /** Every path a plan writes can be spelled and read back. */
  lemma {:induction false} PlanSpellable(r: Router, doc: Document, base: Path, schema: seq<Node>, inherited: Op)
    requires GoodNames(r.schema) && GoodNames(schema) && WellFormed(base)
    ensures Spellable(Plan(r, doc, base, schema, inherited))
    decreases doc, 1
  {
    hide PlanInner, ParseOperation, ListKey;
    if ParseOperation(doc.operation).Ok? {
      var explicit := ParseOperation(doc.operation).value;
      var op := if explicit.Some? then explicit.value else inherited;
      match ChildNamed(schema, doc.name)
      case Some(Container(_, _)) => PlanInnerSpellable(r, doc, base + [Segment(doc.name, "", "")], op);
      case Some(List(_, key, _)) =>
        if ListKey(doc, key).Ok? {
          PlanInnerSpellable(r, doc, base + [Segment(doc.name, key, ListKey(doc, key).value)], op);
        }
      case _ =>
    }
  }

  lemma {:induction false} PlanInnerSpellable(r: Router, doc: Document, path: Path, op: Op)
    requires GoodNames(r.schema) && path != [] && WellFormed(path)
    ensures Spellable(PlanInner(r, doc, path, op))
    decreases doc, 0
  {
    if op != Delete && op != Remove && Children(r.schema, path).Some? {
      ChildrenGoodNames(r.schema, path);
      PlanAllSpellable(r, doc.children, path, Children(r.schema, path).value, ChildOperation(op));
    }
  }

  lemma {:induction false} PlanAllSpellable(r: Router, docs: seq<Document>, base: Path, schema: seq<Node>, op: Op)
    requires GoodNames(r.schema) && GoodNames(schema) && WellFormed(base)
    ensures Spellable(PlanAll(r, docs, base, schema, op))
    decreases docs, 0
  {
    if docs != [] {
      PlanSpellable(r, docs[0], base, schema, op);
      PlanAllSpellable(r, docs[1..], base, schema, op);
    }
  }

  ghost predicate Canonical(t: Tree) {
    forall p <- t :: p != [] && WellFormed(p)
  }

  lemma {:induction false} PerformCanonical(r: Router, t: Tree, actions: seq<Action>)
    requires Canonical(t) && Spellable(actions) && Perform(r, t, actions).Ok?
    ensures Canonical(Perform(r, t, actions).value)
    decreases actions
  {
    if actions != [] {
      assert actions[0] in actions;
      PerformCanonical(r, Effect(r, t, actions[0]), actions[1..]);
    }
  }
}
