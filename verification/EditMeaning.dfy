/** What an edit request means (internal/datatree/edit.go), said of the places of its documents and
    not of a walk over them: which documents are visited, what each one does, and that the last one
    to touch a path decides. Module EditPlan is proved to carry this out, error for error. */
module EditMeaning {
  import opened Wrappers
  import opened Text
  import opened Leaves
  import opened Paths
  import opened Schema
  import opened EditPlan
  import L = EditLaws

  // -------------------------------------------------------------- one visited document

  /** A document with the schema nodes and the path of its parent and the operation it inherits. */
  datatype Visit = Visit(doc: Document, base: Path, siblings: seq<Node>, inherited: Op)

  /** The value of the operation attribute that asks for an operation. */
  function OperationText(op: Op): string {
    match op
    case Merge => "merge"
    case Replace => "replace"
    case Create => "create"
    case Delete => "delete"
    case Remove => "remove"
    case Keep => "none"
  }

  ghost predicate AsksFor(doc: Document, inherited: Op, op: Op) {
    if doc.operation.None? then op == inherited else op != Keep && doc.operation.value == OperationText(op)
  }

  /** The operation of the document: its own, or else the inherited one. */
  ghost function OpOf(visit: Visit): (r: Option<Op>)
    ensures r.Some? ==> AsksFor(visit.doc, visit.inherited, r.value)
    ensures r.None? ==> forall op :: !AsksFor(visit.doc, visit.inherited, op)
  {
    if op :| AsksFor(visit.doc, visit.inherited, op) then Some(op) else None
  }

  predicate IsFirst(docs: seq<Document>, name: string, i: nat) {
    i < |docs| && docs[i].name == name && forall j :: 0 <= j < i ==> docs[j].name != name
  }

  /** The trimmed text of the first child of that name. */
  ghost function KeyText(doc: Document, key: string): Option<string> {
    if i: nat :| IsFirst(doc.children, key, i) then Some(Trim(doc.children[i].text)) else None
  }

  predicate GoodKey(value: string) {
    value != "" && '/' !in value && '[' !in value && ']' !in value
  }

  function NodeOf(visit: Visit): Option<Node> { ChildNamed(visit.siblings, visit.doc.name) }

  /** A leaf, a container, or a list entry with a key. */
  ghost predicate Addressed(visit: Visit) {
    && NodeOf(visit).Some?
    && var node := NodeOf(visit).value;
       node.List? ==> KeyText(visit.doc, node.key).Some? && GoodKey(KeyText(visit.doc, node.key).value)
  }

  ghost function SegmentOf(visit: Visit): Segment
    requires Addressed(visit)
  {
    var node := NodeOf(visit).value;
    if node.List? then Segment(visit.doc.name, node.key, KeyText(visit.doc, node.key).value)
    else Segment(visit.doc.name, "", "")
  }

  ghost function PathOf(visit: Visit): Path
    requires Addressed(visit)
  {
    visit.base + [SegmentOf(visit)]
  }

  predicate Drops(op: Op) { op == Delete || op == Remove }

  predicate Wipes(op: Op) { Drops(op) || op == Replace }

  predicate Writes(op: Op) { op == Merge || op == Replace || op == Create }

  /** Its children are visited too: it is an inner node that is not dropped. */
  ghost predicate Enters(visit: Visit) {
    && Addressed(visit) && !NodeOf(visit).value.Leaf? && (NodeOf(visit).value.List? ==> NodeOf(visit).value.key != "")
    && OpOf(visit).Some? && !Drops(OpOf(visit).value)
  }

  /** What children without an attribute inherit: "none" stays, anything else is a merge. */
  function Passed(op: Op): Op { if op == Keep then Keep else Merge }

  /** Documents side by side, with what a visit of each of them takes. */
  datatype Level = Level(docs: seq<Document>, base: Path, siblings: seq<Node>, op: Op)

  function VisitOf(level: Level, k: nat): Visit
    requires k < |level.docs|
  {
    Visit(level.docs[k], level.base, level.siblings, level.op)
  }

  /** The children of a visited document. */
  ghost function Inside(visit: Visit): Level
    requires Enters(visit)
  {
    Level(visit.doc.children, PathOf(visit), NodeOf(visit).value.children, Passed(OpOf(visit).value))
  }

  // ------------------------------------------------------------------------- its effect

  /** The document itself, its children aside, decides what is at `p`: a leaf at its own path, a
      dropped or replaced node at all configuration below it. */
  ghost predicate Touches(r: Router, visit: Visit, p: Path) {
    && Addressed(visit) && OpOf(visit).Some?
    && if NodeOf(visit).value.Leaf? then OpOf(visit).value != Keep && p == PathOf(visit)
       else Wipes(OpOf(visit).value) && (p == PathOf(visit) || (PathOf(visit) < p && IsConfig(r.schema, p)))
  }

  /** The trimmed text, read for the type of the leaf and fitted to it. */
  function ValueOf(r: Router, kind: LeafKind, text: string): Option<Value> {
    match r.parse(kind, Trim(text))
    case None => None
    case Some(v) => r.coerce(kind, v)
  }

  /** What is then there: a written leaf has the value of its text, all else is gone. */
  ghost function Remains(r: Router, visit: Visit): Option<Value>
    requires Addressed(visit) && OpOf(visit).Some?
  {
    if NodeOf(visit).value.Leaf? && Writes(OpOf(visit).value)
    then ValueOf(r, NodeOf(visit).value.kind, visit.doc.text) else None
  }

  function LeafFault(r: Router, t: Tree, path: Path, leaf: Node, text: string, op: Op): Option<Error>
    requires leaf.Leaf?
  {
    if Drops(op) then
      if path in t && !leaf.config then Some(AccessDenied)
      else if op == Delete && path !in t then Some(DataMissing)
      else None
    else if Writes(op) then
      if r.parse(leaf.kind, Trim(text)).None? then Some(InvalidValue)
      else if !r.present(path) then Some(UnknownElement)
      else if !leaf.config then Some(AccessDenied)
      else if ValueOf(r, leaf.kind, text).None? then Some(InvalidValue)
      else if op == Create && path in t then Some(DataExists)
      else None
    else None
  }

  /** There is configuration at or below the path. */
  ghost predicate HasConfig(r: Router, t: Tree, path: Path) {
    exists p :: p in t && path <= p && IsConfig(r.schema, p)
  }

  /** Why the document is refused when the map is `t`, if it is. */
  ghost function FaultOf(r: Router, t: Tree, visit: Visit): (fault: Option<Error>)
    ensures fault.None? ==> Addressed(visit) && OpOf(visit).Some?
  {
    match NodeOf(visit)
    case None => Some(UnknownElement)
    case Some(node) =>
      if OpOf(visit).None? then Some(InvalidValue)
      else if node.List? && (KeyText(visit.doc, node.key).None? || KeyText(visit.doc, node.key).value == "") then
        Some(MissingElement)
      else if !Addressed(visit) then Some(InvalidValue)
      else
        var op, path := OpOf(visit).value, PathOf(visit);
        if node.Leaf? then LeafFault(r, t, path, node, visit.doc.text, op)
        else if op == Create && HasConfig(r, t, path) then Some(DataExists)
        else if op == Delete && !HasConfig(r, t, path) then Some(DataMissing)
        else if !Drops(op) && !Enters(visit) then Some(UnknownElement)
        else None
  }

  /** The map after a document that is not refused. */
  ghost function EffectOf(r: Router, t: Tree, visit: Visit): (u: Tree)
    requires FaultOf(r, t, visit).None?
    ensures forall p :: At(u, p) == if Touches(r, visit, p) then Remains(r, visit) else At(t, p)
  {
    if NodeOf(visit).value.Leaf? && Writes(OpOf(visit).value) then t[PathOf(visit) := Remains(r, visit).value]
    else map p | p in t && !Touches(r, visit, p) :: t[p]
  }

  /** One document after the other, up to the first that is refused. */
  ghost function Carried(r: Router, t: Tree, visits: seq<Visit>): Result<Tree, Error>
    decreases |visits|
  {
    if visits == [] then Ok(t)
    else
      match FaultOf(r, t, visits[0])
      case Some(e) => Err(e)
      case None => Carried(r, EffectOf(r, t, visits[0]), visits[1..])
  }

  lemma {:induction false} CarriedConcat(r: Router, t: Tree, a: seq<Visit>, b: seq<Visit>)
    ensures Carried(r, t, a + b) == if Carried(r, t, a).Err?
            then Carried(r, t, a) else Carried(r, Carried(r, t, a).value, b)
    decreases |a|
  {
    if a == [] {
      assert a + b == b;
    } else {
      assert (a + b)[0] == a[0] && (a + b)[1..] == a[1..] + b;
      if FaultOf(r, t, a[0]).None? { CarriedConcat(r, EffectOf(r, t, a[0]), a[1..], b); }
    }
  }

  // --------------------------------------------------------------- the visits of a request

  /** The visits from document number `k` of a level on, in the order of the text. */
  ghost function VisitsFrom(level: Level, k: nat): seq<Visit>
    requires k <= |level.docs|
    decreases level.docs, 0, |level.docs| - k
  {
    if k == |level.docs| then []
    else VisitsIn(VisitOf(level, k)) + VisitsFrom(level, k + 1)
  }

  ghost function VisitsIn(visit: Visit): seq<Visit>
    decreases visit.doc, 1, 0
  {
    [visit] + if Enters(visit) then VisitsBelow(visit) else []
  }

  ghost function VisitsBelow(visit: Visit): seq<Visit>
    requires Enters(visit)
    decreases visit.doc, 0, 0
  {
    VisitsFrom(Inside(visit), 0)
  }

  // ------------------------------------------------------------------ the plan carries it out

  lemma {:induction false} FirstChildIs(docs: seq<Document>, name: string)
    ensures FirstChild(docs, name).None? ==> forall i: nat :: !IsFirst(docs, name, i)
    ensures FirstChild(docs, name).Some? ==>
              exists i: nat :: IsFirst(docs, name, i) && docs[i] == FirstChild(docs, name).value
    decreases |docs|
  {
    if docs != [] && docs[0].name == name {
      assert IsFirst(docs, name, 0);
    } else if docs != [] {
      FirstChildIs(docs[1..], name);
      forall i: nat | IsFirst(docs, name, i) ensures i > 0 && IsFirst(docs[1..], name, i - 1) {
        assert i > 0;
        forall j | 0 <= j < i - 1 ensures docs[1..][j].name != name { assert docs[1..][j] == docs[j + 1]; }
      }
      if FirstChild(docs, name).Some? {
        var i: nat :| IsFirst(docs[1..], name, i) && docs[1..][i] == FirstChild(docs, name).value;
        forall j | 0 <= j < i + 1 ensures docs[j].name != name { if j > 0 { assert docs[1..][j - 1] == docs[j]; } }
        assert IsFirst(docs, name, i + 1);
      }
    }
  }

  lemma OneFirst(docs: seq<Document>, name: string, i: nat, j: nat)
    requires IsFirst(docs, name, i) && IsFirst(docs, name, j)
    ensures i == j
  {
  }

  lemma KeyIsText(doc: Document, key: string)
    ensures ListKey(doc, key) ==
            match KeyText(doc, key)
            case None => Err(MissingElement)
            case Some(value) =>
              if value == "" then Err(MissingElement) else if GoodKey(value) then Ok(value) else Err(InvalidValue)
  {
    hide Trim;
    FirstChildIs(doc.children, key);
    if FirstChild(doc.children, key).Some? {
      var i: nat :| IsFirst(doc.children, key, i) && doc.children[i] == FirstChild(doc.children, key).value;
      forall j: nat | IsFirst(doc.children, key, j) ensures j == i { OneFirst(doc.children, key, i, j); }
    }
  }

  lemma OperationIs(visit: Visit)
    ensures ParseOperation(visit.doc.operation) ==
            if visit.doc.operation.None? then Ok(None)
            else if OpOf(visit).Some? then Ok(OpOf(visit)) else Err(InvalidValue)
    ensures visit.doc.operation.None? ==> OpOf(visit) == Some(visit.inherited)
  {
    if visit.doc.operation.None? {
      assert AsksFor(visit.doc, visit.inherited, visit.inherited);
    } else {
      var text := visit.doc.operation.value;
      assert "create"[0] == 'c' && "delete"[0] == 'd' && "remove"[0] == 'r';
      if ParseOperation(Some(text)).Ok? {
        assert AsksFor(visit.doc, visit.inherited, ParseOperation(Some(text)).value.value);
      }
    }
  }

  /** The operation and the key as the plan finds them. */
  lemma PlanUnfolds(r: Router, visit: Visit)
    ensures var plan := Plan(r, visit.doc, visit.base, visit.siblings, visit.inherited);
            && (NodeOf(visit).None? ==> plan == [Fail(UnknownElement)])
            && (NodeOf(visit).Some? && OpOf(visit).None? ==> plan == [Fail(InvalidValue)])
            && (NodeOf(visit).Some? && OpOf(visit).Some? && !Addressed(visit) ==>
                  var key := KeyText(visit.doc, NodeOf(visit).value.key);
                  plan == [Fail(if key.None? || key.value == "" then MissingElement else InvalidValue)])
            && (Addressed(visit) && OpOf(visit).Some? ==>
                  var node, op, path := NodeOf(visit).value, OpOf(visit).value, PathOf(visit);
                  plan == if node.Leaf? then PlanLeaf(r, path, visit.doc.text, node.kind, op)
                          else PlanInner(r, visit.doc, path, op))
  {
    hide OpOf, KeyText, ListKey, ParseOperation, PlanLeaf, PlanInner;
    OperationIs(visit);
    if NodeOf(visit).Some? && NodeOf(visit).value.List? { KeyIsText(visit.doc, NodeOf(visit).value.key); }
  }

  lemma PerformOne(r: Router, t: Tree, a: Action)
    ensures Perform(r, t, [a]) == if Passes(r, t, a) then Ok(Effect(r, t, a)) else Err(Fault(t, a))
  {
  }

  lemma PerformTwo(r: Router, t: Tree, a: Action, b: Action)
    ensures Perform(r, t, [a, b]) ==
            if !Passes(r, t, a) then Err(Fault(t, a)) else Perform(r, Effect(r, t, a), [b])
  {
    assert [a, b][1..] == [b];
  }

  lemma LeafDropped(r: Router, t: Tree, path: Path, leaf: Node, text: string, op: Op)
    requires Resolve(r.schema, path) == Some(leaf) && !Writes(op)
    ensures Perform(r, t, PlanLeaf(r, path, text, leaf.kind, op)) ==
            match LeafFault(r, t, path, leaf, text, op)
            case Some(e) => Err(e)
            case None => Ok(if op == Keep then t else t - {path})
  {
    hide Trim, Resolve;
    var plan := PlanLeaf(r, path, text, leaf.kind, op);
    if op != Keep { PerformOne(r, t, plan[0]); }
  }

  lemma LeafWritten(r: Router, t: Tree, path: Path, leaf: Node, text: string, op: Op)
    requires Resolve(r.schema, path) == Some(leaf) && Writes(op)
    ensures Perform(r, t, PlanLeaf(r, path, text, leaf.kind, op)) ==
            match LeafFault(r, t, path, leaf, text, op)
            case Some(e) => Err(e)
            case None => Ok(t[path := ValueOf(r, leaf.kind, text).value])
  {
    hide Trim, Resolve, Perform;
    var plan := PlanLeaf(r, path, text, leaf.kind, op);
    if |plan| == 1 {
      PerformOne(r, t, plan[0]);
      assert plan == [plan[0]];
    } else {
      PerformTwo(r, t, plan[0], plan[1]);
      PerformOne(r, t, plan[1]);
      assert plan == [plan[0], plan[1]];
    }
  }

  /** A leaf. */
  lemma LeafCarried(r: Router, visit: Visit, t: Tree)
    requires Children(r.schema, visit.base) == Some(visit.siblings)
    requires Addressed(visit) && OpOf(visit).Some? && NodeOf(visit).value.Leaf?
    ensures Perform(r, t, PlanLeaf(r, PathOf(visit), visit.doc.text, NodeOf(visit).value.kind, OpOf(visit).value))
            == Carried(r, t, [visit])
  {
    hide OpOf, KeyText, LeafFault, ValueOf, Perform, PlanLeaf, Carried;
    var node, op, path := NodeOf(visit).value, OpOf(visit).value, PathOf(visit);
    ChildrenExtend(r.schema, visit.base, SegmentOf(visit));
    assert Resolve(r.schema, path) == Some(node);
    CarriedOne(r, t, visit);
    if Writes(op) {
      LeafWritten(r, t, path, node, visit.doc.text, op);
    } else {
      LeafDropped(r, t, path, node, visit.doc.text, op);
      if FaultOf(r, t, visit).None? {
        assert EffectOf(r, t, visit) == if op == Keep then t else t - {path};
      }
    }
  }

  lemma CarriedOne(r: Router, t: Tree, visit: Visit)
    ensures Carried(r, t, [visit]) ==
            if FaultOf(r, t, visit).Some? then Err(FaultOf(r, t, visit).value) else Ok(EffectOf(r, t, visit))
  {
    if FaultOf(r, t, visit).None? { assert Carried(r, EffectOf(r, t, visit), []) == Ok(EffectOf(r, t, visit)); }
  }

  /** An inner node, its children aside. */
  lemma SubtreeCarried(r: Router, visit: Visit, t: Tree)
    requires Addressed(visit) && OpOf(visit).Some? && !NodeOf(visit).value.Leaf?
    requires Drops(OpOf(visit).value) || Enters(visit)
    ensures Perform(r, t, PlanSubtree(PathOf(visit), OpOf(visit).value)) == Carried(r, t, [visit])
  {
    hide OpOf, KeyText, IsConfig, Carried;
    var op, path := OpOf(visit).value, PathOf(visit);
    CarriedOne(r, t, visit);
    var plan := PlanSubtree(path, op);
    if |plan| == 1 {
      PerformOne(r, t, plan[0]);
      assert plan == [plan[0]];
    } else if |plan| == 2 {
      PerformTwo(r, t, plan[0], plan[1]);
      PerformOne(r, t, plan[1]);
    }
    hide Perform;
    if FaultOf(r, t, visit).None? {
      assert EffectOf(r, t, visit) == if Wipes(op) then Cleared(r, t, path) else t;
    }
  }

  /** What the plan finds below a node it enters. */
  lemma EntersChildren(r: Router, visit: Visit)
    requires Children(r.schema, visit.base) == Some(visit.siblings)
    requires Addressed(visit) && OpOf(visit).Some? && !NodeOf(visit).value.Leaf? && !Drops(OpOf(visit).value)
    ensures Children(r.schema, PathOf(visit)) == if Enters(visit) then Some(NodeOf(visit).value.children) else None
  {
    hide OpOf, KeyText;
    ChildrenExtend(r.schema, visit.base, SegmentOf(visit));
    assert [SegmentOf(visit)][1..] == [];
  }

  lemma {:induction false} VisitCarried(r: Router, visit: Visit, t: Tree)
    requires Children(r.schema, visit.base) == Some(visit.siblings)
    ensures Perform(r, t, Plan(r, visit.doc, visit.base, visit.siblings, visit.inherited))
            == Carried(r, t, VisitsIn(visit))
    decreases visit.doc, 2, 0
  {
    PlanUnfolds(r, visit);
    if Addressed(visit) && OpOf(visit).Some? {
      if NodeOf(visit).value.Leaf? { LeafCarried(r, visit, t); } else { InnerCarried(r, visit, t); }
    } else {
      RefusedCarried(r, visit, t);
    }
  }

  lemma RefusedCarried(r: Router, visit: Visit, t: Tree)
    requires !Addressed(visit) || OpOf(visit).None?
    ensures Perform(r, t, Plan(r, visit.doc, visit.base, visit.siblings, visit.inherited))
            == Carried(r, t, VisitsIn(visit))
  {
    hide OpOf, KeyText;
    PlanUnfolds(r, visit);
    hide Plan, Perform, Carried;
    var plan := Plan(r, visit.doc, visit.base, visit.siblings, visit.inherited);
    PerformOne(r, t, plan[0]);
    CarriedOne(r, t, visit);
    assert VisitsIn(visit) == [visit];
  }

  lemma {:induction false} InnerCarried(r: Router, visit: Visit, t: Tree)
    requires Children(r.schema, visit.base) == Some(visit.siblings)
    requires Addressed(visit) && OpOf(visit).Some? && !NodeOf(visit).value.Leaf?
    ensures Perform(r, t, PlanInner(r, visit.doc, PathOf(visit), OpOf(visit).value)) == Carried(r, t, VisitsIn(visit))
    decreases visit.doc, 1, 0
  {
    hide OpOf, KeyText, Perform, Carried, Children, PlanSubtree, PlanAll;
    var op, path := OpOf(visit).value, PathOf(visit);
    if Drops(op) {
      SubtreeCarried(r, visit, t);
      assert VisitsIn(visit) == [visit];
    } else {
      EntersChildren(r, visit);
      if Enters(visit) {
        SubtreeCarried(r, visit, t);
        var children := NodeOf(visit).value.children;
        PerformConcat(r, t, PlanSubtree(path, op), PlanAll(r, visit.doc.children, path, children, ChildOperation(op)));
        CarriedConcat(r, t, [visit], VisitsBelow(visit));
        if Carried(r, t, [visit]).Ok? {
          BelowCarried(r, visit, Carried(r, t, [visit]).value);
        }
      } else {
        NoEntryCarried(r, visit, t);
      }
    }
  }

  /** A list without a key name: the check runs, then there is nothing to enter. */
  lemma NoEntryCarried(r: Router, visit: Visit, t: Tree)
    requires Addressed(visit) && OpOf(visit).Some? && !NodeOf(visit).value.Leaf?
    requires !Drops(OpOf(visit).value) && !Enters(visit) && Children(r.schema, PathOf(visit)).None?
    ensures Perform(r, t, PlanInner(r, visit.doc, PathOf(visit), OpOf(visit).value)) == Carried(r, t, VisitsIn(visit))
  {
    hide OpOf, KeyText, Children, Carried;
    var op, path := OpOf(visit).value, PathOf(visit);
    PerformConcat(r, t, PlanSubtree(path, op), [Fail(UnknownElement)]);
    if |PlanSubtree(path, op)| == 1 { PerformOne(r, t, PlanSubtree(path, op)[0]); }
    CarriedOne(r, t, visit);
    assert VisitsIn(visit) == [visit];
  }

  lemma {:induction false} BelowCarried(r: Router, visit: Visit, t: Tree)
    requires Enters(visit) && Children(r.schema, PathOf(visit)) == Some(NodeOf(visit).value.children)
    ensures Perform(r, t, PlanAll(r, visit.doc.children, PathOf(visit), NodeOf(visit).value.children,
                                  ChildOperation(OpOf(visit).value)))
            == Carried(r, t, VisitsBelow(visit))
    decreases visit.doc, 0, 0
  {
    hide OpOf, KeyText;
    assert visit.doc.children[0..] == visit.doc.children;
    assert ChildOperation(OpOf(visit).value) == Passed(OpOf(visit).value);
    FromCarried(r, Inside(visit), 0, t);
  }

  lemma {:induction false} FromCarried(
    r: Router, level: Level, k: nat, t: Tree)
    requires Children(r.schema, level.base) == Some(level.siblings) && k <= |level.docs|
    ensures Perform(r, t, PlanAll(r, level.docs[k..], level.base, level.siblings, level.op))
            == Carried(r, t, VisitsFrom(level, k))
    decreases level.docs, 0, |level.docs| - k
  {
    if k < |level.docs| {
      var visit := VisitOf(level, k);
      assert level.docs[k..][0] == level.docs[k] && level.docs[k..][1..] == level.docs[k + 1..];
      PerformConcat(r, t, Plan(r, level.docs[k], level.base, level.siblings, level.op),
        PlanAll(r, level.docs[k + 1..], level.base, level.siblings, level.op));
      CarriedConcat(r, t, VisitsIn(visit), VisitsFrom(level, k + 1));
      VisitCarried(r, visit, t);
      hide Plan, VisitsIn, Children;
      if Carried(r, t, VisitsIn(visit)).Ok? {
        FromCarried(r, level, k + 1, Carried(r, t, VisitsIn(visit)).value);
      }
    }
  }

  // ---------------------------------------------------------------------- places

  /** The place of a document in a request: its number at each level. */
  type Place = seq<nat>

  /** Document order: a document comes before its children, and these before its next sibling. */
  predicate Before(a: Place, b: Place)
    decreases |a|
  {
    b != [] && (a == [] || a[0] < b[0] || (a[0] == b[0] && Before(a[1..], b[1..])))
  }

  /** The visit at a place, if the document there is visited at all. */
  ghost function VisitAt(level: Level, at: Place):
    (r: Option<Visit>)
    ensures r.Some? ==> at != [] && at[0] < |level.docs|
    decreases |at|
  {
    if at == [] || at[0] >= |level.docs| then None
    else
      var visit := VisitOf(level, at[0]);
      if |at| == 1 then Some(visit)
      else if !Enters(visit) then None
      else VisitAt(Inside(visit), at[1..])
  }

  ghost predicate InOrder(places: seq<Place>) {
    forall i, j :: 0 <= i < j < |places| ==> Before(places[i], places[j])
  }

  /** Place by place, the visits there; the first numbers are in the range. */
  ghost predicate Shows(
    level: Level, lo: nat, hi: nat,
    places: seq<Place>, visits: seq<Visit>) {
    && |places| == |visits|
    && forall i :: 0 <= i < |places| ==>
         places[i] != [] && lo <= places[i][0] < hi && VisitAt(level, places[i]) == Some(visits[i])
  }

  /** No visited place of the range is left out. */
  ghost predicate ShowsAll(
    level: Level, lo: nat, hi: nat, places: seq<Place>) {
    forall at :: VisitAt(level, at).Some? && lo <= at[0] < hi ==> at in places
  }

  ghost predicate Lists(
    level: Level, lo: nat, hi: nat,
    places: seq<Place>, visits: seq<Visit>) {
    && InOrder(places) && Shows(level, lo, hi, places, visits)
    && ShowsAll(level, lo, hi, places)
  }

  lemma InOrderConcat(a: seq<Place>, b: seq<Place>, mid: nat)
    requires InOrder(a) && InOrder(b)
    requires forall i :: 0 <= i < |a| ==> a[i] != [] && a[i][0] < mid
    requires forall i :: 0 <= i < |b| ==> b[i] != [] && mid <= b[i][0]
    ensures InOrder(a + b)
  {
    var places := a + b;
    forall i, j | 0 <= i < j < |places| ensures Before(places[i], places[j]) {
      if j < |a| {
        assert Before(a[i], a[j]);
      } else if i < |a| {
        assert a[i][0] < b[j - |a|][0];
      } else {
        assert Before(b[i - |a|], b[j - |a|]);
      }
    }
  }

  lemma ListsConcat(
    level: Level, lo: nat, mid: nat, hi: nat,
    a: seq<Place>, x: seq<Visit>, b: seq<Place>, y: seq<Visit>)
    requires lo <= mid <= hi
    requires Lists(level, lo, mid, a, x) && Lists(level, mid, hi, b, y)
    ensures Lists(level, lo, hi, a + b, x + y)
  {
    hide VisitAt, Before;
    InOrderConcat(a, b, mid);
    hide InOrder;
    assert Shows(level, lo, hi, a + b, x + y);
    forall at | VisitAt(level, at).Some? && lo <= at[0] < hi ensures at in a + b {
      assert at in a || at in b;
    }
  }

  function Under(k: nat, places: seq<Place>): (r: seq<Place>)
    ensures |r| == |places| && forall i :: 0 <= i < |places| ==> r[i] == [k] + places[i]
  {
    seq(|places|, i requires 0 <= i < |places| => [k] + places[i])
  }

  lemma VisitUnder(level: Level, k: nat, at: Place)
    requires k < |level.docs| && at != []
    ensures var visit := VisitOf(level, k);
            VisitAt(level, [k] + at) ==
              if Enters(visit)
              then VisitAt(Inside(visit), at)
              else None
  {
    assert ([k] + at)[1..] == at;
  }

  lemma BeforeUnder(k: nat, a: Place, b: Place)
    ensures Before([k] + a, [k] + b) <==> Before(a, b)
    ensures b != [] ==> Before([k], [k] + b)
  {
    assert ([k] + a)[1..] == a && ([k] + b)[1..] == b && [k][1..] == [];
  }

  /** The places of the children of an entered document. */
  ghost predicate ListsBelow(visit: Visit, inside: seq<Place>) {
    if Enters(visit) then
      Lists(Inside(visit), 0, |visit.doc.children|, inside, VisitsBelow(visit))
    else inside == []
  }

  /** The places of one document and of all below it. */
  lemma ListsOne(level: Level, k: nat, inside: seq<Place>)
    requires k < |level.docs| && ListsBelow(VisitOf(level, k), inside)
    ensures Lists(level, k, k + 1, [[k]] + Under(k, inside),
                  VisitsIn(VisitOf(level, k)))
  {
    hide VisitAt, Before, ListsBelow, VisitsIn;
    BelowShown(level, k, inside);
    InOrderUnder(k, inside);
    hide InOrder;
    forall at | VisitAt(level, at).Some? && k <= at[0] < k + 1
      ensures at in [[k]] + Under(k, inside)
    {
      OneOrBelow(level, k, inside, at);
    }
  }

  lemma InOrderUnder(k: nat, inside: seq<Place>)
    requires InOrder(inside) && forall i :: 0 <= i < |inside| ==> inside[i] != []
    ensures InOrder([[k]] + Under(k, inside))
  {
    hide Before;
    var places := [[k]] + Under(k, inside);
    forall i, j | 0 <= i < j < |places| ensures Before(places[i], places[j]) {
      if i == 0 {
        BeforeUnder(k, [], inside[j - 1]);
      } else {
        assert Before(inside[i - 1], inside[j - 1]);
        BeforeUnder(k, inside[i - 1], inside[j - 1]);
      }
    }
  }

  lemma BelowShown(level: Level, k: nat, inside: seq<Place>)
    requires k < |level.docs| && ListsBelow(VisitOf(level, k), inside)
    ensures Shows(level, k, k + 1, [[k]] + Under(k, inside),
                  VisitsIn(VisitOf(level, k)))
    ensures InOrder(inside) && forall i :: 0 <= i < |inside| ==> inside[i] != []
  {
    hide Before, VisitAt, Enters;
    var places, visits := [[k]] + Under(k, inside), VisitsIn(VisitOf(level, k));
    assert |visits| == |inside| + 1;
    forall i | 0 <= i < |places|
      ensures places[i] != [] && places[i][0] == k && VisitAt(level, places[i]) == Some(visits[i])
    {
      ShownAt(level, k, inside, i);
    }
  }

  lemma ShownAt(level: Level, k: nat, inside: seq<Place>, i: nat)
    requires k < |level.docs| && ListsBelow(VisitOf(level, k), inside) && i <= |inside|
    ensures var visits := VisitsIn(VisitOf(level, k));
            && |visits| == |inside| + 1
            && VisitAt(level, if i == 0 then [k] else [k] + inside[i - 1]) == Some(visits[i])
  {
    hide InOrder, ShowsAll, VisitsBelow, VisitAt, Enters;
    VisitOne(level, k);
    if i > 0 { VisitUnder(level, k, inside[i - 1]); }
  }

  lemma VisitOne(level: Level, k: nat)
    requires k < |level.docs|
    ensures VisitAt(level, [k]) == Some(VisitOf(level, k))
  {
  }

  lemma OneOrBelow(
    level: Level, k: nat, inside: seq<Place>, at: Place)
    requires k < |level.docs| && ListsBelow(VisitOf(level, k), inside)
    requires VisitAt(level, at).Some? && at[0] == k
    ensures at in [[k]] + Under(k, inside)
  {
    if |at| == 1 {
      assert at == [k];
    } else {
      assert at == [k] + at[1..];
      VisitUnder(level, k, at[1..]);
      assert at[1..] in inside;
      var i :| 0 <= i < |inside| && inside[i] == at[1..];
      assert Under(k, inside)[i] == at;
    }
  }

  lemma {:induction false} ListsFrom(level: Level, k: nat)
    returns (places: seq<Place>)
    requires k <= |level.docs|
    ensures Lists(level, k, |level.docs|, places, VisitsFrom(level, k))
    decreases level.docs, 0, |level.docs| - k
  {
    if k == |level.docs| {
      places := [];
      forall at | VisitAt(level, at).Some? ensures at[0] < |level.docs| {}
    } else {
      var visit := VisitOf(level, k);
      var inside := ListsInside(visit);
      var rest := ListsFrom(level, k + 1);
      ListsOne(level, k, inside);
      places := [[k]] + Under(k, inside) + rest;
      ListsConcat(level, k, k + 1, |level.docs|, [[k]] + Under(k, inside), VisitsIn(visit), rest,
                  VisitsFrom(level, k + 1));
    }
  }

  lemma {:induction false} ListsInside(visit: Visit) returns (inside: seq<Place>)
    ensures ListsBelow(visit, inside)
    decreases visit.doc, 0, 0
  {
    inside := [];
    if Enters(visit) {
      inside := ListsFrom(Inside(visit), 0);
    }
  }

  // ------------------------------------------------------------------- what a request means

  /** A visited place, before `limit` if one is given, whose document touches `p`. */
  ghost predicate TouchedAt(r: Router, level: Level, limit: Option<Place>, p: Path, at: Place) {
    && VisitAt(level, at).Some? && (limit.Some? ==> Before(at, limit.value))
    && Touches(r, VisitAt(level, at).value, p)
  }

  ghost predicate LastTouch(r: Router, level: Level, limit: Option<Place>, p: Path, at: Place) {
    && TouchedAt(r, level, limit, p, at)
    && forall later :: TouchedAt(r, level, limit, p, later) ==> !Before(at, later)
  }

  /** The last document that touches `p` decides what is there. */
  ghost predicate MeantAt(
    r: Router, level: Level, limit: Option<Place>, p: Path, was: Option<Value>, now: Option<Value>) {
    || (exists at :: LastTouch(r, level, limit, p, at) && now == Remains(r, VisitAt(level, at).value))
    || (now == was && forall at :: !TouchedAt(r, level, limit, p, at))
  }

  /** The documents before `limit`, or all of them, turn `t` into `u`. */
  ghost predicate Meant(r: Router, level: Level, limit: Option<Place>, t: Tree, u: Tree) {
    forall p :: MeantAt(r, level, limit, p, At(t, p), At(u, p))
  }

  /** Why the document at a place is refused after those before it, if it is. */
  ghost predicate EndsAt(r: Router, level: Level, t: Tree, at: Place, fault: Option<Error>) {
    && VisitAt(level, at).Some?
    && exists u :: Meant(r, level, Some(at), t, u) && FaultOf(r, u, VisitAt(level, at).value) == fault
  }

  /** The first document that is refused. */
  ghost predicate RefusedAt(r: Router, level: Level, t: Tree, at: Place, e: Error) {
    && EndsAt(r, level, t, at, Some(e))
    && forall earlier :: VisitAt(level, earlier).Some? && Before(earlier, at) ==> EndsAt(r, level, t, earlier, None)
  }

  /** The answer to a request: the error of the first document that is refused, or else the map in
      which every path holds what the last document that touches it leaves there. */
  ghost predicate Answers(r: Router, level: Level, t: Tree, res: Result<Tree, Error>) {
    match res
    case Err(e) => exists at :: RefusedAt(r, level, t, at, e)
    case Ok(u) =>
      && Meant(r, level, None, t, u)
      && forall at :: VisitAt(level, at).Some? ==> EndsAt(r, level, t, at, None)
  }

  /** The last of a list of visits that touches a path decides. */
  lemma {:induction false} CarriedAt(r: Router, t: Tree, visits: seq<Visit>, p: Path)
    requires Carried(r, t, visits).Ok?
    ensures var u := Carried(r, t, visits).value;
            || (exists i :: 0 <= i < |visits| && Touches(r, visits[i], p) && At(u, p) == Remains(r, visits[i])
                            && forall j :: i < j < |visits| ==> !Touches(r, visits[j], p))
            || (At(u, p) == At(t, p) && forall i :: 0 <= i < |visits| ==> !Touches(r, visits[i], p))
    decreases |visits|
  {
    if visits != [] {
      var next, rest := EffectOf(r, t, visits[0]), visits[1..];
      CarriedAt(r, next, rest, p);
      hide Touches, Carried, Remains, FaultOf;
      var u := Carried(r, next, rest).value;
      if i :| 0 <= i < |rest| && Touches(r, rest[i], p) && At(u, p) == Remains(r, rest[i])
              && forall j :: i < j < |rest| ==> !Touches(r, rest[j], p) {
        assert visits[i + 1] == rest[i];
        forall j | i + 1 < j < |visits| ensures !Touches(r, visits[j], p) { assert visits[j] == rest[j - 1]; }
      } else {
        forall j | 0 < j < |visits| ensures !Touches(r, visits[j], p) { assert visits[j] == rest[j - 1]; }
      }
    }
  }

  lemma {:induction false} BeforeAsymmetric(a: Place, b: Place)
    requires Before(a, b)
    ensures !Before(b, a) && a != b
    decreases |a|
  {
    if a != [] && a[0] == b[0] {
      BeforeAsymmetric(a[1..], b[1..]);
    }
  }

  ghost predicate ListsLevel(level: Level, places: seq<Place>, visits: seq<Visit>) {
    Lists(level, 0, |level.docs|, places, visits)
  }

  /** The place the first `i` of a list end at, if they are not all. */
  function Limit(places: seq<Place>, i: nat): Option<Place>
  {
    if i < |places| then Some(places[i]) else None
  }

  /** The visited places before the limit are the first ones of the list. */
  lemma CountedIff(level: Level, places: seq<Place>, visits: seq<Visit>, i: nat, at: Place)
    requires ListsLevel(level, places, visits) && i <= |places| && VisitAt(level, at).Some?
    ensures (Limit(places, i).Some? ==> Before(at, Limit(places, i).value)) <==> at in places[..i]
  {
    hide VisitAt, Before;
    assert at in places;
    var j :| 0 <= j < |places| && places[j] == at;
    if j < i {
      assert places[..i][j] == at;
    } else if i <= j {
      forall k | 0 <= k < i ensures places[..i][k] != at { BeforeAsymmetric(places[k], at); }
      if j > i { BeforeAsymmetric(places[i], at); }
      if Before(at, at) { BeforeAsymmetric(at, at); }
    }
  }

  lemma TouchedIff(r: Router, level: Level, places: seq<Place>, visits: seq<Visit>, i: nat, p: Path, at: Place)
    requires ListsLevel(level, places, visits) && i <= |places|
    ensures TouchedAt(r, level, Limit(places, i), p, at) <==>
            exists j :: 0 <= j < i && places[j] == at && Touches(r, visits[j], p)
  {
    hide VisitAt, Before, Touches, Limit;
    if VisitAt(level, at).Some? {
      CountedIff(level, places, visits, i, at);
      if at in places[..i] {
        var j :| 0 <= j < i && places[..i][j] == at;
        assert places[j] == at && visits[j] == VisitAt(level, at).value;
      }
    }
    if j :| 0 <= j < i && places[j] == at && Touches(r, visits[j], p) {
      assert VisitAt(level, at) == Some(visits[j]);
      assert places[..i][j] == at;
    }
  }

  lemma MeantPrefix(r: Router, level: Level, t: Tree, places: seq<Place>, visits: seq<Visit>, i: nat)
    requires ListsLevel(level, places, visits) && i <= |places| && Carried(r, t, visits[..i]).Ok?
    ensures Meant(r, level, Limit(places, i), t, Carried(r, t, visits[..i]).value)
  {
    var u := Carried(r, t, visits[..i]).value;
    forall p ensures MeantAt(r, level, Limit(places, i), p, At(t, p), At(u, p)) {
      MeantPrefixAt(r, level, t, places, visits, i, p);
    }
  }

  lemma MeantPrefixAt(r: Router, level: Level, t: Tree, places: seq<Place>, visits: seq<Visit>, i: nat, p: Path)
    requires ListsLevel(level, places, visits) && i <= |places| == |visits| && Carried(r, t, visits[..i]).Ok?
    ensures MeantAt(r, level, Limit(places, i), p, At(t, p), At(Carried(r, t, visits[..i]).value, p))
  {
    var first, limit := visits[..i], Limit(places, i);
    CarriedAt(r, t, first, p);
    hide Carried, Touches, TouchedAt, VisitAt, Before, Limit, Remains, ListsLevel;
    var u := Carried(r, t, first).value;
    if j :| 0 <= j < |first| && Touches(r, first[j], p) && At(u, p) == Remains(r, first[j])
            && forall k :: j < k < |first| ==> !Touches(r, first[k], p) {
      assert forall k :: 0 <= k < i ==> first[k] == visits[k];
      LastIsLast(r, level, places, visits, i, p, j);
    } else {
      forall at ensures !TouchedAt(r, level, limit, p, at) {
        TouchedIff(r, level, places, visits, i, p, at);
        forall j | 0 <= j < i ensures !Touches(r, visits[j], p) { assert first[j] == visits[j]; }
      }
    }
  }

  /** The last visit that touches a path is at the last place that does. */
  lemma LastIsLast(r: Router, level: Level, places: seq<Place>, visits: seq<Visit>, i: nat, p: Path, j: nat)
    requires ListsLevel(level, places, visits) && j < i <= |places| == |visits| && Touches(r, visits[j], p)
    requires forall k :: j < k < i ==> !Touches(r, visits[k], p)
    ensures LastTouch(r, level, Limit(places, i), p, places[j]) && VisitAt(level, places[j]) == Some(visits[j])
  {
    hide Touches, TouchedAt, VisitAt, Before, Limit;
    TouchedIff(r, level, places, visits, i, p, places[j]);
    forall later | TouchedAt(r, level, Limit(places, i), p, later) ensures !Before(places[j], later) {
      TouchedIff(r, level, places, visits, i, p, later);
      var k :| 0 <= k < i && places[k] == later && Touches(r, visits[k], p);
      if k < j { BeforeAsymmetric(places[k], places[j]); }
      if Before(places[j], places[j]) { BeforeAsymmetric(places[j], places[j]); }
    }
  }

  /** Each visit of a list meets what those before it left. */
  lemma CarriedSplit(r: Router, t: Tree, visits: seq<Visit>, i: nat)
    requires i < |visits| && Carried(r, t, visits[..i + 1]).Ok?
    ensures Carried(r, t, visits[..i]).Ok? && FaultOf(r, Carried(r, t, visits[..i]).value, visits[i]).None?
  {
    assert visits[..i + 1] == visits[..i] + [visits[i]];
    CarriedConcat(r, t, visits[..i], [visits[i]]);
    if Carried(r, t, visits[..i]).Ok? { CarriedOne(r, Carried(r, t, visits[..i]).value, visits[i]); }
  }

  lemma {:induction false} CarriedPrefix(r: Router, t: Tree, visits: seq<Visit>, i: nat)
    requires i <= |visits| && Carried(r, t, visits).Ok?
    ensures Carried(r, t, visits[..i]).Ok?
  {
    assert visits == visits[..i] + visits[i..];
    CarriedConcat(r, t, visits[..i], visits[i..]);
  }

  lemma {:induction false} FirstRefused(r: Router, t: Tree, visits: seq<Visit>) returns (i: nat)
    requires Carried(r, t, visits).Err?
    ensures i < |visits| && Carried(r, t, visits[..i]).Ok?
    ensures FaultOf(r, Carried(r, t, visits[..i]).value, visits[i]) == Some(Carried(r, t, visits).error)
    decreases |visits|
  {
    if FaultOf(r, t, visits[0]).Some? {
      i := 0;
      assert visits[..0] == [];
    } else {
      var k := FirstRefused(r, EffectOf(r, t, visits[0]), visits[1..]);
      i := k + 1;
      assert visits[..i][0] == visits[0] && visits[..i][1..] == visits[1..][..k];
    }
  }

  /** A visit that is not refused, at its place. */
  lemma AcceptedAt(r: Router, level: Level, t: Tree, places: seq<Place>, visits: seq<Visit>, i: nat)
    requires ListsLevel(level, places, visits) && i < |places| && Carried(r, t, visits[..i]).Ok?
    ensures EndsAt(r, level, t, places[i], FaultOf(r, Carried(r, t, visits[..i]).value, visits[i]))
  {
    MeantPrefix(r, level, t, places, visits, i);
    hide Meant, VisitAt, Carried, FaultOf;
    assert VisitAt(level, places[i]) == Some(visits[i]);
  }

  lemma AllAccepted(r: Router, level: Level, t: Tree, places: seq<Place>, visits: seq<Visit>, n: nat, at: Place)
    requires ListsLevel(level, places, visits) && n <= |places| && Carried(r, t, visits[..n]).Ok?
    requires VisitAt(level, at).Some? && at in places[..n]
    ensures EndsAt(r, level, t, at, None)
  {
    hide VisitAt, EndsAt, Carried, FaultOf;
    var i :| 0 <= i < n && places[..n][i] == at;
    assert visits[..n][..i + 1] == visits[..i + 1];
    CarriedPrefix(r, t, visits[..n], i + 1);
    CarriedSplit(r, t, visits, i);
    AcceptedAt(r, level, t, places, visits, i);
  }

  /** Carrying out the visits one by one answers the request. */
  lemma CarriedAnswers(r: Router, level: Level, t: Tree, places: seq<Place>, visits: seq<Visit>)
    requires ListsLevel(level, places, visits)
    ensures Answers(r, level, t, Carried(r, t, visits))
  {
    hide VisitAt, EndsAt, Carried, FaultOf, Meant, Before;
    var n := |places|;
    assert visits[..n] == visits && places[..n] == places;
    if Carried(r, t, visits).Ok? {
      MeantPrefix(r, level, t, places, visits, n);
      forall at | VisitAt(level, at).Some? ensures EndsAt(r, level, t, at, None) {
        CountedIff(level, places, visits, n, at);
        AllAccepted(r, level, t, places, visits, n, at);
      }
    } else {
      var i := FirstRefused(r, t, visits);
      AcceptedAt(r, level, t, places, visits, i);
      forall earlier | VisitAt(level, earlier).Some? && Before(earlier, places[i])
        ensures EndsAt(r, level, t, earlier, None)
      {
        CountedIff(level, places, visits, i, earlier);
        AllAccepted(r, level, t, places, visits, i, earlier);
      }
      assert RefusedAt(r, level, t, places[i], Carried(r, t, visits).error);
    }
  }

  /** Every request, with whatever operation attributes, is answered so. */
  lemma RequestAnswered(r: Router, level: Level, t: Tree)
    requires Children(r.schema, level.base) == Some(level.siblings)
    ensures Answers(r, level, t, Perform(r, t, PlanAll(r, level.docs, level.base, level.siblings, level.op)))
  {
    var places := ListsFrom(level, 0);
    assert level.docs[0..] == level.docs;
    FromCarried(r, level, 0, t);
    CarriedAnswers(r, level, t, places, VisitsFrom(level, 0));
  }

  lemma DocumentAnswered(r: Router, doc: Document, base: Path, siblings: seq<Node>, op: Op, t: Tree)
    requires Children(r.schema, base) == Some(siblings)
    ensures Answers(r, Level([doc], base, siblings, op), t, Perform(r, t, Plan(r, doc, base, siblings, op)))
  {
    hide Answers, Perform, Children;
    RequestAnswered(r, Level([doc], base, siblings, op), t);
    OneDocument(r, doc, base, siblings, op);
  }

  lemma OneDocument(r: Router, doc: Document, base: Path, siblings: seq<Node>, op: Op)
    ensures PlanAll(r, [doc], base, siblings, op) == Plan(r, doc, base, siblings, op)
  {
    hide Plan;
    assert [doc][1..] == [];
    assert PlanAll(r, [], base, siblings, op) == [];
  }

  // ---------------------------------------------------------------------- one answer only

  lemma {:induction false} BeforeTotal(a: Place, b: Place)
    ensures a == b || Before(a, b) || Before(b, a)
    decreases |a|
  {
    if a != [] && b != [] && a[0] == b[0] {
      BeforeTotal(a[1..], b[1..]);
      assert a == [a[0]] + a[1..] && b == [b[0]] + b[1..];
    }
  }

  lemma MeantOnce(r: Router, level: Level, limit: Option<Place>, t: Tree, u: Tree, w: Tree)
    requires Meant(r, level, limit, t, u) && Meant(r, level, limit, t, w)
    ensures u == w
  {
    hide TouchedAt, Remains, VisitAt;
    forall p ensures At(u, p) == At(w, p) {
      assert MeantAt(r, level, limit, p, At(t, p), At(u, p)) && MeantAt(r, level, limit, p, At(t, p), At(w, p));
      if a, b :| LastTouch(r, level, limit, p, a) && LastTouch(r, level, limit, p, b) && a != b { BeforeTotal(a, b); }
    }
    L.SameEverywhere(u, w);
  }

  lemma EndsOnce(r: Router, level: Level, t: Tree, at: Place, a: Option<Error>, b: Option<Error>)
    requires EndsAt(r, level, t, at, a) && EndsAt(r, level, t, at, b)
    ensures a == b
  {
    hide Meant;
    var u :| Meant(r, level, Some(at), t, u) && FaultOf(r, u, VisitAt(level, at).value) == a;
    var w :| Meant(r, level, Some(at), t, w) && FaultOf(r, w, VisitAt(level, at).value) == b;
    MeantOnce(r, level, Some(at), t, u, w);
  }

  /** A request has one answer. */
  lemma OneAnswer(r: Router, level: Level, t: Tree, a: Result<Tree, Error>, b: Result<Tree, Error>)
    requires Answers(r, level, t, a) && Answers(r, level, t, b)
    ensures a == b
  {
    hide Meant, EndsAt, VisitAt, Before;
    if a.Ok? && b.Ok? {
      MeantOnce(r, level, None, t, a.value, b.value);
    } else if a.Err? && b.Err? {
      var x :| RefusedAt(r, level, t, x, a.error);
      var y :| RefusedAt(r, level, t, y, b.error);
      FirstsMeet(r, level, t, x, a.error, y, b.error);
    } else {
      var e := if a.Err? then a.error else b.error;
      var x :| RefusedAt(r, level, t, x, e);
      assert VisitAt(level, x).Some? by { RefusedIsVisit(r, level, t, x, e); }
      EndsOnce(r, level, t, x, Some(e), None);
    }
  }

  lemma RefusedIsVisit(r: Router, level: Level, t: Tree, at: Place, e: Error)
    requires RefusedAt(r, level, t, at, e)
    ensures VisitAt(level, at).Some?
  {
  }

  lemma FirstsMeet(r: Router, level: Level, t: Tree, x: Place, d: Error, y: Place, e: Error)
    requires RefusedAt(r, level, t, x, d) && RefusedAt(r, level, t, y, e)
    ensures d == e
  {
    hide EndsAt, VisitAt, Before;
    RefusedIsVisit(r, level, t, x, d);
    RefusedIsVisit(r, level, t, y, e);
    BeforeTotal(x, y);
    if Before(x, y) {
      EndsOnce(r, level, t, x, Some(d), None);
    } else if Before(y, x) {
      EndsOnce(r, level, t, y, Some(e), None);
    } else {
      EndsOnce(r, level, t, x, Some(d), Some(e));
    }
  }

  // -------------------------------------------------------------- attribute-free requests

  ghost predicate PlainLevel(level: Level) {
    forall doc <- level.docs :: L.Plain(doc)
  }

  /** Without attributes the documents of the top level have the default operation and all others
      are merged. */
  lemma {:induction false} PlainOps(level: Level, at: Place)
    requires PlainLevel(level) && Writes(level.op) && VisitAt(level, at).Some?
    ensures OpOf(VisitAt(level, at).value) == Some(if |at| == 1 then level.op else Merge)
    decreases |at|
  {
    var visit := VisitOf(level, at[0]);
    assert visit.doc in level.docs;
    OperationIs(visit);
    if |at| > 1 {
      forall doc | doc in Inside(visit).docs ensures L.Plain(doc) { assert doc in visit.doc.children; }
      PlainOps(Inside(visit), at[1..]);
    }
  }

  /** The document at a place is the leaf at `p`. */
  ghost predicate SpelledAt(level: Level, p: Path, at: Place) {
    && VisitAt(level, at).Some?
    && var visit := VisitAt(level, at).value;
       Addressed(visit) && NodeOf(visit).value.Leaf? && PathOf(visit) == p
  }

  /** ... and no later one is. */
  ghost predicate LastSpelled(level: Level, p: Path, at: Place) {
    SpelledAt(level, p, at) && forall later :: SpelledAt(level, p, later) ==> !Before(at, later)
  }

  /** `v` is the value of the text of the leaf at that place. */
  ghost predicate ReadsAs(r: Router, level: Level, p: Path, at: Place, v: Value)
    requires SpelledAt(level, p, at)
  {
    var visit := VisitAt(level, at).value;
    ValueOf(r, NodeOf(visit).value.kind, visit.doc.text) == Some(v)
  }

  lemma LeafHasValue(r: Router, t: Tree, visit: Visit)
    requires FaultOf(r, t, visit).None? && NodeOf(visit).value.Leaf? && Writes(OpOf(visit).value)
    ensures ValueOf(r, NodeOf(visit).value.kind, visit.doc.text).Some?
  {
    hide Trim, OpOf;
  }

  /** The leaf at a place of an accepted request has a value. */
  lemma SpelledReads(r: Router, level: Level, t: Tree, u: Tree, p: Path, at: Place)
    requires Answers(r, level, t, Ok(u)) && PlainLevel(level) && Writes(level.op) && SpelledAt(level, p, at)
    ensures exists v :: ReadsAs(r, level, p, at, v) && Remains(r, VisitAt(level, at).value) == Some(v)
  {
    hide Meant, VisitAt, PlainLevel;
    PlainOps(level, at);
    var visit := VisitAt(level, at).value;
    assert EndsAt(r, level, t, at, None);
    var before :| FaultOf(r, before, visit) == None;
    LeafHasValue(r, before, visit);
    assert Remains(r, visit) == ValueOf(r, NodeOf(visit).value.kind, visit.doc.text);
    assert ReadsAs(r, level, p, at, Remains(r, visit).value);
  }

  /** An accepted merge without attributes: every path holds the value of the last leaf document
      that spells it, and otherwise what it held. */
  lemma MergeHolds(r: Router, level: Level, t: Tree, u: Tree, p: Path)
    requires Answers(r, level, t, Ok(u)) && PlainLevel(level) && level.op == Merge
    ensures || (exists at, v :: LastSpelled(level, p, at) && ReadsAs(r, level, p, at, v) && At(u, p) == Some(v))
            || (At(u, p) == At(t, p) && forall at :: !SpelledAt(level, p, at))
  {
    hide VisitAt, EndsAt, PlainLevel, OpOf, Addressed;
    forall at ensures TouchedAt(r, level, None, p, at) <==> SpelledAt(level, p, at) {
      if VisitAt(level, at).Some? { PlainOps(level, at); }
    }
    assert MeantAt(r, level, None, p, At(t, p), At(u, p));
    hide Answers, TouchedAt, SpelledAt, Remains;
    if at :| LastTouch(r, level, None, p, at) && At(u, p) == Remains(r, VisitAt(level, at).value) {
      assert LastSpelled(level, p, at);
      SpelledReads(r, level, t, u, p, at);
    }
  }

  /** The container or list entry at a place of the top level lies above `p`. */
  ghost predicate ReplacedAt(level: Level, p: Path, at: Place) {
    && |at| == 1 && VisitAt(level, at).Some?
    && var visit := VisitAt(level, at).value;
       Addressed(visit) && !NodeOf(visit).value.Leaf? && PathOf(visit) < p
  }

  /** An accepted replace without attributes: a configuration path holds the value of the last leaf
      document that spells it, nothing if no document spells it from the last replaced node above
      it on, and otherwise what it held. */
  lemma ReplaceHolds(r: Router, level: Level, t: Tree, u: Tree, p: Path)
    requires Answers(r, level, t, Ok(u)) && PlainLevel(level) && level.op == Replace
    requires Children(r.schema, level.base) == Some(level.siblings) && IsConfig(r.schema, p)
    ensures || (exists at, v :: && LastSpelled(level, p, at) && ReadsAs(r, level, p, at, v) && At(u, p) == Some(v)
                                && forall later :: ReplacedAt(level, p, later) ==> !Before(at, later))
            || (At(u, p) == None && exists at :: ReplacedAt(level, p, at)
                                                 && forall later :: SpelledAt(level, p, later) ==> !Before(at, later))
            || (At(u, p) == At(t, p) && forall at :: !SpelledAt(level, p, at) && !ReplacedAt(level, p, at))
  {
    hide VisitAt, EndsAt, PlainLevel, OpOf, Addressed, Children;
    forall at ensures TouchedAt(r, level, None, p, at) <==> SpelledAt(level, p, at) || ReplacedAt(level, p, at) {
      if VisitAt(level, at).Some? {
        PlainOps(level, at);
        VisitedIsInner(r, level, at, p);
      }
    }
    assert MeantAt(r, level, None, p, At(t, p), At(u, p));
    if at :| LastTouch(r, level, None, p, at) && At(u, p) == Remains(r, VisitAt(level, at).value) {
      if SpelledAt(level, p, at) {
        SpelledReads(r, level, t, u, p, at);
      } else {
        assert Remains(r, VisitAt(level, at).value) == None;
      }
    }
  }

  /** The path of a visited inner node is no leaf. */
  lemma {:induction false} VisitedIsInner(r: Router, level: Level, at: Place, p: Path)
    requires Children(r.schema, level.base) == Some(level.siblings) && VisitAt(level, at).Some? && IsConfig(r.schema, p)
    ensures var visit := VisitAt(level, at).value;
            Addressed(visit) && !NodeOf(visit).value.Leaf? ==> PathOf(visit) != p
    decreases |at|
  {
    var visit := VisitOf(level, at[0]);
    if |at| == 1 {
      if Addressed(visit) && !NodeOf(visit).value.Leaf? {
        ChildrenExtend(r.schema, visit.base, SegmentOf(visit));
        assert [SegmentOf(visit)][1..] == [];
      }
    } else {
      EntersChildren(r, visit);
      VisitedIsInner(r, Inside(visit), at[1..], p);
    }
  }
}
