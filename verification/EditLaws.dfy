/** Laws of edit requests (section 7.2 of RFC 6241): attribute-free merge and replace are
    idempotent, replace forgets what was there, create is undone by delete. */
module EditLaws {
  import opened Wrappers
  import opened Leaves
  import opened Paths
  import opened Schema
  import opened EditPlan

  // ------------------------------------------------------------ one path at a time

  predicate Drops(r: Router, a: Action, p: Path) {
    match a
    case Clear(q) => p == q || (q < p && IsConfig(r.schema, p))
    case DeleteLeaf(q) => p == q
    case RemoveLeaf(q) => p == q
    case _ => false
  }

  /** What a list of actions makes of the value at one path. */
  function Fate(r: Router, actions: seq<Action>, p: Path, v: Option<Value>): Option<Value>
    decreases actions
  {
    if actions == [] then v
    else
      var a := actions[0];
      Fate(r, actions[1..], p,
           if a.Put? && a.path == p then Some(a.value) else if Drops(r, a, p) then None else v)
  }

  lemma {:induction false} PerformAt(r: Router, t: Tree, actions: seq<Action>, p: Path)
    requires Perform(r, t, actions).Ok?
    ensures At(Perform(r, t, actions).value, p) == Fate(r, actions, p, At(t, p))
    decreases actions
  {
    if actions != [] { PerformAt(r, Effect(r, t, actions[0]), actions[1..], p); }
  }

  /** The last action that concerns a path decides: the outcome is either always the same or
      always the value that was there. */
  lemma {:induction false} LastActionDecides(
    r: Router, actions: seq<Action>, p: Path, v: Option<Value>, w: Option<Value>)
    ensures || Fate(r, actions, p, v) == Fate(r, actions, p, w)
            || (Fate(r, actions, p, v) == v && Fate(r, actions, p, w) == w)
    decreases actions
  {
    if actions != [] { LastActionDecides(r, actions[1..], p, v, w); }
  }

  lemma FateTwice(r: Router, actions: seq<Action>, p: Path, v: Option<Value>)
    ensures Fate(r, actions, p, Fate(r, actions, p, v)) == Fate(r, actions, p, v)
  {
    LastActionDecides(r, actions, p, v, Fate(r, actions, p, v));
  }

  lemma SameEverywhere(t: Tree, u: Tree)
    requires forall p :: At(t, p) == At(u, p)
    ensures t == u
  {
    forall p ensures p in t <==> p in u { assert At(t, p) == At(u, p); }
    forall p | p in t ensures t[p] == u[p] { assert At(t, p) == At(u, p); }
  }

  // -------------------------------------------------------- attribute-free requests

  /** No operation attribute anywhere in the document. */
  predicate Plain(doc: Document) {
    doc.operation.None? && forall child <- doc.children :: Plain(child)
  }

  /** The document has no fault of its own. */
  predicate Clean(actions: seq<Action>) {
    forall a <- actions :: !a.Fail?
  }

  predicate Unconditional(actions: seq<Action>) {
    forall a <- actions :: a.Clear? || a.Put? || a.Fail?
  }

  predicate PutsOnly(actions: seq<Action>) {
    forall a <- actions :: a.Put? || a.Fail?
  }

  lemma {:induction false} UnconditionalRuns(r: Router, t: Tree, actions: seq<Action>)
    requires Unconditional(actions)
    ensures Perform(r, t, actions).Ok? <==> Clean(actions)
    decreases actions
  {
    if actions != [] {
      UnconditionalRuns(r, Effect(r, t, actions[0]), actions[1..]);
      assert Clean(actions) <==> !actions[0].Fail? && Clean(actions[1..]);
    }
  }

  lemma {:induction false} PlainMergePuts(r: Router, doc: Document, base: Path, schema: seq<Node>)
    requires Plain(doc)
    ensures PutsOnly(Plan(r, doc, base, schema, Merge))
    decreases doc, 1
  {
    match ChildNamed(schema, doc.name)
    case Some(Container(_, _)) => PlainInnerPuts(r, doc, base + [Segment(doc.name, "", "")]);
    case Some(List(_, key, _)) =>
      if ListKey(doc, key).Ok? {
        PlainInnerPuts(r, doc, base + [Segment(doc.name, key, ListKey(doc, key).value)]);
      }
    case _ =>
  }

  lemma {:induction false} PlainInnerPuts(r: Router, doc: Document, path: Path)
    requires Plain(doc)
    ensures Children(r.schema, path).Some? ==>
              PutsOnly(PlanAll(r, doc.children, path, Children(r.schema, path).value, Merge))
    decreases doc, 0
  {
    if Children(r.schema, path).Some? { PlainAllPuts(r, doc.children, path, Children(r.schema, path).value); }
  }

  lemma {:induction false} PlainAllPuts(r: Router, docs: seq<Document>, base: Path, schema: seq<Node>)
    requires forall doc <- docs :: Plain(doc)
    ensures PutsOnly(PlanAll(r, docs, base, schema, Merge))
    decreases docs, 0
  {
    if docs != [] {
      PlainMergePuts(r, docs[0], base, schema);
      PlainAllPuts(r, docs[1..], base, schema);
    }
  }

  lemma PlainUnconditional(r: Router, doc: Document, base: Path, schema: seq<Node>, op: Op)
    requires Plain(doc) && (op == Merge || op == Replace)
    ensures Unconditional(Plan(r, doc, base, schema, op))
  {
    match ChildNamed(schema, doc.name)
    case Some(Container(_, _)) => PlainInnerPuts(r, doc, base + [Segment(doc.name, "", "")]);
    case Some(List(_, key, _)) =>
      if ListKey(doc, key).Ok? {
        PlainInnerPuts(r, doc, base + [Segment(doc.name, key, ListKey(doc, key).value)]);
      }
    case _ =>
  }

  lemma {:induction false} PlainRequestUnconditional(
    r: Router, docs: seq<Document>, base: Path, schema: seq<Node>, op: Op)
    requires (forall doc <- docs :: Plain(doc)) && (op == Merge || op == Replace)
    ensures Unconditional(PlanAll(r, docs, base, schema, op))
  {
    if docs != [] {
      PlainUnconditional(r, docs[0], base, schema, op);
      PlainRequestUnconditional(r, docs[1..], base, schema, op);
    }
  }

  /** An attribute-free merge or replace request is accepted exactly when its documents fit
      the schema, whatever the datastore holds, and doing it twice is doing it once. */
  lemma PlainRequestIdempotent(r: Router, docs: seq<Document>, base: Path, schema: seq<Node>, op: Op, t: Tree)
    requires (forall doc <- docs :: Plain(doc)) && (op == Merge || op == Replace)
    ensures var actions := PlanAll(r, docs, base, schema, op);
            && (Perform(r, t, actions).Ok? <==> Clean(actions))
            && (Clean(actions) ==> Perform(r, Perform(r, t, actions).value, actions) == Perform(r, t, actions))
  {
    var actions := PlanAll(r, docs, base, schema, op);
    PlainRequestUnconditional(r, docs, base, schema, op);
    UnconditionalRuns(r, t, actions);
    if Clean(actions) {
      UnconditionalRuns(r, Perform(r, t, actions).value, actions);
      AcceptedAgainChangesNothing(r, t, actions);
    }
  }

  /** Any accepted request, checks and attributes included, has an idempotent effect: if the
      same request is accepted again it changes nothing. */
  lemma AcceptedAgainChangesNothing(r: Router, t: Tree, actions: seq<Action>)
    requires Perform(r, t, actions).Ok?
    requires Perform(r, Perform(r, t, actions).value, actions).Ok?
    ensures Perform(r, Perform(r, t, actions).value, actions) == Perform(r, t, actions)
  {
    var once := Perform(r, t, actions).value;
    var twice := Perform(r, once, actions).value;
    forall p ensures At(once, p) == At(twice, p) {
      PerformAt(r, t, actions, p);
      PerformAt(r, once, actions, p);
      FateTwice(r, actions, p, At(t, p));
    }
    SameEverywhere(once, twice);
  }

  /** Replacing a container or list entry leaves below it exactly the configuration the
      document spells out: what was there before makes no difference. */
  lemma ReplaceForgets(r: Router, doc: Document, path: Path, t: Tree, u: Tree, p: Path)
    requires var actions := PlanInner(r, doc, path, Replace);
             Perform(r, t, actions).Ok? && Perform(r, u, actions).Ok?
    requires path < p && IsConfig(r.schema, p)
    ensures var actions := PlanInner(r, doc, path, Replace);
            At(Perform(r, t, actions).value, p) == At(Perform(r, u, actions).value, p)
  {
    var actions := PlanInner(r, doc, path, Replace);
    assert actions[0] == Clear(path);
    PerformAt(r, t, actions, p);
    PerformAt(r, u, actions, p);
  }

  // ------------------------------------------------------------ create and delete

  lemma {:induction false} PutStays(r: Router, t: Tree, actions: seq<Action>, p: Path)
    requires PutsOnly(actions) && Perform(r, t, actions).Ok?
    requires p in t || exists a :: a in actions && a.Put? && a.path == p
    ensures p in Perform(r, t, actions).value
    decreases actions
  {
    if actions != [] {
      var after := Effect(r, t, actions[0]);
      if a :| a in actions && a.Put? && a.path == p { assert a == actions[0] || a in actions[1..]; }
      assert actions[0].Put? || actions[0] in actions;
      PutStays(r, after, actions[1..], p);
    }
  }

  /** The key child of an attribute-free list entry is written. */
  lemma {:induction false} KeyIsPut(r: Router, docs: seq<Document>, base: Path, schema: seq<Node>, key: string)
    requires (forall doc <- docs :: Plain(doc)) && FirstChild(docs, key).Some?
    requires ChildNamed(schema, key).Some? && ChildNamed(schema, key).value.Leaf?
    requires Clean(PlanAll(r, docs, base, schema, Merge))
    ensures exists a :: a in PlanAll(r, docs, base, schema, Merge) && a.Put? && a.path == base + [Segment(key, "", "")]
  {
    var first := Plan(r, docs[0], base, schema, Merge);
    var rest := PlanAll(r, docs[1..], base, schema, Merge);
    assert forall a :: a in first || a in rest ==> a in first + rest;
    if docs[0].name == key {
      assert |first| == 1 && first[0] in first;
      assert first[0].Put? && first[0].path == base + [Segment(key, "", "")];
    } else {
      KeyIsPut(r, docs[1..], base, schema, key);
    }
  }

  lemma {:induction false} OkIsClean(r: Router, t: Tree, actions: seq<Action>)
    requires Perform(r, t, actions).Ok?
    ensures Clean(actions)
    decreases actions
  {
    if actions != [] { OkIsClean(r, Effect(r, t, actions[0]), actions[1..]); }
  }

  /** Creating a list entry and deleting it gives back the datastore, exactly. */
  lemma CreateThenDelete(r: Router, doc: Document, base: Path, schema: seq<Node>, t: Tree)
    requires Children(r.schema, base) == Some(schema) && Conforms(r.schema, t) && Plain(doc)
    requires ChildNamed(schema, doc.name).Some?
    requires var list := ChildNamed(schema, doc.name).value;
             list.List? && ChildNamed(list.children, list.key).Some? && ChildNamed(list.children, list.key).value.Leaf?
    requires Perform(r, t, Plan(r, doc, base, schema, Create)).Ok?
    ensures var created := Perform(r, t, Plan(r, doc, base, schema, Create)).value;
            Perform(r, created, Plan(r, doc, base, schema, Delete)) == Ok(t)
  {
    var list := ChildNamed(schema, doc.name).value;
    var key := ListKey(doc, list.key);
    assert key.Err? ==> Fail(key.error) in Plan(r, doc, base, schema, Create);
    OkIsClean(r, t, Plan(r, doc, base, schema, Create));
    var segment := Segment(doc.name, list.key, ListKey(doc, list.key).value);
    var path := base + [segment];
    ChildrenExtend(r.schema, base, segment);
    CreatedEntry(r, doc, path, list.key, t);
    var created := Perform(r, t, PlanInner(r, doc, path, Create)).value;
    ClearUndoes(r, path, t, created);
    DeletePerformed(r, path, created);
  }

  /** A created entry: nothing was there, something is now, and nothing else moved. */
  lemma CreatedEntry(r: Router, doc: Document, path: Path, key: string, t: Tree)
    requires Plain(doc) && Conforms(r.schema, t) && FirstChild(doc.children, key).Some?
    requires Children(r.schema, path).Some? ==>
               var children := Children(r.schema, path).value;
               ChildNamed(children, key).Some? && ChildNamed(children, key).value.Leaf?
    requires Perform(r, t, PlanInner(r, doc, path, Create)).Ok?
    ensures var created := Perform(r, t, PlanInner(r, doc, path, Create)).value;
            && !HoldsData(r, t, path) && HoldsData(r, created, path) && Conforms(r.schema, created)
            && forall p :: !IsConfig(r.schema, p) || !(path < p) ==> At(created, p) == At(t, p)
  {
    OkIsClean(r, t, PlanInner(r, doc, path, Create));
    assert Children(r.schema, path).None? ==> Fail(UnknownElement) in PlanInner(r, doc, path, Create);
    var children := Children(r.schema, path).value;
    var puts := PlanAll(r, doc.children, path, children, Merge);
    PerformConcat(r, t, [NeedNoData(path)], puts);
    assert Perform(r, t, [NeedNoData(path)]) == if HoldsData(r, t, path) then Err(DataExists) else Ok(t);
    PlainAllPuts(r, doc.children, path, children);
    KeyWritten(r, doc, path, children, key, t, puts);
    PlanAllSound(r, doc.children, path, children, Merge);
    PerformFrame(r, path, t, puts);
  }

  lemma DeletePerformed(r: Router, path: Path, created: Tree)
    requires HoldsData(r, created, path)
    ensures Perform(r, created, PlanSubtree(path, Delete)) == Ok(Cleared(r, created, path))
  {
    var actions := PlanSubtree(path, Delete);
    assert actions == [NeedData(path)] + [Clear(path)];
    PerformConcat(r, created, [NeedData(path)], [Clear(path)]);
    assert Perform(r, created, [NeedData(path)]) == Ok(created);
    assert Perform(r, created, [Clear(path)]) == Ok(Cleared(r, created, path));
  }

  lemma KeyWritten(r: Router, doc: Document, path: Path, children: seq<Node>, key: string, t: Tree, puts: seq<Action>)
    requires Plain(doc) && FirstChild(doc.children, key).Some?
    requires ChildNamed(children, key).Some? && ChildNamed(children, key).value.Leaf?
    requires Children(r.schema, path) == Some(children)
    requires PlanAll(r, doc.children, path, children, Merge) == puts && PutsOnly(puts)
    requires Perform(r, t, puts).Ok?
    ensures HoldsData(r, Perform(r, t, puts).value, path)
  {
    OkIsClean(r, t, puts);
    KeyIsPut(r, doc.children, path, children, key);
    var a :| a in puts && a.Put? && a.path == path + [Segment(key, "", "")];
    PlanAllSound(r, doc.children, path, children, Merge);
    assert SoundAction(r, path, a);
    PutStays(r, t, puts, a.path);
    assert path <= a.path;
  }

  lemma ClearUndoes(r: Router, path: Path, t: Tree, created: Tree)
    requires Conforms(r.schema, t) && Conforms(r.schema, created) && !IsLeaf(r.schema, path)
    requires !HoldsData(r, t, path)
    requires forall p :: !IsConfig(r.schema, p) || !(path < p) ==> At(created, p) == At(t, p)
    ensures Cleared(r, created, path) == t
  {
    forall p ensures At(Cleared(r, created, path), p) == At(t, p) {
      if path < p && IsConfig(r.schema, p) {
        assert path <= p;
      } else {
        assert At(created, p) == At(t, p);
      }
    }
    SameEverywhere(Cleared(r, created, path), t);
  }
}
