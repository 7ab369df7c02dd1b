/** The editor of internal/datatree/edit.go: a recursive walk that mutates a proposed
    snapshot and its writability marks, proved to carry out the plan of module EditPlan. */
module Editor {
  import opened Wrappers
  import opened Text
  import opened Paths
  import opened Schema
  import opened EditPlan
  import Meaning = EditMeaning

  class Editor {
    const router: Router
    var proposed: Tree
    var writable: map<Path, bool>

    predicate Writable(p: Path)
      reads this
    {
      p in writable && writable[p]
    }

    /** Writable means: a configuration leaf of the proposed snapshot. */
    ghost predicate Valid()
      reads this
    {
      && Conforms(router.schema, proposed)
      && forall p :: Writable(p) <==> ConfigIn(router, proposed, p)
    }

    constructor (router: Router, snapshot: Tree)
      requires Conforms(router.schema, snapshot)
      ensures this.router == router && proposed == snapshot && Valid()
    {
      this.router := router;
      proposed := snapshot;
      writable := map p | p in snapshot :: IsConfig(router.schema, p);
    }

    /** The walk ended the way the plan says, error for error. */
    ghost predicate Follows(before: Tree, actions: seq<Action>, err: Option<Error>)
      reads this
    {
      match Perform(router, before, actions)
      case Err(e) => err == Some(e)
      case Ok(t) => err == None && proposed == t && Valid()
    }

    /** The walk is the answer to the documents of a level. */
    ghost predicate Answered(docs: seq<Document>, base: Path, schema: seq<Node>, op: Op, before: Tree,
                             err: Option<Error>)
      reads this
    {
      Meaning.Answers(router, Meaning.Level(docs, base, schema, op), before,
                      if err.Some? then Err(err.value) else Ok(proposed))
    }

    method RemovePath(path: Path)
      modifies this
      ensures proposed == old(proposed) - {path}
      ensures forall p :: Writable(p) <==> p != path && old(Writable(p))
    {
      proposed := proposed - {path};
      writable := writable - {path};
    }

    method Contains(path: Path) returns (found: bool)
      requires Valid()
      ensures found <==> HoldsData(router, proposed, path)
    {
      if Writable(path) { return true; }
      var todo := proposed.Keys;
      while todo != {}
        invariant todo <= proposed.Keys
        invariant forall p :: p in proposed.Keys - todo ==> !(Writable(p) && path < p)
        decreases todo
      {
        var candidate :| candidate in todo;
        if Writable(candidate) && path < candidate { return true; }
        todo := todo - {candidate};
      }
      forall p | p in proposed && path <= p ensures !IsConfig(router.schema, p) {
        assert Writable(p) <==> ConfigIn(router, proposed, p);
        assert p == path || path < p;
        assert p in proposed.Keys - todo;
      }
      return false;
    }

    /** Drops the writable leaves below `path` while ranging over the snapshot. */
    method Wipe(path: Path)
      requires Valid() && !IsLeaf(router.schema, path)
      modifies this
      ensures proposed == Cleared(router, old(proposed), path)
      ensures Valid()
    {
      hide Resolve;
      var todo := proposed.Keys;
      while todo != {}
        invariant todo <= old(proposed).Keys
        invariant proposed ==
                  map p | p in old(proposed) && (p in todo || !(path < p && IsConfig(router.schema, p)))
                    :: old(proposed)[p]
        invariant Valid()
        decreases todo
      {
        var candidate :| candidate in todo;
        todo := todo - {candidate};
        if Writable(candidate) && path < candidate { RemovePath(candidate); }
      }
      RemovePath(path);
    }

    method PrepareSubtree(path: Path, op: Op) returns (err: Option<Error>)
      requires Valid() && !IsLeaf(router.schema, path)
      modifies this
      ensures Follows(old(proposed), PlanSubtree(path, op), err)
    {
      ghost var before := proposed;
      match op {
        case Create =>
          var found := Contains(path);
          if found { return Some(DataExists); }
        case Delete =>
          assert PlanSubtree(path, op)[1..] == [Clear(path)];
          var found := Contains(path);
          if !found { return Some(DataMissing); }
          Wipe(path);
          assert Perform(router, before, [Clear(path)]) == Ok(Cleared(router, before, path));
        case Remove => Wipe(path);
        case Replace => Wipe(path);
        case _ =>
      }
      return None;
    }

    method EditLeaf(path: Path, text: string, kind: LeafKind, op: Op) returns (err: Option<Error>)
      requires Valid()
      modifies this
      ensures Follows(old(proposed), PlanLeaf(router, path, text, kind, op), err)
    {
      if op == Keep { return None; }
      if op == Delete || op == Remove {
        err := DropLeaf(path, text, kind, op);
      } else {
        err := PutLeaf(path, text, kind, op);
      }
    }

    /** The delete and remove cases of a leaf. */
    method DropLeaf(path: Path, text: string, kind: LeafKind, op: Op) returns (err: Option<Error>)
      requires Valid() && (op == Delete || op == Remove)
      modifies this
      ensures Follows(old(proposed), PlanLeaf(router, path, text, kind, op), err)
    {
      if op == Delete {
        if !Writable(path) {
          return if path in proposed then Some(AccessDenied) else Some(DataMissing);
        }
        RemovePath(path);
        return None;
      }
      if path in proposed && !Writable(path) { return Some(AccessDenied); }
      RemovePath(path);
      return None;
    }

    /** The merge, replace and create cases of a leaf. */
    method PutLeaf(path: Path, text: string, kind: LeafKind, op: Op) returns (err: Option<Error>)
      requires Valid() && op != Delete && op != Remove && op != Keep
      modifies this
      ensures Follows(old(proposed), PlanLeaf(router, path, text, kind, op), err)
    {
      hide Trim, Convert;
      var value := router.parse(kind, Trim(text));
      if value.None? { return Some(InvalidValue); }
      var result := Convert(router, path, value.value);
      if result.Err? {
        match result.error {
          case ReadOnly => return Some(AccessDenied);
          case NotFound => return Some(UnknownElement);
          case BadValue => return Some(InvalidValue);
        }
      }
      ghost var before := proposed;
      if op == Create {
        assert PlanLeaf(router, path, text, kind, op)[1..] == [Put(path, result.value)];
        if Writable(path) { return Some(DataExists); }
      }
      label put:
      proposed := proposed[path := result.value];
      writable := writable[path := true];
      forall p ensures Writable(p) <==> ConfigIn(router, proposed, p) {
        if p != path { assert old@put(Writable(p)) <==> ConfigIn(router, before, p); }
      }
      assert Perform(router, before, [Put(path, result.value)]) == Ok(proposed);
      return None;
    }

    /** `walk`: one document below `base`. */
    method Walk(doc: Document, base: Path, schema: seq<Node>, inherited: Op) returns (err: Option<Error>)
      requires Valid() && Children(router.schema, base) == Some(schema)
      modifies this
      ensures Follows(old(proposed), Plan(router, doc, base, schema, inherited), err)
      ensures Answered([doc], base, schema, inherited, old(proposed), err)
      decreases doc, 1
    {
      hide Meaning.Answers, ListKey, ParseOperation, PlanLeaf, PlanInner, Children;
      Meaning.DocumentAnswered(router, doc, base, schema, inherited, proposed);
      var node := ChildNamed(schema, doc.name);
      if node.None? { return Some(UnknownElement); }
      var explicit := ParseOperation(doc.operation);
      if explicit.Err? { return Some(explicit.error); }
      var op := if explicit.value.Some? then explicit.value.value else inherited;
      match node.value {
        case Leaf(_, kind, _) =>
          err := EditLeaf(base + [Segment(doc.name, "", "")], doc.text, kind, op);
        case Container(_, _) =>
          err := Inner(doc, base, schema, Segment(doc.name, "", ""), op);
        case List(_, key, _) =>
          var value := ListKey(doc, key);
          if value.Err? { return Some(value.error); }
          err := Inner(doc, base, schema, Segment(doc.name, key, value.value), op);
      }
    }

    /** The common body of `container` and `list`. */
    method Inner(doc: Document, base: Path, schema: seq<Node>, segment: Segment, op: Op) returns (err: Option<Error>)
      requires Valid() && Children(router.schema, base) == Some(schema)
      requires ChildNamed(schema, segment.name).Some? && !ChildNamed(schema, segment.name).value.Leaf?
      modifies this
      ensures Follows(old(proposed), PlanInner(router, doc, base + [segment], op), err)
      decreases doc, 0
    {
      var path := base + [segment];
      ChildrenExtend(router.schema, base, segment);
      err := PrepareSubtree(path, op);
      ghost var rest := if Children(router.schema, path).None? then [Fail(UnknownElement)]
                        else PlanAll(router, doc.children, path, Children(router.schema, path).value,
                          ChildOperation(op));
      PerformConcat(router, old(proposed), PlanSubtree(path, op), rest);
      if err.Some? || op == Delete || op == Remove { return; }
      var children := Children(router.schema, path);
      if children.None? { return Some(UnknownElement); }
      err := WalkAll(doc.children, path, children.value, ChildOperation(op));
    }

    /** The loop over the documents of one level. */
    method WalkAll(docs: seq<Document>, base: Path, schema: seq<Node>, op: Op) returns (err: Option<Error>)
      requires Valid() && Children(router.schema, base) == Some(schema)
      modifies this
      ensures Follows(old(proposed), PlanAll(router, docs, base, schema, op), err)
      ensures Answered(docs, base, schema, op, old(proposed), err)
      decreases docs, 0
    {
      hide Meaning.Answers;
      Meaning.RequestAnswered(router, Meaning.Level(docs, base, schema, op), proposed);
      ghost var before := proposed;
      for i := 0 to |docs|
        invariant Valid()
        invariant Perform(router, before, PlanAll(router, docs, base, schema, op)) ==
                  Perform(router, proposed, PlanAll(router, docs[i..], base, schema, op))
      {
        ghost var now := proposed;
        assert docs[i..][0] == docs[i] && docs[i..][1..] == docs[i + 1..];
        PerformConcat(router, now, Plan(router, docs[i], base, schema, op),
          PlanAll(router, docs[i + 1..], base, schema, op));
        err := Walk(docs[i], base, schema, op);
        if err.Some? { return; }
      }
      return None;
    }
  }
}
