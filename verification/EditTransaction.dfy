/** `Apply` of internal/datatree/edit.go end to end: read the datastore, edit a proposed
    snapshot, validate it, write back one difference batch. */
module EditTransaction {
  import opened Wrappers
  import opened Leaves
  import opened Paths
  import opened Schema
  import opened EditPlan
  import L = EditLaws
  import Meaning = EditMeaning
  import Datastores
  import E = Editor
  import M = Memory

  // ------------------------------------------------------- flat text, flat paths

  ghost predicate Spelled(t: Tree, s: string) {
    exists p :: p in t && Format(p) == s
  }

  lemma FormatsApart(t: Tree)
    requires Canonical(t)
    ensures forall p, q :: p in t && q in t && Format(p) == Format(q) ==> p == q
  {
    hide Format;
    forall p, q | p in t && q in t && Format(p) == Format(q) ensures p == q { FormatInjective(p, q); }
  }

  /** The tree as the store keeps it, keyed by path text. */
  ghost function Encode(t: Tree): (values: Values)
    requires Canonical(t)
    ensures forall p <- t :: Format(p) in values && values[Format(p)] == t[p]
    ensures forall s :: s in values <==> Spelled(t, s)
  {
    FormatsApart(t);
    map p | p in t :: Format(p) := t[p]
  }

  /** Every path names a leaf that the device template can hold. */
  predicate Held(r: Router, t: Tree) {
    forall p <- t :: IsLeaf(r.schema, p) && r.present(p)
  }

  /** The snapshot an edit starts from: what `collect` makes of the stored text. */
  ghost predicate Snapshot(r: Router, t: Tree, values: Values) {
    Canonical(t) && Held(r, t) && Encode(t) == values
  }

  /** The text parses to the path of a leaf that the device template can hold. */
  predicate NamesLeaf(r: Router, s: string) {
    Parse(s).Some? && IsLeaf(r.schema, Parse(s).value) && r.present(Parse(s).value)
  }

  /** A stored text that does not name such a leaf rules every snapshot out. */
  lemma Unreadable(r: Router, values: Values, s: string)
    requires s in values
    requires !NamesLeaf(r, s)
    ensures forall u :: !Snapshot(r, u, values)
  {
    forall u | Canonical(u) && Held(r, u) ensures !Spelled(u, s) {
      forall p | p in u ensures Format(p) != s { ParseFormat(p); }
    }
  }

  /** `collect`: every stored path must parse and resolve, in the template, to a leaf. */
  method Collect(r: Router, values: Values) returns (t: Option<Tree>)
    ensures t.Some? ==> Snapshot(r, t.value, values)
    ensures t.None? ==> forall u :: !Snapshot(r, u, values)
    ensures t.Some? <==> forall s <- values :: NamesLeaf(r, s)
  {
    var tree: Tree := map[];
    var todo := values.Keys;
    while todo != {}
      invariant todo <= values.Keys
      invariant Canonical(tree) && Held(r, tree)
      invariant forall p <- tree :: Format(p) in values.Keys - todo && values[Format(p)] == tree[p]
      invariant forall s :: s in values.Keys - todo ==> Spelled(tree, s) && NamesLeaf(r, s)
      decreases todo
    {
      var s :| s in todo;
      var parsed := ParsePath(s);
      if parsed.None? || !IsLeaf(r.schema, parsed.value) || !r.present(parsed.value) {
        Unreadable(r, values, s);
        return None;
      }
      todo := todo - {s};
      ghost var before := tree;
      tree := tree[parsed.value := values[s]];
      forall x | x in values.Keys - todo ensures Spelled(tree, x) {
        if x != s { assert Spelled(before, x); } else { assert parsed.value in tree; }
      }
    }
    SameText(tree, values);
    return Some(tree);
  }

  lemma SameText(t: Tree, values: Values)
    requires Canonical(t)
    requires forall p <- t :: Format(p) in values && values[Format(p)] == t[p]
    requires forall s <- values :: Spelled(t, s)
    ensures Encode(t) == values
  {
    assert Encode(t).Keys == values.Keys;
    forall s | s in values ensures Encode(t)[s] == values[s] {
      var p :| p in t && Format(p) == s;
    }
  }

  // ------------------------------------------------------------ difference batch

  /** `applyDiff`: what to write and what to drop. */
  method DiffBatch(original: Tree, proposed: Tree) returns (sets: Tree, deletions: seq<Path>)
    ensures sets == Changed(original, proposed)
    ensures forall p :: p in deletions <==> p in original.Keys - proposed.Keys
  {
    sets, deletions := map[], [];
    var todo := proposed.Keys;
    while todo != {}
      invariant todo <= proposed.Keys
      invariant sets == map p | p in proposed && p !in todo && At(original, p) != Some(proposed[p]) :: proposed[p]
      decreases todo
    {
      var p :| p in todo;
      todo := todo - {p};
      if !(p in original && original[p] == proposed[p]) { sets := sets[p := proposed[p]]; }
    }
    todo := original.Keys;
    while todo != {}
      invariant todo <= original.Keys
      invariant forall p :: p in deletions <==> p in original.Keys - todo && p !in proposed
      decreases todo
    {
      var p :| p in todo;
      todo := todo - {p};
      if p !in proposed { deletions := deletions + [p]; }
    }
  }

  function Changed(original: Tree, proposed: Tree): Tree {
    map p | p in proposed && At(original, p) != Some(proposed[p]) :: proposed[p]
  }

  /** What the construction of a router promises: spellable names, and conversions to values the
      store supports, which convert to themselves. */
  ghost predicate Built(r: Router) {
    && GoodNames(r.schema)
    && forall kind, v, w :: r.coerce(kind, v) == Some(w) ==> Supported(w) && r.coerce(kind, w) == Some(w)
  }

  /** The difference of two trees is configuration, in its final form and such as the store takes. */
  ghost predicate Ready(r: Router, original: Tree, proposed: Tree) {
    && (forall p <- Changed(original, proposed) ::
          IsConfig(r.schema, p) && Convert(r, p, proposed[p]) == Ok(proposed[p]) && Supported(proposed[p]))
    && (forall p :: p in original.Keys - proposed.Keys ==> IsConfig(r.schema, p))
  }

  lemma FittedConverts(r: Router, p: Path, w: Value)
    requires Built(r) && Fitted(r, p, w)
    ensures IsConfig(r.schema, p) && Convert(r, p, w) == Ok(w) && Supported(w)
  {
    var v :| Convert(r, p, v) == Ok(w);
  }

  lemma BatchIsConfig(r: Router, base: Path, original: Tree, actions: seq<Action>)
    requires Built(r) && Conforms(r.schema, original) && Sound(r, base, actions)
    requires Perform(r, original, actions).Ok?
    ensures Ready(r, original, Perform(r, original, actions).value)
  {
    hide Convert, Perform, Built, Sound, IsConfig, Conforms;
    PerformFrame(r, base, original, actions);
    var proposed := Perform(r, original, actions).value;
    forall p | p in Changed(original, proposed)
      ensures IsConfig(r.schema, p) && Convert(r, p, proposed[p]) == Ok(proposed[p]) && Supported(proposed[p])
    {
      assert At(proposed, p) != At(original, p);
      FittedConverts(r, p, proposed[p]);
    }
    forall p | p in original.Keys - proposed.Keys ensures IsConfig(r.schema, p) {
      assert At(proposed, p) != At(original, p);
    }
  }

  // ----------------------------------------------------------- what the store takes

  lemma SegmentEnds(segment: Segment)
    requires segment.name != ""
    ensures var text := FormatSegment(segment);
            && text != "" && text[0] == segment.name[0]
            && text[|text| - 1] == if segment.key == "" then segment.name[|segment.name| - 1] else ']'
  {
  }

  /** The text of a path begins with its first name and ends with its last, or with a bracket. */
  lemma FormatEnds(p: Path)
    requires p != [] && p[0].name != "" && p[|p| - 1].name != ""
    ensures var text, last := Format(p), p[|p| - 1];
            && text != "" && text[0] == p[0].name[0]
            && text[|text| - 1] == if last.key == "" then last.name[|last.name| - 1] else ']'
  {
    hide FormatSegment, Format;
    var k := |p| - 1;
    SegmentEnds(p[0]);
    SegmentEnds(p[k]);
    FormatStarts(p);
    assert p[..k] + [p[k]] == p;
    FormatExtend(p[..k], p[k]);
  }

  lemma FormatStarts(p: Path)
    requires p != []
    ensures FormatSegment(p[0]) <= Format(p)
  {
    hide FormatSegment;
    assert FormatParts(p)[0] == FormatSegment(p[0]);
  }

  /** Every leaf of the schema has a text the store's path check takes. */
  lemma LeafTextValid(nodes: seq<Node>, p: Path)
    requires GoodNames(nodes) && IsLeaf(nodes, p) && p != [] && WellFormed(p)
    ensures Datastores.ValidPath(Format(p))
  {
    LeafNames(nodes, p);
    ParseFormat(p);
    FormatEnds(p);
    hide Format;
  }

  /** So the store accepts the batch. */
  lemma BatchIsValid(r: Router, original: Tree, proposed: Tree, deletions: seq<Path>, texts: seq<string>)
    requires Built(r) && Canonical(original) && Canonical(Changed(original, proposed)) && Ready(r, original, proposed)
    requires DropsSpelled(original, proposed, deletions, texts)
    ensures Datastores.ValidBatch(Encode(Changed(original, proposed)), texts)
  {
    hide Format, Datastores.ValidPath;
    var sets := Changed(original, proposed);
    forall s | s in Encode(sets) ensures Datastores.ValidPath(s) && Supported(Encode(sets)[s]) {
      var p :| p in sets && Format(p) == s;
      LeafTextValid(r.schema, p);
    }
    forall s | s in texts ensures Datastores.ValidPath(s) {
      var i :| 0 <= i < |texts| && texts[i] == s;
      assert deletions[i] in deletions;
      LeafTextValid(r.schema, deletions[i]);
    }
  }

  // ------------------------------------------------------------------ transaction

  /** `Router.Apply` up to the store: every value is converted again. */
  method ConvertAll(r: Router, sets: Tree) returns (converted: Option<Tree>)
    ensures converted.Some? ==> converted.value.Keys == sets.Keys
    ensures (forall p <- sets :: Convert(r, p, sets[p]) == Ok(sets[p])) ==> converted == Some(sets)
  {
    var values: Tree := map[];
    var todo := sets.Keys;
    while todo != {}
      invariant todo <= sets.Keys
      invariant values.Keys == sets.Keys - todo
      invariant (forall p <- sets :: Convert(r, p, sets[p]) == Ok(sets[p])) ==>
                forall p <- values :: values[p] == sets[p]
      decreases todo
    {
      var p :| p in todo;
      var result := Convert(r, p, sets[p]);
      if result.Err? { return None; }
      todo := todo - {p};
      values := values[p := result.value];
    }
    assert (forall p <- sets :: Convert(r, p, sets[p]) == Ok(sets[p])) ==> values == sets;
    return Some(values);
  }

  method SpellTree(t: Tree) returns (values: Values)
    requires Canonical(t)
    ensures values == Encode(t)
  {
    values := map[];
    var todo := t.Keys;
    while todo != {}
      invariant todo <= t.Keys
      invariant forall p :: p in t.Keys - todo ==> Format(p) in values && values[Format(p)] == t[p]
      invariant forall s <- values :: Spelled(t, s)
      decreases todo
    {
      var p :| p in todo;
      todo := todo - {p};
      var text := FormatPath(p);
      forall q | q in t && q != p ensures Format(q) != text {
        if Format(q) == text { FormatInjective(p, q); }
      }
      values := values[text := t[p]];
      assert Spelled(t, text);
    }
    SameText(t, values);
  }

  method SpellAll(paths: seq<Path>) returns (texts: seq<string>)
    ensures |texts| == |paths| && forall i :: 0 <= i < |paths| ==> texts[i] == Format(paths[i])
  {
    texts := [];
    for i := 0 to |paths|
      invariant |texts| == i && forall j :: 0 <= j < i ==> texts[j] == Format(paths[j])
    {
      var text := FormatPath(paths[i]);
      texts := texts + [text];
    }
  }

  /** Reading the text of a path is reading the path. */
  lemma EncodeAt(t: Tree, p: Path)
    requires Canonical(t) && p != [] && WellFormed(p)
    ensures ValueAt(Encode(t), Format(p)) == At(t, p)
  {
    if Spelled(t, Format(p)) { SpelledBack(p, t); }
  }

  lemma TextListed(paths: seq<Path>, texts: seq<string>, p: Path)
    requires |texts| == |paths| && forall i :: 0 <= i < |paths| ==> texts[i] == Format(paths[i])
    requires forall q <- paths :: q != [] && WellFormed(q)
    requires p != [] && WellFormed(p)
    ensures Format(p) in texts <==> p in paths
  {
    if Format(p) in texts {
      var i :| 0 <= i < |texts| && texts[i] == Format(p);
      assert paths[i] in paths;
      FormatInjective(p, paths[i]);
    }
    if p in paths {
      var i :| 0 <= i < |paths| && paths[i] == p;
      assert texts[i] == Format(p);
    }
  }

  /** `deletions`, spelled as `texts`, are the paths the proposal no longer has. */
  ghost predicate DropsSpelled(original: Tree, proposed: Tree, deletions: seq<Path>, texts: seq<string>) {
    && (forall p :: p in deletions <==> p in original.Keys - proposed.Keys)
    && |texts| == |deletions| && (forall i :: 0 <= i < |deletions| ==> texts[i] == Format(deletions[i]))
  }

  ghost function Written(original: Tree, proposed: Tree, texts: seq<string>): Values
    requires Canonical(original) && Canonical(Changed(original, proposed))
  {
    Datastores.Overwrite(Encode(original), Encode(Changed(original, proposed)), Datastores.Elements(texts))
  }

  lemma BatchLandsAt(original: Tree, proposed: Tree, deletions: seq<Path>, texts: seq<string>, p: Path)
    requires Canonical(original) && Canonical(proposed) && Canonical(Changed(original, proposed))
    requires DropsSpelled(original, proposed, deletions, texts) && p != [] && WellFormed(p)
    ensures ValueAt(Written(original, proposed, texts), Format(p)) == At(proposed, p)
  {
    hide Format;
    EncodeAt(original, p);
    EncodeAt(Changed(original, proposed), p);
    TextListed(deletions, texts, p);
  }

  lemma TextOnlyOfPaths(original: Tree, proposed: Tree, texts: seq<string>, s: string)
    requires Canonical(original) && Canonical(Changed(original, proposed))
    requires s in Written(original, proposed, texts)
    ensures Spelled(original, s) || Spelled(Changed(original, proposed), s)
  {
  }

  /** Writing the difference turns the stored text of the snapshot into that of the proposal. */
  lemma BatchLands(original: Tree, proposed: Tree, deletions: seq<Path>, texts: seq<string>)
    requires Canonical(original) && Canonical(proposed) && Canonical(Changed(original, proposed))
    requires DropsSpelled(original, proposed, deletions, texts)
    ensures Written(original, proposed, texts) == Encode(proposed)
  {
    var after := Written(original, proposed, texts);
    forall s | s in after ensures Spelled(proposed, s) {
      TextOnlyOfPaths(original, proposed, texts, s);
      var p :| (p in original || p in Changed(original, proposed)) && Format(p) == s;
      BatchLandsAt(original, proposed, deletions, texts, p);
    }
    forall p | p in proposed ensures Format(p) in after && after[Format(p)] == proposed[p] {
      BatchLandsAt(original, proposed, deletions, texts, p);
    }
    SameText(proposed, after);
  }

  lemma EncodeInjective(t: Tree, u: Tree)
    requires Canonical(t) && Canonical(u) && Encode(t) == Encode(u)
    ensures t == u
  {
    forall p ensures p in t <==> p in u {
      if p in t { SpelledBack(p, u); }
      if p in u { SpelledBack(p, t); }
    }
    forall p | p in t ensures t[p] == u[p] {
      assert Encode(t)[Format(p)] == Encode(u)[Format(p)];
    }
  }

  lemma SpelledBack(p: Path, u: Tree)
    requires Canonical(u) && p != [] && WellFormed(p) && Spelled(u, Format(p))
    ensures p in u
  {
    var q :| q in u && Format(q) == Format(p);
    FormatInjective(p, q);
  }

  /** What an edit of snapshot `t` comes to: an error, or a validated proposal. */
  ghost function Outcome(
    r: Router, valid: Tree -> bool, t: Tree, base: Path, default: Op, docs: seq<Document>): Result<Tree, Error> {
    match Children(r.schema, base)
    case None => Err(Failed)
    case Some(schema) =>
      match Perform(r, t, PlanAll(r, docs, base, schema, default))
      case Err(e) => Err(e)
      case Ok(proposed) => if valid(proposed) then Ok(proposed) else Err(InvalidValue)
  }

  /** The first half of `apply`: read, edit, validate. */
  method Propose(r: Router, valid: Tree -> bool, values: Values, base: Path, default: Op, docs: seq<Document>)
    returns (res: Result<(Tree, Tree), Error>)
    ensures res.Ok? ==>
              && Snapshot(r, res.value.0, values)
              && Outcome(r, valid, res.value.0, base, default, docs) == Ok(res.value.1)
    ensures (forall t :: !Snapshot(r, t, values)) ==> res == Err(Failed)
    ensures forall t | Snapshot(r, t, values) ::
              if Outcome(r, valid, t, base, default, docs).Err?
              then res == Err(Outcome(r, valid, t, base, default, docs).error)
              else res == Ok((t, Outcome(r, valid, t, base, default, docs).value))
  {
    var collected := Collect(r, values);
    if collected.None? { return Err(Failed); }
    var original := collected.value;
    forall t | Snapshot(r, t, values) ensures t == original { EncodeInjective(t, original); }
    var schema := Children(r.schema, base);
    if schema.None? { return Err(Failed); }
    var editor := new E.Editor(r, original);
    var err := editor.WalkAll(docs, base, schema.value, default);
    if err.Some? { return Err(err.value); }
    if !valid(editor.proposed) { return Err(InvalidValue); }
    return Ok((original, editor.proposed));
  }

  /** The store's side of `Router.Apply`. */
  method StoreBatch(store: M.Memory, ds: Datastores.Datastore, sets: Tree, deletions: seq<Path>, now: Datastores.Time)
    returns (accepted: bool, ghost texts: seq<string>)
    requires Canonical(sets)
    modifies store
    ensures |texts| == |deletions| && forall i :: 0 <= i < |deletions| ==> texts[i] == Format(deletions[i])
    ensures var op := Datastores.Op.Apply(ds, Encode(sets), texts);
            && accepted == Datastores.Effective(store.options, old(store.View()), op)
            && store.View() == Datastores.Step(store.options, old(store.View()), op, now)
  {
    hide Format, Encode, Datastores.Effective, Datastores.Step;
    var values := SpellTree(sets);
    var spelled := SpellAll(deletions);
    var failed := store.Apply(ds, values, spelled, now);
    accepted, texts := failed.None?, spelled;
  }

  /** The second half, `applyDiff`: one batch, which a difference that is ready lands whole. */
  method WriteBack(store: M.Memory, r: Router, ds: Datastores.Datastore, original: Tree, proposed: Tree,
                   now: Datastores.Time)
    returns (err: Option<Error>)
    requires !ds.Other? && Canonical(original) && Canonical(proposed)
    requires Datastores.Contents(store.View(), ds) == Encode(original)
    modifies store
    ensures err.Some? ==> store.View() == old(store.View())
    ensures Built(r) && Ready(r, original, proposed) ==>
              err.None? && Datastores.Contents(store.View(), ds) == Encode(proposed)
  {
    hide Format, Encode, Built, Datastores.ValidBatch;
    var sets, deletions := DiffBatch(original, proposed);
    var converted := ConvertAll(r, sets);
    if converted.None? { return Some(Failed); }
    hide Convert;
    ghost var before := store.View();
    var accepted, texts := StoreBatch(store, ds, converted.value, deletions, now);
    if Built(r) && Ready(r, original, proposed) {
      assert converted.value == sets;
      BatchIsValid(r, original, proposed, deletions, texts);
      ApplyContents(store.options, before, ds, Encode(sets), texts, now);
      BatchLands(original, proposed, deletions, texts);
    }
    return if accepted then None else Some(Failed);
  }

  /** The proposal of an accepted edit can be spelled, and its difference is ready. */
  lemma ProposalReady(r: Router, valid: Tree -> bool, t: Tree, base: Path, default: Op, docs: seq<Document>)
    requires Built(r) && WellFormed(base) && Canonical(t) && Conforms(r.schema, t)
    requires Outcome(r, valid, t, base, default, docs).Ok?
    ensures var proposed := Outcome(r, valid, t, base, default, docs).value;
            Canonical(proposed) && Ready(r, t, proposed)
  {
    var schema := Children(r.schema, base).value;
    var plan := PlanAll(r, docs, base, schema, default);
    PlanAllSound(r, docs, base, schema, default);
    ChildrenGoodNames(r.schema, base);
    PlanAllSpellable(r, docs, base, schema, default);
    PerformCanonical(r, t, plan);
    BatchIsConfig(r, base, t, plan);
  }

  /** What an accepted edit leaves can be read and edited again. */
  lemma ProposalIsSnapshot(r: Router, t: Tree, proposed: Tree)
    requires Canonical(proposed) && Held(r, t) && Ready(r, t, proposed)
    ensures Snapshot(r, proposed, Encode(proposed))
  {
    forall p | p in proposed ensures IsLeaf(r.schema, p) && r.present(p) {
      if p !in Changed(t, proposed) { assert p in t; }
    }
  }

  lemma EditIsReady(r: Router, valid: Tree -> bool, values: Values, t: Tree, base: Path, default: Op,
                    docs: seq<Document>, proposed: Tree)
    requires Built(r) && WellFormed(base) && Snapshot(r, t, values)
    requires Outcome(r, valid, t, base, default, docs) == Ok(proposed)
    ensures Canonical(t) && Canonical(proposed) && Encode(t) == values
    ensures Ready(r, t, proposed) && Snapshot(r, proposed, Encode(proposed))
  {
    ProposalReady(r, valid, t, base, default, docs);
    ProposalIsSnapshot(r, t, proposed);
  }

  /** The edit of a snapshot ended as its outcome says: refused with that error, or the proposal is
      in the datastore, whole, and is again a snapshot. */
  ghost predicate Landed(r: Router, outcome: Result<Tree, Error>, err: Option<Error>, contents: Values) {
    if outcome.Err? then err == Some(outcome.error)
    else err.None? && Snapshot(r, outcome.value, contents)
  }

  /** The edit ended as the meaning of its documents says: with the error of the first that is
      refused, or of the validation; or the datastore holds what they leave. */
  ghost predicate Edited(
    r: Router, valid: Tree -> bool, t: Tree, base: Path, default: Op, docs: seq<Document>, err: Option<Error>,
    contents: Values) {
    match Children(r.schema, base)
    case None => err == Some(Failed)
    case Some(schema) =>
      exists answer :: Meaning.Answers(r, Meaning.Level(docs, base, schema, default), t, answer)
        && if answer.Err? then err == Some(answer.error)
           else if valid(answer.value) then err.None? && Snapshot(r, answer.value, contents)
           else err == Some(InvalidValue)
  }

  lemma LandedIsEdited(
    r: Router, valid: Tree -> bool, t: Tree, base: Path, default: Op, docs: seq<Document>, err: Option<Error>,
    contents: Values)
    requires Landed(r, Outcome(r, valid, t, base, default, docs), err, contents)
    ensures Edited(r, valid, t, base, default, docs, err, contents)
  {
    hide Meaning.Answers, Snapshot, PlanAll, Perform;
    if Children(r.schema, base).Some? {
      Meaning.RequestAnswered(r, Meaning.Level(docs, base, Children(r.schema, base).value, default), t);
    }
  }

  /** `Apply`. A refused edit leaves the store as it was, and so does one of a datastore that cannot
      be read. Any other edit is accepted exactly when the plan of its documents carries out on the
      snapshot and validates, and then it lands. */
  method Apply(
    store: M.Memory, r: Router, valid: Tree -> bool, ds: Datastores.Datastore,
    base: Path, default: Op, docs: seq<Document>, now: Datastores.Time)
    returns (err: Option<Error>)
    requires Built(r) && WellFormed(base)
    modifies store
    ensures err.Some? ==> store.View() == old(store.View())
    ensures ds.Other? || (forall t :: !Snapshot(r, t, old(Datastores.Contents(store.View(), ds)))) ==>
              err == Some(Failed)
    ensures !ds.Other? ==> forall t | Snapshot(r, t, old(Datastores.Contents(store.View(), ds))) ::
              && Landed(r, Outcome(r, valid, t, base, default, docs), err, Datastores.Contents(store.View(), ds))
              && Edited(r, valid, t, base, default, docs, err, Datastores.Contents(store.View(), ds))
  {
    hide Encode, Canonical, Outcome, Built, Ready, Snapshot, Edited;
    if ds.Other? { return Some(Failed); }
    ghost var values := Datastores.Contents(store.View(), ds);
    err := ApplySnapshot(store, r, valid, ds, base, default, docs, now);
    forall t | Snapshot(r, t, values)
      ensures Edited(r, valid, t, base, default, docs, err, Datastores.Contents(store.View(), ds))
    {
      LandedIsEdited(r, valid, t, base, default, docs, err, Datastores.Contents(store.View(), ds));
    }
  }

  /** `apply`, once the datastore is known. */
  method ApplySnapshot(
    store: M.Memory, r: Router, valid: Tree -> bool, ds: Datastores.Datastore,
    base: Path, default: Op, docs: seq<Document>, now: Datastores.Time)
    returns (err: Option<Error>)
    requires Built(r) && WellFormed(base) && !ds.Other?
    modifies store
    ensures err.Some? ==> store.View() == old(store.View())
    ensures (forall t :: !Snapshot(r, t, old(Datastores.Contents(store.View(), ds)))) ==> err == Some(Failed)
    ensures forall t | Snapshot(r, t, old(Datastores.Contents(store.View(), ds))) ::
              Landed(r, Outcome(r, valid, t, base, default, docs), err, Datastores.Contents(store.View(), ds))
  {
    hide Encode, Canonical, Outcome, Built, Ready, Snapshot;
    var res := Propose(r, valid, Datastores.Contents(store.View(), ds), base, default, docs);
    if res.Err? { return Some(res.error); }
    var (original, proposed) := res.value;
    EditIsReady(r, valid, Datastores.Contents(store.View(), ds), original, base, default, docs, proposed);
    err := WriteBack(store, r, ds, original, proposed, now);
  }

  /** A merge or replace request without operation attributes. */
  predicate PlainRequest(default: Op, docs: seq<Document>) {
    (default == Merge || default == Replace) && forall doc <- docs :: L.Plain(doc)
  }

  /** The outcome of such a request is its own outcome. */
  lemma PlainEditIdempotent(
    r: Router, valid: Tree -> bool, t: Tree, base: Path, default: Op, docs: seq<Document>)
    requires PlainRequest(default, docs) && Outcome(r, valid, t, base, default, docs).Ok?
    ensures var proposed := Outcome(r, valid, t, base, default, docs).value;
            Outcome(r, valid, proposed, base, default, docs) == Ok(proposed)
  {
    hide Perform, PlanAll;
    L.PlainRequestIdempotent(r, docs, base, Children(r.schema, base).value, default, t);
  }

  /** Making such a request twice does what making it once does. */
  method ApplyTwice(
    store: M.Memory, r: Router, valid: Tree -> bool, ds: Datastores.Datastore,
    base: Path, default: Op, docs: seq<Document>, now: Datastores.Time, later: Datastores.Time)
    returns (err: Option<Error>)
    requires Built(r) && WellFormed(base) && PlainRequest(default, docs) && !ds.Other?
    modifies store
    ensures err.Some? ==> store.View() == old(store.View())
    ensures forall t | Snapshot(r, t, old(Datastores.Contents(store.View(), ds))) ::
              Landed(r, Outcome(r, valid, t, base, default, docs), err, Datastores.Contents(store.View(), ds))
  {
    hide Encode, Canonical, Outcome, Built, Snapshot, Held, Edited, Datastores.Contents;
    ghost var before := Datastores.Contents(store.View(), ds);
    var first := Apply(store, r, valid, ds, base, default, docs, now);
    ghost var between := Datastores.Contents(store.View(), ds);
    if first.Some? { return first; }
    label middle:
    err := Apply(store, r, valid, ds, base, default, docs, later);
    forall t | Snapshot(r, t, before)
      ensures Landed(r, Outcome(r, valid, t, base, default, docs), err, Datastores.Contents(store.View(), ds))
    {
      var outcome := Outcome(r, valid, t, base, default, docs);
      assert Landed(r, outcome, first, between);
      PlainEditIdempotent(r, valid, t, base, default, docs);
      assert Snapshot(r, outcome.value, between);
    }
  }

  // --------------------------------------------------- writes between read and batch

  /** A domain's write of a state leaf (`SetState`, `DeleteState`). */
  predicate StateWrite(o: Datastores.Options, op: Datastores.Op) {
    (op.Set? || op.Delete?) && op.ds == Datastores.Running && o.isState(op.path)
  }

  lemma {:induction false} StateWritesKeepConfig(
    o: Datastores.Options, s: Datastores.State, writes: Datastores.Trace, ds: Datastores.Datastore, text: string)
    requires !ds.Other? && !o.isState(text)
    requires forall entry <- writes :: StateWrite(o, entry.0)
    ensures AgreeAt(Datastores.Contents(Datastores.Run(o, s, writes), ds), Datastores.Contents(s, ds), text)
  {
    if writes != [] {
      assert writes[|writes| - 1] in writes;
      StateWritesKeepConfig(o, s, writes[..|writes| - 1], ds, text);
    }
  }

  /** State written by the domains between the snapshot and the batch survives the edit, and
      the configuration still becomes exactly what was proposed. */
  lemma StateWritesSurvive(
    r: Router, valid: Tree -> bool, t: Tree, base: Path, default: Op, docs: seq<Document>,
    o: Datastores.Options, s: Datastores.State, writes: Datastores.Trace, ds: Datastores.Datastore,
    deletions: seq<Path>, texts: seq<string>, now: Datastores.Time, text: string)
    requires Built(r) && WellFormed(base) && !ds.Other? && Snapshot(r, t, Datastores.Contents(s, ds))
    requires Outcome(r, valid, t, base, default, docs).Ok?
    requires forall x :: o.isState(x) ==> Parse(x).Some? && !IsConfig(r.schema, Parse(x).value)
    requires forall entry <- writes :: StateWrite(o, entry.0)
    requires DropsSpelled(t, Outcome(r, valid, t, base, default, docs).value, deletions, texts)
    ensures var proposed := Outcome(r, valid, t, base, default, docs).value;
            && Canonical(proposed) && Canonical(Changed(t, proposed))
            && var written := Datastores.Run(o, s, writes);
               var op := Datastores.Op.Apply(ds, Encode(Changed(t, proposed)), texts);
               && Datastores.Effective(o, written, op)
               && AgreeAt(Datastores.Contents(Datastores.Step(o, written, op, now), ds),
                          if o.isState(text) then Datastores.Contents(written, ds) else Encode(proposed),
                          text)
  {
    hide Format, Parse, Datastores.ValidBatch, Datastores.Step, Datastores.Run;
    ProposalReady(r, valid, t, base, default, docs);
    var proposed := Outcome(r, valid, t, base, default, docs).value;
    var written := Datastores.Run(o, s, writes);
    var sets := Encode(Changed(t, proposed));
    BatchIsValid(r, t, proposed, deletions, texts);
    ApplyContents(o, written, ds, sets, texts, now);
    if o.isState(text) {
      BatchMissesState(r, t, proposed, deletions, texts, text);
    } else {
      BatchLands(t, proposed, deletions, texts);
      StateWritesKeepConfig(o, s, writes, ds, text);
      OverwriteAgrees(Datastores.Contents(written, ds), Datastores.Contents(s, ds), sets, Datastores.Elements(texts),
        text);
    }
  }

  /** The batch names exactly the texts the edit changes. */
  lemma BatchNames(t: Tree, proposed: Tree, deletions: seq<Path>, texts: seq<string>, text: string)
    requires Canonical(t) && Canonical(proposed) && Canonical(Changed(t, proposed))
    requires DropsSpelled(t, proposed, deletions, texts)
    ensures text in Encode(Changed(t, proposed)) || text in texts <==> !AgreeAt(Encode(t), Encode(proposed), text)
  {
    hide Format, Encode;
    if Spelled(t, text) || Spelled(proposed, text) {
      var p :| (p in t || p in proposed) && Format(p) == text;
      EncodeAt(t, p);
      EncodeAt(proposed, p);
      EncodeAt(Changed(t, proposed), p);
      TextListed(deletions, texts, p);
    } else {
      assert !Spelled(Changed(t, proposed), text) by {
        forall p | p in Changed(t, proposed) ensures Format(p) != text { assert p in proposed; }
      }
      forall i | 0 <= i < |texts| ensures texts[i] != text { assert deletions[i] in deletions; }
    }
  }

  /** Whatever was written between the snapshot and the batch, configuration or state: the batch is
      accepted, the texts the edit changes become what was proposed, and all others stay as written.
      So such a write survives if and only if the edit does not change its path, or proposes the
      same. */
  lemma InterleavedWriteSurvivesIff(
    r: Router, valid: Tree -> bool, t: Tree, base: Path, default: Op, docs: seq<Document>,
    o: Datastores.Options, values: Values, written: Datastores.State, ds: Datastores.Datastore,
    deletions: seq<Path>, texts: seq<string>, now: Datastores.Time, text: string)
    requires Built(r) && WellFormed(base) && !ds.Other? && Snapshot(r, t, values)
    requires Outcome(r, valid, t, base, default, docs).Ok?
    requires DropsSpelled(t, Outcome(r, valid, t, base, default, docs).value, deletions, texts)
    ensures var proposed := Outcome(r, valid, t, base, default, docs).value;
            && Canonical(proposed) && Canonical(Changed(t, proposed))
            && var op := Datastores.Op.Apply(ds, Encode(Changed(t, proposed)), texts);
               var found, after := Datastores.Contents(written, ds),
                                   Datastores.Contents(Datastores.Step(o, written, op, now), ds);
               && Datastores.Effective(o, written, op)
               && AgreeAt(after, if AgreeAt(values, Encode(proposed), text) then found else Encode(proposed), text)
               && (AgreeAt(after, found, text) <==>
                     AgreeAt(values, Encode(proposed), text) || AgreeAt(found, Encode(proposed), text))
  {
    hide Format, Parse, Datastores.ValidBatch, Datastores.Step, Datastores.Overwrite, Encode, Outcome, AgreeAt;
    ProposalReady(r, valid, t, base, default, docs);
    var proposed := Outcome(r, valid, t, base, default, docs).value;
    var sets, drops := Encode(Changed(t, proposed)), Datastores.Elements(texts);
    BatchIsValid(r, t, proposed, deletions, texts);
    ApplyContents(o, written, ds, sets, texts, now);
    BatchNames(t, proposed, deletions, texts, text);
    BatchLands(t, proposed, deletions, texts);
    BatchMeets(values, Datastores.Contents(written, ds), sets, drops, Encode(proposed), text);
  }

  /** One batch over two contents. */
  lemma BatchMeets(values: Values, found: Values, sets: Values, drops: set<string>, proposed: Values, text: string)
    requires Datastores.Overwrite(values, sets, drops) == proposed
    requires text in sets || text in drops <==> !AgreeAt(values, proposed, text)
    ensures var after := Datastores.Overwrite(found, sets, drops);
            && AgreeAt(after, if AgreeAt(values, proposed, text) then found else proposed, text)
            && (AgreeAt(after, found, text) <==> AgreeAt(values, proposed, text) || AgreeAt(found, proposed, text))
  {
  }

  lemma ApplyContents(
    o: Datastores.Options, s: Datastores.State, ds: Datastores.Datastore, sets: Values, texts: seq<string>,
    now: Datastores.Time)
    requires !ds.Other?
    ensures var op := Datastores.Op.Apply(ds, sets, texts);
            Datastores.Effective(o, s, op) ==>
              Datastores.Contents(Datastores.Step(o, s, op, now), ds)
              == Datastores.Overwrite(Datastores.Contents(s, ds), sets, Datastores.Elements(texts))
  {
  }

  lemma OverwriteAgrees(a: Values, b: Values, sets: Values, removals: set<string>, s: string)
    requires AgreeAt(a, b, s)
    ensures AgreeAt(Datastores.Overwrite(a, sets, removals), Datastores.Overwrite(b, sets, removals), s)
  {
  }

  /** No state leaf is named by the batch. */
  lemma BatchMissesState(r: Router, t: Tree, proposed: Tree, deletions: seq<Path>, texts: seq<string>, text: string)
    requires Canonical(t) && Canonical(proposed) && Canonical(Changed(t, proposed))
    requires forall p <- Changed(t, proposed) :: IsConfig(r.schema, p)
    requires forall p :: p in t.Keys - proposed.Keys ==> IsConfig(r.schema, p)
    requires DropsSpelled(t, proposed, deletions, texts)
    requires Parse(text).Some? && !IsConfig(r.schema, Parse(text).value)
    ensures text !in Encode(Changed(t, proposed)) && text !in texts
  {
    var q := Parse(text).value;
    forall p | p in Changed(t, proposed) ensures Format(p) != text { ParseFormat(p); }
    forall i | 0 <= i < |texts| ensures texts[i] != text {
      assert deletions[i] in deletions;
      ParseFormat(deletions[i]);
    }
  }
}
