/** What the rebuild does to the template values inside a list that is itself inside a list. */
module NestedLists {
  import opened Wrappers
  import opened Leaves
  import opened Paths
  import opened Schema
  import opened DeviceTree
  import opened Hydrate
  import opened HydrateFresh
  import opened Prune
  import opened Rebuild
  import opened ListOrder
  import opened RebuildOrder
  import opened FromValues

  /** The template has no say there: a leaf that is not stored is fresh if something is stored in
      the same entry, and absent otherwise, whatever its template value. */
  lemma NestedTemplateLost(
    env: Env, fields: seq<Field>, template: seq<Obj>, leaves: LeafMap, device: seq<Obj>, q: Path)
    requires Rebuilt(env, fields, template, leaves, device) && leaves != map[]
    requires Address(env, fields, q) && q !in leaves && ListsOn(fields, q) >= 2
    ensures ReadLeaf(env, fields, device, q) ==
              if EntryStored(leaves, Holder(fields, q)) then FreshValue(env, fields, q) else None
  {
    hide Address, ReadLeaf, ListsOn, Holder, FreshValue;
    assert ReadsExpected(env, fields, template, leaves, device);
  }

  /** Nor in the order of its entries: they come in the order the plan first mentions them. */
  lemma NestedListOrder(
    env: Env, fields: seq<Field>, template: seq<Obj>, leaves: LeafMap, plan: seq<Stored>, device: seq<Obj>, l: Path)
    requires |template| == |device| == |fields| && ListsInOrder(env, fields, template, leaves, plan, device)
    requires leaves != map[] && ListAddress(env, fields, l) && !Outermost(fields, l)
    ensures KeysAt(env, fields, device, l) == FirstMet(l, plan)
  {
    hide ListAddress, KeysAt, FirstMet, Outermost;
    WithoutNothing(FirstMet(l, plan));
  }

  // ------------------------------------------------------------------------- an input

  /** All leaves are text. */
  function TextEnv(): Env {
    Env((v: Value) => if v.Chars? then v.s else "", (_: LeafKind, s: string) => Some(Chars(s)),
        (_: LeafKind, v: Value) => v.Chars?, (_: LeafKind) => Chars(""))
  }

  function Text(tag: string): Field { Field([tag], Scalar(TextLeaf)) }

  function Inner(): seq<Field> { [Text("k"), Text("v")] }

  function Middle(): seq<Field> { [Text("k"), Field(["in"], Slice(0, Inner()))] }

  function Outer(): seq<Field> { [Field(["out"], Slice(0, Middle()))] }

  function Entry(key: string): seq<Obj> { [Val(Chars(key)), Val(Chars("t"))] }

  function Entries(): seq<Obj> { [Val(Chars("a")), Elems([Rec(Entry("c")), Rec(Entry("b"))])] }

  /** out[k=a] with the entries in[k=c] and in[k=b], in this order, each with "t" in its v. */
  function Template(): seq<Obj> { [Elems([Rec(Entries())])] }

  function List(): Path { [Segment("out", "k", "a"), Segment("in", "", "")] }

  function Leaf(key: string, name: string): Path {
    [Segment("out", "k", "a"), Segment("in", "k", key), Segment(name, "", "")]
  }

  lemma Two(a: Field, b: Field)
    requires |a.tag| == |b.tag| == 1 && a.tag[0] != b.tag[0] && GoodType(a.type_) && GoodType(b.type_)
    ensures GoodFields([a, b])
  {
  }

  lemma GoodModel()
    ensures GoodEnv(TextEnv()) && GoodFields(Outer()) && Typed(TextEnv(), Outer(), Template())
  {
    assert "k" != "v" && "k" != "in" by { assert "k"[0] != "v"[0] && "k"[0] != "in"[0]; }
    Two(Text("k"), Text("v"));
    Two(Text("k"), Field(["in"], Slice(0, Inner())));
    TypedTemplate();
  }

  lemma TypedTemplate()
    ensures Typed(TextEnv(), Outer(), Template())
  {
    assert Typed(TextEnv(), Inner(), Entry("b")) && Typed(TextEnv(), Inner(), Entry("c"));
    assert "c" != "b" by { assert "c"[0] != "b"[0]; }
    assert TypedObj(TextEnv(), Slice(0, Inner()), Entries()[1]);
    assert Typed(TextEnv(), Middle(), Entries());
  }

  /** The steps of a leaf's path. */
  lemma Steps(key: string, name: string, i: nat)
    requires (i == 0 && name == "k") || (i == 1 && name == "v")
    ensures var q := Leaf(key, name);
            && Match(Outer(), q) == Some(0) && Match(Middle(), q[1..]) == Some(1) && Match(Inner(), q[2..]) == Some(i)
            && q[1..][1..] == q[2..] && q[2..] == [Segment(name, "", "")]
  {
    GoodModel();
    var q := Leaf(key, name);
    OnlyMatch(Outer(), q, 0);
    GoodInner(Outer(), 0);
    OnlyMatch(Middle(), q[1..], 1);
    GoodInner(Middle(), 1);
    OnlyMatch(Inner(), q[2..], i);
  }

  lemma LeafFacts(key: string, name: string, i: nat)
    requires (i == 0 && name == "k") || (i == 1 && name == "v")
    ensures var q := Leaf(key, name);
            && Address(TextEnv(), Outer(), q) && ListsOn(Outer(), q) == 2 && Holder(Outer(), q) == q[..2]
            && FreshValue(TextEnv(), Outer(), q) == Some(Chars(if i == 0 then key else ""))
  {
    hide Match;
    Steps(key, name, i);
    var q := Leaf(key, name);
    var low, mid := q[2..], q[1..];
    assert low[1..] == [];
    assert Address(TextEnv(), Inner(), low) && Address(TextEnv(), Middle(), mid);
    assert ListsOn(Inner(), low) == 0 && ListsOn(Middle(), mid) == 1;
    assert Holder(Inner(), low) == [] && Holder(Middle(), mid) == mid[..1];
    assert q[..1] + mid[..1] == q[..2];
    assert FreshValue(TextEnv(), Middle(), mid) == Some(Chars(if i == 0 then key else ""));
  }

  lemma TemplateValue()
    ensures ReadLeaf(TextEnv(), Outer(), Template(), Leaf("b", "v")) == Some(Chars("t"))
  {
    hide Match;
    Steps("b", "v", 1);
    var q := Leaf("b", "v");
    assert "c" != "b" by { assert "c"[0] != "b"[0]; }
    var elems := Entries()[1].elems;
    assert ElemKey(TextEnv(), 0, elems[0]) == "c" && ElemKey(TextEnv(), 0, elems[1]) == "b";
    assert FindElem(TextEnv(), 0, elems[1..], "b") == Some(0);
    assert FindElem(TextEnv(), 0, elems, "b") == Some(1);
    assert ReadLeaf(TextEnv(), Inner(), Entry("b"), q[2..]) == Some(Chars("t"));
    assert ReadLeaf(TextEnv(), Middle(), Entries(), q[1..]) == Some(Chars("t"));
  }

  lemma KeyStorable(key: string)
    requires WellFormedSegment(Segment("in", "k", key))
    ensures Storable(TextEnv(), Outer(), Leaf(key, "k"), Chars(key)) && WellFormed(Leaf(key, "k"))
  {
    hide Match;
    Steps(key, "k", 0);
    var q := Leaf(key, "k");
    assert Storable(TextEnv(), Inner(), q[2..], Chars(key));
    assert Storable(TextEnv(), Middle(), q[1..], Chars(key));
  }

  lemma ListFacts()
    ensures ListAddress(TextEnv(), Outer(), List()) && !Outermost(Outer(), List())
    ensures KeysAt(TextEnv(), Outer(), Template(), List()) == ["c", "b"]
  {
    GoodModel();
    var l := List();
    OnlyMatch(Outer(), l, 0);
    GoodInner(Outer(), 0);
    OnlyMatch(Middle(), l[1..], 1);
    hide Match;
    assert l[1..] == [Segment("in", "", "")];
    assert ListAddress(TextEnv(), Middle(), l[1..]);
    assert KeysAt(TextEnv(), Middle(), Entries(), l[1..]) == ElemKeys(TextEnv(), 0, Entries()[1].elems) == ["c", "b"];
    assert FindElem(TextEnv(), 0, Template()[0].elems, "a") == Some(0);
  }

  // --------------------------------------------------------------------------- the run

  lemma ThreeSegments(a: Segment, b: Segment, c: Segment)
    ensures Format([a, b, c]) == FormatSegment(a) + "/" + FormatSegment(b) + "/" + FormatSegment(c)
  {
    hide Format, FormatSegment;
    FormatExtend([], a);
    FormatExtend([a], b);
    FormatExtend([a, b], c);
    assert [] + [a] == [a] && [a] + [b] == [a, b] && [a, b] + [c] == [a, b, c];
    assert "" + FormatSegment(a) == FormatSegment(a);
  }

  lemma LeafText(key: string, name: string)
    ensures Format(Leaf(key, name)) == "out[k=a]/in[k=" + (key + ("]/" + name))
  {
    hide Format;
    var q := Leaf(key, name);
    ThreeSegments(q[0], q[1], q[2]);
    SegmentTexts(key, name);
    hide FormatSegment;
    TextConcat(key, name);
  }

  lemma SegmentTexts(key: string, name: string)
    ensures var q := Leaf(key, name);
            && FormatSegment(q[0]) == "out[k=a]" && FormatSegment(q[1]) == "in[k=" + key + "]"
            && FormatSegment(q[2]) == name
  {
    assert "out" + "[" + "k" + "=" + "a" + "]" == "out[k=a]";
    assert "in" + "[" + "k" + "=" + key + "]" == "in[k=" + key + "]";
  }

  lemma TextConcat(key: string, name: string)
    ensures "out[k=a]" + "/" + ("in[k=" + key + "]") + "/" + name == "out[k=a]/in[k=" + (key + ("]/" + name))
  {
  }

  lemma {:induction false} LessAfter(front: string, a: string, b: string)
    ensures Less(front + a, front + b) == Less(a, b)
    decreases |front|
  {
    if front == "" {
      assert front + a == a && front + b == b;
    } else {
      assert (front + a)[1..] == front[1..] + a && (front + b)[1..] == front[1..] + b;
      LessAfter(front[1..], a, b);
    }
  }

  lemma TextsInOrder()
    ensures Less(Format(Leaf("b", "k")), Format(Leaf("c", "k")))
  {
    LeafText("b", "k");
    LeafText("c", "k");
    LessAfter("out[k=a]/in[k=", "b" + ("]/" + "k"), "c" + ("]/" + "k"));
  }

  /** The stored content: the keys of both inner entries and nothing else. */
  function Seed(): Values {
    map[Format(Leaf("b", "k")) := Chars("b"), Format(Leaf("c", "k")) := Chars("c")]
  }

  function SeedLeaves(): LeafMap { map[Leaf("b", "k") := Chars("b"), Leaf("c", "k") := Chars("c")] }

  function SeedPlan(): seq<Stored> { [Stored(Leaf("b", "k"), Chars("b")), Stored(Leaf("c", "k"), Chars("c"))] }

  lemma SeedParses()
    ensures AllParse(Seed().Keys) && LeavesOf(Seed()) == SeedLeaves() && InTextOrder(Seed(), SeedPlan())
  {
    hide Format, Parse, Less;
    var b, c := Leaf("b", "k"), Leaf("c", "k");
    KeyStorable("b");
    KeyStorable("c");
    ParseFormat(b);
    ParseFormat(c);
    TextsInOrder();
    LessTotal(Format(b), Format(c));
    hide WellFormed, Leaf, Storable, Outer, TextEnv;
    PairParses(b, c, Chars("b"), Chars("c"));
  }

  lemma PairParses(p: Path, q: Path, v: Value, w: Value)
    requires Parse(Format(p)) == Some(p) && Parse(Format(q)) == Some(q) && Less(Format(p), Format(q))
    requires Format(p) != Format(q)
    ensures var values := map[Format(p) := v, Format(q) := w];
            && AllParse(values.Keys) && LeavesOf(values) == map[p := v, q := w]
            && InTextOrder(values, [Stored(p, v), Stored(q, w)])
  {
    hide Format, Parse, Less;
    var values, texts := map[Format(p) := v, Format(q) := w], [Format(p), Format(q)];
    LeavesAt(values, texts[0]);
    LeavesAt(values, texts[1]);
    assert LeavesOf(values) == map[p := v, q := w];
    assert TextOrder(values, texts) && Planned(values, texts, [Stored(p, v), Stored(q, w)]);
  }

  lemma SeedHydrates()
    ensures Hydratable(TextEnv(), Outer(), SeedLeaves())
  {
    hide Address, Storable, TextEnv, Outer, Holder, ListsOn, FreshValue, WellFormed;
    LeafFacts("b", "k", 0);
    LeafFacts("c", "k", 0);
    KeyStorable("b");
    KeyStorable("c");
  }

  lemma SeedOrder()
    ensures FirstMet(List(), SeedPlan()) == ["b", "c"]
    ensures EntryStored(SeedLeaves(), Leaf("b", "v")[..2]) && Leaf("b", "v") !in SeedLeaves()
  {
    var l, plan := List(), SeedPlan();
    assert "c" != "b" && "v" != "k" by { assert "c"[0] != "b"[0] && "v"[0] != "k"[0]; }
    assert Through(l, plan[0].path) && Through(l, plan[1].path) by {
      assert plan[0].path[..1] == l[..1] && plan[1].path[..1] == l[..1];
    }
    assert plan[..1] == [plan[0]] && plan[..1][..0] == [];
    assert MetAll([], l, plan[..1]) == ["b"];
    assert Leaf("b", "v")[2] != Leaf("b", "k")[2] && Leaf("b", "v")[1] != Leaf("c", "k")[1];
    assert Leaf("b", "k") in SeedLeaves() && Leaf("b", "v")[..2] == Leaf("b", "k")[..2] <= Leaf("b", "k");
  }

  /** The rebuild from that content: the inner entries come out in text order although the template
      has them the other way round, and the template's "t" is gone. */
  method RebuildNested() returns (device: seq<Obj>)
    ensures |device| == |Outer()|
    ensures KeysAt(TextEnv(), Outer(), Template(), List()) == ["c", "b"]
    ensures KeysAt(TextEnv(), Outer(), device, List()) == ["b", "c"]
    ensures ReadLeaf(TextEnv(), Outer(), Template(), Leaf("b", "v")) == Some(Chars("t"))
    ensures ReadLeaf(TextEnv(), Outer(), device, Leaf("b", "v")) == Some(Chars(""))
  {
    hide Format, Parse, Address, ReadLeaf, ListsOn, Holder, FreshValue, Storable, KeysAt, ListAddress, FirstMet, MetAll;
    GoodModel();
    SeedParses();
    SeedHydrates();
    SeedOrder();
    LeafFacts("b", "v", 1);
    TemplateValue();
    ListFacts();
    var r := DeviceFromValues(TextEnv(), Outer(), Template(), Seed());
    device := r.value;
    assert SeedLeaves() != map[] by { assert Leaf("b", "k") in SeedLeaves(); }
    NestedTemplateLost(TextEnv(), Outer(), Template(), SeedLeaves(), device, Leaf("b", "v"));
    NestedListOrder(TextEnv(), Outer(), Template(), SeedLeaves(), SeedPlan(), device, List());
  }
}
