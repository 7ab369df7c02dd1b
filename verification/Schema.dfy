/** The type-driven schema of internal/router/schema.go and the two ways paths are checked
    against it: `Children` for the tree engines, `resolve` for reads and writes of leaves. */
module Schema {
  import opened Wrappers
  import opened Text
  import opened Leaves
  import opened Paths

  datatype LeafKind = BoolLeaf | IntLeaf | UintLeaf(width: nat) | FloatLeaf | TextLeaf

  /** One schema node. `config` is false below a config:"false" tag. */
  datatype Node =
    | Leaf(name: string, kind: LeafKind, config: bool)
    | Container(name: string, children: seq<Node>)
    | List(name: string, key: string, children: seq<Node>)

  type Tree = map<Path, Value>

  /** `nodeNamed`: the first child of that name. */
  function ChildNamed(nodes: seq<Node>, name: string): (r: Option<Node>)
    ensures r.Some? ==> r.value in nodes && r.value.name == name
    ensures r.None? ==> forall node <- nodes :: node.name != name
  {
    if nodes == [] then None
    else if nodes[0].name == name then Some(nodes[0])
    else ChildNamed(nodes[1..], name)
  }

  /** `Router.Children`: the schema below a container or list entry. A list needs its key
      predicate, anything else must not carry one. */
  function Children(nodes: seq<Node>, path: Path): Option<seq<Node>>
    decreases path
  {
    if path == [] then Some(nodes)
    else
      match ChildNamed(nodes, path[0].name)
      case None => None
      case Some(Leaf(_, _, _)) => None
      case Some(Container(_, children)) => if path[0].key != "" then None else Children(children, path[1..])
      case Some(List(_, key, children)) =>
        if path[0].key == "" || path[0].key != key then None else Children(children, path[1..])
  }

  /** `resolve` for a leaf: names are matched all the way down, a list needs its key
      predicate, and a predicate on anything else goes unnoticed. */
  function Resolve(nodes: seq<Node>, path: Path): (r: Option<Node>)
    ensures r.Some? ==> r.value.Leaf?
    decreases path
  {
    if path == [] then None
    else
      match ChildNamed(nodes, path[0].name)
      case None => None
      case Some(Leaf(name, kind, config)) => if |path| == 1 then Some(Leaf(name, kind, config)) else None
      case Some(Container(_, children)) => Resolve(children, path[1..])
      case Some(List(_, key, children)) => if path[0].key != key then None else Resolve(children, path[1..])
  }

  predicate IsLeaf(nodes: seq<Node>, path: Path) {
    Resolve(nodes, path).Some?
  }

  predicate IsConfig(nodes: seq<Node>, path: Path) {
    Resolve(nodes, path).Some? && Resolve(nodes, path).value.config
  }

  /** Every stored path names a leaf, which is what the bulk read checks. */
  predicate Conforms(nodes: seq<Node>, tree: Tree) {
    forall p <- tree :: IsLeaf(nodes, p)
  }

  /** A node with children is not a leaf, and leaves have nothing below them. */
  lemma {:induction false} InnerIsNotLeaf(nodes: seq<Node>, path: Path)
    requires Children(nodes, path).Some?
    ensures !IsLeaf(nodes, path)
  {
    if path != [] {
      match ChildNamed(nodes, path[0].name)
      case Some(Container(_, children)) => InnerIsNotLeaf(children, path[1..]);
      case Some(List(_, _, children)) => InnerIsNotLeaf(children, path[1..]);
      case _ =>
    }
  }

  lemma {:induction false} LeafHasNothingBelow(nodes: seq<Node>, path: Path, below: Path)
    requires IsLeaf(nodes, path) && path < below
    ensures !IsLeaf(nodes, below)
  {
    assert below[0] == path[0];
    match ChildNamed(nodes, path[0].name)
    case Some(Container(_, children)) =>
      assert path[1..] < below[1..];
      LeafHasNothingBelow(children, path[1..], below[1..]);
    case Some(List(_, _, children)) =>
      assert path[1..] < below[1..];
      LeafHasNothingBelow(children, path[1..], below[1..]);
    case Some(Leaf(_, _, _)) =>
  }

  /** One more segment on either walk. */
  lemma {:induction false} ChildrenExtend(nodes: seq<Node>, path: Path, segment: Segment)
    requires Children(nodes, path).Some?
    ensures Children(nodes, path + [segment]) == Children(Children(nodes, path).value, [segment])
    ensures Resolve(nodes, path + [segment]) == Resolve(Children(nodes, path).value, [segment])
  {
    var longer := path + [segment];
    if path != [] {
      assert longer[0] == path[0] && longer[1..] == path[1..] + [segment];
      match ChildNamed(nodes, path[0].name)
      case Some(Container(_, children)) => ChildrenExtend(children, path[1..], segment);
      case Some(List(_, _, children)) => ChildrenExtend(children, path[1..], segment);
    } else {
      assert longer == [segment];
    }
  }

  /** Begins and ends with something other than white space. */
  predicate Trimmed(name: string) {
    name != "" && !IsSpace(name[0]) && !IsSpace(name[|name| - 1])
  }

  /** The names the model's path tags may use: plain segment names and key names. */
  predicate GoodNames(nodes: seq<Node>) {
    forall node <- nodes ::
      && WellFormedSegment(Segment(node.name, "", "")) && ']' !in node.name && Trimmed(node.name)
      && (node.Container? ==> GoodNames(node.children))
      && (node.List? ==>
         GoodNames(node.children) && WellFormedSegment(Segment(node.name, node.key, "x")) && node.key != "")
  }

  lemma {:induction false} ChildrenGoodNames(nodes: seq<Node>, path: Path)
    requires GoodNames(nodes) && Children(nodes, path).Some?
    ensures GoodNames(Children(nodes, path).value)
    decreases path
  {
    if path != [] {
      match ChildNamed(nodes, path[0].name)
      case Some(Container(_, children)) => ChildrenGoodNames(children, path[1..]);
      case Some(List(_, _, children)) => ChildrenGoodNames(children, path[1..]);
    }
  }

  /** A leaf's path begins and ends with names of the schema. */
  lemma {:induction false} LeafNames(nodes: seq<Node>, path: Path)
    requires GoodNames(nodes) && IsLeaf(nodes, path)
    ensures path != [] && Trimmed(path[0].name) && Trimmed(path[|path| - 1].name)
    decreases path
  {
    match ChildNamed(nodes, path[0].name)
    case Some(Container(_, children)) => LeafNames(children, path[1..]);
    case Some(List(_, _, children)) => LeafNames(children, path[1..]);
    case Some(Leaf(_, _, _)) =>
  }
}
