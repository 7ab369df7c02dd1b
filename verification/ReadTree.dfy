/** internal/datatree/read.go: rebuilding a tree from the flat map. The leaves of what `Read`
    returns are a filter of the map, each leaf once. */
module ReadTree {
  import opened Sorting
  import opened Wrappers
  import opened Leaves
  import opened Paths
  import opened Schema
  import opened Listing

  datatype Content = All | ConfigOnly | NonConfig

  /** A resolved node; `children` of a list are its entries, which carry their key value. */
  datatype Data =
    | LeafData(path: Path, name: string, value: Value)
    | InnerData(path: Path, name: string, keyValue: string, children: seq<Data>)
    | ListData(path: Path, name: string, key: string, children: seq<Data>)

  function LeavesIn(node: Data): Pairs
    decreases node, 1
  {
    match node
    case LeafData(path, _, value) => [(path, value)]
    case InnerData(_, _, _, children) => LeavesOf(children)
    case ListData(_, _, _, children) => LeavesOf(children)
  }

  function LeavesOf(nodes: seq<Data>): Pairs
    decreases nodes, 0
  {
    if nodes == [] then [] else LeavesIn(nodes[0]) + LeavesOf(nodes[1..])
  }

  // -------------------------------------------------------------- what is visible

  /** The path is spelled the way the engine spells it: a key predicate on lists, none
      elsewhere. */
  predicate Strict(nodes: seq<Node>, path: Path)
    decreases path
  {
    path != [] &&
    match ChildNamed(nodes, path[0].name)
    case None => false
    case Some(Leaf(name, _, _)) => path == [Segment(name, "", "")]
    case Some(Container(name, children)) => path[0] == Segment(name, "", "") && Strict(children, path[1..])
    case Some(List(name, key, children)) => key != "" && path[0].key == key && Strict(children, path[1..])
  }

  /** Sibling names are unique and the key of a list is one of its leaves. */
  predicate WellBuilt(nodes: seq<Node>) {
    && (forall i, j :: 0 <= i < j < |nodes| ==> nodes[i].name != nodes[j].name)
    && (forall node <- nodes ::
          && (node.Container? ==> WellBuilt(node.children))
          && (node.List? ==> WellBuilt(node.children) && node.key != "" && KeyIsLeaf(node)))
  }

  predicate KeyIsLeaf(list: Node)
    requires list.List?
  {
    ChildNamed(list.children, list.key).Some? && ChildNamed(list.children, list.key).value.Leaf?
  }

  predicate Selected(root: seq<Node>, content: Content, p: Path) {
    if IsConfig(root, p) then content != NonConfig else content != ConfigOnly
  }

  /** The segment of `p` right below `prefix`. */
  function Next(prefix: Path, p: Path): Segment {
    if |prefix| < |p| then p[|prefix|] else Segment("", "", "")
  }

  /** The stored leaves strictly below `prefix` the selection lets through. */
  ghost function Visible(root: seq<Node>, tree: Tree, prefix: Path, content: Content): set<Path> {
    set p | p in tree && prefix < p && Strict(root, p) && Selected(root, content, p)
  }

  /** Those whose next name is one of `names`. */
  ghost function VisibleUnder(
    root: seq<Node>, tree: Tree, prefix: Path, content: Content, names: set<string>): set<Path> {
    set p | p in Visible(root, tree, prefix, content) && Next(prefix, p).name in names
  }

  lemma {:induction false} StrictBelow(root: seq<Node>, prefix: Path, p: Path)
    requires Children(root, prefix).Some? && prefix <= p
    ensures Strict(root, p) ==> Strict(Children(root, prefix).value, p[|prefix|..])
    decreases prefix
  {
    if prefix == [] {
      assert p[0..] == p;
    } else if Strict(root, p) {
      assert p[0] == prefix[0] && p[1..][|prefix| - 1..] == p[|prefix|..];
      match ChildNamed(root, prefix[0].name)
      case Some(Container(_, children)) => StrictBelow(children, prefix[1..], p[1..]);
      case Some(List(_, _, children)) => StrictBelow(children, prefix[1..], p[1..]);
    }
  }

  lemma {:induction false} ChildrenWellBuilt(nodes: seq<Node>, path: Path)
    requires WellBuilt(nodes) && Children(nodes, path).Some?
    ensures WellBuilt(Children(nodes, path).value)
    decreases path
  {
    if path != [] {
      match ChildNamed(nodes, path[0].name)
      case Some(Container(_, children)) => ChildrenWellBuilt(children, path[1..]);
      case Some(List(_, _, children)) => ChildrenWellBuilt(children, path[1..]);
    }
  }

  lemma {:induction false} NamedIsUnique(nodes: seq<Node>, i: nat)
    requires i < |nodes| && forall i, j :: 0 <= i < j < |nodes| ==> nodes[i].name != nodes[j].name
    ensures ChildNamed(nodes, nodes[i].name) == Some(nodes[i])
  {
    if i > 0 { NamedIsUnique(nodes[1..], i - 1); }
  }

  /** What stands below a child is what stands below its path, by the child's kind. */
  lemma UnderLeaf(root: seq<Node>, tree: Tree, prefix: Path, content: Content, name: string)
    requires Children(root, prefix).Some? && ChildNamed(Children(root, prefix).value, name).Some?
    requires ChildNamed(Children(root, prefix).value, name).value.Leaf?
    ensures var path := prefix + [Segment(name, "", "")];
            VisibleUnder(root, tree, prefix, content, {name}) ==
              if path in tree && Strict(root, path) && Selected(root, content, path) then {path} else {}
  {
    var path := prefix + [Segment(name, "", "")];
    forall p | p in VisibleUnder(root, tree, prefix, content, {name}) ensures p == path {
      StrictBelow(root, prefix, p);
      assert p == prefix + p[|prefix|..];
    }
    assert path[|prefix|].name == name;
  }

  lemma UnderContainer(root: seq<Node>, tree: Tree, prefix: Path, content: Content, name: string)
    requires Children(root, prefix).Some? && ChildNamed(Children(root, prefix).value, name).Some?
    requires ChildNamed(Children(root, prefix).value, name).value.Container?
    ensures VisibleUnder(root, tree, prefix, content, {name}) ==
            Visible(root, tree, prefix + [Segment(name, "", "")], content)
  {
    var path := prefix + [Segment(name, "", "")];
    forall p | p in VisibleUnder(root, tree, prefix, content, {name}) ensures path < p {
      StrictBelow(root, prefix, p);
      assert p[|prefix|..][0] == Segment(name, "", "")
             && Strict(ChildNamed(Children(root, prefix).value, name).value.children, p[|prefix|..][1..]);
      assert p == prefix + [Next(prefix, p)] + p[|prefix| + 1..];
    }
    forall p | p in Visible(root, tree, path, content) ensures prefix < p && Next(prefix, p).name == name {
      assert Next(prefix, p) == path[|prefix|];
    }
  }

  lemma {:induction false} StrictLeafPath(root: seq<Node>, path: Path, name: string)
    requires WellFormed(path) && Children(root, path).Some?
    requires ChildNamed(Children(root, path).value, name).Some?
             && ChildNamed(Children(root, path).value, name).value.Leaf?
    ensures Strict(root, path + [Segment(name, "", "")])
    decreases path
  {
    var longer := path + [Segment(name, "", "")];
    if path != [] {
      assert WellFormedSegment(path[0]);
      assert longer[0] == path[0] && longer[1..] == path[1..] + [Segment(name, "", "")];
      match ChildNamed(root, path[0].name)
      case Some(Container(_, children)) => StrictLeafPath(children, path[1..], name);
      case Some(List(_, _, children)) => StrictLeafPath(children, path[1..], name);
    }
  }

  // ------------------------------------------------------------------ per child

  /** One node per name, each listing exactly what stands under that name. */
  ghost predicate PerChild(
    root: seq<Node>, tree: Tree, prefix: Path, content: Content, nodes: seq<Data>, names: set<string>) {
    && (forall i :: 0 <= i < |nodes| ==>
          nodes[i].name in names
            && Lists(LeavesIn(nodes[i]), tree, VisibleUnder(root, tree, prefix, content, {nodes[i].name})))
    && (forall i, j :: 0 <= i < j < |nodes| ==> nodes[i].name != nodes[j].name)
    && (forall p <- VisibleUnder(root, tree, prefix, content, names) ::
          exists i :: 0 <= i < |nodes| && nodes[i].name == Next(prefix, p).name)
  }

  lemma {:induction false} PerChildLists(
    root: seq<Node>, tree: Tree, prefix: Path, content: Content, nodes: seq<Data>, names: set<string>)
    requires PerChild(root, tree, prefix, content, nodes, names)
    ensures Lists(LeavesOf(nodes), tree, VisibleUnder(root, tree, prefix, content, names))
    decreases nodes
  {
    if nodes == [] {
      assert VisibleUnder(root, tree, prefix, content, names) == {};
    } else {
      var first, rest := nodes[0].name, nodes[1..];
      assert PerChild(root, tree, prefix, content, rest, names - {first}) by {
        forall p | p in VisibleUnder(root, tree, prefix, content, names - {first})
          ensures exists i :: 0 <= i < |rest| && rest[i].name == Next(prefix, p).name
        {
          assert p in VisibleUnder(root, tree, prefix, content, names);
          var i :| 0 <= i < |nodes| && nodes[i].name == Next(prefix, p).name;
          assert rest[i - 1].name == Next(prefix, p).name;
        }
      }
      PerChildLists(root, tree, prefix, content, rest, names - {first});
      ListsUnion(LeavesIn(nodes[0]), LeavesOf(rest), tree,
                 VisibleUnder(root, tree, prefix, content, {first}),
                 VisibleUnder(root, tree, prefix, content, names - {first}));
      assert VisibleUnder(root, tree, prefix, content, names) ==
             VisibleUnder(root, tree, prefix, content, {first})
               + VisibleUnder(root, tree, prefix, content, names - {first});
    }
  }

  /** One more child: its node, or nothing when nothing stands under its name. */
  lemma {:induction false} PerChildExtend(
    root: seq<Node>, tree: Tree, prefix: Path, content: Content, nodes: seq<Data>, names: set<string>, node: Data)
    requires PerChild(root, tree, prefix, content, nodes, names) && node.name !in names
    requires Lists(LeavesIn(node), tree, VisibleUnder(root, tree, prefix, content, {node.name}))
    ensures PerChild(root, tree, prefix, content, nodes + [node], names + {node.name})
  {
    var more := nodes + [node];
    forall p | p in VisibleUnder(root, tree, prefix, content, names + {node.name})
      ensures exists i :: 0 <= i < |more| && more[i].name == Next(prefix, p).name
    {
      if Next(prefix, p).name == node.name {
        assert more[|nodes|].name == Next(prefix, p).name;
      } else {
        assert p in VisibleUnder(root, tree, prefix, content, names);
        var i :| 0 <= i < |nodes| && nodes[i].name == Next(prefix, p).name;
        assert more[i].name == Next(prefix, p).name;
      }
    }
  }

  lemma {:induction false} PerChildPrepend(
    root: seq<Node>, tree: Tree, prefix: Path, content: Content, nodes: seq<Data>, names: set<string>, node: Data)
    requires PerChild(root, tree, prefix, content, nodes, names) && node.name !in names
    requires Lists(LeavesIn(node), tree, VisibleUnder(root, tree, prefix, content, {node.name}))
    ensures PerChild(root, tree, prefix, content, [node] + nodes, names + {node.name})
  {
    hide Visible, Lists, LeavesIn;
    var more := [node] + nodes;
    forall p | p in VisibleUnder(root, tree, prefix, content, names + {node.name})
      ensures exists i :: 0 <= i < |more| && more[i].name == Next(prefix, p).name
    {
      if Next(prefix, p).name == node.name {
        assert more[0].name == Next(prefix, p).name;
      } else {
        assert p in VisibleUnder(root, tree, prefix, content, names);
        var i :| 0 <= i < |nodes| && nodes[i].name == Next(prefix, p).name;
        assert more[i + 1].name == Next(prefix, p).name;
      }
    }
  }

  lemma {:induction false} PerChildSkip(
    root: seq<Node>, tree: Tree, prefix: Path, content: Content, nodes: seq<Data>, names: set<string>, name: string)
    requires PerChild(root, tree, prefix, content, nodes, names)
    requires VisibleUnder(root, tree, prefix, content, {name}) == {}
    ensures PerChild(root, tree, prefix, content, nodes, names + {name})
  {
    forall p | p in VisibleUnder(root, tree, prefix, content, names + {name})
      ensures p in VisibleUnder(root, tree, prefix, content, names)
    {
      assert p !in VisibleUnder(root, tree, prefix, content, {name});
    }
  }

  function NamesOf(nodes: seq<Node>): set<string> {
    set node | node in nodes :: node.name
  }

  lemma AllNames(root: seq<Node>, tree: Tree, prefix: Path, content: Content)
    requires Children(root, prefix).Some?
    ensures VisibleUnder(root, tree, prefix, content, NamesOf(Children(root, prefix).value))
            == Visible(root, tree, prefix, content)
  {
    forall p | p in Visible(root, tree, prefix, content)
      ensures Next(prefix, p).name in NamesOf(Children(root, prefix).value)
    {
      StrictBelow(root, prefix, p);
      var below: Path := p[|prefix|..];
      assert below[0] == Next(prefix, p);
    }
  }

  // ------------------------------------------------------------------ instances

  /** The list instances the map mentions right below `prefix`. */
  ghost function Instances(tree: Tree, prefix: Path, name: string): set<Segment> {
    set p | p in tree && prefix < p && Next(prefix, p).name == name && Next(prefix, p).key != "" :: Next(prefix, p)
  }

  /** `instancesOf`. */
  method InstancesOf(tree: Tree, prefix: Path, name: string) returns (entries: seq<Segment>)
    ensures forall segment :: segment in entries <==> segment in Instances(tree, prefix, name)
    ensures forall i, j :: 0 <= i < j < |entries| ==> entries[i] != entries[j]
  {
    var seen: set<Segment> := {};
    entries := [];
    var todo := tree.Keys;
    while todo != {}
      invariant todo <= tree.Keys
      invariant forall segment :: segment in entries <==> segment in seen
      invariant seen == set p | p in tree && p !in todo && prefix < p && Next(prefix, p).name == name
                && Next(prefix, p).key != "" :: Next(prefix, p)
      invariant forall i, j :: 0 <= i < j < |entries| ==> entries[i] != entries[j]
      decreases todo
    {
      var p :| p in todo;
      todo := todo - {p};
      if prefix < p && Next(prefix, p).name == name && Next(prefix, p).key != "" && Next(prefix, p) !in seen {
        seen := seen + {Next(prefix, p)};
        entries := entries + [Next(prefix, p)];
      }
    }
  }

  /** Entry `x` may stand before entry `y`. */
  function KeyOrder(before: (string, string) -> bool): (Segment, Segment) -> bool {
    (x: Segment, y: Segment) => !before(y.value, x.value)
  }

  /** `sortEntries`, with the comparison of two keys as a parameter. The result is in order
      whenever the comparison orders these keys at all. */
  method SortEntries(entries: seq<Segment>, before: (string, string) -> bool) returns (sorted: seq<Segment>)
    requires forall i, j :: 0 <= i < j < |entries| ==> entries[i] != entries[j]
    ensures forall segment :: segment in sorted <==> segment in entries
    ensures forall i, j :: 0 <= i < j < |sorted| ==> sorted[i] != sorted[j]
    ensures OrdersAll(KeyOrder(before), entries) ==> SortedBy(KeyOrder(before), sorted)
  {
    sorted := Sort(KeyOrder(before), entries);
    SameElements(sorted, entries);
  }

  lemma SameElements(a: seq<Segment>, b: seq<Segment>)
    requires multiset(a) == multiset(b) && forall i, j :: 0 <= i < j < |b| ==> b[i] != b[j]
    ensures forall segment :: segment in a <==> segment in b
    ensures forall i, j :: 0 <= i < j < |a| ==> a[i] != a[j]
  {
    forall x ensures x in a <==> x in b { assert x in a <==> x in multiset(a); }
    forall i, j | 0 <= i < j < |a| ensures a[i] != a[j] {
      if a[i] == a[j] {
        TwiceIn(a, i, j);
        Once(b, a[i]);
      }
    }
  }

  lemma {:induction false} Once(s: seq<Segment>, x: Segment)
    requires forall i, j :: 0 <= i < j < |s| ==> s[i] != s[j]
    ensures multiset(s)[x] <= 1
    decreases |s|
  {
    if s != [] {
      var k := |s| - 1;
      Once(s[..k], x);
      assert s == s[..k] + [s[k]];
      if x == s[k] { assert x !in s[..k]; }
    }
  }
}
