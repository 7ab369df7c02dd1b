/** The read engine of internal/datatree/read.go: `buildChildren`, `buildEntries` and `Read`,
    proved to list exactly the visible leaves. */
module Reader {
  import opened Sorting
  import opened Wrappers
  import opened Leaves
  import opened Paths
  import opened Schema
  import opened Listing
  import opened ReadTree
  import opened TreeShape

  // ------------------------------------------------------------------ list entries

  /** The visible leaves of the entries with these key values. */
  ghost function VisibleKeyed(
    root: seq<Node>, tree: Tree, prefix: Path, content: Content, name: string, keys: set<string>): set<Path> {
    set p | p in Visible(root, tree, prefix, content) && Next(prefix, p).name == name && Next(prefix, p).value in keys
  }

  ghost predicate EntryOk(root: seq<Node>, tree: Tree, prefix: Path, content: Content, list: Node, entry: Data)
    requires list.List?
  {
    && entry.InnerData? && entry.name == list.name
    && entry.path == prefix + [Segment(list.name, list.key, entry.keyValue)]
    && Lists(LeavesOf(entry.children), tree, Visible(root, tree, entry.path, content))
  }

  /** One entry per instance. */
  ghost predicate EntriesOk(
    root: seq<Node>, tree: Tree, prefix: Path, content: Content, list: Node, entries: seq<Data>, keys: set<string>)
    requires list.List?
  {
    && (forall i :: 0 <= i < |entries| ==>
       EntryOk(root, tree, prefix, content, list, entries[i]) && entries[i].keyValue in keys)
    && (forall i, j :: 0 <= i < j < |entries| ==> entries[i].keyValue != entries[j].keyValue)
    && (forall k <- keys :: exists i :: 0 <= i < |entries| && entries[i].InnerData? && entries[i].keyValue == k)
  }

  lemma UnderEntry(root: seq<Node>, tree: Tree, prefix: Path, content: Content, list: Node, k: string)
    requires list.List? && Children(root, prefix).Some?
             && ChildNamed(Children(root, prefix).value, list.name) == Some(list)
    ensures Visible(root, tree, prefix + [Segment(list.name, list.key, k)], content)
            == VisibleKeyed(root, tree, prefix, content, list.name, {k})
  {
    var path := prefix + [Segment(list.name, list.key, k)];
    forall p | p in VisibleKeyed(root, tree, prefix, content, list.name, {k}) ensures path < p {
      StrictBelow(root, prefix, p);
      var below: Path := p[|prefix|..];
      assert below[0] == Segment(list.name, list.key, k) && Strict(list.children, below[1..]);
      assert p == prefix + [Next(prefix, p)] + p[|prefix| + 1..];
    }
    forall p | p in Visible(root, tree, path, content) ensures prefix < p && Next(prefix, p) == path[|prefix|] {}
  }

  lemma {:induction false} EntriesList(
    root: seq<Node>, tree: Tree, prefix: Path, content: Content, list: Node, entries: seq<Data>, keys: set<string>)
    requires list.List? && Children(root, prefix).Some?
             && ChildNamed(Children(root, prefix).value, list.name) == Some(list)
    requires EntriesOk(root, tree, prefix, content, list, entries, keys)
    ensures Lists(LeavesOf(entries), tree, VisibleKeyed(root, tree, prefix, content, list.name, keys))
    decreases entries
  {
    if entries == [] {
      assert keys == {};
      assert VisibleKeyed(root, tree, prefix, content, list.name, keys) == {};
    } else {
      var k, rest := entries[0].keyValue, entries[1..];
      EntriesRest(root, tree, prefix, content, list, entries, keys);
      EntriesList(root, tree, prefix, content, list, rest, keys - {k});
      UnderEntry(root, tree, prefix, content, list, k);
      hide EntriesOk, Visible, Lists;
      ListsUnion(LeavesOf(entries[0].children), LeavesOf(rest), tree,
                 VisibleKeyed(root, tree, prefix, content, list.name, {k}),
                 VisibleKeyed(root, tree, prefix, content, list.name, keys - {k}));
      assert VisibleKeyed(root, tree, prefix, content, list.name, keys) ==
             VisibleKeyed(root, tree, prefix, content, list.name, {k})
               + VisibleKeyed(root, tree, prefix, content, list.name, keys - {k});
    }
  }

  lemma EntriesRest(
    root: seq<Node>, tree: Tree, prefix: Path, content: Content, list: Node, entries: seq<Data>, keys: set<string>)
    requires list.List? && EntriesOk(root, tree, prefix, content, list, entries, keys) && entries != []
    ensures EntriesOk(root, tree, prefix, content, list, entries[1..], keys - {entries[0].keyValue})
  {
    hide Lists, Visible;
    var k, rest := entries[0].keyValue, entries[1..];
    forall x | x in keys - {k} ensures exists i :: 0 <= i < |rest| && rest[i].InnerData? && rest[i].keyValue == x {
      var i :| 0 <= i < |entries| && entries[i].InnerData? && entries[i].keyValue == x;
      assert rest[i - 1].keyValue == x;
    }
  }

  ghost function InstanceKeys(tree: Tree, prefix: Path, name: string): set<string> {
    set segment | segment in Instances(tree, prefix, name) :: segment.value
  }

  lemma {:induction false} ResolveBelow(root: seq<Node>, prefix: Path, p: Path)
    requires Children(root, prefix).Some? && prefix <= p
    ensures Resolve(root, p) == Resolve(Children(root, prefix).value, p[|prefix|..])
    decreases prefix
  {
    if prefix == [] {
      assert p[0..] == p;
    } else {
      assert p[0] == prefix[0] && p[1..][|prefix| - 1..] == p[|prefix|..];
      match ChildNamed(root, prefix[0].name)
      case Some(Container(_, children)) => ResolveBelow(children, prefix[1..], p[1..]);
      case Some(List(_, _, children)) => ResolveBelow(children, prefix[1..], p[1..]);
    }
  }

  /** In a conforming map every instance carries the list's own key name, and the visible
      leaves under the list all belong to an instance. */
  lemma InstancesKeyed(root: seq<Node>, tree: Tree, prefix: Path, content: Content, list: Node)
    requires list.List? && list.key != "" && Conforms(root, tree)
    requires Children(root, prefix).Some? && ChildNamed(Children(root, prefix).value, list.name) == Some(list)
    ensures forall segment <- Instances(tree, prefix, list.name) ::
              segment == Segment(list.name, list.key, segment.value)
    ensures VisibleKeyed(root, tree, prefix, content, list.name, InstanceKeys(tree, prefix, list.name))
            == VisibleUnder(root, tree, prefix, content, {list.name})
  {
    forall p | p in tree && prefix < p && Next(prefix, p).name == list.name ensures Next(prefix, p).key == list.key {
      ResolveBelow(root, prefix, p);
      var below: Path := p[|prefix|..];
      assert below[0] == Next(prefix, p);
      assert IsLeaf(root, p);
    }
    forall p | p in VisibleUnder(root, tree, prefix, content, {list.name})
      ensures Next(prefix, p).value in InstanceKeys(tree, prefix, list.name)
    {
      assert Next(prefix, p) in Instances(tree, prefix, list.name);
    }
  }

  // --------------------------------------------------------------------- building

  function SchemaAt(root: seq<Node>, prefix: Path): seq<Node> {
    if Children(root, prefix).Some? then Children(root, prefix).value else []
  }

  predicate Readable(root: seq<Node>, tree: Tree) {
    WellBuilt(root) && GoodNames(root) && Conforms(root, tree) && forall p <- tree :: WellFormed(p)
  }

  /** `buildChildren`. */
  method BuildChildren(root: seq<Node>, tree: Tree, prefix: Path, content: Content, before: (string, string) -> bool)
    returns (res: Option<seq<Data>>)
    requires Readable(root, tree) && WellFormed(prefix)
    ensures res.Some? <==> Children(root, prefix).Some?
    ensures res.Some? ==> PerChild(root, tree, prefix, content, res.value, NamesOf(SchemaAt(root, prefix)))
    ensures res.Some? ==> forall node <- res.value :: Shaped(root, tree, prefix, content, node)
    ensures res.Some? ==>
              LevelShaped(SchemaAt(root, prefix), |SchemaAt(root, prefix)|, "", prefix, res.value, before)
    decreases SchemaAt(root, prefix), 1
  {
    hide LevelShaped, NodeShaped;
    var children := Children(root, prefix);
    if children.None? { return None; }
    ChildrenWellBuilt(root, prefix);
    var nodes: seq<Data> := [];
    LevelStarts(children.value, prefix, before);
    for i := 0 to |children.value|
      invariant LevelShaped(children.value, i, "", prefix, nodes, before)
      invariant PerChild(root, tree, prefix, content, nodes, NamesOf(children.value[..i]))
      invariant forall node <- nodes :: Shaped(root, tree, prefix, content, node)
    {
      var child := children.value[i];
      NamedIsUnique(children.value, i);
      NamesStep(children.value, i);
      var node := BuildChild(root, tree, prefix, child, content, before);
      LevelNext(children.value, i, prefix, nodes, node, before);
      if node.Some? {
        PerChildExtend(root, tree, prefix, content, nodes, NamesOf(children.value[..i]), node.value);
        nodes := nodes + [node.value];
      } else {
        PerChildSkip(root, tree, prefix, content, nodes, NamesOf(children.value[..i]), child.name);
        assert nodes + [] == nodes;
      }
    }
    assert children.value[..|children.value|] == children.value;
    return Some(nodes);
  }

  /** One round of that loop: the node of a child, or none when the child is a leaf without
      selected data. */
  method BuildChild(
    root: seq<Node>, tree: Tree, prefix: Path, child: Node, content: Content, before: (string, string) -> bool)
    returns (node: Option<Data>)
    requires Readable(root, tree) && WellFormed(prefix)
    requires Children(root, prefix).Some? && ChildNamed(Children(root, prefix).value, child.name) == Some(child)
    ensures node.None? ==> VisibleUnder(root, tree, prefix, content, {child.name}) == {}
    ensures node.Some? ==> node.value.name == child.name && Shaped(root, tree, prefix, content, node.value)
    ensures node.Some? ==> Lists(LeavesIn(node.value), tree, VisibleUnder(root, tree, prefix, content, {child.name}))
    ensures if node.Some? then NodeShaped(child, prefix, node.value, before) else child.Leaf?
    decreases child, 0
  {
    hide LevelShaped, EntryShaped, InKeyOrder;
    ChildrenWellBuilt(root, prefix);
    ChildrenGoodNames(root, prefix);
    var path := prefix + [Segment(child.name, "", "")];
    match child {
      case Leaf(_, _, _) =>
        UnderLeaf(root, tree, prefix, content, child.name);
        StrictLeafPath(root, prefix, child.name);
        if path in tree && Selected(root, content, path) {
          ListsOne(tree, path);
          return Some(LeafData(path, child.name, tree[path]));
        }
        return None;
      case Container(_, _) =>
        ChildrenExtend(root, prefix, Segment(child.name, "", ""));
        var inner := BuildChildren(root, tree, path, content, before);
        PerChildLists(root, tree, path, content, inner.value, NamesOf(SchemaAt(root, path)));
        AllNames(root, tree, path, content);
        UnderContainer(root, tree, prefix, content, child.name);
        return Some(InnerData(path, child.name, "", inner.value));
      case List(_, key, _) =>
        var entries := BuildEntries(root, tree, prefix, child, content, before);
        InstancesKeyed(root, tree, prefix, content, child);
        EntriesList(root, tree, prefix, content, child, entries, InstanceKeys(tree, prefix, child.name));
        return Some(ListData(path, child.name, key, entries));
    }
  }

  lemma NamesStep(nodes: seq<Node>, i: nat)
    requires i < |nodes| && forall i, j :: 0 <= i < j < |nodes| ==> nodes[i].name != nodes[j].name
    ensures NamesOf(nodes[..i + 1]) == NamesOf(nodes[..i]) + {nodes[i].name}
    ensures nodes[i].name !in NamesOf(nodes[..i])
  {
    assert nodes[..i + 1] == nodes[..i] + [nodes[i]];
  }

  /** What kind of node stands for a child, and the entries of a list. */
  ghost predicate Shaped(root: seq<Node>, tree: Tree, prefix: Path, content: Content, node: Data) {
    && Children(root, prefix).Some? && ChildNamed(Children(root, prefix).value, node.name).Some?
    && var child := ChildNamed(Children(root, prefix).value, node.name).value;
       && (node.ListData? <==> child.List?)
       && (child.List? ==>
          EntriesOk(root, tree, prefix, content, child, node.children, InstanceKeys(tree, prefix, child.name)))
  }

  /** `buildEntries`. */
  method BuildEntries(
    root: seq<Node>, tree: Tree, prefix: Path, list: Node, content: Content, before: (string, string) -> bool)
    returns (entries: seq<Data>)
    requires Readable(root, tree) && WellFormed(prefix) && list.List?
    requires Children(root, prefix).Some? && ChildNamed(Children(root, prefix).value, list.name) == Some(list)
    requires list.key != "" && KeyIsLeaf(list)
    ensures EntriesOk(root, tree, prefix, content, list, entries, InstanceKeys(tree, prefix, list.name))
    ensures InKeyOrder(entries, before) && forall entry <- entries :: EntryShaped(list, prefix, entry, before)
    decreases list.children, 4
  {
    hide EntryShaped;
    var found := InstancesOf(tree, prefix, list.name);
    InstancesKeyed(root, tree, prefix, content, list);
    var instances := SortEntries(found, before);
    entries := BuildEach(root, tree, prefix, list, instances, content, before);
    EntriesComplete(root, tree, prefix, content, list, instances, entries);
    SortedEntries(found, instances, entries, before);
  }

  lemma SortedEntries(
    found: seq<Segment>, instances: seq<Segment>, entries: seq<Data>, before: (string, string) -> bool)
    requires |entries| == |instances| && forall j :: 0 <= j < |entries| ==>
             entries[j].InnerData? && entries[j].keyValue == instances[j].value
    requires forall segment :: segment in instances <==> segment in found
    requires OrdersAll(KeyOrder(before), found) ==> SortedBy(KeyOrder(before), instances)
    ensures InKeyOrder(entries, before)
  {
    if OrdersKeys(entries, before) {
      KeysAreOrdered(found, instances, entries, before);
      hide OrdersAll, OrdersKeys;
      forall i, j | 0 <= i < j < |entries| ensures !before(entries[j].keyValue, entries[i].keyValue) {
        assert KeyOrder(before)(instances[i], instances[j]);
      }
    }
  }

  lemma KeysAreOrdered(
    found: seq<Segment>, instances: seq<Segment>, entries: seq<Data>, before: (string, string) -> bool)
    requires |entries| == |instances| && forall j :: 0 <= j < |entries| ==>
             entries[j].InnerData? && entries[j].keyValue == instances[j].value
    requires forall segment :: segment in instances <==> segment in found
    requires OrdersKeys(entries, before)
    ensures OrdersAll(KeyOrder(before), found)
  {
    var leq := KeyOrder(before);
    forall x, y | x in found && y in found ensures leq(x, y) || leq(y, x) {
      assert x in instances && y in instances;
      var i :| 0 <= i < |instances| && instances[i] == x;
      var j :| 0 <= j < |instances| && instances[j] == y;
      assert !before(entries[i].keyValue, entries[j].keyValue) || !before(entries[j].keyValue, entries[i].keyValue);
    }
    forall x, y, z | x in found && y in found && z in found && leq(x, y) && leq(y, z) ensures leq(x, z) {
      assert x in instances && y in instances && z in instances;
      var i :| 0 <= i < |instances| && instances[i] == x;
      var j :| 0 <= j < |instances| && instances[j] == y;
      var k :| 0 <= k < |instances| && instances[k] == z;
      assert !before(entries[j].keyValue, entries[i].keyValue) && !before(entries[k].keyValue, entries[j].keyValue);
    }
  }

  method BuildEach(
    root: seq<Node>, tree: Tree, prefix: Path, list: Node, instances: seq<Segment>, content: Content,
    before: (string, string) -> bool)
    returns (entries: seq<Data>)
    requires Readable(root, tree) && WellFormed(prefix) && list.List?
    requires Children(root, prefix).Some? && ChildNamed(Children(root, prefix).value, list.name) == Some(list)
    requires list.key != "" && KeyIsLeaf(list)
    requires forall segment <- instances ::
               segment in Instances(tree, prefix, list.name) && segment == Segment(list.name, list.key, segment.value)
    ensures |entries| == |instances|
    ensures forall j :: 0 <= j < |entries| ==>
            EntryOk(root, tree, prefix, content, list, entries[j]) && entries[j].keyValue == instances[j].value
    ensures forall entry <- entries :: EntryShaped(list, prefix, entry, before)
    decreases list.children, 3
  {
    hide EntryShaped, Readable, Instances, KeyIsLeaf, WellFormed, Lists, LeavesOf, Visible;
    entries := [];
    for i := 0 to |instances|
      invariant |entries| == i
      invariant forall j :: 0 <= j < i ==>
                EntryOk(root, tree, prefix, content, list, entries[j]) && entries[j].keyValue == instances[j].value
      invariant forall entry <- entries :: EntryShaped(list, prefix, entry, before)
    {
      assert instances[i] in instances;
      var entry := BuildEntry(root, tree, prefix, list, instances[i].value, content, before);
      entries := entries + [entry];
    }
  }

  lemma EntriesComplete(
    root: seq<Node>, tree: Tree, prefix: Path, content: Content, list: Node, instances: seq<Segment>,
    entries: seq<Data>)
    requires list.List? && |entries| == |instances|
    requires forall j :: 0 <= j < |entries| ==>
             EntryOk(root, tree, prefix, content, list, entries[j]) && entries[j].keyValue == instances[j].value
    requires forall segment :: segment in instances <==> segment in Instances(tree, prefix, list.name)
    requires forall segment <- Instances(tree, prefix, list.name) ::
               segment == Segment(list.name, list.key, segment.value)
    requires forall i, j :: 0 <= i < j < |instances| ==> instances[i] != instances[j]
    ensures EntriesOk(root, tree, prefix, content, list, entries, InstanceKeys(tree, prefix, list.name))
  {
    var keys := InstanceKeys(tree, prefix, list.name);
    forall k | k in keys ensures exists i :: 0 <= i < |entries| && entries[i].InnerData? && entries[i].keyValue == k {
      var segment :| segment in Instances(tree, prefix, list.name) && segment.value == k;
      assert segment in instances;
      var i :| 0 <= i < |instances| && instances[i] == segment;
      assert entries[i].keyValue == k;
    }
    forall i, j | 0 <= i < j < |entries| ensures entries[i].keyValue != entries[j].keyValue {
      assert instances[i] in instances && instances[j] in instances;
    }
    forall i | 0 <= i < |entries| ensures entries[i].keyValue in keys {
      assert instances[i] in instances;
    }
  }

  /** One entry: its key leaf first, then its other children. */
  method BuildEntry(
    root: seq<Node>, tree: Tree, prefix: Path, list: Node, value: string, content: Content,
    before: (string, string) -> bool)
    returns (entry: Data)
    requires Readable(root, tree) && WellFormed(prefix) && list.List?
    requires Children(root, prefix).Some? && ChildNamed(Children(root, prefix).value, list.name) == Some(list)
    requires list.key != "" && KeyIsLeaf(list)
             && Segment(list.name, list.key, value) in Instances(tree, prefix, list.name)
    ensures EntryOk(root, tree, prefix, content, list, entry) && entry.keyValue == value
    ensures EntryShaped(list, prefix, entry, before)
    decreases list.children, 2
  {
    hide LevelShaped, NodeShaped, Visible, VisibleUnder, Strict, Conforms, WellBuilt, GoodNames, LeavesOf, Lists;
    hide PerChild, Without;
    var path := prefix + [Segment(list.name, list.key, value)];
    ChildrenExtend(root, prefix, Segment(list.name, list.key, value));
    InstanceWellFormed(tree, prefix, Segment(list.name, list.key, value));
    var inner := BuildChildren(root, tree, path, content, before);
    ChildrenWellBuilt(root, path);
    SiblingsDiffer(list.children);
    var keyPath := path + [Segment(list.key, "", "")];
    UnderLeaf(root, tree, path, content, list.key);
    StrictLeafPath(root, path, list.key);
    var rest := DropNamed(inner.value, list.key);
    var children := rest;
    RestDiffers(list.children, list.key, path, inner.value, before);
    if keyPath in tree && Selected(root, content, keyPath) {
      children := [LeafData(keyPath, list.key, tree[keyPath])] + rest;
      ListsOne(tree, keyPath);
      assert NodeShaped(ChildNamed(list.children, list.key).value, path, children[0], before) by {
        LeafShaped(ChildNamed(list.children, list.key).value, path, children[0], before);
      }
      KeyFirst(root, tree, path, content, list, inner.value, rest, Some(children[0]));
      EntryLevel(list.children, list.key, path, inner.value, Some(children[0]), before);
    } else {
      KeyFirst(root, tree, path, content, list, inner.value, rest, None);
      EntryLevel(list.children, list.key, path, inner.value, None, before);
      assert [] + rest == rest;
    }
    PerChildLists(root, tree, path, content, children, NamesOf(list.children));
    AllNames(root, tree, path, content);
    entry := InnerData(path, list.name, value, children);
  }

  lemma SiblingsDiffer(nodes: seq<Node>)
    requires WellBuilt(nodes)
    ensures forall i, j :: 0 <= i < j < |nodes| ==> nodes[i].name != nodes[j].name
  {
  }

  /** The loop that leaves the key leaf out of the remaining children. */
  method DropNamed(nodes: seq<Data>, name: string) returns (rest: seq<Data>)
    ensures rest == Without(nodes, name)
  {
    rest := [];
    for i := 0 to |nodes|
      invariant rest == Without(nodes[..i], name)
    {
      assert nodes[..i + 1][..i] == nodes[..i];
      if nodes[i].name != name { rest := rest + [nodes[i]]; }
    }
    assert nodes[..|nodes|] == nodes;
  }

  lemma InstanceWellFormed(tree: Tree, prefix: Path, segment: Segment)
    requires (forall p <- tree :: WellFormed(p)) && segment in Instances(tree, prefix, segment.name)
    ensures WellFormedSegment(segment)
  {
  }

  lemma {:induction false} KeyFirst(
    root: seq<Node>, tree: Tree, path: Path, content: Content, list: Node,
    inner: seq<Data>, rest: seq<Data>, first: Option<Data>)
    requires list.List? && KeyIsLeaf(list) && Children(root, path) == Some(list.children)
    requires PerChild(root, tree, path, content, inner, NamesOf(list.children))
    requires first.None? ==> VisibleUnder(root, tree, path, content, {list.key}) == {}
    requires first.Some? ==> first.value.name == list.key
                             && Lists(LeavesIn(first.value), tree, VisibleUnder(root, tree, path, content, {list.key}))
    requires forall node <- rest :: node in inner && node.name != list.key
    requires forall node <- inner :: node.name != list.key ==> node in rest
    requires forall i, j :: 0 <= i < j < |rest| ==> rest[i].name != rest[j].name
    ensures PerChild(root, tree, path, content, (if first.Some? then [first.value] else []) + rest,
            NamesOf(list.children))
  {
    var names := NamesOf(list.children);
    RestPerChild(root, tree, path, content, list.key, inner, rest, names);
    assert ChildNamed(list.children, list.key).value in list.children;
    assert names - {list.key} + {list.key} == names;
    if first.Some? {
      PerChildPrepend(root, tree, path, content, rest, names - {list.key}, first.value);
    } else {
      PerChildSkip(root, tree, path, content, rest, names - {list.key}, list.key);
      assert [] + rest == rest;
    }
  }

  lemma {:induction false} RestPerChild(
    root: seq<Node>, tree: Tree, path: Path, content: Content, key: string, inner: seq<Data>, rest: seq<Data>,
      names: set<string>)
    requires PerChild(root, tree, path, content, inner, names)
    requires forall node <- rest :: node in inner && node.name != key
    requires forall node <- inner :: node.name != key ==> node in rest
    requires forall i, j :: 0 <= i < j < |rest| ==> rest[i].name != rest[j].name
    ensures PerChild(root, tree, path, content, rest, names - {key})
  {
    forall p | p in VisibleUnder(root, tree, path, content, names - {key})
      ensures exists i :: 0 <= i < |rest| && rest[i].name == Next(path, p).name
    {
      assert p in VisibleUnder(root, tree, path, content, names);
      var i :| 0 <= i < |inner| && inner[i].name == Next(path, p).name;
      assert inner[i] in inner && inner[i] in rest;
    }
    forall i | 0 <= i < |rest|
      ensures rest[i].name in names - {key}
              && Lists(LeavesIn(rest[i]), tree, VisibleUnder(root, tree, path, content, {rest[i].name}))
    {
      assert rest[i] in rest && rest[i] in inner;
    }
  }

  // --------------------------------------------------------------------------- read

  /** The schema has the parent of the prefix. */
  predicate Reachable(root: seq<Node>, prefix: Path) {
    prefix == [] || Children(root, prefix[..|prefix| - 1]).Some?
  }

  /** What `Read` returns for a prefix, by the schema node its last segment names. */
  ghost function ReadSet(root: seq<Node>, tree: Tree, prefix: Path, content: Content): set<Path>
    requires Reachable(root, prefix)
  {
    if prefix == [] then Visible(root, tree, [], content)
    else
      var parent, last := prefix[..|prefix| - 1], prefix[|prefix| - 1];
      match ChildNamed(Children(root, parent).value, last.name)
      case Some(List(_, _, _)) =>
        if last.key == "" then VisibleUnder(root, tree, parent, content, {last.name})
        else VisibleKeyed(root, tree, parent, content, last.name, {last.value})
      case _ => VisibleUnder(root, tree, parent, content, {last.name})
  }

  function LeavesRead(found: Option<Data>): Pairs {
    if found.None? then [] else LeavesIn(found.value)
  }

  /** The node for a prefix: the synthetic root, or that of the schema child it names. */
  ghost predicate Formed(root: seq<Node>, prefix: Path, node: Data, before: (string, string) -> bool)
    requires Reachable(root, prefix)
  {
    if prefix == [] then
      && node.InnerData? && node == InnerData([], "", "", node.children)
      && LevelShaped(root, |root|, "", [], node.children, before)
    else
      var parent := prefix[..|prefix| - 1];
      var child := ChildNamed(Children(root, parent).value, prefix[|prefix| - 1].name);
      child.Some? && NodeShaped(child.value, parent, node, before)
  }

  /** "No data" is told only of a leaf, of one entry of a list, and of what the schema does not have. */
  predicate MayLack(root: seq<Node>, prefix: Path)
    requires Reachable(root, prefix)
  {
    prefix != [] &&
    var child := ChildNamed(Children(root, prefix[..|prefix| - 1]).value, prefix[|prefix| - 1].name);
    child.None? || child.value.Leaf? || (child.value.List? && prefix[|prefix| - 1].key != "")
  }

  /** `Read`. `None` is "no data", an error is a parent the schema does not have. */
  method Read(root: seq<Node>, tree: Tree, prefix: Path, content: Content, before: (string, string) -> bool)
    returns (res: Result<Option<Data>, string>)
    requires Readable(root, tree) && WellFormed(prefix)
    ensures res.Ok? <==> Reachable(root, prefix)
    ensures res.Ok? ==> Lists(LeavesRead(res.value), tree, ReadSet(root, tree, prefix, content))
    ensures res.Ok? ==>
              if res.value.Some? then Formed(root, prefix, res.value.value, before) else MayLack(root, prefix)
  {
    hide LevelShaped, NodeShaped, Visible, VisibleUnder, VisibleKeyed, Readable, PerChild;
    if prefix == [] {
      var top := BuildChildren(root, tree, [], content, before);
      PerChildLists(root, tree, [], content, top.value, NamesOf(SchemaAt(root, [])));
      AllNames(root, tree, [], content);
      return Ok(Some(InnerData([], "", "", top.value)));
    }
    var parent, last := prefix[..|prefix| - 1], prefix[|prefix| - 1];
    var children := BuildChildren(root, tree, parent, content, before);
    if children.None? { return Err("not found"); }
    var node := FindNamed(children.value, last.name);
    if node.None? {
      NothingNamed(root, tree, prefix, content, children.value);
      OnlyLeavesLack(Children(root, parent).value, parent, children.value, last.name, before);
      return Ok(None);
    }
    LevelNode(Children(root, parent).value, parent, children.value, node.value, before);
    var found := Narrow(root, tree, prefix, content, children.value, node.value, before);
    return Ok(found);
  }

  /** `nodeNamed`: the node of that name, if there is one. */
  method FindNamed(nodes: seq<Data>, name: string) returns (node: Option<Data>)
    ensures node.Some? ==> node.value in nodes && node.value.name == name
    ensures node.None? ==> forall i :: 0 <= i < |nodes| ==> nodes[i].name != name
  {
    for i := 0 to |nodes|
      invariant forall j :: 0 <= j < i ==> nodes[j].name != name
    {
      if nodes[i].name == name { return Some(nodes[i]); }
    }
    return None;
  }

  /** The node found under the last name: a list with a key predicate is narrowed to one entry. */
  method Narrow(root: seq<Node>, tree: Tree, prefix: Path, content: Content, nodes: seq<Data>, node: Data,
                ghost before: (string, string) -> bool)
    returns (found: Option<Data>)
    requires Readable(root, tree) && prefix != [] && Children(root, prefix[..|prefix| - 1]).Some?
    requires var parent := prefix[..|prefix| - 1];
             && PerChild(root, tree, parent, content, nodes, NamesOf(SchemaAt(root, parent)))
             && node in nodes && Shaped(root, tree, parent, content, node) && node.name == prefix[|prefix| - 1].name
             && NodeShaped(ChildNamed(SchemaAt(root, parent), node.name).value, parent, node, before)
    ensures Lists(LeavesRead(found), tree, ReadSet(root, tree, prefix, content))
    ensures if found.Some? then Formed(root, prefix, found.value, before) else MayLack(root, prefix)
  {
    hide NodeShaped, LevelShaped;
    var parent, last := prefix[..|prefix| - 1], prefix[|prefix| - 1];
    ChildrenWellBuilt(root, parent);
    if node.ListData? && last.key != "" {
      found := ListEntry(root, tree, parent, content, node, last.value, before);
    } else {
      found := Some(node);
    }
  }

  /** `listEntryNode`: the list narrowed to one entry, matched by key value alone. */
  method ListEntry(root: seq<Node>, tree: Tree, parent: Path, content: Content, list: Data, value: string,
                   ghost before: (string, string) -> bool)
    returns (found: Option<Data>)
    requires list.ListData? && Shaped(root, tree, parent, content, list)
    requires Conforms(root, tree) && ChildNamed(Children(root, parent).value, list.name).value.key != ""
    requires NodeShaped(ChildNamed(Children(root, parent).value, list.name).value, parent, list, before)
    ensures Lists(LeavesRead(found), tree, VisibleKeyed(root, tree, parent, content, list.name, {value}))
    ensures found.Some? ==>
              && NodeShaped(ChildNamed(Children(root, parent).value, list.name).value, parent, found.value, before)
              && found.value.ListData? && |found.value.children| == 1 && found.value.children[0] in list.children
              && found.value.children[0].InnerData? && found.value.children[0].keyValue == value
  {
    hide NodeShaped;
    ghost var child := ChildNamed(Children(root, parent).value, list.name).value;
    hide Visible, VisibleKeyed, Conforms, Children, LeavesOf, Lists;
    var entry := FindKeyed(list.children, value);
    if entry.None? {
      EntryAbsent(root, tree, parent, content, child, list.children, value);
      return None;
    }
    EntryFound(root, tree, parent, content, child, entry.value);
    NarrowedShaped(child, parent, list, entry.value, before);
    return Some(ListData(list.path, list.name, list.key, [entry.value]));
  }

  method FindKeyed(entries: seq<Data>, value: string) returns (entry: Option<Data>)
    requires forall i :: 0 <= i < |entries| ==> entries[i].InnerData?
    ensures entry.Some? ==> entry.value in entries && entry.value.keyValue == value
    ensures entry.None? ==> forall i :: 0 <= i < |entries| ==> entries[i].keyValue != value
  {
    for i := 0 to |entries|
      invariant forall j :: 0 <= j < i ==> entries[j].keyValue != value
    {
      if entries[i].keyValue == value { return Some(entries[i]); }
    }
    return None;
  }

  lemma EntryFound(root: seq<Node>, tree: Tree, parent: Path, content: Content, child: Node, entry: Data)
    requires child.List? && Children(root, parent).Some?
             && ChildNamed(Children(root, parent).value, child.name) == Some(child)
    requires EntryOk(root, tree, parent, content, child, entry)
    ensures Lists(LeavesOf([entry]), tree, VisibleKeyed(root, tree, parent, content, child.name, {entry.keyValue}))
  {
    UnderEntry(root, tree, parent, content, child, entry.keyValue);
    assert LeavesOf([entry]) == LeavesIn(entry) + [] == LeavesOf(entry.children);
    hide LeavesOf, Lists;
  }

  lemma EntryAbsent(
    root: seq<Node>, tree: Tree, parent: Path, content: Content, child: Node, entries: seq<Data>, value: string)
    requires child.List? && child.key != "" && Conforms(root, tree)
    requires Children(root, parent).Some? && ChildNamed(Children(root, parent).value, child.name) == Some(child)
    requires EntriesOk(root, tree, parent, content, child, entries, InstanceKeys(tree, parent, child.name))
    requires forall j :: 0 <= j < |entries| ==> entries[j].keyValue != value
    ensures VisibleKeyed(root, tree, parent, content, child.name, {value}) == {}
  {
    InstancesKeyed(root, tree, parent, content, child);
    assert value !in InstanceKeys(tree, parent, child.name);
    forall p | p in Visible(root, tree, parent, content) && Next(parent, p).name == child.name
      ensures Next(parent, p).value in InstanceKeys(tree, parent, child.name) && Next(parent, p).value != value
    {
      assert p in VisibleUnder(root, tree, parent, content, {child.name});
    }
    var keyed := VisibleKeyed(root, tree, parent, content, child.name, {value});
    assert forall p :: p in keyed ==> p in Visible(root, tree, parent, content) && Next(parent, p).name == child.name;
    assert keyed == {};
  }

  lemma NothingNamed(root: seq<Node>, tree: Tree, prefix: Path, content: Content, nodes: seq<Data>)
    requires prefix != [] && Children(root, prefix[..|prefix| - 1]).Some?
    requires PerChild(root, tree, prefix[..|prefix| - 1], content, nodes,
             NamesOf(SchemaAt(root, prefix[..|prefix| - 1])))
    requires forall node <- nodes :: node.name != prefix[|prefix| - 1].name
    ensures ReadSet(root, tree, prefix, content) == {}
  {
    var parent, last := prefix[..|prefix| - 1], prefix[|prefix| - 1];
    AllNames(root, tree, parent, content);
    forall p | p in Visible(root, tree, parent, content) ensures Next(parent, p).name != last.name {
      assert p in VisibleUnder(root, tree, parent, content, NamesOf(SchemaAt(root, parent)));
    }
  }

  // ------------------------------------------------------------------- the promise

  /** `p` lies at or below `prefix`; a list named without a key stands for all its entries. */
  predicate AtOrBelow(prefix: Path, p: Path)
    requires prefix != []
  {
    var parent, last := prefix[..|prefix| - 1], prefix[|prefix| - 1];
    parent < p && Next(parent, p).name == last.name && (last.key == "" || Next(parent, p) == last)
  }

  /** The last segment of the prefix has a key predicate only where the schema has a list, and
      then the list's own key. */
  predicate ProperLast(root: seq<Node>, prefix: Path)
    requires prefix != [] && Children(root, prefix[..|prefix| - 1]).Some?
  {
    var last := prefix[|prefix| - 1];
    last.key == "" ||
    match ChildNamed(Children(root, prefix[..|prefix| - 1]).value, last.name)
    case Some(List(_, key, _)) => last.key == key
    case _ => false
  }

  /** What the prefix and the selection pick from the flat map. */
  ghost function Filtered(root: seq<Node>, tree: Tree, prefix: Path, content: Content): set<Path>
    requires prefix != []
  {
    set p | p in tree && AtOrBelow(prefix, p) && Strict(root, p) && Selected(root, content, p)
  }

  /** The leaf stands under the bare name of the last segment: for a list, in the entry whose key
      value the predicate gives, whatever key the predicate names. */
  predicate UnderBare(root: seq<Node>, prefix: Path, p: Path)
    requires prefix != [] && Reachable(root, prefix)
  {
    var parent, last := prefix[..|prefix| - 1], prefix[|prefix| - 1];
    var child := ChildNamed(Children(root, parent).value, last.name);
    && parent < p && Next(parent, p).name == last.name
    && (child.Some? && child.value.List? && last.key != "" ==> Next(parent, p).value == last.value)
  }

  /** Some stored leaf that can be shown and is selected stands there. */
  predicate BareSelects(root: seq<Node>, tree: Tree, prefix: Path, content: Content)
    requires prefix != [] && Reachable(root, prefix)
  {
    exists p <- tree :: UnderBare(root, prefix, p) && Strict(root, p) && Selected(root, content, p)
  }

  /** Reading is filtering the flat map by the prefix if and only if the last segment is proper
      or the map holds nothing under its bare name. An improper one is not rejected but ignored:
      it should select nothing, and whatever the bare name selects is returned. */
  lemma ReadIsFilterIff(root: seq<Node>, tree: Tree, prefix: Path, content: Content)
    requires prefix != [] && WellFormed(prefix) && Reachable(root, prefix)
    ensures ReadSet(root, tree, prefix, content) == Filtered(root, tree, prefix, content) <==>
            ProperLast(root, prefix) || !BareSelects(root, tree, prefix, content)
    ensures !ProperLast(root, prefix) ==> Filtered(root, tree, prefix, content) == {}
  {
    BareIsRead(root, tree, prefix, content);
    var parent, last := prefix[..|prefix| - 1], prefix[|prefix| - 1];
    var filter := Filtered(root, tree, prefix, content);
    assert last in prefix && WellFormedSegment(last);
    forall p | p in Visible(root, tree, parent, content)
      ensures var below: Path := p[|parent|..];
              below[0] == Next(parent, p) && Strict(Children(root, parent).value, below)
    {
      StrictBelow(root, parent, p);
    }
    forall p | p in filter ensures p in Visible(root, tree, parent, content) {}
    if ProperLast(root, prefix) {
      forall p ensures p in filter <==> p in ReadSet(root, tree, prefix, content) {
        if p in ReadSet(root, tree, prefix, content) { assert p in Visible(root, tree, parent, content); }
      }
    }
  }

  lemma BareIsRead(root: seq<Node>, tree: Tree, prefix: Path, content: Content)
    requires prefix != [] && Reachable(root, prefix)
    ensures BareSelects(root, tree, prefix, content) <==> ReadSet(root, tree, prefix, content) != {}
  {
    var read := ReadSet(root, tree, prefix, content);
    if BareSelects(root, tree, prefix, content) {
      var p :| p in tree && UnderBare(root, prefix, p) && Strict(root, p) && Selected(root, content, p);
      assert p in read;
    }
    if read != {} {
      var p :| p in read;
      assert UnderBare(root, prefix, p);
    }
  }

  /** A read of one leaf with a predicate it does not have returns the leaf. */
  lemma ImproperPrefixReads(value: Value)
    ensures var root := [Leaf("a", TextLeaf, true)];
            var p: Path := [Segment("a", "", "")];
            var prefix: Path := [Segment("a", "k", "x")];
            && Readable(root, map[p := value]) && WellFormed(prefix) && Reachable(root, prefix)
            && !ProperLast(root, prefix) && ReadSet(root, map[p := value], prefix, All) == {p}
  {
    var root := [Leaf("a", TextLeaf, true)];
    var p: Path := [Segment("a", "", "")];
    var prefix: Path := [Segment("a", "k", "x")];
    var tree := map[p := value];
    assert prefix[..0] == [] && ChildNamed(root, "a") == Some(root[0]);
    assert Strict(root, p) && Next([], p) == p[0];
    assert Visible(root, tree, [], All) == {p};
  }

  /** No segment but a list's carries a key predicate. */
  predicate Plain(nodes: seq<Node>, path: Path)
    decreases path
  {
    path == [] ||
    match ChildNamed(nodes, path[0].name)
    case None => true
    case Some(Leaf(_, _, _)) => path[0].key == ""
    case Some(Container(_, children)) => path[0].key == "" && Plain(children, path[1..])
    case Some(List(_, _, children)) => Plain(children, path[1..])
  }

  /** Of the paths that can be stored, `Read` shows exactly the plain ones. */
  lemma {:induction false} StrictIff(nodes: seq<Node>, path: Path)
    requires GoodNames(nodes) && WellFormed(path)
    ensures Strict(nodes, path) <==> IsLeaf(nodes, path) && Plain(nodes, path)
    decreases path
  {
    if path != [] {
      assert path[0] in path && forall segment <- path[1..] :: segment in path;
      match ChildNamed(nodes, path[0].name)
      case Some(Container(_, children)) => StrictIff(children, path[1..]);
      case Some(List(_, _, children)) => StrictIff(children, path[1..]);
      case _ =>
    }
  }

  lemma ShownIff(root: seq<Node>, tree: Tree, p: Path)
    requires Readable(root, tree) && p in tree
    ensures p in ReadSet(root, tree, [], All) <==> Plain(root, p)
  {
    StrictIff(root, p);
    assert IsLeaf(root, p);
  }

  lemma ReadSetStrict(root: seq<Node>, tree: Tree, prefix: Path, content: Content, p: Path)
    requires Reachable(root, prefix) && p in ReadSet(root, tree, prefix, content)
    ensures Strict(root, p)
  {
  }

  /** A stored path that no read shows. */
  lemma StrayPredicateHides(value: Value, prefix: Path, content: Content)
    requires Reachable([Container("c", [Leaf("a", TextLeaf, true)])], prefix)
    ensures var root := [Container("c", [Leaf("a", TextLeaf, true)])];
            var p: Path := [Segment("c", "k", "x"), Segment("a", "", "")];
            Readable(root, map[p := value]) && p !in ReadSet(root, map[p := value], prefix, content)
  {
    var leaf := Leaf("a", TextLeaf, true);
    var root := [Container("c", [leaf])];
    var p: Path := [Segment("c", "k", "x"), Segment("a", "", "")];
    assert ChildNamed(root, "c") == Some(root[0]) && ChildNamed([leaf], "a") == Some(leaf);
    assert p[1..] == [Segment("a", "", "")];
    assert IsLeaf([leaf], p[1..]) && IsLeaf(root, p);
    hide ReadSet;
    if p in ReadSet(root, map[p := value], prefix, content) {
      ReadSetStrict(root, map[p := value], prefix, content, p);
      assert false;
    }
  }

  /** The configuration selection is the configuration of the full read, the state selection the
      rest of it. */
  lemma SelectionsSplit(root: seq<Node>, tree: Tree, prefix: Path)
    requires Reachable(root, prefix)
    ensures var all := ReadSet(root, tree, prefix, All);
            && ReadSet(root, tree, prefix, ConfigOnly) == (set p | p in all && IsConfig(root, p))
            && ReadSet(root, tree, prefix, NonConfig) == (set p | p in all && !IsConfig(root, p))
  {
    hide IsConfig, Strict;
    var all := ReadSet(root, tree, prefix, All);
    forall p ensures p in ReadSet(root, tree, prefix, ConfigOnly) <==> p in all && IsConfig(root, p) {}
    forall p ensures p in ReadSet(root, tree, prefix, NonConfig) <==> p in all && !IsConfig(root, p) {}
  }

  /** The configuration and the state selection split the full one: every leaf of the full read is
      in exactly one of them, with the same value, a configuration leaf in the first. */
  lemma SelectionsPartition(root: seq<Node>, tree: Tree, prefix: Path, all: Pairs, config: Pairs, state: Pairs)
    requires Reachable(root, prefix)
    requires Lists(all, tree, ReadSet(root, tree, prefix, All))
    requires Lists(config, tree, ReadSet(root, tree, prefix, ConfigOnly))
    requires Lists(state, tree, ReadSet(root, tree, prefix, NonConfig))
    ensures forall pair :: pair in config <==> pair in all && IsConfig(root, pair.0)
    ensures forall pair :: pair in state <==> pair in all && !IsConfig(root, pair.0)
    ensures |all| == |config| + |state|
  {
    hide ReadSet, Lists, IsConfig;
    var a := ReadSet(root, tree, prefix, All);
    var c, s := ReadSet(root, tree, prefix, ConfigOnly), ReadSet(root, tree, prefix, NonConfig);
    SelectionsSplit(root, tree, prefix);
    assert a == c + s && c !! s;
    ListsCount(all, tree, a);
    ListsCount(config, tree, c);
    ListsCount(state, tree, s);
    forall pair: (Path, Value)
      ensures pair in all <==> pair.0 in a && pair.0 in tree && tree[pair.0] == pair.1
      ensures pair in config <==> pair.0 in c && pair.0 in tree && tree[pair.0] == pair.1
      ensures pair in state <==> pair.0 in s && pair.0 in tree && tree[pair.0] == pair.1
    {
      ListsHas(all, tree, a, pair);
      ListsHas(config, tree, c, pair);
      ListsHas(state, tree, s, pair);
    }
  }

  lemma ListsHas(pairs: Pairs, tree: Tree, want: set<Path>, pair: (Path, Value))
    requires Lists(pairs, tree, want)
    ensures pair in pairs <==> pair.0 in want && pair.0 in tree && tree[pair.0] == pair.1
  {
    if pair.0 in want {
      var i :| 0 <= i < |pairs| && pairs[i].0 == pair.0;
      assert pairs[i] in pairs;
    }
  }
}
