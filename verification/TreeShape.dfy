/** The form of the tree `Read` builds (internal/datatree/read.go): one node per schema child, in
    schema order and with its path; a list entry with its key leaf first; entries in key order. */
module TreeShape {
  import opened Wrappers
  import opened Paths
  import opened Schema
  import opened ReadTree

  /** The entries stand in key order, if the comparison orders their keys. */
  ghost predicate InKeyOrder(entries: seq<Data>, before: (string, string) -> bool) {
    && (forall i :: 0 <= i < |entries| ==> entries[i].InnerData?)
    && (OrdersKeys(entries, before) ==> forall i, j :: 0 <= i < j < |entries| ==>
       !before(entries[j].keyValue, entries[i].keyValue))
  }

  /** Of two keys one may stand first, and "may stand before" is transitive. */
  ghost predicate OrdersKeys(entries: seq<Data>, before: (string, string) -> bool)
    requires forall i :: 0 <= i < |entries| ==> entries[i].InnerData?
  {
    && (forall i, j :: 0 <= i < |entries| && 0 <= j < |entries| ==>
          !before(entries[i].keyValue, entries[j].keyValue) || !before(entries[j].keyValue, entries[i].keyValue))
    && (forall i, j, k :: 0 <= i < |entries| && 0 <= j < |entries| && 0 <= k < |entries|
                          && !before(entries[j].keyValue, entries[i].keyValue)
                             && !before(entries[k].keyValue, entries[j].keyValue)
          ==> !before(entries[k].keyValue, entries[i].keyValue))
  }

  // ------------------------------------------------------------------------ one level

  /** The number of the first schema node of that name. */
  function Place(schema: seq<Node>, name: string): nat {
    if schema == [] || schema[0].name == name then 0 else 1 + Place(schema[1..], name)
  }

  /** Nodes stand in schema order, the key leaf of an entry before all others. */
  function Rank(schema: seq<Node>, key: string, name: string): int {
    if key != "" && name == key then -1 else Place(schema, name)
  }

  predicate InSchemaOrder(schema: seq<Node>, key: string, nodes: seq<Data>) {
    forall i, j :: 0 <= i < j < |nodes| ==> Rank(schema, key, nodes[i].name) < Rank(schema, key, nodes[j].name)
  }

  predicate Shows(nodes: seq<Data>, name: string) {
    exists i :: 0 <= i < |nodes| && nodes[i].name == name
  }

  /** The nodes of the first `n` schema children below `path`: containers and lists are always
      there. */
  ghost predicate LevelShaped(
    schema: seq<Node>, n: nat, key: string, path: Path, nodes: seq<Data>, before: (string, string) -> bool)
    decreases nodes, 1
  {
    && n <= |schema|
    && (forall node <- nodes ::
          && ChildNamed(schema, node.name).Some? && Place(schema, node.name) < n
          && NodeShaped(ChildNamed(schema, node.name).value, path, node, before))
    && InSchemaOrder(schema, key, nodes)
    && (forall i :: 0 <= i < n && !schema[i].Leaf? ==> Shows(nodes, schema[i].name))
  }

  /** The node of one schema child. */
  ghost predicate NodeShaped(child: Node, prefix: Path, node: Data, before: (string, string) -> bool)
    decreases node, 0
  {
    && node.name == child.name && node.path == prefix + [Segment(child.name, "", "")]
    && match child
       case Leaf(_, _, _) => node.LeafData?
       case Container(_, children) =>
         node.InnerData? && node.keyValue == ""
           && LevelShaped(children, |children|, "", node.path, node.children, before)
       case List(_, key, _) =>
         && node.ListData? && node.key == key && InKeyOrder(node.children, before)
         && forall entry <- node.children :: EntryShaped(child, prefix, entry, before)
  }

  /** One entry of a list. */
  ghost predicate EntryShaped(list: Node, prefix: Path, entry: Data, before: (string, string) -> bool)
    requires list.List?
    decreases entry, 0
  {
    && entry.InnerData? && entry.name == list.name
    && entry.path == prefix + [Segment(list.name, list.key, entry.keyValue)]
    && LevelShaped(list.children, |list.children|, list.key, entry.path, entry.children, before)
  }

  // ------------------------------------------------------------------------- building one

  lemma {:induction false} PlaceIs(schema: seq<Node>, i: nat)
    requires i < |schema| && forall i, j :: 0 <= i < j < |schema| ==> schema[i].name != schema[j].name
    ensures Place(schema, schema[i].name) == i
  {
    if i > 0 { PlaceIs(schema[1..], i - 1); }
  }

  lemma LevelStarts(schema: seq<Node>, path: Path, before: (string, string) -> bool)
    ensures LevelShaped(schema, 0, "", path, [], before)
  {
  }

  /** One more schema child: its node, or none for a leaf without data. */
  lemma LevelNext(
    schema: seq<Node>, n: nat, path: Path, nodes: seq<Data>, node: Option<Data>, before: (string, string) -> bool)
    requires n < |schema| && LevelShaped(schema, n, "", path, nodes, before)
    requires forall i, j :: 0 <= i < j < |schema| ==> schema[i].name != schema[j].name
    requires ChildNamed(schema, schema[n].name) == Some(schema[n])
    requires if node.Some? then NodeShaped(schema[n], path, node.value, before) else schema[n].Leaf?
    ensures LevelShaped(schema, n + 1, "", path, nodes + (if node.Some? then [node.value] else []), before)
  {
    hide NodeShaped;
    PlaceIs(schema, n);
    var more := nodes + (if node.Some? then [node.value] else []);
    if node.Some? { NodeNamed(schema[n], path, node, before); }
    forall x | x in more
      ensures ChildNamed(schema, x.name).Some? && Place(schema, x.name) < n + 1
      ensures NodeShaped(ChildNamed(schema, x.name).value, path, x, before)
    {
      assert x in nodes || (node.Some? && x == node.value);
    }
    forall i, j | 0 <= i < j < |more| ensures Rank(schema, "", more[i].name) < Rank(schema, "", more[j].name) {
      if j == |nodes| { assert nodes[i] in nodes; }
    }
    forall i | 0 <= i < n + 1 && !schema[i].Leaf? ensures Shows(more, schema[i].name) {
      if i < n {
        var k :| 0 <= k < |nodes| && nodes[k].name == schema[i].name;
        assert more[k].name == schema[i].name;
      } else {
        assert more[|nodes|].name == schema[i].name;
      }
    }
  }

  lemma NodeNamed(child: Node, path: Path, node: Option<Data>, before: (string, string) -> bool)
    requires node.Some? && NodeShaped(child, path, node.value, before)
    ensures node.value.name == child.name
  {
  }

  /** The nodes of other names. */
  function Without(nodes: seq<Data>, name: string): (rest: seq<Data>)
    ensures forall node :: node in rest <==> node in nodes && node.name != name
  {
    if nodes == [] then []
    else
      var k := |nodes| - 1;
      Without(nodes[..k], name) + (if nodes[k].name == name then [] else [nodes[k]])
  }

  /** The nodes that remain of a level still have different names. */
  lemma RestDiffers(schema: seq<Node>, key: string, path: Path, nodes: seq<Data>, before: (string, string) -> bool)
    requires LevelShaped(schema, |schema|, "", path, nodes, before) && key != ""
    ensures var rest := Without(nodes, key); forall i, j :: 0 <= i < j < |rest| ==> rest[i].name != rest[j].name
  {
    hide NodeShaped, Rank, Without;
    WithoutInOrder(schema, key, nodes);
  }

  lemma LeafShaped(child: Node, path: Path, node: Data, before: (string, string) -> bool)
    requires child.Leaf? && node.LeafData? && node.name == child.name
             && node.path == path + [Segment(child.name, "", "")]
    ensures NodeShaped(child, path, node, before)
  {
  }

  lemma {:induction false} WithoutInOrder(schema: seq<Node>, key: string, nodes: seq<Data>)
    requires InSchemaOrder(schema, "", nodes) && key != ""
    ensures InSchemaOrder(schema, key, Without(nodes, key))
    decreases |nodes|
  {
    if nodes != [] {
      var k := |nodes| - 1;
      var rest := Without(nodes[..k], key);
      WithoutInOrder(schema, key, nodes[..k]);
      if nodes[k].name != key {
        forall x | x in rest ensures Rank(schema, key, x.name) < Rank(schema, key, nodes[k].name) {
          assert x in nodes[..k];
          EarlierRank(schema, key, nodes, x);
        }
        InOrderSnoc(schema, key, rest, nodes[k]);
      }
    }
  }

  lemma EarlierRank(schema: seq<Node>, key: string, nodes: seq<Data>, x: Data)
    requires InSchemaOrder(schema, "", nodes) && nodes != [] && x in nodes[..|nodes| - 1]
    requires x.name != key && nodes[|nodes| - 1].name != key
    ensures Rank(schema, key, x.name) < Rank(schema, key, nodes[|nodes| - 1].name)
  {
    hide Place;
    var k := |nodes| - 1;
    var j :| 0 <= j < k && nodes[..k][j] == x;
    assert Rank(schema, "", nodes[j].name) < Rank(schema, "", nodes[k].name);
  }

  lemma InOrderSnoc(schema: seq<Node>, key: string, nodes: seq<Data>, last: Data)
    requires InSchemaOrder(schema, key, nodes)
    requires forall x <- nodes :: Rank(schema, key, x.name) < Rank(schema, key, last.name)
    ensures InSchemaOrder(schema, key, nodes + [last])
  {
    hide Rank;
    var more := nodes + [last];
    forall i, j | 0 <= i < j < |more| ensures Rank(schema, key, more[i].name) < Rank(schema, key, more[j].name) {
      if j == |nodes| { assert nodes[i] in nodes; }
    }
  }

  /** An entry's level: the key leaf, if it has data, moved to the front. */
  lemma EntryLevel(
    schema: seq<Node>, key: string, path: Path, nodes: seq<Data>, first: Option<Data>, before: (string, string) -> bool)
    requires LevelShaped(schema, |schema|, "", path, nodes, before) && key != ""
    requires ChildNamed(schema, key).Some? && ChildNamed(schema, key).value.Leaf?
    requires first.Some? ==> NodeShaped(ChildNamed(schema, key).value, path, first.value, before)
    requires forall i, j :: 0 <= i < j < |schema| ==> schema[i].name != schema[j].name
    ensures LevelShaped(schema, |schema|, key, path, (if first.Some? then [first.value] else []) + Without(nodes, key),
                        before)
  {
    hide NodeShaped, Place, Rank, ChildNamed;
    var rest := Without(nodes, key);
    var all := (if first.Some? then [first.value] else []) + rest;
    WithoutInOrder(schema, key, nodes);
    KeyPlace(schema, key);
    if first.Some? {
      NodeNamed(ChildNamed(schema, key).value, path, first, before);
      KeyFront(schema, key, first.value, rest);
    } else {
      assert all == rest;
    }
    hide InSchemaOrder;
    forall x | x in all
      ensures ChildNamed(schema, x.name).Some? && Place(schema, x.name) < |schema|
      ensures NodeShaped(ChildNamed(schema, x.name).value, path, x, before)
    {
      assert x in nodes || (first.Some? && x == first.value);
    }
    forall i | 0 <= i < |schema| && !schema[i].Leaf? ensures Shows(all, schema[i].name) {
      OthersShown(schema, key, nodes, first, i);
    }
  }

  lemma KeyFront(schema: seq<Node>, key: string, first: Data, rest: seq<Data>)
    requires InSchemaOrder(schema, key, rest) && first.name == key != "" && forall x <- rest :: x.name != key
    ensures InSchemaOrder(schema, key, [first] + rest)
  {
    var all := [first] + rest;
    forall i, j | 0 <= i < j < |all| ensures Rank(schema, key, all[i].name) < Rank(schema, key, all[j].name) {
      assert all[j] == rest[j - 1] && rest[j - 1] in rest;
      if i > 0 { assert all[i] == rest[i - 1]; }
    }
  }

  lemma {:induction false} KeyPlace(schema: seq<Node>, key: string)
    requires ChildNamed(schema, key).Some?
    ensures Place(schema, key) < |schema| && schema[Place(schema, key)] == ChildNamed(schema, key).value
  {
    if schema[0].name != key { KeyPlace(schema[1..], key); }
  }

  lemma OthersShown(schema: seq<Node>, key: string, nodes: seq<Data>, first: Option<Data>, i: nat)
    requires i < |schema| && !schema[i].Leaf? && Shows(nodes, schema[i].name)
    requires ChildNamed(schema, key).Some? && ChildNamed(schema, key).value.Leaf?
    requires forall i, j :: 0 <= i < j < |schema| ==> schema[i].name != schema[j].name
    ensures Shows((if first.Some? then [first.value] else []) + Without(nodes, key), schema[i].name)
  {
    hide Place, Without, ChildNamed;
    var rest := Without(nodes, key);
    KeyPlace(schema, key);
    assert schema[i].name != key;
    var k :| 0 <= k < |nodes| && nodes[k].name == schema[i].name;
    assert nodes[k] in rest;
    var j :| 0 <= j < |rest| && rest[j] == nodes[k];
    var all := (if first.Some? then [first.value] else []) + rest;
    assert all[if first.Some? then j + 1 else j] == rest[j];
  }

  lemma LevelNode(schema: seq<Node>, path: Path, nodes: seq<Data>, node: Data, before: (string, string) -> bool)
    requires LevelShaped(schema, |schema|, "", path, nodes, before) && node in nodes
    ensures ChildNamed(schema, node.name).Some? && NodeShaped(ChildNamed(schema, node.name).value, path, node, before)
  {
    hide NodeShaped;
  }

  /** A name without a node is a leaf's, or not in the schema. */
  lemma OnlyLeavesLack(
    schema: seq<Node>, path: Path, nodes: seq<Data>, name: string, before: (string, string) -> bool)
    requires LevelShaped(schema, |schema|, "", path, nodes, before)
    requires forall i :: 0 <= i < |nodes| ==> nodes[i].name != name
    ensures ChildNamed(schema, name).None? || ChildNamed(schema, name).value.Leaf?
  {
    hide NodeShaped;
    if ChildNamed(schema, name).Some? { KeyPlace(schema, name); }
  }

  /** Narrowing a list to one of its entries keeps its form. */
  lemma NarrowedShaped(list: Node, prefix: Path, node: Data, entry: Data, before: (string, string) -> bool)
    requires list.List? && NodeShaped(list, prefix, node, before) && entry in node.children
    ensures NodeShaped(list, prefix, ListData(node.path, node.name, node.key, [entry]), before)
  {
    assert EntryShaped(list, prefix, entry, before);
  }
}
