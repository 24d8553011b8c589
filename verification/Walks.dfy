/** Walking a tree through the transaction: findKey, getNodes, split and removal at a node (node.go, collection.go). */
module Walks {
  import opened Seqs
  import opened Keys
  import opened Items
  import opened Trees
  import opened TreeSearch
  import opened Engine
  import opened NodeOps

  // ---------------------------------------------------------------- searching

  /** findKeyHelper: appends a breadcrumb for every level it goes down. */
  method FindKeyHelper(tx: Tx, node: Node, key: Key, exact: bool, crumbs: seq<nat>, ghost t: Tree, ghost h: nat)
    returns (index: int, containing: Node?, trail: seq<nat>)
    requires tx.Valid() && tx.InSync({}) && Holds(tx.view, t) && Stands(tx, node, t)
    requires Shape(t, h) && Sorted(InOrder(t))
    ensures trail == crumbs + SearchPath(t, h, key)
    ensures var n := Sub(t, SearchPath(t, h, key));
      if exact && !Has(n.items, key) then index == -1 && containing == null
      else containing != null && Stands(tx, containing, n) && index == Pos(n.items, key)
    ensures containing != null ==> containing == node || containing in tx.dirtyNodes.Values || fresh(containing)
    decreases h
  {
    NodeSorted(t, h);
    SearchStep(t, h, key);
    Ends(crumbs);
    var found, i := node.FindKeyInNode(key);
    if found {
      return i, node, crumbs;
    }
    if node.childNodes == [] {
      if exact {
        return -1, null, crumbs;
      }
      return i, node, crumbs;
    }
    OnEitherSide(t, h, key);
    assert Holds(tx.view, t.kids[i]);
    Assoc(crumbs, [i], SearchPath(t.kids[i], h - 1, key));
    var nextChild := GetHeld(tx, node.childNodes[i], t.kids[i]);
    index, containing, trail := FindKeyHelper(tx, nextChild, key, exact, crumbs + [i], t.kids[i], h - 1);
  }

  /** findKey: the breadcrumbs start with the index of the root. */
  method FindKey(tx: Tx, root: Node, key: Key, exact: bool, ghost t: Tree, ghost h: nat)
    returns (index: int, containing: Node?, trail: seq<nat>)
    requires tx.Valid() && tx.InSync({}) && Holds(tx.view, t) && Stands(tx, root, t)
    requires Shape(t, h) && Sorted(InOrder(t))
    ensures trail == [0] + SearchPath(t, h, key)
    ensures var n := Sub(t, SearchPath(t, h, key));
      if exact && !Has(n.items, key) then index == -1 && containing == null
      else containing != null && Stands(tx, containing, n) && index == Pos(n.items, key)
    ensures containing != null ==> containing == root || containing in tx.dirtyNodes.Values || fresh(containing)
  {
    index, containing, trail := FindKeyHelper(tx, root, key, exact, [0], t, h);
  }

  lemma {:induction false} SubStep(t: Tree, path: Path, j: nat)
    requires ValidPath(t, path) && j < |path|
    ensures ValidPath(t, path[..j]) && ValidPath(t, path[..j + 1])
    ensures path[j] < |Sub(t, path[..j]).kids|
    ensures Sub(t, path[..j + 1]) == Sub(t, path[..j]).kids[path[j]]
    decreases j
  {
    if j > 0 {
      SubStep(t.kids[path[0]], path[1..], j - 1);
      TailPrefix(path, j);
      TailPrefix(path, j + 1);
    } else {
      assert path[..1][1..] == [];
    }
  }

  lemma {:induction false} PathPrefix(t: Tree, path: Path, j: nat)
    requires ValidPath(t, path) && j <= |path|
    ensures ValidPath(t, path[..j])
  {
    if j < |path| { SubStep(t, path, j); } else { Ends(path); }
  }

  /** getNodes: the nodes along the breadcrumbs, the root first. */
  method GetNodes(tx: Tx, root: PageNum, trail: seq<nat>, ghost t: Tree, ghost path: Path) returns (nodes: seq<Node>)
    requires tx.Valid() && tx.InSync({}) && Holds(tx.view, t) && root == t.page
    requires trail == [0] + path && ValidPath(t, path)
    ensures |nodes| == |path| + 1
    ensures forall j :: 0 <= j < |nodes| ==> ValidPath(t, path[..j]) && Stands(tx, nodes[j], Sub(t, path[..j]))
    ensures forall j :: 0 <= j < |nodes| ==> nodes[j] in tx.dirtyNodes.Values || fresh(nodes[j])
  {
    var rootNode := GetHeld(tx, root, t);
    nodes := [rootNode];
    var child := rootNode;
    for i := 1 to |trail|
      invariant |nodes| == i && child == nodes[i - 1]
      invariant forall j :: 0 <= j < i ==> ValidPath(t, path[..j]) && Stands(tx, nodes[j], Sub(t, path[..j]))
      invariant forall j :: 0 <= j < i ==> nodes[j] in tx.dirtyNodes.Values || fresh(nodes[j])
    {
      SubStep(t, path, i - 1);
      HoldsSub(tx.view, t, path[..i]);
      child := GetHeld(tx, child.childNodes[trail[i]], Sub(t, path[..i]));
      nodes := nodes + [child];
    }
  }
}
