/** Operations on nodes that reach other nodes through the transaction (node.go). */
module NodeOps {
  import opened Items
  import opened Fill
  import opened Trees
  import opened TreeOps
  import opened Pool
  import opened Engine
  import opened TreeRemove
  import opened StoreOps

  function LeftRec(r: NodeRec, s: nat): NodeRec
    requires s < |r.items| && (r.childNodes == [] || |r.childNodes| == |r.items| + 1)
  {
    NodeRec(r.items[..s], if r.childNodes == [] then [] else r.childNodes[..s + 1])
  }

  function RightRec(r: NodeRec, s: nat): NodeRec
    requires s < |r.items| && (r.childNodes == [] || |r.childNodes| == |r.items| + 1)
  {
    NodeRec(r.items[s + 1..], if r.childNodes == [] then [] else r.childNodes[s + 1..])
  }

  function ParentRec(r: NodeRec, index: nat, x: Item, page: PageNum): NodeRec
    requires index <= |r.items| && index < |r.childNodes|
  {
    NodeRec(r.items[..index] + [x] + r.items[index..], r.childNodes[..index + 1] + [page] + r.childNodes[index + 1..])
  }

  /** The part of split that works on the two nodes: the middle item and the new page go to n. */
  method MoveUp(n: Node, c: Node, index: nat, s: nat, newPage: PageNum)
    requires n != c && s < |c.items| && index <= |n.items| && index < |n.childNodes|
    requires c.childNodes == [] || |c.childNodes| == |c.items| + 1
    modifies n, c
    ensures c.Rec() == LeftRec(old(c.Rec()), s)
    ensures n.Rec() == ParentRec(old(n.Rec()), index, old(c.items)[s], newPage)
  {
    var middleItem := c.items[s];
    if c.childNodes == [] {
      c.items := c.items[..s];
    } else {
      c.items := c.items[..s];
      c.childNodes := c.childNodes[..s + 1];
    }
    n.AddItem(middleItem, index);
    if |n.childNodes| == index + 1 {
      n.childNodes := n.childNodes + [newPage];
    } else {
      n.childNodes := n.childNodes[..index + 1] + n.childNodes[index..];
      n.childNodes := n.childNodes[index + 1 := newPage];
    }
    assert n.childNodes == old(n.childNodes)[..index + 1] + [newPage] + old(n.childNodes)[index + 1..];
  }

  /** split: the right part of c moves to a new node, the middle item to n. False where the code indexes with -1. */
  method SplitNode(tx: Tx, n: Node, c: Node, index: nat) returns (ok: bool, ghost created: Node?)
    requires tx.Valid() && tx.InSync({}) && tx.Owner(n) && tx.Owner(c) && n.pageNum != c.pageNum
    requires InUse(tx.freelist.State(), n.pageNum) && InUse(tx.freelist.State(), c.pageNum)
    requires index <= |n.items| && index < |n.childNodes|
    requires c.childNodes == [] || |c.childNodes| == |c.items| + 1
    modifies tx`dirtyNodes, tx`view, tx.freelist, n, c
    ensures tx.Valid() && tx.InSync({})
    ensures ok <==> SplitIndex(tx.db.fill, old(c.items)) != -1
    ensures ok ==>
      var s := SplitIndex(tx.db.fill, old(c.items));
      var (page, pool) := NextPage(old(tx.freelist.State()));
      && tx.freelist.State() == pool
      && c.Rec() == LeftRec(old(c.Rec()), s)
      && n.Rec() == ParentRec(old(n.Rec()), index, old(c.items)[s], page)
      && tx.view == old(tx.view)[page := RightRec(old(c.Rec()), s)][n.pageNum := n.Rec()][c.pageNum := c.Rec()]
      && created != null && fresh(created) && created.pageNum == page
      && tx.dirtyNodes == old(tx.dirtyNodes)[page := created][n.pageNum := n][c.pageNum := c]
  {
    var splitIndex := GetSplitIndex(tx.db.fill, c.items);
    if splitIndex == -1 {
      return false, null;
    }
    var newNode := tx.WriteNewNode(c.items[splitIndex + 1..], if c.childNodes == [] then [] else c.childNodes[splitIndex + 1..]);
    MoveUp(n, c, index, splitIndex, newNode.pageNum);
    tx.WriteTwo(n, c);
    ok, created := true, newNode;
  }

  // ---------------------------------------------------------------- rebalancing

  // The rotations' special cases for a first and a last child cannot arise: each is called with a sibling on that side.

  /** rotateRight, on three nodes that hold t and its children around position i. */
  method RotateRightNodes(a: Node, n: Node, b: Node, bIndex: nat, ghost t: Tree)
    requires a != n && a != b && n != b
    requires 0 < bIndex < |t.kids| && bIndex <= |t.items| && t.kids[bIndex - 1].items != []
    requires n.Rec() == Rec(t) && a.Rec() == Rec(t.kids[bIndex - 1]) && b.Rec() == Rec(t.kids[bIndex])
    modifies a, n, b
    ensures var r := RotateRight(t, bIndex);
      n.Rec() == Rec(r) && a.Rec() == Rec(r.kids[bIndex - 1]) && b.Rec() == Rec(r.kids[bIndex])
  {
    var last := |a.items| - 1;
    var aItem := a.items[last];
    a.items := a.items[..last];
    var nItem := n.items[bIndex - 1];
    n.items := n.items[bIndex - 1 := aItem];
    b.items := [nItem] + b.items;
    if a.childNodes != [] {
      var lastKid := |a.childNodes| - 1;
      var shifted := a.childNodes[lastKid];
      a.childNodes := a.childNodes[..lastKid];
      b.childNodes := [shifted] + b.childNodes;
    }
    ghost var r := RotateRight(t, bIndex);
    assert a.childNodes == KidPages(r.kids[bIndex - 1].kids);
    assert b.childNodes == KidPages(r.kids[bIndex].kids);
    assert n.childNodes == KidPages(r.kids);
  }

  /** rotateLeft, on three nodes that hold t and its children around position i. */
  method RotateLeftNodes(a: Node, n: Node, b: Node, aIndex: nat, ghost t: Tree)
    requires a != n && a != b && n != b
    requires aIndex + 1 < |t.kids| && aIndex < |t.items| && t.kids[aIndex + 1].items != []
    requires n.Rec() == Rec(t) && a.Rec() == Rec(t.kids[aIndex]) && b.Rec() == Rec(t.kids[aIndex + 1])
    modifies a, n, b
    ensures var r := RotateLeft(t, aIndex);
      n.Rec() == Rec(r) && a.Rec() == Rec(r.kids[aIndex]) && b.Rec() == Rec(r.kids[aIndex + 1])
  {
    var bItem := b.items[0];
    b.items := b.items[1..];
    var nItem := n.items[aIndex];
    n.items := n.items[aIndex := bItem];
    a.items := a.items + [nItem];
    if b.childNodes != [] {
      var shifted := b.childNodes[0];
      b.childNodes := b.childNodes[1..];
      a.childNodes := a.childNodes + [shifted];
    }
    ghost var r := RotateLeft(t, aIndex);
    assert a.childNodes == KidPages(r.kids[aIndex].kids);
    assert b.childNodes == KidPages(r.kids[aIndex + 1].kids);
    assert n.childNodes == KidPages(r.kids);
  }

  /** The node-level part of merge: the parent item and all of b move into a. */
  method MergeNodes(a: Node, n: Node, b: Node, bIndex: nat, ghost t: Tree)
    requires a != n && a != b && n != b
    requires 0 < bIndex < |t.kids| && bIndex <= |t.items|
    requires n.Rec() == Rec(t) && a.Rec() == Rec(t.kids[bIndex - 1]) && b.Rec() == Rec(t.kids[bIndex])
    modifies a, n
    ensures var r := Merge(t, bIndex); n.Rec() == Rec(r) && a.Rec() == Rec(r.kids[bIndex - 1])
  {
    var nItem := n.items[bIndex - 1];
    n.items := n.items[..bIndex - 1] + n.items[bIndex..];
    a.items := a.items + [nItem];
    a.items := a.items + b.items;
    n.childNodes := n.childNodes[..bIndex] + n.childNodes[bIndex + 1..];
    if a.childNodes != [] {
      a.childNodes := a.childNodes + b.childNodes;
    }
    ghost var r := Merge(t, bIndex);
    assert a.childNodes == KidPages(r.kids[bIndex - 1].kids);
    assert n.childNodes == KidPages(r.kids);
  }

  /** A node of the transaction that is the root of t in the view. */
  ghost predicate Stands(tx: Tx, n: Node, t: Tree)
    reads tx`dirtyNodes, n
  {
    n.pageNum == t.page && tx.Owner(n) && n.Rec() == Rec(t)
  }

  /** The transaction can work on t: t is in the view, page by page, on pages that are in use. */
  ghost predicate Ready(tx: Tx, t: Tree)
    reads tx`dirtyNodes, tx`view, tx.freelist, tx.db, set p | p in tx.dirtyNodes :: tx.dirtyNodes[p]
  {
    && tx.Valid() && tx.InSync({})
    && Holds(tx.view, t) && Distinct(t)
    && forall p :: Uses(t, p) > 0 ==> InUse(tx.freelist.State(), p)
  }

  /** rotateRight and writeNodes: three pages of t change. */
  method RotateRightAt(tx: Tx, a: Node, n: Node, b: Node, i: nat, ghost t: Tree)
    requires Ready(tx, t) && Stands(tx, n, t)
    requires 0 < i < |t.kids| && i <= |t.items| && t.kids[i - 1].items != []
    requires Stands(tx, a, t.kids[i - 1]) && Stands(tx, b, t.kids[i])
    modifies tx`dirtyNodes, tx`view, a, n, b
    ensures tx.Valid() && tx.InSync({})
    ensures var r := RotateRight(t, i);
      n.Rec() == Rec(r) && tx.view == Put1(Put1(Put1(old(tx.view), r.kids[i - 1]), r), r.kids[i])
    ensures tx.dirtyNodes == old(tx.dirtyNodes)[a.pageNum := a][n.pageNum := n][b.pageNum := b]
  {
    KidsApart(t, i - 1, i);
    KidsApart(t, i, i);
    RotateRightNodes(a, n, b, i, t);
    tx.WriteThree(a, n, b);
  }

  /** rotateLeft and writeNodes: three pages of t change. */
  method RotateLeftAt(tx: Tx, a: Node, n: Node, b: Node, i: nat, ghost t: Tree)
    requires Ready(tx, t) && Stands(tx, n, t)
    requires i + 1 < |t.kids| && i < |t.items| && t.kids[i + 1].items != []
    requires Stands(tx, a, t.kids[i]) && Stands(tx, b, t.kids[i + 1])
    modifies tx`dirtyNodes, tx`view, a, n, b
    ensures tx.Valid() && tx.InSync({})
    ensures var r := RotateLeft(t, i);
      n.Rec() == Rec(r) && tx.view == Put1(Put1(Put1(old(tx.view), r.kids[i]), r), r.kids[i + 1])
    ensures tx.dirtyNodes == old(tx.dirtyNodes)[a.pageNum := a][n.pageNum := n][b.pageNum := b]
  {
    KidsApart(t, i, i + 1);
    KidsApart(t, i + 1, i);
    RotateLeftNodes(a, n, b, i, t);
    tx.WriteThree(a, n, b);
  }

  /** merge: b goes into the node before it, and its page is noted for release. */
  method MergeAt(tx: Tx, n: Node, b: Node, bIndex: nat, ghost t: Tree) returns (ok: bool, ghost a: Node?)
    requires Ready(tx, t) && Stands(tx, n, t)
    requires 0 < bIndex < |t.kids| && bIndex <= |t.items|
    requires b.pageNum == t.kids[bIndex].page && b.Rec() == Rec(t.kids[bIndex])
    modifies tx`dirtyNodes, tx`view, tx`pagesToDelete, n, tx.dirtyNodes.Values
    ensures ok && tx.Valid() && tx.InSync({})
    ensures var r := Merge(t, bIndex);
      n.Rec() == Rec(r) && tx.view == Put1(Put1(old(tx.view), r.kids[bIndex - 1]), r)
    ensures a != null && a.pageNum == t.kids[bIndex - 1].page
    ensures (a.pageNum in old(tx.dirtyNodes) && a == old(tx.dirtyNodes)[a.pageNum]) || fresh(a)
    ensures tx.dirtyNodes == old(tx.dirtyNodes)[a.pageNum := a][n.pageNum := n]
    ensures tx.pagesToDelete == old(tx.pagesToDelete) + [t.kids[bIndex].page]
  {
    KidsApart(t, bIndex - 1, bIndex);
    KidsApart(t, bIndex, bIndex);
    assert Holds(tx.view, t.kids[bIndex - 1]);
    var aNode := tx.GetNode(n.childNodes[bIndex - 1]);
    if aNode == null {
      assert false;
    }
    MergeNodes(aNode, n, b, bIndex, t);
    tx.WriteTwo(aNode, n);
    tx.DeleteNode(b);
    ok, a := true, aNode;
  }

  /** getNode of a page that the view holds: there is no read error. */
  method GetHeld(tx: Tx, page: PageNum, ghost t: Tree) returns (node: Node)
    requires tx.Valid() && tx.InSync({}) && Holds(tx.view, t) && page == t.page
    ensures Stands(tx, node, t)
    ensures (node.pageNum in tx.dirtyNodes && node == tx.dirtyNodes[node.pageNum]) || fresh(node)
    ensures node in tx.dirtyNodes.Values || fresh(node)
  {
    var n := tx.GetNode(page);
    if n == null {
      assert false;
    }
    if page in tx.dirtyNodes {
      assert tx.dirtyNodes[page] in tx.dirtyNodes.Values;
    }
    node := n;
  }

  /** getNode of child i. */
  method GetKid(tx: Tx, n: Node, i: nat, ghost t: Tree) returns (kid: Node)
    requires Ready(tx, t) && n.Rec() == Rec(t) && i < |t.kids|
    ensures Stands(tx, kid, t.kids[i])
    ensures (kid.pageNum in tx.dirtyNodes && kid == tx.dirtyNodes[kid.pageNum]) || fresh(kid)
    ensures kid in tx.dirtyNodes.Values || fresh(kid)
  {
    kid := GetHeld(tx, n.childNodes[i], t.kids[i]);
  }

  lemma LocalWrites(t: Tree, was: Store, filed: map<PageNum, Node>, a: Tree, b: Tree, x: Node, y: Node)
    requires forall p :: p in filed ==> filed[p].pageNum == p
    requires Uses(t, a.page) > 0 && Uses(t, b.page) > 0
    requires x.pageNum == a.page && y.pageNum == b.page
    ensures Local(t, was, Put1(Put1(was, a), b), filed, filed[x.pageNum := x][y.pageNum := y])
  {
  }

  lemma LocalThree(t: Tree, was: Store, filed: map<PageNum, Node>, a: Tree, b: Tree, c: Tree, x: Node, y: Node, z: Node)
    requires forall p :: p in filed ==> filed[p].pageNum == p
    requires Uses(t, a.page) > 0 && Uses(t, b.page) > 0 && Uses(t, c.page) > 0
    requires x.pageNum == a.page && y.pageNum == b.page && z.pageNum == c.page
    ensures Local(t, was, Put1(Put1(Put1(was, a), b), c), filed, filed[x.pageNum := x][y.pageNum := y][z.pageNum := z])
  {
    LocalWrites(t, was, filed, a, b, x, y);
  }

  lemma RightLocal(t: Tree, i: nat, was: Store, filed: map<PageNum, Node>, x: Node, y: Node, z: Node)
    requires Holds(was, t) && Distinct(t) && 0 < i < |t.kids| && i <= |t.items| && t.kids[i - 1].items != []
    requires forall p :: p in filed ==> filed[p].pageNum == p
    requires x.pageNum == t.kids[i - 1].page && y.pageNum == t.page && z.pageNum == t.kids[i].page
    ensures var r := RotateRight(t, i); var now := Put1(Put1(Put1(was, r.kids[i - 1]), r), r.kids[i]);
      && Holds(now, r)
      && var refiled := filed[x.pageNum := x][y.pageNum := y][z.pageNum := z];
        Local(t, was, now, filed, refiled) && refiled[y.pageNum] == y && FiledFrom(filed, refiled, {x, y, z})
  {
    var r := RotateRight(t, i);
    KidsApart(t, i - 1, i);
    KidsApart(t, i, i - 1);
    RotateRightStored(was, t, i);
    LocalThree(t, was, filed, r.kids[i - 1], r, r.kids[i], x, y, z);
  }

  lemma LeftLocal(t: Tree, i: nat, was: Store, filed: map<PageNum, Node>, x: Node, y: Node, z: Node)
    requires Holds(was, t) && Distinct(t) && i + 1 < |t.kids| && i < |t.items| && t.kids[i + 1].items != []
    requires forall p :: p in filed ==> filed[p].pageNum == p
    requires x.pageNum == t.kids[i].page && y.pageNum == t.page && z.pageNum == t.kids[i + 1].page
    ensures var r := RotateLeft(t, i); var now := Put1(Put1(Put1(was, r.kids[i]), r), r.kids[i + 1]);
      && Holds(now, r)
      && var refiled := filed[x.pageNum := x][y.pageNum := y][z.pageNum := z];
        Local(t, was, now, filed, refiled) && refiled[y.pageNum] == y && FiledFrom(filed, refiled, {x, y, z})
  {
    var r := RotateLeft(t, i);
    KidsApart(t, i + 1, i);
    KidsApart(t, i, i + 1);
    RotateLeftStored(was, t, i);
    LocalThree(t, was, filed, r.kids[i], r, r.kids[i + 1], x, y, z);
  }

  lemma MergeLocal(t: Tree, i: nat, was: Store, filed: map<PageNum, Node>, x: Node, y: Node)
    requires Holds(was, t) && Distinct(t) && 0 < i < |t.kids| && i <= |t.items|
    requires forall p :: p in filed ==> filed[p].pageNum == p
    requires x.pageNum == t.kids[i - 1].page && y.pageNum == t.page
    ensures var r := Merge(t, i); var now := Put1(Put1(was, r.kids[i - 1]), r);
      && Holds(now, r) && Local(t, was, now, filed, filed[x.pageNum := x][y.pageNum := y])
      && FiledFrom(filed, filed[x.pageNum := x][y.pageNum := y], {x, y})
      && Holds(now, t.kids[i])
  {
    var r := Merge(t, i);
    KidsApart(t, i - 1, i);
    KidsApart(t, i, i - 1);
    HoldsApart(was, Put1(Put1(was, r.kids[i - 1]), r), t.kids[i], {t.page, r.kids[i - 1].page});
    MergeStored(was, t, i);
    LocalWrites(t, was, filed, r.kids[i - 1], r, x, y);
  }

  /** What rebalanceRemove leaves: the view holds r.tree, and nothing outside t changed. */
  ghost predicate Rebalanced(tx: Tx, n: Node, t: Tree, r: Fixed, was: Store, filed: map<PageNum, Node>, toDelete: seq<PageNum>)
    reads tx, n
  {
    && Holds(tx.view, r.tree) && n.Rec() == Rec(r.tree) && tx.Owner(n)
    && tx.pagesToDelete == toDelete + r.deleted
    && Local(t, was, tx.view, filed, tx.dirtyNodes)
  }

  /** The first attempt of rebalanceRemove: borrow from the left sibling, if there is one and it can spare an item. */
  method BorrowLeft(tx: Tx, n: Node, u: Node, index: nat, ghost t: Tree) returns (done: bool, ghost sib: Node)
    requires Ready(tx, t) && Stands(tx, n, t) && |t.kids| == |t.items| + 1
    requires index < |t.kids| && Stands(tx, u, t.kids[index])
    modifies tx`dirtyNodes, tx`view, n, u, tx.dirtyNodes.Values
    ensures done <==> index != 0 && CanSpare(tx.db.fill, t.kids[index - 1].items)
    ensures done ==> tx.Valid() && tx.InSync({})
    ensures done ==> Rebalanced(tx, n, t, Fixed(RotateRight(t, index), []), old(tx.view), old(tx.dirtyNodes), tx.pagesToDelete)
    ensures done ==> FiledFrom(old(tx.dirtyNodes), tx.dirtyNodes, {n, u, sib})
    ensures sib in old(tx.dirtyNodes.Values) || fresh(sib) || sib == u
    ensures !done ==> Ready(tx, t) && Stands(tx, n, t) && Stands(tx, u, t.kids[index])
    ensures !done ==> tx.view == old(tx.view) && tx.dirtyNodes == old(tx.dirtyNodes)
  {
    if index == 0 {
      return false, u;
    }
    var leftNode := GetKid(tx, n, index - 1, t);
    var s := GetSplitIndex(tx.db.fill, leftNode.items);
    if s == -1 {
      return false, u;
    }
    ghost var was, filed := tx.view, tx.dirtyNodes;
    RotateRightAt(tx, leftNode, n, u, index, t);
    RightLocal(t, index, was, filed, leftNode, n, u);
    done, sib := true, leftNode;
  }

  /** The second attempt: borrow from the right sibling. */
  method BorrowRight(tx: Tx, n: Node, u: Node, index: nat, ghost t: Tree) returns (done: bool, ghost sib: Node)
    requires Ready(tx, t) && Stands(tx, n, t) && |t.kids| == |t.items| + 1
    requires index < |t.kids| && Stands(tx, u, t.kids[index])
    modifies tx`dirtyNodes, tx`view, n, u, tx.dirtyNodes.Values
    ensures done <==> index != |t.kids| - 1 && CanSpare(tx.db.fill, t.kids[index + 1].items)
    ensures done ==> tx.Valid() && tx.InSync({})
    ensures done ==> Rebalanced(tx, n, t, Fixed(RotateLeft(t, index), []), old(tx.view), old(tx.dirtyNodes), tx.pagesToDelete)
    ensures done ==> FiledFrom(old(tx.dirtyNodes), tx.dirtyNodes, {n, u, sib})
    ensures sib in old(tx.dirtyNodes.Values) || fresh(sib) || sib == u
    ensures !done ==> Ready(tx, t) && Stands(tx, n, t) && Stands(tx, u, t.kids[index])
    ensures !done ==> tx.view == old(tx.view) && tx.dirtyNodes == old(tx.dirtyNodes)
  {
    if index == |n.childNodes| - 1 {
      return false, u;
    }
    var rightNode := GetKid(tx, n, index + 1, t);
    var s := GetSplitIndex(tx.db.fill, rightNode.items);
    if s == -1 {
      return false, u;
    }
    ghost var was, filed := tx.view, tx.dirtyNodes;
    RotateLeftAt(tx, u, n, rightNode, index, t);
    LeftLocal(t, index, was, filed, u, n, rightNode);
    done, sib := true, rightNode;
  }

  /** The last resort: merge with the left sibling, or the right one into the first child. */
  method MergeSibling(tx: Tx, n: Node, u: Node, index: nat, ghost t: Tree) returns (ghost sib: Node)
    requires Ready(tx, t) && Stands(tx, n, t) && |t.kids| == |t.items| + 1 && t.items != []
    requires index < |t.kids| && Stands(tx, u, t.kids[index])
    modifies tx`dirtyNodes, tx`view, tx`pagesToDelete, n, tx.dirtyNodes.Values
    ensures FiledFrom(old(tx.dirtyNodes), tx.dirtyNodes, {n, u, sib}) && (sib in old(tx.dirtyNodes.Values) || fresh(sib) || sib == u)
    ensures tx.Valid() && tx.InSync({})
    ensures var j := if index == 0 then 1 else index;
      Rebalanced(tx, n, t, Fixed(Merge(t, j), [t.kids[j].page]), old(tx.view), old(tx.dirtyNodes), old(tx.pagesToDelete))
    ensures index != 0 ==> Holds(tx.view, t.kids[index])
  {
    var b, j := u, index;
    if index == 0 {
      b := GetKid(tx, n, index + 1, t);
      j := index + 1;
    }
    ghost var was, filed := tx.view, tx.dirtyNodes;
    var ok, a := MergeAt(tx, n, b, j, t);
    MergeLocal(t, j, was, filed, a, n);
    sib := a;
  }

  /** rebalanceRemove: rotate from the left sibling or the right one, else merge. */
  method RebalanceRemove(tx: Tx, n: Node, u: Node, index: nat, ghost t: Tree, ghost h: nat) returns (ghost sib: Node)
    requires Ready(tx, t) && Stands(tx, n, t) && h > 0 && Shape(t, h) && t.items != []
    requires index < |t.kids| && Stands(tx, u, t.kids[index])
    modifies tx`dirtyNodes, tx`view, tx`pagesToDelete, n, u, tx.dirtyNodes.Values
    ensures FiledFrom(old(tx.dirtyNodes), tx.dirtyNodes, {n, u, sib}) && (sib in old(tx.dirtyNodes.Values) || fresh(sib) || sib == u)
    ensures tx.Valid() && tx.InSync({})
    ensures Rebalanced(tx, n, t, Rebalance(tx.db.fill, t, h, index), old(tx.view), old(tx.dirtyNodes), old(tx.pagesToDelete))
    ensures index != 0 && Rebalance(tx.db.fill, t, h, index).deleted != [] ==> Holds(tx.view, t.kids[index])
  {
    var done;
    done, sib := BorrowLeft(tx, n, u, index, t);
    if done {
      return;
    }
    done, sib := BorrowRight(tx, n, u, index, t);
    if done {
      return;
    }
    sib := MergeSibling(tx, n, u, index, t);
  }
}
