/**
 * Remove on trees (collection.go, node.go): take the item out, then rotate or
 * merge upwards along the path, then drop a root that has run empty.
 *
 * Two expressions of the code differ from what its comments intend, so every
 * function here takes a Mode: AsWritten follows the expressions, AsDocumented
 * the comments.
 *  - Descent to the predecessor (node.go:418): as written, every step takes the
 *    child at the index of the last child of the node that holds the item; as
 *    documented (node.go:411), the last child of the node being visited.
 *  - Root collapse (collection.go:189): as written, the new root is the first
 *    node below the root on the path, even if it was just merged into its
 *    sibling; as documented, it is the child that is left.
 */
module TreeRemove {
  import opened Seqs
  import opened Maybe
  import opened Keys
  import opened Items
  import opened Fill
  import opened Trees
  import opened TreeOps
  import opened TreeSearch

  datatype Mode = AsWritten | AsDocumented

  datatype Fixed = Fixed(tree: Tree, deleted: seq<PageNum>)

  function Count(pages: seq<PageNum>, p: PageNum): nat {
    multiset(pages)[p]
  }

  // ---------------------------------------------------------------- rebalancing

  /** rebalanceRemove: rotate from a sibling that can spare an item, left one first; else merge. */
  function Rebalance(f: Fill, t: Tree, h: nat, i: nat): Fixed
    requires h > 0 && Shape(t, h) && i < |t.kids| && t.items != []
  {
    if i != 0 && CanSpare(f, t.kids[i - 1].items) then Fixed(RotateRight(t, i), [])
    else if i != |t.kids| - 1 && CanSpare(f, t.kids[i + 1].items) then Fixed(RotateLeft(t, i), [])
    else var j := if i == 0 then 1 else i;
      Fixed(Merge(t, j), [t.kids[j].page])
  }

  /** Nodes off the path have items, and so have those on it with the possible exception of the last. */
  ghost predicate NearFull(t: Tree, path: Path)
    requires ValidPath(t, path)
  {
    if path == [] then Full(t)
    else
      && t.items != []
      && (forall j :: 0 <= j < |t.kids| && j != path[0] ==> t.kids[j].items != [] && Full(t.kids[j]))
      && NearFull(t.kids[path[0]], path[1..])
  }

  /** The upward loop of Remove: every underpopulated node below the root on the path is rebalanced. */
  function Fix(f: Fill, t: Tree, h: nat, path: Path): (r: Fixed)
    requires Shape(t, h) && ValidPath(t, path) && NearFull(t, path)
    ensures Shape(r.tree, h) && InOrder(r.tree) == InOrder(t) && r.tree.page == t.page
    ensures path == [] ==> r.tree == t
    decreases h
  {
    if path == [] then Fixed(t, [])
    else
      var i := path[0];
      var c := Fix(f, t.kids[i], h - 1, path[1..]);
      var t1 := t.(kids := t.kids[i := c.tree]);
      WeaveReplace(t.items, t.kids, i, c.tree);
      WeaveAt(t.items, t.kids, i);
      if !Under(f, c.tree.items) then Fixed(t1, c.deleted)
      else
        var r := Rebalance(f, t1, h, i);
        RebalancePreserves(f, t1, h, i);
        Fixed(r.tree, c.deleted + r.deleted)
  }

  /** Rebalancing leaves the in-order sequence and the height, and loses only the page it reports. */
  lemma RebalancePreserves(f: Fill, t: Tree, h: nat, i: nat)
    requires h > 0 && Shape(t, h) && i < |t.kids| && t.items != []
    ensures var r := Rebalance(f, t, h, i);
      && Shape(r.tree, h) && InOrder(r.tree) == InOrder(t) && r.tree.page == t.page
      && forall p :: Uses(t, p) == Uses(r.tree, p) + Count(r.deleted, p)
  {
    if i != 0 && CanSpare(f, t.kids[i - 1].items) { RotateRightPreserves(t, h, i); }
    else if i != |t.kids| - 1 && CanSpare(f, t.kids[i + 1].items) { RotateLeftPreserves(t, h, i); }
    else { MergePreserves(t, h, if i == 0 then 1 else i); }
  }

  lemma {:induction false} FixPages(f: Fill, t: Tree, h: nat, path: Path)
    requires Shape(t, h) && ValidPath(t, path) && NearFull(t, path)
    ensures var r := Fix(f, t, h, path); forall p :: Uses(t, p) == Uses(r.tree, p) + Count(r.deleted, p)
    decreases h
  {
    if path != [] {
      var i := path[0];
      var c := Fix(f, t.kids[i], h - 1, path[1..]);
      var t1 := t.(kids := t.kids[i := c.tree]);
      FixPages(f, t.kids[i], h - 1, path[1..]);
      forall p ensures Uses(t, p) == Uses(t1, p) + Count(c.deleted, p) { UsesOfReplace(t.kids, i, c.tree, p); }
      RebalancePreserves(f, t1, h, i);
    }
  }

  lemma TwoForTwoFull(t: Tree, j: nat, a: Tree, x: Item, b: Tree)
    requires j < |t.items| && j + 1 < |t.kids|
    requires forall k :: 0 <= k < |t.kids| && k != j && k != j + 1 ==> t.kids[k].items != [] && Full(t.kids[k])
    requires a.items != [] && b.items != [] && Full(a) && Full(b)
    ensures Full(TwoForTwo(t, j, a, x, b))
  {
  }

  lemma OneForTwoFull(t: Tree, j: nat, c: Tree)
    requires j < |t.items| && j + 1 < |t.kids|
    requires forall k :: 0 <= k < |t.kids| && k != j && k != j + 1 ==> t.kids[k].items != [] && Full(t.kids[k])
    requires c.items != [] && Full(c)
    ensures Full(OneForTwo(t, j, c))
  {
    var r := OneForTwo(t, j, c);
    forall k | 0 <= k < |r.kids| ensures r.kids[k].items != [] && Full(r.kids[k]) {
      assert r.kids[k] == if k < j then t.kids[k] else if k == j then c else t.kids[k + 1];
    }
  }

  /** Children other than those at j and j+1 have items; so have all nodes below any child. */
  ghost predicate FullBut(t: Tree, j: nat) {
    forall k :: 0 <= k < |t.kids| ==> Full(t.kids[k]) && (k != j && k != j + 1 ==> t.kids[k].items != [])
  }

  lemma RotateRightFull(t: Tree, h: nat, j: nat)
    requires h > 0 && Shape(t, h) && j + 1 < |t.kids| && |t.kids[j].items| > 1 && FullBut(t, j)
    ensures Full(RotateRight(t, j + 1))
  {
    var a, b, x := t.kids[j], t.kids[j + 1], t.items[j];
    var y, e := a.items[|a.items| - 1], Tree(a.page, [], LastKid(a));
    var b' := Tree(b.page, [x] + b.items, LastKid(a) + b.kids);
    LastParts(a, h - 1);
    JoinFull(a, WithoutLast(a), y, e);
    JoinFull(b', e, x, b);
    TwoForTwoFull(t, j, WithoutLast(a), y, b');
  }

  lemma RotateLeftFull(t: Tree, h: nat, j: nat)
    requires h > 0 && Shape(t, h) && j + 1 < |t.kids| && |t.kids[j + 1].items| > 1 && FullBut(t, j)
    ensures Full(RotateLeft(t, j))
  {
    var a, b, x := t.kids[j], t.kids[j + 1], t.items[j];
    var y, e := b.items[0], Tree(b.page, [], FirstKid(b));
    var a' := Tree(a.page, a.items + [x], a.kids + FirstKid(b));
    FirstParts(b, h - 1);
    JoinFull(b, e, y, WithoutFirst(b));
    JoinFull(a', a, x, e);
    TwoForTwoFull(t, j, a', y, WithoutFirst(b));
  }

  lemma MergeFull(t: Tree, h: nat, j: nat)
    requires h > 0 && Shape(t, h) && j + 1 < |t.kids| && FullBut(t, j)
    ensures Full(Merge(t, j + 1))
  {
    var a, b, x := t.kids[j], t.kids[j + 1], t.items[j];
    var c := Tree(a.page, a.items + [x] + b.items, if a.kids == [] then a.kids else a.kids + b.kids);
    assert Shape(a, h - 1) && Shape(b, h - 1);
    JoinFull(c, a, x, b);
    OneForTwoFull(t, j, c);
  }

  /** Every child of a rebalanced node has items, if all but child i had. */
  lemma RebalanceFull(f: Fill, t: Tree, h: nat, i: nat)
    requires h > 0 && Shape(t, h) && i < |t.kids| && t.items != []
    requires forall j :: 0 <= j < |t.kids| ==> Full(t.kids[j]) && (j != i ==> t.kids[j].items != [])
    ensures Full(Rebalance(f, t, h, i).tree)
  {
    if i != 0 && CanSpare(f, t.kids[i - 1].items) { RotateRightFull(t, h, i - 1); }
    else if i != |t.kids| - 1 && CanSpare(f, t.kids[i + 1].items) { RotateLeftFull(t, h, i); }
    else { MergeFull(t, h, if i == 0 then 0 else i - 1); }
  }

  /** A node that is not underpopulated has an item, unless the minimum is below an empty node's size. */
  lemma NotUnder(f: Fill, s: seq<Item>)
    requires f.lo > 11.0 && !Under(f, s)
    ensures s != []
  {
  }

  /** Rebalancing along the path gives every node below the root an item again. */
  lemma {:induction false} FixFull(f: Fill, t: Tree, h: nat, path: Path)
    requires Shape(t, h) && ValidPath(t, path) && NearFull(t, path) && f.lo > 11.0
    ensures Full(Fix(f, t, h, path).tree)
    decreases h
  {
    if path != [] {
      var i := path[0];
      FixFull(f, t.kids[i], h - 1, path[1..]);
      var c := Fix(f, t.kids[i], h - 1, path[1..]);
      var t1 := t.(kids := t.kids[i := c.tree]);
      if Under(f, c.tree.items) { RebalanceFull(f, t1, h, i); } else { NotUnder(f, c.tree.items); }
    }
  }

  lemma {:induction false} NearFullPlug(t: Tree, path: Path, s: Tree, rest: Path)
    requires ValidPath(t, path) && Full(t) && (path != [] ==> t.items != [])
    requires ValidPath(s, rest) && NearFull(s, rest)
    ensures ValidPath(Plug(t, path, s), path + rest) && NearFull(Plug(t, path, s), path + rest)
  {
    if path == [] {
      Ends(rest);
    } else {
      AppendTail(path, rest);
      NearFullPlug(t.kids[path[0]], path[1..], s, rest);
    }
  }

  // ---------------------------------------------------------------- taking the item out

  /** Which child the descent to the predecessor takes at node a, the item being in a node with width children. */
  function DescentIndex(mode: Mode, width: nat, a: Tree): int {
    match mode
    case AsWritten => width - 1
    case AsDocumented => |a.kids| - 1
  }

  /** The descent of removeItemFromInternal to a leaf; None where it indexes past the children. */
  function Descend(mode: Mode, width: nat, a: Tree, h: nat): (r: Option<Path>)
    requires Shape(a, h) && width > 0
    ensures r.Some? ==> ValidPath(a, r.value) && Sub(a, r.value).kids == []
    decreases h
  {
    if a.kids == [] then Some([])
    else
      var i := DescentIndex(mode, width, a);
      if i >= |a.kids| then None
      else
        match Descend(mode, width, a.kids[i], h - 1)
        case None => None
        case Some(d) => Some([i] + d)
  }

  /** n with item i taken out: from a leaf directly, else replaced by the last item of the leaf at d. */
  function TakenOut(n: Tree, i: nat, d: Path): Tree
    requires i < |n.items|
    requires n.kids != [] ==> i < |n.kids| && ValidPath(n.kids[i], d) && Sub(n.kids[i], d).items != []
  {
    if n.kids == [] then n.(items := n.items[..i] + n.items[i + 1..])
    else
      var leaf := Sub(n.kids[i], d);
      n.(items := n.items[i := leaf.items[|leaf.items| - 1]], kids := n.kids[i := Plug(n.kids[i], d, WithoutLast(leaf))])
  }

  lemma {:induction false} SubNonEmpty(t: Tree, path: Path)
    requires ValidPath(t, path) && Full(t) && (path == [] ==> t.items != [])
    ensures Sub(t, path).items != [] && Full(Sub(t, path))
  {
    if path != [] && path[1..] != [] { SubNonEmpty(t.kids[path[0]], path[1..]); }
  }

  lemma {:induction false} SubFull(t: Tree, path: Path)
    requires ValidPath(t, path) && Full(t)
    ensures Full(Sub(t, path))
  {
    if path != [] { SubFull(t.kids[path[0]], path[1..]); }
  }

  /** The tree before rebalancing, and the path that is to be rebalanced. */
  function Removal(mode: Mode, t: Tree, h: nat, k: Key): (r: Option<(Tree, Path)>)
    requires Shape(t, h) && WellFilled(t) && Has(Sub(t, SearchPath(t, h, k)).items, k)
    ensures r.Some? ==> ValidPath(r.value.0, r.value.1) && NearFull(r.value.0, r.value.1) && Shape(r.value.0, h)
    ensures r.Some? ==> Sub(r.value.0, r.value.1).kids == []
  {
    var path := SearchPath(t, h, k);
    var n := Sub(t, path);
    var i := Pos(n.items, k);
    PathLength(t, h, path);
    SubFull(t, path);
    if n.kids == [] then
      NearFullPlug(t, path, TakenOut(n, i, []), []);
      Ends(path);
      PlugSub(t, path, TakenOut(n, i, []));
      PlugShape(t, h, path, TakenOut(n, i, []));
      Some((Plug(t, path, TakenOut(n, i, [])), path))
    else
      match Descend(mode, |n.kids|, n.kids[i], h - |path| - 1)
      case None => None
      case Some(d) =>
        SubNonEmpty(n.kids[i], d);
        TakenOutShape(n, h - |path|, i, d);
        NearFullPlug(t, path, TakenOut(n, i, d), [i] + d);
        PlugShape(t, h, path, TakenOut(n, i, d));
        PlugSub(t, path, TakenOut(n, i, d));
        SubAppend(Plug(t, path, TakenOut(n, i, d)), path, [i] + d);
        Some((Plug(t, path, TakenOut(n, i, d)), path + ([i] + d)))
  }

  lemma {:induction false} SubAppend(t: Tree, path: Path, rest: Path)
    requires ValidPath(t, path) && ValidPath(Sub(t, path), rest)
    ensures ValidPath(t, path + rest) && Sub(t, path + rest) == Sub(Sub(t, path), rest)
  {
    if path == [] {
      Ends(rest);
    } else {
      AppendTail(path, rest);
      SubAppend(t.kids[path[0]], path[1..], rest);
    }
  }

  lemma TakenOutShape(n: Tree, h: nat, i: nat, d: Path)
    requires h > 0 && Shape(n, h) && i < |n.items| && Full(n)
    requires ValidPath(n.kids[i], d) && Sub(n.kids[i], d).kids == [] && Sub(n.kids[i], d).items != []
    ensures var r := TakenOut(n, i, d);
      && Shape(r, h)
      && ValidPath(r, [i] + d) && NearFull(r, [i] + d) && Sub(r, [i] + d).kids == []
  {
    var c := n.kids[i];
    var leaf := Sub(c, d);
    PathLength(c, h - 1, d);
    PlugShape(c, h - 1, d, WithoutLast(leaf));
    PlugSub(c, d, WithoutLast(leaf));
    NearFullPlug(c, d, WithoutLast(leaf), []);
    assert d + [] == d;
    assert ([i] + d)[1..] == d;
  }

  // ---------------------------------------------------------------- Remove

  datatype Removed = Removed(tree: Tree, deleted: seq<PageNum>)

  /** The root after rebalancing: an internal root without items is dropped. */
  function Collapsed(mode: Mode, f: Fill, t: Tree, h: nat, path: Path): Tree
    requires Shape(t, h) && ValidPath(t, path) && NearFull(t, path) && Sub(t, path).kids == []
  {
    var r := Fix(f, t, h, path).tree;
    if r.items == [] && r.kids != [] then
      if mode == AsWritten && path[0] == 1 then Fix(f, t.kids[1], h - 1, path[1..]).tree
      else r.kids[0]
    else r
  }

  /** Collection.Remove: the new tree and the pages given up; None where the code indexes out of range. */
  function RemoveTree(mode: Mode, f: Fill, t: Tree, h: nat, k: Key): Option<Removed>
    requires Shape(t, h) && WellFilled(t)
  {
    if !Has(Sub(t, SearchPath(t, h, k)).items, k) then Some(Removed(t, []))
    else
      match Removal(mode, t, h, k)
      case None => None
      case Some(tp) => Some(Removed(Collapsed(mode, f, tp.0, h, tp.1), Fix(f, tp.0, h, tp.1).deleted))
  }
}
