/**
 * What Remove as written does where it is not deletion (collection.go,
 * node.go): the path of its descent in closed form, exactly when it indexes out
 * of range, and the in-order sequence it leaves in every other case.
 */
module RemoveOutcome {
  import opened Seqs
  import opened Maybe
  import opened Keys
  import opened Items
  import opened Fill
  import opened Trees
  import opened TreeOps
  import opened TreeSearch
  import opened TreeRemove
  import opened RemoveProofs

  /** The last of width children at each of n levels. */
  function Straight(width: nat, n: nat): (path: Path)
    requires width > 0
    ensures |path| == n && forall j :: 0 <= j < n ==> path[j] == width - 1
  {
    seq(n, _ => width - 1)
  }

  lemma StraightStep(width: nat, n: nat)
    requires width > 0
    ensures Straight(width, n + 1) == [width - 1] + Straight(width, n) && Straight(width, n + 1)[1..] == Straight(width, n)
    ensures Straight(width, 0) == []
  {
  }

  /** That path comes to an internal node with fewer children. */
  ghost predicate RunsOut(width: nat, a: Tree) {
    exists n: nat :: RunsOutAt(width, a, n)
  }

  ghost predicate RunsOutAt(width: nat, a: Tree, n: nat) {
    width > 0 && ValidPath(a, Straight(width, n)) && 0 < |Sub(a, Straight(width, n)).kids| < width
  }

  lemma RunsOutStep(width: nat, a: Tree, h: nat)
    requires Shape(a, h) && a.kids != [] && 0 < width <= |a.kids|
    ensures RunsOut(width, a) <==> RunsOut(width, a.kids[width - 1])
  {
    if RunsOut(width, a) {
      var n: nat :| RunsOutAt(width, a, n);
      StraightStep(width, if n == 0 then 0 else n - 1);
      assert n > 0;
      assert RunsOutAt(width, a.kids[width - 1], n - 1);
    }
    if RunsOut(width, a.kids[width - 1]) {
      var n: nat :| RunsOutAt(width, a.kids[width - 1], n);
      StraightStep(width, n);
      assert RunsOutAt(width, a, n + 1);
    }
  }

  /** The descent as written takes child width - 1 at every level down to the leaves, and indexes out of range exactly if that path runs out of children. */
  lemma {:induction false} WrittenPath(width: nat, a: Tree, h: nat)
    requires Shape(a, h) && width > 0
    ensures Descend(AsWritten, width, a, h) == if RunsOut(width, a) then None else Some(Straight(width, h))
    decreases h
  {
    StraightStep(width, if h == 0 then 0 else h - 1);
    if a.kids == [] {
      LeafHasAll(width, a);
    } else if width <= |a.kids| {
      RunsOutStep(width, a, h);
      WrittenPath(width, a.kids[width - 1], h - 1);
    } else {
      assert RunsOutAt(width, a, 0);
    }
  }

  lemma LeafHasAll(width: nat, a: Tree)
    requires a.kids == [] && width > 0
    ensures !RunsOut(width, a)
  {
    forall n ensures !RunsOutAt(width, a, n) { }
  }

  /** As documented the descent takes the last child of each node it visits, and never indexes out of range. */
  lemma {:induction false} DocumentedPath(width: nat, a: Tree, h: nat)
    requires Shape(a, h) && width > 0
    ensures var d := Descend(AsDocumented, width, a, h);
      d.Some? && |d.value| == h && forall j :: 0 <= j < h ==> ValidPath(a, d.value[..j]) && d.value[j] == |Sub(a, d.value[..j]).kids| - 1
    decreases h
  {
    if a.kids != [] {
      var i := |a.kids| - 1;
      DocumentedPath(width, a.kids[i], h - 1);
      var e := Descend(AsDocumented, width, a.kids[i], h - 1).value;
      var d := Descend(AsDocumented, width, a, h).value;
      assert d == [i] + e && d[..0] == [];
      forall j | 0 < j < h ensures ValidPath(a, d[..j]) && d[j] == |Sub(a, d[..j]).kids| - 1 {
        assert d[..j][0] == i && d[..j][1..] == e[..j - 1] && d[j] == e[j - 1];
      }
    }
  }

  // ---------------------------------------------------------------- when Remove indexes out of range

  /** The key is in an internal node, and the descent from the child before it runs out of children. */
  ghost predicate IndexesPast(mode: Mode, t: Tree, h: nat, k: Key)
    requires Shape(t, h)
  {
    var n := Sub(t, SearchPath(t, h, k));
    && mode == AsWritten && Has(n.items, k) && n.kids != []
    && Pos(n.items, k) < |n.kids| && RunsOut(|n.kids|, n.kids[Pos(n.items, k)])
  }

  lemma RemoveFailsExact(mode: Mode, f: Fill, t: Tree, h: nat, k: Key)
    requires Shape(t, h) && WellFilled(t)
    ensures RemoveTree(mode, f, t, h, k).None? <==> IndexesPast(mode, t, h, k)
  {
    if Has(Sub(t, SearchPath(t, h, k)).items, k) { RemovalFails(mode, t, h, k); }
  }

  lemma RemovalFails(mode: Mode, t: Tree, h: nat, k: Key)
    requires Shape(t, h) && WellFilled(t) && Has(Sub(t, SearchPath(t, h, k)).items, k)
    ensures Removal(mode, t, h, k).None? <==> IndexesPast(mode, t, h, k)
  {
    var path := SearchPath(t, h, k);
    var n := Sub(t, path);
    PathLength(t, h, path);
    if n.kids != [] { DescentExact(mode, n, h - |path|, Pos(n.items, k)); }
  }

  lemma DescentExact(mode: Mode, n: Tree, h: nat, i: nat)
    requires h > 0 && Shape(n, h) && i < |n.kids|
    ensures var d := Descend(mode, |n.kids|, n.kids[i], h - 1);
      && (d.None? <==> mode == AsWritten && RunsOut(|n.kids|, n.kids[i]))
      && (d.Some? && mode == AsWritten ==> d.value == Straight(|n.kids|, h - 1))
  {
    WrittenPath(|n.kids|, n.kids[i], h - 1);
    DocumentedPath(|n.kids|, n.kids[i], h - 1);
  }

  // ---------------------------------------------------------------- what Remove leaves

  /** An item found in an internal node, the node and where it is. */
  ghost predicate FoundInside(t: Tree, h: nat, k: Key)
    requires Shape(t, h)
  {
    var n := Sub(t, SearchPath(t, h, k)); Has(n.items, k) && n.kids != []
  }

  /** s is before, then last, passed, the item of key k, and after. */
  ghost predicate Around(s: seq<Item>, before: seq<Item>, last: Item, passed: seq<Item>, k: Key, after: seq<Item>) {
    exists x: Item :: x.key == k && s == before + [last] + passed + [x] + after
  }

  /**
   * The item of an internal node is replaced by the last item of the leaf that
   * child width - 1 at every level leads to: in the sequence that item moves to
   * its place, over all items between, which are those to the right of the leaf.
   */
  lemma TakenOutMoves(n: Tree, h: nat, i: nat, d: Path) returns (before: seq<Item>, passed: seq<Item>, after: seq<Item>)
    requires h > 0 && Shape(n, h) && i < |n.items|
    requires ValidPath(n.kids[i], d) && Sub(n.kids[i], d).kids == [] && Sub(n.kids[i], d).items != []
    ensures var leaf := Sub(n.kids[i], d); var last := leaf.items[|leaf.items| - 1];
      && InOrder(n) == before + [last] + passed + [n.items[i]] + after
      && InOrder(TakenOut(n, i, d)) == before + passed + [last] + after
    ensures passed == Right(n.kids[i], d)
  {
    var a, leaf := n.kids[i], Sub(n.kids[i], d);
    var m := |leaf.items| - 1;
    var last, b, c := leaf.items[m], Before(n.items, n.kids, i), Weave(n.items[i + 1..], n.kids[i + 1..]);
    before, passed, after := b + (Left(a, d) + leaf.items[..m]), Right(a, d), c;
    PathLength(a, h - 1, d);
    PlugShape(a, h - 1, d, WithoutLast(leaf));
    AroundItem(n, h, i, a, n.items[i]);
    AroundItem(n, h, i, Plug(a, d, WithoutLast(leaf)), last);
    SubInOrder(a, h - 1, d);
    PlugInOrder(a, h - 1, d, WithoutLast(leaf));
    assert n.(items := n.items[i := n.items[i]], kids := n.kids[i := a]) == n;
    MovedOver(b, Left(a, d), leaf.items, passed, n.items[i], c);
  }

  lemma MovedOver(b: seq<Item>, l: seq<Item>, leaf: seq<Item>, r: seq<Item>, x: Item, c: seq<Item>)
    requires leaf != []
    ensures var m := |leaf| - 1; var p := b + (l + leaf[..m]);
      && b + ((l + leaf + r) + [x]) + c == p + [leaf[m]] + r + [x] + c
      && b + ((l + leaf[..m] + r) + [leaf[m]]) + c == p + r + [leaf[m]] + c
  {
    var m := |leaf| - 1;
    assert leaf == leaf[..m] + [leaf[m]];
  }

  /** last is the last item of the leaf that the descent as written comes to, and passed are the items right of that leaf in the child before the key. */
  ghost predicate Moves(t: Tree, h: nat, k: Key, before: seq<Item>, last: Item, passed: seq<Item>, after: seq<Item>)
    requires Shape(t, h)
  {
    var n, hc := Sub(t, SearchPath(t, h, k)), h - |SearchPath(t, h, k)| - 1;
    && Around(InOrder(t), before, last, passed, k, after)
    && hc >= 0 && Pos(n.items, k) < |n.kids| && ValidPath(n.kids[Pos(n.items, k)], Straight(|n.kids|, hc))
    && var kid, d := n.kids[Pos(n.items, k)], Straight(|n.kids|, hc);
      Sub(kid, d).items != [] && last == Sub(kid, d).items[|Sub(kid, d).items| - 1] && passed == Right(kid, d)
  }

  /** Seen from the whole tree: what the written Remove takes out, before the root is looked at. */
  lemma RemovalMoves(t: Tree, h: nat, k: Key) returns (before: seq<Item>, last: Item, passed: seq<Item>, after: seq<Item>)
    requires Shape(t, h) && WellFilled(t) && FoundInside(t, h, k) && !IndexesPast(AsWritten, t, h, k)
    ensures Moves(t, h, k, before, last, passed, after)
    ensures var r := Removal(AsWritten, t, h, k); r.Some? && InOrder(r.value.0) == before + passed + [last] + after
  {
    var path := SearchPath(t, h, k);
    var n, i := Sub(t, path), Pos(Sub(t, path).items, k);
    PathLength(t, h, path);
    SubFull(t, path);
    WrittenPath(|n.kids|, n.kids[i], h - |path| - 1);
    var d := Straight(|n.kids|, h - |path| - 1);
    SubNonEmpty(n.kids[i], d);
    var b, c;
    b, passed, c := TakenOutMoves(n, h - |path|, i, d);
    last := Sub(n.kids[i], d).items[|Sub(n.kids[i], d).items| - 1];
    before, after := Left(t, path) + b, c + Right(t, path);
    SubInOrder(t, h, path);
    PlugInOrder(t, h, path, TakenOut(n, i, d));
    Outside(Left(t, path), b, last, passed, n.items[i], c, Right(t, path));
  }

  lemma Outside(l: seq<Item>, b: seq<Item>, y: Item, q: seq<Item>, x: Item, c: seq<Item>, r: seq<Item>)
    ensures l + (b + [y] + q + [x] + c) + r == (l + b) + [y] + q + [x] + (c + r)
    ensures l + (b + q + [y] + c) + r == (l + b) + q + [y] + (c + r)
  {
  }

  /** What is left of the sequence s if the root is dropped for the wrong child: only what follows its item. */
  ghost function Surviving(f: Fill, t: Tree, h: nat, k: Key, s: seq<Item>): seq<Item>
    requires Shape(t, h) && WellFilled(t)
  {
    if DropsLeftChild(AsWritten, f, t, h, k) && |t.kids| > 0 && |InOrder(t.kids[0])| < |s| then s[|InOrder(t.kids[0])| + 1..] else s
  }

  /** The sequence after the root has been looked at. */
  lemma CollapsedLeaves(f: Fill, t: Tree, h: nat, k: Key)
    requires Shape(t, h) && WellFilled(t) && Has(Sub(t, SearchPath(t, h, k)).items, k) && Removal(AsWritten, t, h, k).Some?
    ensures var r := RemoveTree(AsWritten, f, t, h, k);
      r.Some? && InOrder(r.value.tree) == Surviving(f, t, h, k, InOrder(Removal(AsWritten, t, h, k).value.0))
  {
    var (t1, path) := Removal(AsWritten, t, h, k).value;
    if DropsLeftChild(AsWritten, f, t, h, k) {
      DropsLeftChildNeeds(AsWritten, f, t, h, k);
      RemovalKeepsRoot(AsWritten, t, h, k);
      EmptiesRoot(f, t1, h, path);
      SecondChild(t1, h);
      assert t1.kids[0] == t.kids[0];
    } else {
      RemovedThenCollapsed(AsWritten, f, t, h, k);
    }
  }

  lemma SecondChild(t: Tree, h: nat)
    requires h > 0 && Shape(t, h) && |t.items| == 1
    ensures |InOrder(t.kids[0])| < |InOrder(t)| && InOrder(t.kids[1]) == InOrder(t)[|InOrder(t.kids[0])| + 1..]
  {
    WeaveTwoKids(t, h);
    AppendDrop(InOrder(t.kids[0]) + [t.items[0]], InOrder(t.kids[1]));
  }

  lemma WeaveTwoKids(t: Tree, h: nat)
    requires h > 0 && Shape(t, h) && |t.items| == 1
    ensures InOrder(t) == InOrder(t.kids[0]) + [t.items[0]] + InOrder(t.kids[1])
  {
    ItemInOrder(t, h, 0);
    assert t.items[1..] == [] && t.kids[1..] == [t.kids[1]];
    assert t.items[..0] == [] && t.kids[..1] == [t.kids[0]];
  }

  /**
   * All that Remove as written can do. A key that is not there: nothing. A key
   * in a leaf: deletion. A key in an internal node: an index panic if the
   * descent runs out of children, else the item at its end moves to the place
   * of the key. And if the root is dropped for the wrong child, all items up to
   * that of the root are lost.
   */
  lemma WrittenOutcome(f: Fill, t: Tree, h: nat, k: Key)
    requires Shape(t, h) && WellFilled(t) && Sorted(InOrder(t))
    ensures var r, s := RemoveTree(AsWritten, f, t, h, k), InOrder(t);
      && (!Has(s, k) ==> r == Some(Removed(t, [])))
      && (Has(s, k) && !FoundInside(t, h, k) ==> r.Some? && InOrder(r.value.tree) == Surviving(f, t, h, k, Delete(s, k)))
      && (FoundInside(t, h, k) ==>
        if IndexesPast(AsWritten, t, h, k) then r.None?
        else r.Some? && exists before, last, passed, after ::
          && Moves(t, h, k, before, last, passed, after)
          && InOrder(r.value.tree) == Surviving(f, t, h, k, before + passed + [last] + after))
  {
    SearchFinds(t, h, k);
    RemoveFailsExact(AsWritten, f, t, h, k);
    if FoundInside(t, h, k) {
      if !IndexesPast(AsWritten, t, h, k) {
        var before, last, passed, after := RemovalMoves(t, h, k);
        CollapsedLeaves(f, t, h, k);
      }
    } else if Has(InOrder(t), k) {
      RemovalInOrder(AsWritten, t, h, k);
      CollapsedLeaves(f, t, h, k);
    }
  }
}
