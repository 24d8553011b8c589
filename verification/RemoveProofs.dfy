/** Remove denotes map deletion: always as documented, and as written exactly under a condition on the tree. */
module RemoveProofs {
  import opened Maybe
  import opened Keys
  import opened Items
  import opened Fill
  import opened Trees
  import opened TreeOps
  import opened TreeSearch
  import opened TreeRemove

  // ---------------------------------------------------------------- what is taken out

  /** The leaf at d is the last one of a: nothing of a lies to its right. */
  ghost predicate AtEnd(a: Tree, d: Path)
    requires ValidPath(a, d)
  {
    Right(a, d) == []
  }

  lemma SwapEnd(l: seq<Item>, leaf: seq<Item>, r: seq<Item>)
    requires leaf != [] && Sorted(l + leaf + r)
    ensures (l + leaf[..|leaf| - 1] + r) + [leaf[|leaf| - 1]] == l + leaf + r <==> r == []
  {
    var n := |leaf| - 1;
    var x, y := (l + leaf[..n] + r) + [leaf[n]], l + leaf + r;
    if r == [] {
      assert x == y;
    } else {
      assert x[|l| + n] == r[0] && y[|l| + n] == leaf[n] && y[|l| + n + 1] == r[0];
      LessIrreflexive(r[0].key);
    }
  }

  lemma MiddleEqual<T>(a: seq<T>, x: seq<T>, y: seq<T>, c: seq<T>)
    ensures a + x + c == a + y + c <==> x == y
    ensures |a + x + c| == |a + y + c| <==> |x| == |y|
  {
    if a + x + c == a + y + c {
      assert |x| == |y|;
      assert x == (a + x + c)[|a|..|a| + |x|];
      assert y == (a + y + c)[|a|..|a| + |y|];
    }
  }

  lemma Regroup3<T>(a: seq<T>, m: seq<T>, x: T, c: seq<T>)
    ensures (a + m) + [x] + c == a + (m + [x]) + c
    ensures (a + m) + c == a + m + c
  {
  }

  /** The in-order sequence of a node around the left child of item i, and with that child and item changed. */
  lemma AroundItem(n: Tree, h: nat, i: nat, c: Tree, x: Item)
    requires h > 0 && Shape(n, h) && i < |n.items| && Shape(c, h - 1)
    ensures var r := n.(items := n.items[i := x], kids := n.kids[i := c]);
      && Shape(r, h)
      && InOrder(r) == Before(n.items, n.kids, i) + (InOrder(c) + [x]) + Weave(n.items[i + 1..], n.kids[i + 1..])
  {
    var r := n.(items := n.items[i := x], kids := n.kids[i := c]);
    ItemInOrder(r, h, i);
    WeaveUpTo(r.items, r.kids, i);
    assert r.items[..i] == n.items[..i] && r.kids[..i] == n.kids[..i];
    assert r.items[i + 1..] == n.items[i + 1..] && r.kids[i + 1..] == n.kids[i + 1..];
    assert Before(r.items, r.kids, i) == Before(n.items, n.kids, i) by {
      if i > 0 { assert r.items[..i - 1] == n.items[..i - 1]; }
    }
    Regroup3(Before(n.items, n.kids, i), InOrder(c), x, Weave(n.items[i + 1..], n.kids[i + 1..]));
  }

  /** An internal node without its item i: only the item leaves the sequence. */
  lemma WithoutItem(n: Tree, h: nat, i: nat)
    requires h > 0 && Shape(n, h) && i < |n.items| && Sorted(InOrder(n))
    ensures Delete(InOrder(n), n.items[i].key)
      == Before(n.items, n.kids, i) + InOrder(n.kids[i]) + Weave(n.items[i + 1..], n.kids[i + 1..])
    ensures Sorted(InOrder(n.kids[i]))
    ensures |Delete(InOrder(n), n.items[i].key)| == |InOrder(n)| - 1
  {
    var b, m, c := Before(n.items, n.kids, i), InOrder(n.kids[i]), Weave(n.items[i + 1..], n.kids[i + 1..]);
    ItemInOrder(n, h, i);
    WeaveUpTo(n.items, n.kids, i);
    FoundSplits(n, h, i);
    DeleteOne(b + m, n.items[i], c);
    SortedThree(b + m, [n.items[i]], c);
    SortedParts(b, m);
  }

  /** Taking item i out, with the last item of the leaf at d in its place, deletes the item exactly if that leaf is the last. */
  lemma TakenOutInOrder(n: Tree, h: nat, i: nat, d: Path)
    requires h > 0 && Shape(n, h) && i < |n.items| && Sorted(InOrder(n))
    requires ValidPath(n.kids[i], d) && Sub(n.kids[i], d).kids == [] && Sub(n.kids[i], d).items != []
    ensures Shape(TakenOut(n, i, d), h)
    ensures InOrder(TakenOut(n, i, d)) == Delete(InOrder(n), n.items[i].key) <==> AtEnd(n.kids[i], d)
    ensures |InOrder(TakenOut(n, i, d))| == |InOrder(n)| - 1
  {
    var a, leaf := n.kids[i], Sub(n.kids[i], d);
    var last := leaf.items[|leaf.items| - 1];
    var a' := Plug(a, d, WithoutLast(leaf));
    var b, c := Before(n.items, n.kids, i), Weave(n.items[i + 1..], n.kids[i + 1..]);
    PathLength(a, h - 1, d);
    PlugShape(a, h - 1, d, WithoutLast(leaf));
    AroundItem(n, h, i, a', last);
    WithoutItem(n, h, i);
    SubInOrder(a, h - 1, d);
    PlugInOrder(a, h - 1, d, WithoutLast(leaf));
    SwapEnd(Left(a, d), leaf.items, Right(a, d));
    MiddleEqual(b, InOrder(a') + [last], InOrder(a), c);
  }

  lemma DeleteOne(a: seq<Item>, x: Item, c: seq<Item>)
    requires AllBelow(a, x.key) && AllAbove(x.key, c)
    ensures Delete(a + [x] + c, x.key) == a + c
  {
    LessIrreflexive(x.key);
    assert Pos([x], x.key) == 0 && Delete([x], x.key) == [];
    DeleteInContext(a, [x], c, x.key);
  }

  lemma DeleteAtPath(t: Tree, h: nat, path: Path, n: Tree, k: Key)
    requires Shape(t, h) && ValidPath(t, path)
    requires AllBelow(Left(t, path), k) && AllAbove(k, Right(t, path))
    ensures InOrder(Plug(t, path, n)) == Delete(InOrder(t), k) <==> InOrder(n) == Delete(InOrder(Sub(t, path)), k)
    ensures |InOrder(Plug(t, path, n))| == |InOrder(t)| - 1 <==> |InOrder(n)| == |InOrder(Sub(t, path))| - 1
  {
    SubInOrder(t, h, path);
    PlugInOrder(t, h, path, n);
    DeleteInContext(Left(t, path), InOrder(Sub(t, path)), Right(t, path), k);
    MiddleEqual(Left(t, path), InOrder(n), Delete(InOrder(Sub(t, path)), k), Right(t, path));
  }

  // ---------------------------------------------------------------- the descent

  /** Every internal node on the way to the last leaf of a has width children. */
  ghost predicate SpineMatches(width: nat, a: Tree, h: nat)
    requires Shape(a, h)
    decreases h
  {
    a.kids == [] || (|a.kids| == width && SpineMatches(width, a.kids[|a.kids| - 1], h - 1))
  }

  /** As documented, the descent always reaches the last leaf. */
  lemma {:induction false} DocumentedDescent(width: nat, a: Tree, h: nat)
    requires Shape(a, h) && width > 0
    ensures var d := Descend(AsDocumented, width, a, h); d.Some? && AtEnd(a, d.value)
    decreases h
  {
    if a.kids != [] {
      DocumentedDescent(width, a.kids[|a.kids| - 1], h - 1);
      assert Descend(AsDocumented, width, a, h).value[1..] == Descend(AsDocumented, width, a.kids[|a.kids| - 1], h - 1).value;
    }
  }

  /** As written, it does exactly if the spine has width children throughout. */
  lemma {:induction false} WrittenDescent(width: nat, a: Tree, h: nat)
    requires Shape(a, h) && width > 0
    ensures var d := Descend(AsWritten, width, a, h); (d.Some? && AtEnd(a, d.value)) <==> SpineMatches(width, a, h)
    decreases h
  {
    if a.kids != [] && width <= |a.kids| {
      var i := width - 1;
      WrittenDescent(width, a.kids[i], h - 1);
      var d := Descend(AsWritten, width, a.kids[i], h - 1);
      if d.Some? {
        assert Descend(AsWritten, width, a, h).value[1..] == d.value;
        assert Right(a, [i] + d.value) == Right(a.kids[i], d.value) + After(a.items, a.kids, i);
      }
    }
  }

  // ---------------------------------------------------------------- Removal

  /** The condition under which the descent of the code finds the predecessor. */
  ghost predicate DescentRight(mode: Mode, t: Tree, h: nat, k: Key)
    requires Shape(t, h)
  {
    var path := SearchPath(t, h, k);
    var n := Sub(t, path);
    PathLength(t, h, path);
    mode == AsWritten && Has(n.items, k) && n.kids != []
    ==> SpineMatches(|n.kids|, n.kids[Pos(n.items, k)], h - |path| - 1)
  }

  /** What Removal takes out is the key, exactly if the descent is right; it always takes one item out. */
  lemma RemovalInOrder(mode: Mode, t: Tree, h: nat, k: Key)
    requires Shape(t, h) && WellFilled(t) && Sorted(InOrder(t)) && Has(Sub(t, SearchPath(t, h, k)).items, k)
    ensures var r := Removal(mode, t, h, k);
      && (DescentRight(mode, t, h, k) <==> r.Some? && InOrder(r.value.0) == Delete(InOrder(t), k))
      && (r.Some? ==> |InOrder(r.value.0)| == |InOrder(t)| - 1)
  {
    var path := SearchPath(t, h, k);
    var n := Sub(t, path);
    var i := Pos(n.items, k);
    SearchSplits(t, h, k);
    PathLength(t, h, path);
    SubFull(t, path);
    if n.kids == [] {
      DeleteAtPath(t, h, path, TakenOut(n, i, []), k);
    } else {
      DescentFinds(mode, |n.kids|, n.kids[i], h - |path| - 1);
      var d := Descend(mode, |n.kids|, n.kids[i], h - |path| - 1);
      if d.Some? {
        SubNonEmpty(n.kids[i], d.value);
        ReplacedInOrder(t, h, path, i, d.value, k);
      }
    }
  }

  /** The item of key k in the internal node at the path, replaced by the last item of the leaf at d. */
  lemma ReplacedInOrder(t: Tree, h: nat, path: Path, i: nat, d: Path, k: Key)
    requires Shape(t, h) && ValidPath(t, path) && |path| < h && Shape(Sub(t, path), h - |path|)
    requires AllBelow(Left(t, path), k) && AllAbove(k, Right(t, path)) && Sorted(InOrder(Sub(t, path)))
    requires var n := Sub(t, path); HasAt(n.items, k, i) && ValidPath(n.kids[i], d) && Sub(n.kids[i], d).kids == [] && Sub(n.kids[i], d).items != []
    ensures var n := Sub(t, path); var r := Plug(t, path, TakenOut(n, i, d));
      && (InOrder(r) == Delete(InOrder(t), k) <==> AtEnd(n.kids[i], d))
      && |InOrder(r)| == |InOrder(t)| - 1
  {
    TakenOutInOrder(Sub(t, path), h - |path|, i, d);
    DeleteAtPath(t, h, path, TakenOut(Sub(t, path), i, d), k);
  }

  lemma DescentFinds(mode: Mode, width: nat, a: Tree, h: nat)
    requires Shape(a, h) && width > 0
    ensures var d := Descend(mode, width, a, h);
      (d.Some? && AtEnd(a, d.value)) <==> (mode == AsWritten ==> SpineMatches(width, a, h))
  {
    DocumentedDescent(width, a, h);
    WrittenDescent(width, a, h);
  }

  lemma TakenOutUses(n: Tree, i: nat, d: Path, p: PageNum)
    requires i < |n.items|
    requires n.kids != [] ==> i < |n.kids| && ValidPath(n.kids[i], d) && Sub(n.kids[i], d).items != [] && Sub(n.kids[i], d).kids == []
    ensures Uses(TakenOut(n, i, d), p) == Uses(n, p) && TakenOut(n, i, d).page == n.page
  {
    if n.kids != [] {
      var leaf := Sub(n.kids[i], d);
      PlugUses(n.kids[i], d, WithoutLast(leaf), p);
      UsesOfReplace(n.kids, i, Plug(n.kids[i], d, WithoutLast(leaf)), p);
    }
  }

  /** Taking the item out moves no page. */
  lemma RemovalUses(mode: Mode, t: Tree, h: nat, k: Key, p: PageNum)
    requires Shape(t, h) && WellFilled(t) && Has(Sub(t, SearchPath(t, h, k)).items, k)
    ensures var r := Removal(mode, t, h, k); r.Some? ==> Uses(r.value.0, p) == Uses(t, p) && r.value.0.page == t.page
  {
    var path := SearchPath(t, h, k);
    var n := Sub(t, path);
    var i := Pos(n.items, k);
    PathLength(t, h, path);
    SubFull(t, path);
    var d := if n.kids == [] then Some([]) else Descend(mode, |n.kids|, n.kids[i], h - |path| - 1);
    if d.Some? {
      if n.kids != [] { SubNonEmpty(n.kids[i], d.value); }
      TakenOutUses(n, i, d.value, p);
      PlugUses(t, path, TakenOut(n, i, d.value), p);
      PlugPage(t, path, TakenOut(n, i, d.value));
    }
  }

  // ---------------------------------------------------------------- Remove

  /** The root runs empty, and what is left of the tree is not where the code looks for it. */
  ghost predicate DropsLeftChild(mode: Mode, f: Fill, t: Tree, h: nat, k: Key)
    requires Shape(t, h) && WellFilled(t)
  {
    mode == AsWritten && Has(Sub(t, SearchPath(t, h, k)).items, k) &&
    match Removal(mode, t, h, k)
    case None => false
    case Some(tp) =>
      var (t1, path) := tp;
      && path != [] && path[0] == 1
      && |t1.items| == 1
      && !CanSpare(f, t1.kids[0].items)
      && Under(f, Fix(f, t1.kids[1], h - 1, path[1..]).tree.items)
  }

  /** The path that is rebalanced goes through the same child of the root as the search, if the search leaves the root. */
  lemma RemovalKeepsRoot(mode: Mode, t: Tree, h: nat, k: Key)
    requires Shape(t, h) && WellFilled(t) && Has(Sub(t, SearchPath(t, h, k)).items, k)
    requires SearchPath(t, h, k) != [] && Removal(mode, t, h, k).Some?
    ensures var (t1, path) := Removal(mode, t, h, k).value; var i := SearchPath(t, h, k)[0];
      && path != [] && path[0] == i && t1.items == t.items && |t1.kids| == |t.kids|
      && forall j :: 0 <= j < |t.kids| && j != i ==> t1.kids[j] == t.kids[j]
  {
  }

  /** What a caller can check before: without all of this, the root is not dropped wrongly. */
  lemma DropsLeftChildNeeds(mode: Mode, f: Fill, t: Tree, h: nat, k: Key)
    requires Shape(t, h) && WellFilled(t) && DropsLeftChild(mode, f, t, h, k)
    ensures mode == AsWritten && |t.items| == 1 && |t.kids| == 2 && !CanSpare(f, t.kids[0].items)
    ensures SearchPath(t, h, k) != [] && SearchPath(t, h, k)[0] == 1
  {
    var path := SearchPath(t, h, k);
    if path == [] {
      RemovalAtRoot(mode, t, h, k);
    } else {
      RemovalKeepsRoot(mode, t, h, k);
    }
  }

  /** An item of the root is replaced from the child to its left. */
  lemma RemovalAtRoot(mode: Mode, t: Tree, h: nat, k: Key)
    requires Shape(t, h) && WellFilled(t) && SearchPath(t, h, k) == [] && Has(t.items, k) && Removal(mode, t, h, k).Some?
    ensures var (t1, path) := Removal(mode, t, h, k).value;
      |t1.items| == |t.items| - (if t.kids == [] then 1 else 0) && (path != [] ==> path[0] == Pos(t.items, k) < |t.items|)
  {
  }

  /** Over leaves, that and the leaf running low is also enough. */
  lemma DropsLeftChildOverLeaves(f: Fill, t: Tree, k: Key)
    requires Shape(t, 1) && WellFilled(t)
    ensures DropsLeftChild(AsWritten, f, t, 1, k) <==>
      && |t.items| == 1 && Less(t.items[0].key, k) && Has(t.kids[1].items, k)
      && !CanSpare(f, t.kids[0].items) && Under(f, Delete(t.kids[1].items, k))
  {
    var path := SearchPath(t, 1, k);
    if DropsLeftChild(AsWritten, f, t, 1, k) {
      DropsLeftChildNeeds(AsWritten, f, t, 1, k);
    }
    if |t.items| == 1 && !HasAt(t.items, k, Pos(t.items, k)) && Pos(t.items, k) == 1 {
      assert Shape(t.kids[1], 0);
      assert path == [1] && Sub(t, path) == t.kids[1];
      if Has(t.kids[1].items, k) { LeafTakenOut(f, t, k); }
    }
  }

  lemma LeafTakenOut(f: Fill, t: Tree, k: Key)
    requires Shape(t, 1) && WellFilled(t) && |t.items| == 1 && SearchPath(t, 1, k) == [1] && Has(t.kids[1].items, k)
    ensures Removal(AsWritten, t, 1, k).Some?
    ensures var (t1, path) := Removal(AsWritten, t, 1, k).value;
      && path == [1] && |t1.items| == 1 && |t1.kids| == 2 && t1.kids[0] == t.kids[0]
      && t1.kids[1].items == Delete(t.kids[1].items, k) && Fix(f, t1.kids[1], 0, []).tree == t1.kids[1]
  {
    var b := t.kids[1];
    assert Shape(b, 0) && b.kids == [];
    assert Sub(t, [1]) == Sub(b, []) == b;
    var b' := TakenOut(b, Pos(b.items, k), []);
    assert Plug(t, [1], b') == t.(kids := t.kids[1 := Plug(b, [], b')]);
  }

  /** The root is dropped, and its page with it. */
  ghost predicate DropsRoot(mode: Mode, f: Fill, t: Tree, h: nat, k: Key)
    requires Shape(t, h) && WellFilled(t)
  {
    Has(Sub(t, SearchPath(t, h, k)).items, k) &&
    match Removal(mode, t, h, k)
    case None => false
    case Some(tp) => var r := Fix(f, tp.0, h, tp.1).tree; r.items == [] && r.kids != []
  }

  ghost function RemoveHeight(mode: Mode, f: Fill, t: Tree, h: nat, k: Key): nat
    requires Shape(t, h) && WellFilled(t)
  {
    if DropsRoot(mode, f, t, h, k) && h > 0 then h - 1 else h
  }

  /** A root left without items kept a single child, at index 0; the path went to child 0 or 1. */
  lemma EmptiedRoot(f: Fill, t: Tree, h: nat, path: Path)
    requires Shape(t, h) && ValidPath(t, path) && NearFull(t, path) && Sub(t, path).kids == []
    requires var r := Fix(f, t, h, path).tree; r.items == [] && r.kids != []
    ensures var r := Fix(f, t, h, path).tree;
      && h > 0 && |r.kids| == 1 && InOrder(r) == InOrder(r.kids[0])
      && path != [] && path[0] <= 1 && |t.items| == 1
      && (path[0] == 1 ==> !CanSpare(f, t.kids[0].items) && Under(f, Fix(f, t.kids[1], h - 1, path[1..]).tree.items))
      && (path[0] == 1 ==> r == Merge(t.(kids := t.kids[1 := Fix(f, t.kids[1], h - 1, path[1..]).tree]), 1))
  {
  }

  lemma EmptiesRoot(f: Fill, t: Tree, h: nat, path: Path)
    requires Shape(t, h) && ValidPath(t, path) && NearFull(t, path) && path != [] && path[0] == 1
    requires |t.items| == 1 && !CanSpare(f, t.kids[0].items) && Under(f, Fix(f, t.kids[1], h - 1, path[1..]).tree.items)
    ensures var r := Fix(f, t, h, path).tree; r.items == [] && r.kids != []
  {
  }

  /** After the root is dropped as documented, the tree has the same items one level lower. */
  lemma CollapseKeeps(mode: Mode, f: Fill, t: Tree, h: nat, path: Path)
    requires Shape(t, h) && ValidPath(t, path) && NearFull(t, path) && Sub(t, path).kids == []
    requires var r := Fix(f, t, h, path).tree; mode == AsWritten && r.items == [] && r.kids != [] ==> path[0] != 1
    ensures var r, c := Fix(f, t, h, path).tree, Collapsed(mode, f, t, h, path);
      && InOrder(c) == InOrder(t)
      && (f.lo > 11.0 ==> WellFilled(c))
      && (if r.items == [] && r.kids != [] then h > 0 && Shape(c, h - 1) else Shape(c, h))
      && forall p :: Uses(r, p) == Uses(c, p) + if r.items == [] && r.kids != [] && p == t.page then 1 else 0
  {
    var r, c := Fix(f, t, h, path).tree, Collapsed(mode, f, t, h, path);
    if f.lo > 11.0 { FixFull(f, t, h, path); }
    if r.items == [] && r.kids != [] {
      EmptiedRoot(f, t, h, path);
      forall p ensures Uses(r, p) == Uses(c, p) + if p == t.page then 1 else 0 {
        assert r.kids == [c];
        UsesOfOne(c, p);
      }
    }
  }

  /** Written so, dropping the root at index 1 loses at least the item that joined the two children. */
  lemma CollapseLoses(f: Fill, t: Tree, h: nat, path: Path)
    requires Shape(t, h) && ValidPath(t, path) && NearFull(t, path) && Sub(t, path).kids == []
    requires var r := Fix(f, t, h, path).tree; r.items == [] && r.kids != [] && path[0] == 1
    ensures |InOrder(Collapsed(AsWritten, f, t, h, path))| < |InOrder(t)|
  {
    EmptiedRoot(f, t, h, path);
    var c := Fix(f, t.kids[1], h - 1, path[1..]).tree;
    assert InOrder(c) == InOrder(t.kids[1]);
    SecondChildShorter(t, h);
  }

  lemma SecondChildShorter(t: Tree, h: nat)
    requires h > 0 && Shape(t, h) && t.items != []
    ensures |InOrder(t.kids[1])| < |InOrder(t)|
  {
    WeaveAt(t.items, t.kids, 1);
    assert |Before(t.items, t.kids, 1)| > 0;
  }

  /** Collapsing after a removal that took out the key. */
  lemma RemovedThenCollapsed(mode: Mode, f: Fill, t: Tree, h: nat, k: Key)
    requires Shape(t, h) && WellFilled(t) && Has(Sub(t, SearchPath(t, h, k)).items, k)
    requires Removal(mode, t, h, k).Some? && !DropsLeftChild(mode, f, t, h, k)
    ensures var (t1, path) := Removal(mode, t, h, k).value; var c := Collapsed(mode, f, t1, h, path);
      && InOrder(c) == InOrder(t1)
      && (f.lo > 11.0 ==> WellFilled(c))
      && Shape(c, RemoveHeight(mode, f, t, h, k))
      && forall p :: Uses(Fix(f, t1, h, path).tree, p) == Uses(c, p) + if DropsRoot(mode, f, t, h, k) && p == t1.page then 1 else 0
  {
    var (t1, path) := Removal(mode, t, h, k).value;
    var r := Fix(f, t1, h, path).tree;
    if r.items == [] && r.kids != [] { EmptiedRoot(f, t1, h, path); }
    CollapseKeeps(mode, f, t1, h, path);
  }

  /** Remove as documented is map deletion on trees of any height, and never indexes out of range. */
  lemma RemoveRefines(f: Fill, t: Tree, h: nat, k: Key)
    requires Shape(t, h) && WellFilled(t) && Sorted(InOrder(t))
    ensures var r := RemoveTree(AsDocumented, f, t, h, k);
      && r.Some?
      && InOrder(r.value.tree) == Delete(InOrder(t), k)
      && Sorted(InOrder(r.value.tree))
      && ToMap(InOrder(r.value.tree)) == ToMap(InOrder(t)) - {k}
      && Shape(r.value.tree, RemoveHeight(AsDocumented, f, t, h, k))
      && (f.lo > 11.0 ==> WellFilled(r.value.tree))
  {
    DeleteIsRemoval(InOrder(t), k);
    RemoveGuarded(AsDocumented, f, t, h, k);
  }

  /** In either mode, Remove deletes the key if the descent is right and the surviving root is picked. */
  lemma RemoveGuarded(mode: Mode, f: Fill, t: Tree, h: nat, k: Key)
    requires Shape(t, h) && WellFilled(t) && Sorted(InOrder(t))
    requires DescentRight(mode, t, h, k) && !DropsLeftChild(mode, f, t, h, k)
    ensures var r := RemoveTree(mode, f, t, h, k);
      && r.Some?
      && InOrder(r.value.tree) == Delete(InOrder(t), k)
      && Shape(r.value.tree, RemoveHeight(mode, f, t, h, k))
      && (f.lo > 11.0 ==> WellFilled(r.value.tree))
  {
    SearchFinds(t, h, k);
    if Has(InOrder(t), k) {
      RemovalInOrder(mode, t, h, k);
      RemovedThenCollapsed(mode, f, t, h, k);
    }
  }

  /**
   * Remove as written deletes the key if and only if every internal node on the
   * way to the predecessor has as many children as the node losing the item, and
   * the root does not run empty by a merge into its left child.
   */
  lemma RemoveAsWritten(f: Fill, t: Tree, h: nat, k: Key)
    requires Shape(t, h) && WellFilled(t) && Sorted(InOrder(t))
    ensures var r := RemoveTree(AsWritten, f, t, h, k);
      (r.Some? && InOrder(r.value.tree) == Delete(InOrder(t), k))
      <==> DescentRight(AsWritten, t, h, k) && !DropsLeftChild(AsWritten, f, t, h, k)
  {
    var guard := DescentRight(AsWritten, t, h, k) && !DropsLeftChild(AsWritten, f, t, h, k);
    SearchFinds(t, h, k);
    if guard {
      RemoveGuarded(AsWritten, f, t, h, k);
    } else {
      RemovalInOrder(AsWritten, t, h, k);
      var rm := Removal(AsWritten, t, h, k);
      if rm.Some? {
        var (t1, path) := rm.value;
        var r := Fix(f, t1, h, path).tree;
        if DropsLeftChild(AsWritten, f, t, h, k) {
          EmptiesRoot(f, t1, h, path);
          CollapseLoses(f, t1, h, path);
        } else {
          RemovedThenCollapsed(AsWritten, f, t, h, k);
        }
      }
    }
  }

  /** r has the pages of t but those reported as deleted and, if the root was dropped, the page of t. */
  ghost predicate GivesUp(t: Tree, r: Removed, dropped: bool) {
    forall p :: Uses(t, p) == Uses(r.tree, p) + Count(r.deleted, p) + if dropped && p == t.page then 1 else 0
  }

  /** Remove gives up exactly the pages it reports and, when the root is dropped, the page of the old root. */
  lemma RemovePages(mode: Mode, f: Fill, t: Tree, h: nat, k: Key)
    requires Shape(t, h) && WellFilled(t)
    requires !DropsLeftChild(mode, f, t, h, k)
    ensures var r := RemoveTree(mode, f, t, h, k);
      r.Some? ==> GivesUp(t, r.value, DropsRoot(mode, f, t, h, k))
  {
    if Has(Sub(t, SearchPath(t, h, k)).items, k) && Removal(mode, t, h, k).Some? {
      var (t1, path) := Removal(mode, t, h, k).value;
      RemovedThenCollapsed(mode, f, t, h, k);
      FixPages(f, t1, h, path);
      forall p ensures Uses(t1, p) == Uses(t, p) && t1.page == t.page { RemovalUses(mode, t, h, k, p); }
    }
  }

  // ---------------------------------------------------------------- when no node runs empty

  /** Wherever Remove deletes the key, it leaves no node below the root empty. */
  ghost predicate KeepsFilled(mode: Mode, f: Fill) {
    forall t, h, k :: Removes(mode, f, t, h, k) ==> WellFilled(RemoveTree(mode, f, t, h, k).value.tree)
  }

  /** Remove deletes k from t. */
  ghost predicate Removes(mode: Mode, f: Fill, t: Tree, h: nat, k: Key) {
    && Shape(t, h) && WellFilled(t) && Sorted(InOrder(t))
    && DescentRight(mode, t, h, k) && !DropsLeftChild(mode, f, t, h, k) && RemoveTree(mode, f, t, h, k).Some?
  }
}
