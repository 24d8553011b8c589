/**
 * Put and the fill rules: when a split index exists at every level, that no
 * split leaves an empty node, and that no node outgrows the maximum.
 */
module PutBounds {
  import opened Seqs
  import opened Keys
  import opened Bytes
  import opened Items
  import opened Fill
  import opened Trees
  import opened TreeOps
  import opened Pool
  import opened TreeSearch
  import opened TreePut

  /** The largest element an accepted item can make. */
  function MaxElement(f: Fill): nat {
    var room := f.pageSize - NODE_HEADER_SIZE - PAGE_NUM_SIZE;
    if room < 0 then 0 else if room < MAX_ELEMENT_SIZE then room else MAX_ELEMENT_SIZE
  }

  lemma ElementBound(f: Fill, x: Item)
    requires ValidItem(f, x)
    ensures ElementSize(x) <= MaxElement(f)
  {
    assert [x][..0] == [];
  }

  /** How large the maximum has to be for splits: two elements above the minimum, or room for two elements if any element outgrows that. */
  function SplitGap(f: Fill): int {
    if f.lo < 11.0 then 2 * MaxElement(f) + 11 else f.lo.Floor + 2 * MaxElement(f) + 8
  }

  predicate Roomy(f: Fill) {
    f.pageSize >= META_HEADER_SIZE && f.hi >= SplitGap(f) as real
  }

  lemma LastTwoSizes(s: seq<Item>)
    requires |s| > 1
    ensures SumSize(s) == SumSize(s[..|s| - 2]) + ElementSize(s[|s| - 2]) + ElementSize(s[|s| - 1])
  {
    Prefix(s, |s| - 2, |s| - 1);
  }

  /** A single element outgrows a minimum below 11 bytes. */
  lemma OneElementPast(f: Fill, s: seq<Item>)
    requires f.lo < 11.0 && |s| > 0
    ensures PastMin(f, s, 1)
  {
    assert s[..1][..0] == [];
  }

  /** Two items are not more than two of the largest elements. */
  lemma FewItemsSmall(f: Fill, s: seq<Item>)
    requires ValidItems(f, s) && |s| <= 2
    ensures SumSize(s) <= 2 * MaxElement(f)
  {
    if |s| > 0 {
      ElementBound(f, s[|s| - 1]);
      if |s| > 1 { ElementBound(f, s[0]); }
      assert s[..|s| - 1][..0] == [];
    }
  }

  /** A node over the maximum has more than two items. */
  lemma OverHasThree(f: Fill, s: seq<Item>)
    requires Roomy(f) && ValidItems(f, s) && Over(f, s)
    ensures |s| > 2
  {
    if |s| <= 2 { FewItemsSmall(f, s); }
  }

  /** A node over the maximum has a split index, and both halves get items. */
  lemma SplitLeavesTwo(f: Fill, s: seq<Item>)
    requires Roomy(f) && ValidItems(f, s) && Over(f, s)
    ensures var i := SplitIndex(f, s); 1 <= i < |s| - 1
  {
    var n := |s|;
    OverHasThree(f, s);
    if f.lo < 11.0 {
      OneElementPast(f, s);
    } else {
      ElementBound(f, s[n - 1]);
      ElementBound(f, s[n - 2]);
      LastTwoSizes(s);
      assert NODE_HEADER_SIZE + SumSize(s[..n - 2]) > f.lo.Floor;
      assert PastMin(f, s, n - 2);
    }
  }

  /** The least size of the items that stay in the left half. */
  function LeastLeft(f: Fill): int {
    if f.lo < 11.0 then PAGE_NUM_SIZE else f.lo.Floor - 2
  }

  /** What split leaves on the left is at least this. */
  lemma LeftSize(f: Fill, s: seq<Item>)
    requires SplitIndex(f, s) != -1
    ensures SumSize(s[..SplitIndex(f, s)]) >= LeastLeft(f)
  {
    var i := SplitIndex(f, s);
    Prefix(s, i - 1, i);
  }

  /** The left half fits, whatever is left on the right. */
  lemma LeftFits(f: Fill, s: seq<Item>)
    requires Roomy(f) && ValidItems(f, s) && SplitIndex(f, s) != -1
    ensures !Over(f, s[..SplitIndex(f, s)])
  {
    var i := SplitIndex(f, s);
    ElementBound(f, s[i - 1]);
    Prefix(s, i - 1, i);
    if i > 1 {
      assert !PastMin(f, s, i - 1);
      if f.lo < 11.0 { OneElementPast(f, s); }
    } else {
      assert s[..1][..0] == [];
    }
  }

  /** The right half loses the left one and an item with a key that is not empty. */
  lemma RightSize(f: Fill, s: seq<Item>)
    requires SplitIndex(f, s) != -1 && Sorted(s)
    ensures var i := SplitIndex(f, s); NodeSize(s[i + 1..]) <= NodeSize(s) - LeastLeft(f) - PAGE_NUM_SIZE - 1
  {
    var i := SplitIndex(f, s);
    LeftSize(f, s);
    SumSizeAt(s, i);
    assert Less(s[0].key, s[i].key);
  }

  // ---------------------------------------------------------------- no failure, no empty node

  lemma NodeValid(f: Fill, t: Tree, h: nat)
    requires Shape(t, h) && ValidItems(f, InOrder(t))
    ensures ValidItems(f, t.items)
    ensures forall i :: 0 <= i < |t.kids| ==> ValidItems(f, InOrder(t.kids[i]))
  {
    ItemsAmong(t, h);
    forall i | 0 <= i < |t.items| ensures ValidItem(f, t.items[i]) {
      assert t.items[i] in InOrder(t);
      var j :| 0 <= j < |InOrder(t)| && InOrder(t)[j] == t.items[i];
    }
    forall i, j | 0 <= i < |t.kids| && 0 <= j < |InOrder(t.kids[i])| ensures ValidItem(f, InOrder(t.kids[i])[j]) {
      assert InOrder(t.kids[i])[j] in InOrder(t);
      var n :| 0 <= n < |InOrder(t)| && InOrder(t)[n] == InOrder(t.kids[i])[j];
    }
  }

  lemma SplitKidFull(f: Fill, t: Tree, h: nat, i: nat, p: Pool)
    requires h > 0 && Shape(t, h) && i < |t.kids| && Roomy(f) && ValidItems(f, t.kids[i].items) && Full(t)
    ensures var r := SplitKid(f, t, h, i, p);
      && r.Some? && Full(r.value.0)
      && |r.value.0.items| == |t.items| + if Over(f, t.kids[i].items) then 1 else 0
  {
    var c := t.kids[i];
    if Over(f, c.items) {
      SplitLeavesTwo(f, c.items);
      var s := SplitIndex(f, c.items);
      var n := NextPage(p).0;
      assert Shape(c, h - 1);
      var l, q := LeftHalf(c, s), RightHalf(c, s, n);
      assert Joins(c, l, c.items[s], q) by { CutAt(c.items, s); if h > 1 { CutAt(c.kids, s); } }
      JoinFull(c, l, c.items[s], q);
      TwoForOneFull(t, i, l, c.items[s], q);
    }
  }

  lemma TwoForOneFull(t: Tree, j: nat, a: Tree, x: Item, b: Tree)
    requires j <= |t.items| && j < |t.kids| && Full(t)
    requires a.items != [] && b.items != [] && Full(a) && Full(b)
    ensures Full(TwoForOne(t, j, a, x, b))
  {
    var r := TwoForOne(t, j, a, x, b);
    forall k | 0 <= k < |r.kids| ensures r.kids[k].items != [] && Full(r.kids[k]) {
      assert r.kids[k] == if k < j then t.kids[k] else if k == j then a else if k == j + 1 then b else t.kids[k - 1];
    }
  }

  lemma {:induction false} GrowFull(f: Fill, t: Tree, h: nat, path: Path, p: Pool)
    requires Shape(t, h) && ValidPath(t, path) && Roomy(f) && ValidItems(f, InOrder(t)) && Full(t)
    ensures var r := Grow(f, t, h, path, p); r.Some? && Full(r.value.0) && |r.value.0.items| >= |t.items|
    decreases h
  {
    if path != [] {
      var i := path[0];
      NodeValid(f, t, h);
      GrowFull(f, t.kids[i], h - 1, path[1..], p);
      var (c, q) := Grow(f, t.kids[i], h - 1, path[1..], p).value;
      NewKidFull(f, t, h, i, c, q);
    }
  }

  lemma NewKidFull(f: Fill, t: Tree, h: nat, i: nat, c: Tree, p: Pool)
    requires h > 0 && Shape(t, h) && i < |t.kids| && Roomy(f) && Full(t)
    requires Shape(c, h - 1) && ValidItems(f, InOrder(c)) && Full(c) && |c.items| >= |t.kids[i].items|
    ensures var r := SplitKid(f, t.(kids := t.kids[i := c]), h, i, p); r.Some? && Full(r.value.0) && |r.value.0.items| >= |t.items|
  {
    NodeValid(f, c, h - 1);
    SplitKidFull(f, t.(kids := t.kids[i := c]), h, i, p);
  }

  lemma {:induction false} PlugFull(t: Tree, path: Path, s: Tree)
    requires ValidPath(t, path) && Full(t) && Full(s) && s.items != []
    ensures Full(Plug(t, path, s))
  {
    if path != [] { PlugFull(t.kids[path[0]], path[1..], s); }
  }

  lemma InsertedFull(t: Tree, h: nat, x: Item)
    requires Shape(t, h) && WellFilled(t)
    ensures Full(Inserted(t, h, x)) && Inserted(t, h, x).items != []
  {
    var path := SearchPath(t, h, x.key);
    var n := Sub(t, path);
    SubKeepsFull(t, path);
    PlugFull(t, path, n.(items := Upsert(n.items, x)));
  }

  lemma {:induction false} SubKeepsFull(t: Tree, path: Path)
    requires ValidPath(t, path) && Full(t)
    ensures Full(Sub(t, path))
  {
    if path != [] { SubKeepsFull(t.kids[path[0]], path[1..]); }
  }

  lemma UpsertValid(f: Fill, s: seq<Item>, x: Item)
    requires ValidItems(f, s) && ValidItem(f, x)
    ensures ValidItems(f, Upsert(s, x))
  {
    UpsertElements(s, x);
  }

  lemma GrowRootFull(f: Fill, t: Tree, h: nat, p: Pool)
    requires Shape(t, h) && Roomy(f) && ValidItems(f, InOrder(t)) && Full(t) && t.items != []
    ensures var r := GrowRoot(f, t, h, p); r.Some? && WellFilled(r.value.0)
  {
    NodeValid(f, t, h);
    if Over(f, t.items) {
      var (n, q) := NextPage(p);
      SplitKidFull(f, Tree(n, [], [t]), h + 1, 0, q);
    }
  }

  /** With thresholds two elements apart, Put of an accepted item never fails and leaves no node below the root empty. */
  lemma PutSucceeds(f: Fill, t: Tree, h: nat, x: Item, p: Pool)
    requires Shape(t, h) && Sorted(InOrder(t)) && WellFilled(t) && ValidItems(f, InOrder(t))
    requires ValidItem(f, x) && Roomy(f)
    ensures var r := PutTree(f, t, h, x, p);
      && r.Some?
      && WellFilled(r.value.0)
      && ValidItems(f, InOrder(r.value.0))
  {
    var t0, path := Inserted(t, h, x), SearchPath(t, h, x.key);
    assert ValidItems(f, InOrder(t0)) by {
      InsertedInOrder(t, h, x);
      UpsertValid(f, InOrder(t), x);
    }
    InsertedFull(t, h, x);
    GrowFull(f, t0, h, path, p);
    var (t1, q) := Grow(f, t0, h, path, p).value;
    GrowRootFull(f, t1, h, q);
    GrowRootPreserves(f, t1, h, q);
  }

  // ---------------------------------------------------------------- no node over the maximum

  /** No node of t is over the maximum. */
  ghost predicate Fits(f: Fill, t: Tree) {
    !Over(f, t.items) && forall i :: 0 <= i < |t.kids| ==> Fits(f, t.kids[i])
  }

  /** The node itself may be one element over the maximum; its children fit. */
  ghost predicate NearlyFits(f: Fill, t: Tree) {
    NodeSize(t.items) as real <= f.hi + MaxElement(f) as real && forall i :: 0 <= i < |t.kids| ==> Fits(f, t.kids[i])
  }

  /** All nodes fit, but the one at the end of the path may be one element over. */
  ghost predicate FitsBut(f: Fill, t: Tree, path: Path)
    requires ValidPath(t, path)
  {
    if path == [] then NearlyFits(f, t)
    else
      && !Over(f, t.items)
      && (forall i :: 0 <= i < |t.kids| && i != path[0] ==> Fits(f, t.kids[i]))
      && FitsBut(f, t.kids[path[0]], path[1..])
  }

  lemma InsertSize(s: seq<Item>, i: nat, x: Item)
    requires i <= |s|
    ensures SumSize(s[..i] + [x] + s[i..]) == SumSize(s) + ElementSize(x)
  {
    var r := s[..i] + [x] + s[i..];
    SumSizeAt(r, i);
    assert r[..i] == s[..i] && r[i + 1..] == s[i..];
    SumSizeAppend(s[..i], s[i..]);
    assert s == s[..i] + s[i..];
  }

  lemma UpsertSize(f: Fill, s: seq<Item>, x: Item)
    requires ValidItem(f, x)
    ensures SumSize(Upsert(s, x)) <= SumSize(s) + MaxElement(f)
  {
    var i := Pos(s, x.key);
    ElementBound(f, x);
    if HasAt(s, x.key, i) {
      SumSizeAt(s, i);
      SumSizeAt(s[i := x], i);
      assert s[i := x][..i] == s[..i] && s[i := x][i + 1..] == s[i + 1..];
    } else {
      InsertSize(s, i, x);
    }
  }

  /** What the left half and the middle item take away makes up for the largest element. */
  predicate KeepsFit(f: Fill) {
    MaxElement(f) <= LeastLeft(f) + PAGE_NUM_SIZE + 1
  }

  lemma KidSorted(t: Tree, h: nat, i: nat)
    requires h > 0 && Shape(t, h) && i < |t.kids| && Sorted(InOrder(t))
    ensures Sorted(InOrder(t.kids[i]))
  {
    WeaveAt(t.items, t.kids, i);
    SortedThree(Before(t.items, t.kids, i), InOrder(t.kids[i]), After(t.items, t.kids, i));
  }

  /** Both halves of a node that is at most one element over. */
  lemma HalvesFit(f: Fill, c: Tree, h: nat, n: PageNum)
    requires Shape(c, h) && Roomy(f) && KeepsFit(f) && ValidItems(f, c.items) && Sorted(c.items)
    requires NearlyFits(f, c) && SplitIndex(f, c.items) != -1
    ensures var s := SplitIndex(f, c.items); Fits(f, LeftHalf(c, s)) && Fits(f, RightHalf(c, s, n))
  {
    LeftFits(f, c.items);
    RightSize(f, c.items);
  }

  /** Splitting a child that is at most one element over: all children fit, the node grows by one element. */
  lemma SplitKidFits(f: Fill, t: Tree, h: nat, i: nat, p: Pool)
    requires h > 0 && Shape(t, h) && i < |t.kids| && Roomy(f) && ValidItems(f, t.kids[i].items)
    requires KeepsFit(f) && Sorted(t.kids[i].items)
    requires !Over(f, t.items) && NearlyFits(f, t.kids[i])
    requires forall k :: 0 <= k < |t.kids| && k != i ==> Fits(f, t.kids[k])
    ensures var r := SplitKid(f, t, h, i, p); r.Some? ==> NearlyFits(f, r.value.0)
  {
    var c := t.kids[i];
    if Over(f, c.items) && SplitIndex(f, c.items) != -1 {
      var s := SplitIndex(f, c.items);
      var n := NextPage(p).0;
      assert Shape(c, h - 1);
      var l, q := LeftHalf(c, s), RightHalf(c, s, n);
      HalvesFit(f, c, h - 1, n);
      ElementBound(f, c.items[s]);
      InsertSize(t.items, i, c.items[s]);
      var r := TwoForOne(t, i, l, c.items[s], q);
      forall k | 0 <= k < |r.kids| ensures Fits(f, r.kids[k]) {
        assert r.kids[k] == if k < i then t.kids[k] else if k == i then l else if k == i + 1 then q else t.kids[k - 1];
      }
    }
  }

  lemma GrownKid(f: Fill, t: Tree, h: nat, i: nat, path: Path, p: Pool)
    requires h > 0 && Shape(t, h) && i < |t.kids| && ValidPath(t.kids[i], path) && ValidItems(f, InOrder(t)) && Sorted(InOrder(t))
    ensures var g := Grow(f, t.kids[i], h - 1, path, p); g.Some? ==> ValidItems(f, g.value.0.items) && Sorted(g.value.0.items)
    ensures ValidItems(f, InOrder(t.kids[i])) && Sorted(InOrder(t.kids[i]))
  {
    NodeValid(f, t, h);
    KidSorted(t, h, i);
    var g := Grow(f, t.kids[i], h - 1, path, p);
    if g.Some? {
      NodeValid(f, g.value.0, h - 1);
      NodeSorted(g.value.0, h - 1);
    }
  }

  lemma {:induction false} GrowFits(f: Fill, t: Tree, h: nat, path: Path, p: Pool)
    requires Shape(t, h) && ValidPath(t, path) && Roomy(f) && KeepsFit(f)
    requires ValidItems(f, InOrder(t)) && Sorted(InOrder(t)) && FitsBut(f, t, path)
    ensures var r := Grow(f, t, h, path, p); r.Some? ==> NearlyFits(f, r.value.0)
    decreases h
  {
    if path != [] {
      var i := path[0];
      GrownKid(f, t, h, i, path[1..], p);
      GrowFits(f, t.kids[i], h - 1, path[1..], p);
      var g := Grow(f, t.kids[i], h - 1, path[1..], p);
      if g.Some? {
        SplitKidFits(f, t.(kids := t.kids[i := g.value.0]), h, i, g.value.1);
      }
    }
  }

  lemma {:induction false} FitsPlug(f: Fill, t: Tree, path: Path, s: Tree)
    requires ValidPath(t, path) && Fits(f, t) && NearlyFits(f, s)
    ensures ValidPath(Plug(t, path, s), path) && FitsBut(f, Plug(t, path, s), path)
  {
    if path != [] { FitsPlug(f, t.kids[path[0]], path[1..], s); }
  }

  lemma {:induction false} SubFits(f: Fill, t: Tree, path: Path)
    requires ValidPath(t, path) && Fits(f, t)
    ensures Fits(f, Sub(t, path))
  {
    if path != [] { SubFits(f, t.kids[path[0]], path[1..]); }
  }

  /** A new root holds one item, which fits. */
  lemma GrowRootFits(f: Fill, t: Tree, h: nat, p: Pool)
    requires Shape(t, h) && Roomy(f) && KeepsFit(f)
    requires ValidItems(f, InOrder(t)) && Sorted(InOrder(t)) && NearlyFits(f, t)
    ensures var r := GrowRoot(f, t, h, p); r.Some? ==> Fits(f, r.value.0)
  {
    NodeValid(f, t, h);
    NodeSorted(t, h);
    var s := SplitIndex(f, t.items);
    if Over(f, t.items) && s != -1 {
      var (n, q) := NextPage(p);
      var root := Tree(n, [], [t]);
      SplitKidFits(f, root, h + 1, 0, q);
      ElementBound(f, t.items[s]);
      InsertSize([], 0, t.items[s]);
    }
  }

  /** If no node was over the maximum before a put, none is afterwards: one split per level is enough. FillExact: exactly if KeepsFit. */
  lemma PutFits(f: Fill, t: Tree, h: nat, x: Item, p: Pool)
    requires Shape(t, h) && Sorted(InOrder(t)) && Fits(f, t) && ValidItems(f, InOrder(t)) && ValidItem(f, x)
    requires Roomy(f) && KeepsFit(f)
    ensures var r := PutTree(f, t, h, x, p); r.Some? ==> Fits(f, r.value.0)
  {
    var path := SearchPath(t, h, x.key);
    var n := Sub(t, path);
    var t0 := Inserted(t, h, x);
    assert FitsBut(f, t0, path) by {
      SubFits(f, t, path);
      UpsertSize(f, n.items, x);
      FitsPlug(f, t, path, n.(items := Upsert(n.items, x)));
    }
    assert ValidItems(f, InOrder(t0)) && Sorted(InOrder(t0)) by {
      InsertedInOrder(t, h, x);
      UpsertValid(f, InOrder(t), x);
      UpsertSorted(InOrder(t), x);
    }
    GrowFits(f, t0, h, path, p);
    var g := Grow(f, t0, h, path, p);
    if g.Some? { GrowRootFits(f, g.value.0, h, g.value.1); }
  }
}
