/** Exactly when the fill rules keep their promises, over all node contents. */
module FillExact {
  import opened Seqs
  import opened Keys
  import opened Bytes
  import opened Items
  import opened Fill
  import opened Trees
  import opened Maybe
  import opened Pool
  import opened TreePut
  import opened TreeRemove
  import opened PutBounds
  import opened TreeSearch

  // ---------------------------------------------------------------- sorted contents of any size

  /** Options that validate accepts, for pages whose offsets fit 16 bits. */
  predicate Accepted(f: Fill) {
    0.0 < f.lo < f.hi <= f.pageSize as real && META_HEADER_SIZE <= f.pageSize <= MAX_PAGE_SIZE
  }

  /** The page holds the largest element that the length fields allow. */
  predicate Large(f: Fill) {
    MaxElement(f) == MAX_ELEMENT_SIZE
  }

  /** A key of n bytes; keys of a higher index are larger. */
  function KeyOf(i: nat, n: nat): (k: Key)
    requires i < 0x1_0000 && (i > 0 ==> n >= 2)
    ensures |k| == n
  {
    if i == 0 then Blank(n) else [(i / 256) as Byte, (i % 256) as Byte] + Blank(n - 2)
  }

  /** The smallest element with a key of this index. */
  function Least(i: nat): nat {
    if i == 0 then PAGE_NUM_SIZE else PAGE_NUM_SIZE + 2
  }

  /** An item of this index whose element has this size. */
  function Sized(i: nat, size: nat): (x: Item)
    requires i < 0x1_0000 && Least(i) <= size <= MAX_ELEMENT_SIZE
    ensures ElementSize(x) == size && |x.key| <= MAX_FIELD_SIZE && |x.value| <= MAX_FIELD_SIZE
    ensures (i > 0 ==> |x.key| >= 2) && x.key == KeyOf(i, |x.key|)
  {
    var n := size - PAGE_NUM_SIZE;
    if n <= MAX_FIELD_SIZE then Item(KeyOf(i, n), []) else Item(KeyOf(i, MAX_FIELD_SIZE), Blank(n - MAX_FIELD_SIZE))
  }

  /** The keys of s are those of the indices from start on. */
  ghost predicate Indexed(s: seq<Item>, start: nat) {
    && start + |s| <= 0x1_0000
    && forall j :: 0 <= j < |s| ==> (start + j > 0 ==> |s[j].key| >= 2) && s[j].key == KeyOf(start + j, |s[j].key|)
  }

  lemma KeysIncrease(i: nat, m: nat, j: nat, n: nat)
    requires i < j < 0x1_0000 && n >= 2 && (i > 0 ==> m >= 2)
    ensures Less(KeyOf(i, m), KeyOf(j, n))
  {
    var a, b := KeyOf(i, m), KeyOf(j, n);
    assert b[0] as nat == j / 256 && b[1] as nat == j % 256;
    if m >= 1 { assert a[0] as nat == i / 256; }
    if m >= 2 {
      assert a[1] as nat == i % 256;
      assert a[1..][0] == a[1] && b[1..][0] == b[1];
    }
    if m >= 1 && a[0] == b[0] { assert m == 1 || a[1] < b[1]; }
  }

  lemma IndexedSorted(s: seq<Item>, start: nat)
    requires Indexed(s, start)
    ensures Sorted(s)
  {
    forall i, j | 0 <= i < j < |s| ensures Less(s[i].key, s[j].key) {
      KeysIncrease(start + i, |s[i].key|, start + j, |s[j].key|);
    }
  }

  lemma IndexedJoin(a: seq<Item>, start: nat, b: seq<Item>)
    requires Indexed(a, start) && Indexed(b, start + |a|)
    ensures Indexed(a + b, start)
  {
    forall j | 0 <= j < |a + b| ensures (start + j > 0 ==> |(a + b)[j].key| >= 2) && (a + b)[j].key == KeyOf(start + j, |(a + b)[j].key|) {
      if j >= |a| { assert (a + b)[j] == b[j - |a|]; }
    }
  }

  lemma SizedValid(f: Fill, i: nat, size: nat)
    requires Accepted(f) && i < 0x1_0000 && Least(i) <= size <= MaxElement(f)
    ensures ValidItem(f, Sized(i, size)) && SumSize([Sized(i, size)]) == size && Indexed([Sized(i, size)], i)
  {
    var x := Sized(i, size);
    assert [x][..0] == [];
    assert SumSize([x]) == ElementSize(x);
  }

  lemma Joined(f: Fill, a: seq<Item>, start: nat, x: Item)
    requires ValidItems(f, a) && Indexed(a, start) && ValidItem(f, x) && Indexed([x], start + |a|)
    ensures ValidItems(f, a + [x]) && Indexed(a + [x], start) && SumSize(a + [x]) == SumSize(a) + ElementSize(x)
  {
    JoinedSize(a, x);
    IndexedJoin(a, start, [x]);
  }

  lemma JoinedSize(a: seq<Item>, x: Item)
    ensures SumSize(a + [x]) == SumSize(a) + ElementSize(x)
  {
    AppendDrop(a, [x]);
  }

  /** The last element of items of this size; what is left is nothing or again large enough. */
  function LastSize(start: nat, size: nat): (r: nat)
    requires size >= Least(start)
    ensures Least(start) <= r <= MAX_ELEMENT_SIZE && (size == r || (size >= r + Least(start) && r >= 509))
  {
    if size <= MAX_ELEMENT_SIZE then size
    else if size >= MAX_ELEMENT_SIZE + Least(start) then MAX_ELEMENT_SIZE
    else size - Least(start)
  }

  /** Sorted items that together have this size. */
  lemma {:induction false} Filler(f: Fill, start: nat, size: nat) returns (s: seq<Item>)
    requires Accepted(f) && Large(f) && start <= 0x1000 && (size == 0 || size >= Least(start)) && size <= MAX_PAGE_SIZE
    ensures SumSize(s) == size && ValidItems(f, s) && Indexed(s, start) && 509 * |s| <= size + 509
    decreases size
  {
    s := [];
    if size > 0 {
      var last := LastSize(start, size);
      var p := Filler(f, start, size - last);
      SizedValid(f, start + |p|, last);
      Joined(f, p, start, Sized(start + |p|, last));
      s := p + [Sized(start + |p|, last)];
    }
  }

  // ---------------------------------------------------------------- splitting

  /** s is empty or within the maximum, and putting x makes it outgrow the maximum. */
  ghost predicate Outgrows(f: Fill, s: seq<Item>, x: Item) {
    Sorted(s) && ValidItems(f, s) && ValidItem(f, x) && (s == [] || !Over(f, s)) && Over(f, Upsert(s, x))
  }

  /** Whenever an item put into a node makes it outgrow the maximum, split leaves both halves with items. */
  ghost predicate SplitsWell(f: Fill) {
    forall s, x :: Outgrows(f, s, x) ==> SplitsInTwo(f, Upsert(s, x))
  }

  predicate SplitsInTwo(f: Fill, s: seq<Item>) {
    1 <= SplitIndex(f, s) < |s| - 1
  }

  /** PastMin of a prefix, by its size. */
  lemma PastMinSize(f: Fill, s: seq<Item>, i: nat)
    requires i <= |s|
    ensures PastMin(f, s, i) <==> NODE_HEADER_SIZE + SumSize(s[..i]) > f.lo.Floor
  {
  }

  lemma {:induction false} PrefixSmaller(s: seq<Item>, i: nat)
    requires i <= |s|
    ensures SumSize(s[..i]) <= SumSize(s)
    decreases |s|
  {
    if i < |s| {
      var n := |s| - 1;
      PrefixSmaller(s[..n], i);
      Prefix(s, i, n);
    } else {
      Ends(s);
    }
  }

  /** An item of the highest index goes to the end. */
  lemma UpsertLast(s: seq<Item>, x: Item)
    requires Indexed(s + [x], 0)
    ensures Upsert(s, x) == s + [x]
  {
    var r := s + [x];
    IndexedSorted(r, 0);
    forall j | 0 <= j < |s| ensures Less(s[j].key, x.key) { assert r[j] == s[j] && r[|s|] == x; }
    PosUnique(s, x.key, |s|);
    Ends(s);
  }

  lemma OverSize(f: Fill, s: seq<Item>)
    ensures Over(f, s) <==> NodeSize(s) > f.hi.Floor
  {
  }

  /** base and two elements of the largest size. */
  lemma BadSplit(f: Fill, base: seq<Item>) returns (s: seq<Item>, x: Item)
    requires Accepted(f) && ValidItems(f, base) && Indexed(base, 0) && |base| < 0x1000
    requires base == [] || NODE_HEADER_SIZE + SumSize(base) <= f.lo.Floor
    requires NodeSize(base) + MaxElement(f) <= f.hi.Floor < NodeSize(base) + 2 * MaxElement(f)
    ensures Outgrows(f, s, x) && !SplitsInTwo(f, Upsert(s, x))
  {
    var y;
    s, y, x := WithTwo(f, base);
    LateSplit(f, base, y, x);
    OverSize(f, s);
    OverSize(f, s + [x]);
  }

  /** One more element of the largest size. */
  lemma WithNext(f: Fill, start: nat, s: seq<Item>) returns (x: Item)
    requires Accepted(f) && ValidItems(f, s) && Indexed(s, start) && start + |s| < 0x2000 && Least(start + |s|) <= MaxElement(f)
    ensures ValidItem(f, x) && ValidItems(f, s + [x]) && Indexed(s + [x], start)
    ensures ElementSize(x) == MaxElement(f) && SumSize(s + [x]) == SumSize(s) + MaxElement(f)
  {
    x := Sized(start + |s|, MaxElement(f));
    SizedValid(f, start + |s|, MaxElement(f));
    Joined(f, s, start, x);
  }

  /** base with one element of the largest size, and another to put behind it. */
  lemma WithTwo(f: Fill, base: seq<Item>) returns (s: seq<Item>, y: Item, x: Item)
    requires Accepted(f) && ValidItems(f, base) && Indexed(base, 0) && |base| < 0x1000
    ensures s == base + [y] && Sorted(s) && ValidItems(f, s) && ValidItem(f, x) && Upsert(s, x) == s + [x]
    ensures SumSize(s) == SumSize(base) + MaxElement(f) && SumSize(s + [x]) == SumSize(base) + 2 * MaxElement(f)
  {
    y := WithNext(f, 0, base);
    s := base + [y];
    x := WithNext(f, 0, s);
    IndexedSorted(s, 0);
    UpsertLast(s, x);
  }

  /** If base does not outgrow the minimum, base and two more elements are not split in two. */
  lemma LateSplit(f: Fill, base: seq<Item>, y: Item, x: Item)
    requires base == [] || NODE_HEADER_SIZE + SumSize(base) <= f.lo.Floor
    ensures !SplitsInTwo(f, base + [y] + [x])
  {
    var s, r := base + [y], base + [y] + [x];
    var i := SplitIndex(f, r);
    AppendDrop(s, [x]);
    AppendDrop(base, [y]);
    if base != [] && 1 <= i < |r| - 1 {
      Prefix(r, i, |s|);
      Prefix(s, i, |base|);
      PrefixSmaller(base, i);
      PastMinSize(f, r, i);
    }
  }

  /** A node that splits badly, if the maximum is too small. */
  lemma SplitsBadly(f: Fill) returns (s: seq<Item>, x: Item)
    requires Accepted(f) && f.hi < SplitGap(f) as real
    ensures Outgrows(f, s, x) && !SplitsInTwo(f, Upsert(s, x))
  {
    var m := MaxElement(f);
    var need := f.hi.Floor - 10 - 2 * m;
    if f.hi.Floor < 11 + m {
      s, x := [], Sized(0, m);
      SizedValid(f, 0, m);
      Ends([x]);
      UpsertLast([], x);
      OverSize(f, [x]);
    } else if need <= 0 {
      s, x := BadSplit(f, []);
    } else {
      var base := Filler(f, 0, if need < PAGE_NUM_SIZE then PAGE_NUM_SIZE else need);
      s, x := BadSplit(f, base);
    }
  }

  /** So the condition is exact. */
  lemma SplitExact(f: Fill)
    requires Accepted(f)
    ensures SplitsWell(f) <==> f.hi >= SplitGap(f) as real
  {
    if f.hi >= SplitGap(f) as real {
      forall s, x | Outgrows(f, s, x) ensures SplitsInTwo(f, Upsert(s, x)) {
        UpsertValid(f, s, x);
        SplitLeavesTwo(f, Upsert(s, x));
      }
    } else {
      var s, x := SplitsBadly(f);
    }
  }

  // ---------------------------------------------------------------- one split a level

  /** Both halves of a split node are within the maximum. */
  predicate HalvesWithin(f: Fill, s: seq<Item>) {
    var i := SplitIndex(f, s);
    i != -1 ==> !Over(f, s[..i]) && !Over(f, s[i + 1..])
  }

  lemma SortedAround(a: seq<Item>, y: Item, b: seq<Item>)
    requires Sorted(a) && Sorted(b) && AllBelow(a, y.key) && AllAbove(y.key, b)
    ensures Sorted(a + [y] + b)
  {
    var s := a + [y] + b;
    forall i, j | 0 <= i < j < |s| ensures Less(s[i].key, s[j].key) {
      if i < |a| && j > |a| { LessTransitive(a[i].key, y.key, b[j - |a| - 1].key); }
    }
  }

  lemma BelowOne(a: seq<Item>)
    requires Indexed(a, 0) && |a| <= 256
    ensures AllBelow(a, [1])
  {
    forall i | 0 <= i < |a| ensures Less(a[i].key, [1]) {
      assert a[i].key == KeyOf(i, |a[i].key|);
      if i > 0 { assert a[i].key[0] == 0; }
    }
  }

  lemma AboveOne(b: seq<Item>)
    requires Indexed(b, 512)
    ensures AllAbove([1], b)
  {
    forall j | 0 <= j < |b| ensures Less([1], b[j].key) {
      assert b[j].key == KeyOf(512 + j, |b[j].key|);
      assert b[j].key[0] as int == (512 + j) / 256;
    }
  }

  /** Where items that just outgrow the minimum are split off. */
  lemma SplitsAfter(f: Fill, base: seq<Item>, rest: seq<Item>)
    requires base != [] && rest != [] && SumSize(base) == LeastLeft(f)
    ensures SplitIndex(f, base + rest) == |base|
  {
    var s, n := base + rest, |base|;
    AppendDrop(base, rest);
    assert PastMin(f, s, n) by { PastMinSize(f, s, n); }
    var i := SplitIndex(f, s);
    if i < n {
      Prefix(s, i, n);
      PrefixSmaller(base[..n - 1], i);
      Prefix(base, i, n - 1);
      PastMinSize(f, s, i);
    }
  }

  /** A node that needs more than one split, if the left half can take too little. */
  lemma TwoSplitsNeeded(f: Fill) returns (s: seq<Item>, x: Item)
    requires Accepted(f) && Roomy(f) && !KeepsFit(f)
    ensures Outgrows(f, s, x) && !Over(f, s) && !HalvesWithin(f, Upsert(s, x))
  {
    var v := LeastLeft(f);
    var base := Filler(f, 0, v);
    var mid := Item([1], []);
    var rest := Filler(f, 512, f.hi.Floor - v - 20);
    x := WithNext(f, 512, rest);
    s := base + [mid] + rest;
    BelowOne(base);
    AboveOne(rest + [x]);
    IndexedSorted(base, 0);
    IndexedSorted(rest + [x], 512);
    SortedAround(base, mid, rest + [x]);
    LopsidedSizes(f, base, mid, rest, x);
    Lopsided(base, mid, rest, x);
    UpsertEnd(s, x);
    SplitsAfter(f, base, [mid] + rest + [x]);
  }

  lemma LopsidedSizes(f: Fill, base: seq<Item>, mid: Item, rest: seq<Item>, x: Item)
    ensures SumSize(base + [mid] + rest) == SumSize(base) + ElementSize(mid) + SumSize(rest)
    ensures SumSize(base + [mid] + rest + [x]) == SumSize(base) + ElementSize(mid) + SumSize(rest) + ElementSize(x)
  {
    MergedParts(base, mid, rest);
    SumSizeAppend(base + [mid] + rest, [x]);
    assert [x][..0] == [];
  }

  /** The right half of a node split after base is the rest. */
  lemma Lopsided(base: seq<Item>, mid: Item, rest: seq<Item>, x: Item)
    ensures var r := base + [mid] + rest + [x];
      r == base + ([mid] + rest + [x]) && r == base + [mid] + (rest + [x]) && r[|base| + 1..] == rest + [x]
  {
  }

  lemma UpsertEnd(s: seq<Item>, x: Item)
    requires Sorted(s + [x])
    ensures Upsert(s, x) == s + [x] && Sorted(s)
  {
    SortedEnd(s, x);
    PosUnique(s, x.key, |s|);
    Ends(s);
  }

  /** A sorted tree of accepted items in which no node is over the maximum, and an accepted item. */
  ghost predicate PutStart(f: Fill, t: Tree, h: nat, x: Item) {
    Shape(t, h) && Sorted(InOrder(t)) && Fits(f, t) && ValidItems(f, InOrder(t)) && ValidItem(f, x)
  }

  ghost predicate PutKeepsFit(f: Fill, t: Tree, h: nat, x: Item, p: Pool)
    requires Shape(t, h)
  {
    var r := PutTree(f, t, h, x, p); r.Some? ==> Fits(f, r.value.0)
  }

  /** No put into such a tree leaves a node over the maximum. */
  ghost predicate PutsKeepFit(f: Fill) {
    forall t, h, x, p :: PutStart(f, t, h, x) ==> PutKeepsFit(f, t, h, x, p)
  }

  /** A put into a tree of one leaf splits that leaf. */
  lemma LeafPut(f: Fill, n: PageNum, s: seq<Item>, x: Item, p: Pool)
    requires Over(f, Upsert(s, x)) && SplitsInTwo(f, Upsert(s, x)) && !HalvesWithin(f, Upsert(s, x))
    ensures !PutKeepsFit(f, Tree(n, s, []), 0, x, p)
  {
    var t := Tree(n, s, []);
    var c := t.(items := Upsert(s, x));
    assert SearchPath(t, 0, x.key) == [] && Inserted(t, 0, x) == c;
    var (m, q) := NextPage(p);
    var (r, q') := SplitKid(f, Tree(m, [], [c]), 1, 0, q).value;
    assert Grow(f, c, 0, [], p) == Some((c, p)) && PutTree(f, t, 0, x, p) == Some((r, q'));
    assert !Fits(f, r) by {
      var i := SplitIndex(f, c.items);
      assert r.kids[0].items == c.items[..i] && r.kids[1].items == c.items[i + 1..];
    }
  }

  /** One split a level keeps every node within the maximum exactly if the left half and the middle item make up for the largest element. */
  lemma PutFitsExact(f: Fill)
    requires Accepted(f) && Roomy(f)
    ensures PutsKeepFit(f) <==> KeepsFit(f)
  {
    if KeepsFit(f) {
      forall t, h, x, p | PutStart(f, t, h, x) ensures PutKeepsFit(f, t, h, x, p) { PutFits(f, t, h, x, p); }
    } else {
      var s, x := TwoSplitsNeeded(f);
      UpsertValid(f, s, x);
      SplitLeavesTwo(f, Upsert(s, x));
      var t, p := Tree(1, s, []), Pool(1, []);
      LeafPut(f, 1, s, x, p);
      assert InOrder(t) == s;
      assert PutStart(f, t, 0, x) && !PutKeepsFit(f, t, 0, x, p);
    }
  }

  // ---------------------------------------------------------------- merging

  /** A sibling that cannot spare an element is at most one element over the minimum. */
  lemma CannotSpareSize(f: Fill, s: seq<Item>)
    requires !CanSpare(f, s) && ValidItems(f, s) && f.lo > 11.0
    ensures NODE_HEADER_SIZE + SumSize(s) <= f.lo.Floor + MaxElement(f)
  {
    var n := |s|;
    if n > 0 {
      ElementBound(f, s[n - 1]);
      if n > 1 { PastMinSize(f, s, n - 1); } else { assert s[..0] == []; }
    }
  }

  /** The node that rebalanceRemove merges from an underpopulated node, the item between, and such a sibling. */
  lemma MergedSize(f: Fill, a: seq<Item>, x: Item, b: seq<Item>)
    requires ValidItems(f, a) && ValidItem(f, x) && ValidItems(f, b)
    requires (Under(f, a) && !CanSpare(f, b)) || (!CanSpare(f, a) && Under(f, b))
    ensures NodeSize(a + [x] + b) as real < 2.0 * f.lo + (2 * MaxElement(f) - 3) as real
  {
    ElementBound(f, x);
    SumSizeAppend(a + [x], b);
    SumSizeAppend(a, [x]);
    assert [x][..0] == [];
    if Under(f, a) && !CanSpare(f, b) { CannotSpareSize(f, b); } else { CannotSpareSize(f, a); }
  }

  /** The size of a merged node as Rebalance makes it, on either side. */
  lemma RebalanceMergeSize(f: Fill, t: Tree, h: nat, i: nat)
    requires h > 0 && Shape(t, h) && i < |t.kids| && t.items != []
    requires Under(f, t.kids[i].items) && Rebalance(f, t, h, i).deleted != []
    requires ValidItems(f, t.items) && forall k :: 0 <= k < |t.kids| ==> ValidItems(f, t.kids[k].items)
    ensures var j := if i == 0 then 0 else i - 1;
      var m := Rebalance(f, t, h, i).tree.kids[j]; NodeSize(m.items) as real < 2.0 * f.lo + (2 * MaxElement(f) - 3) as real
  {
    var j := if i == 0 then 0 else i - 1;
    MergedSize(f, t.kids[j].items, t.items[j], t.kids[j + 1].items);
  }

  /** Whatever neighbours are merged, the node fits the page. */
  ghost predicate MergesFit(f: Fill) {
    forall a, x, b ::
      Merges(f, a, x, b) ==> NodeSize(a + [x] + b) <= f.pageSize
  }

  /** Neighbouring nodes and the item between them, of which one is underpopulated and the other cannot spare an element. */
  ghost predicate Merges(f: Fill, a: seq<Item>, x: Item, b: seq<Item>) {
    && Sorted(a + [x] + b) && ValidItems(f, a) && ValidItem(f, x) && ValidItems(f, b)
    && ((Under(f, a) && !CanSpare(f, b)) || (!CanSpare(f, a) && Under(f, b)))
  }

  function Ceiling(r: real): int {
    if r == r.Floor as real then r.Floor else r.Floor + 1
  }

  /** The size of the largest node merged. Up to 19 bytes only an empty node is below the minimum. */
  function LargestMerged(f: Fill): int {
    f.lo.Floor + 2 * MaxElement(f) + 8 + if f.lo <= 19.0 then 0 else Ceiling(f.lo) - 12
  }

  /** The largest node that cannot spare an element. */
  lemma LargestSibling(f: Fill, start: nat) returns (b: seq<Item>)
    requires Accepted(f) && Large(f) && f.lo > 11.0 && f.lo.Floor - 3 >= Least(start) && start <= 0x1000
    ensures ValidItems(f, b) && Indexed(b, start) && !CanSpare(f, b) && SumSize(b) == f.lo.Floor - 3 + MAX_ELEMENT_SIZE && |b| <= 0x1000
  {
    var base := Filler(f, start, f.lo.Floor - 3);
    var y := Sized(start + |base|, MAX_ELEMENT_SIZE);
    SizedValid(f, start + |base|, MAX_ELEMENT_SIZE);
    Joined(f, base, start, y);
    b := base + [y];
    NothingToSpare(f, base, y);
  }

  lemma NothingToSpare(f: Fill, base: seq<Item>, y: Item)
    requires NODE_HEADER_SIZE + SumSize(base) <= f.lo.Floor
    ensures !CanSpare(f, base + [y])
  {
    var b := base + [y];
    var i := SplitIndex(f, b);
    AppendDrop(base, [y]);
    if i != -1 {
      Prefix(b, i, |base|);
      PrefixSmaller(base, i);
      PastMinSize(f, b, i);
    }
  }

  /** Three sorted parts of a merged node. */
  lemma MergedParts(a: seq<Item>, x: Item, b: seq<Item>)
    ensures SumSize(a + [x] + b) == SumSize(a) + ElementSize(x) + SumSize(b)
  {
    SumSizeAppend(a + [x], b);
    SumSizeAppend(a, [x]);
    assert [x][..0] == [];
  }

  /** The largest nodes that are merged. */
  lemma LargestMerge(f: Fill) returns (a: seq<Item>, x: Item, b: seq<Item>)
    requires Accepted(f) && Large(f) && f.lo > 11.0
    ensures Merges(f, a, x, b) && NodeSize(a + [x] + b) == LargestMerged(f)
  {
    if f.lo <= 19.0 {
      a := LargestSibling(f, 0);
      b := [];
    } else {
      a := Filler(f, 0, Ceiling(f.lo) - 12);
      b := LargestSibling(f, |a| + 1);
    }
    x := Sized(|a|, MAX_ELEMENT_SIZE);
    SizedValid(f, |a|, MAX_ELEMENT_SIZE);
    Joined(f, a, 0, x);
    IndexedJoin(a + [x], 0, b);
    IndexedSorted(a + [x] + b, 0);
    MergedParts(a, x, b);
  }

  /** On a small page two of the largest elements are too many. */
  lemma SmallPageMerge(f: Fill) returns (a: seq<Item>, x: Item, b: seq<Item>)
    requires Accepted(f) && !Large(f) && f.lo > 11.0
    ensures Merges(f, a, x, b) && NodeSize(a + [x] + b) > f.pageSize
  {
    var m := MaxElement(f);
    a, x, b := [], Sized(0, m), [Sized(1, m)];
    SizedValid(f, 0, m);
    SizedValid(f, 1, m);
    Ends([x]);
    IndexedJoin([x], 0, b);
    IndexedSorted([x] + b, 0);
    MergedParts(a, x, b);
  }

  /** What is below the minimum holds nothing up to 19 bytes, and else at most this. */
  lemma UnderSize(f: Fill, s: seq<Item>)
    requires Under(f, s)
    ensures f.lo > 11.0 && SumSize(s) <= if f.lo <= 19.0 then 0 else Ceiling(f.lo) - 12
  {
  }

  lemma MergedWithin(f: Fill, a: seq<Item>, x: Item, b: seq<Item>)
    requires Merges(f, a, x, b)
    ensures f.lo > 11.0 && NodeSize(a + [x] + b) <= LargestMerged(f)
  {
    ElementBound(f, x);
    MergedParts(a, x, b);
    if Under(f, a) && !CanSpare(f, b) {
      UnderSize(f, a);
      CannotSpareSize(f, b);
    } else {
      UnderSize(f, b);
      CannotSpareSize(f, a);
    }
  }

  /** So a merged node fits the page, whatever the nodes hold, exactly under this condition. */
  lemma MergeExact(f: Fill)
    requires Accepted(f)
    ensures MergesFit(f) <==> f.lo <= 11.0 || LargestMerged(f) <= f.pageSize
  {
    if f.lo <= 11.0 || LargestMerged(f) <= f.pageSize {
      forall a, x, b | Merges(f, a, x, b) ensures NodeSize(a + [x] + b) <= f.pageSize { MergedWithin(f, a, x, b); }
    } else if Large(f) {
      var a, x, b := LargestMerge(f);
    } else {
      var a, x, b := SmallPageMerge(f);
    }
  }

  /** The default minimum fill, half of the page, is too much for that at every page size. */
  lemma DefaultMinimumTooHigh(pageSize: nat, hi: real)
    requires Accepted(Fill(pageSize, pageSize as real / 2.0, hi))
    ensures !MergesFit(Fill(pageSize, pageSize as real / 2.0, hi))
  {
    MergeExact(Fill(pageSize, pageSize as real / 2.0, hi));
  }
}
