/**
 * What split, the two rotations and merge do to a parent and the children
 * concerned, and that none of them changes the in-order sequence.
 */
module TreeOps {
  import opened Seqs
  import opened Items
  import opened Trees

  /** c is a and b put side by side with x between them. */
  ghost predicate Joins(c: Tree, a: Tree, x: Item, b: Tree) {
    c.items == a.items + [x] + b.items && c.kids == a.kids + b.kids
  }

  lemma JoinInOrder(c: Tree, a: Tree, x: Item, b: Tree, h: nat)
    requires Joins(c, a, x, b) && Shape(a, h) && Shape(b, h)
    ensures Shape(c, h)
    ensures InOrder(c) == InOrder(a) + [x] + InOrder(b)
  {
    if h > 0 { WeaveJoin(a.items, a.kids, x, b.items, b.kids); }
  }

  lemma JoinFull(c: Tree, a: Tree, x: Item, b: Tree)
    requires Joins(c, a, x, b)
    ensures Full(c) <==> Full(a) && Full(b)
  {
    if Full(c) {
      forall i | 0 <= i < |a.kids| ensures a.kids[i].items != [] && Full(a.kids[i]) { assert c.kids[i] == a.kids[i]; }
      forall i | 0 <= i < |b.kids| ensures b.kids[i].items != [] && Full(b.kids[i]) { assert c.kids[|a.kids| + i] == b.kids[i]; }
    }
  }

  // ---------------------------------------------------------------- replacing children of a node

  function TwoForTwo(t: Tree, j: nat, a: Tree, x: Item, b: Tree): Tree
    requires j < |t.items| && j + 1 < |t.kids|
  {
    t.(items := t.items[j := x], kids := t.kids[j := a][j + 1 := b])
  }

  function TwoForOne(t: Tree, j: nat, a: Tree, x: Item, b: Tree): Tree
    requires j <= |t.items| && j < |t.kids|
  {
    t.(items := t.items[..j] + [x] + t.items[j..], kids := t.kids[..j] + [a, b] + t.kids[j + 1..])
  }

  function OneForTwo(t: Tree, j: nat, c: Tree): Tree
    requires j < |t.items| && j + 1 < |t.kids|
  {
    t.(items := t.items[..j] + t.items[j + 1..], kids := t.kids[..j] + [c] + t.kids[j + 2..])
  }

  lemma TwoForTwoInOrder(t: Tree, h: nat, j: nat, a: Tree, x: Item, b: Tree)
    requires h > 0 && Shape(t, h) && j < |t.items|
    requires Shape(a, h - 1) && Shape(b, h - 1)
    requires InOrder(a) + [x] + InOrder(b) == InOrder(t.kids[j]) + [t.items[j]] + InOrder(t.kids[j + 1])
    ensures var r := TwoForTwo(t, j, a, x, b); Shape(r, h) && InOrder(r) == InOrder(t)
  {
    var r := TwoForTwo(t, j, a, x, b);
    WeaveAtPair(t.items, t.kids, j);
    WeaveAtPair(r.items, r.kids, j);
    assert r.kids[..j] == t.kids[..j] && r.kids[j + 2..] == t.kids[j + 2..];
    assert r.items[..j] == t.items[..j] && r.items[j + 1..] == t.items[j + 1..];
    SameSides(t.items, t.kids, j, j + 1, r.items, r.kids, j, j + 1);
  }

  lemma TwoForOneInOrder(t: Tree, h: nat, j: nat, a: Tree, x: Item, b: Tree)
    requires h > 0 && Shape(t, h) && j < |t.kids|
    requires Shape(a, h - 1) && Shape(b, h - 1)
    requires InOrder(a) + [x] + InOrder(b) == InOrder(t.kids[j])
    ensures var r := TwoForOne(t, j, a, x, b); Shape(r, h) && InOrder(r) == InOrder(t)
  {
    var r := TwoForOne(t, j, a, x, b);
    WeaveAt(t.items, t.kids, j);
    WeaveAtPair(r.items, r.kids, j);
    assert r.kids[..j] == t.kids[..j] && r.kids[j + 2..] == t.kids[j + 1..];
    assert r.items[..j] == t.items[..j] && r.items[j + 1..] == t.items[j..];
    SameSides(t.items, t.kids, j, j, r.items, r.kids, j, j + 1);
  }

  lemma OneForTwoInOrder(t: Tree, h: nat, j: nat, c: Tree)
    requires h > 0 && Shape(t, h) && j < |t.items|
    requires Shape(c, h - 1)
    requires InOrder(c) == InOrder(t.kids[j]) + [t.items[j]] + InOrder(t.kids[j + 1])
    ensures var r := OneForTwo(t, j, c); Shape(r, h) && InOrder(r) == InOrder(t)
  {
    var r := OneForTwo(t, j, c);
    WeaveAtPair(t.items, t.kids, j);
    WeaveAt(r.items, r.kids, j);
    assert r.kids[..j] == t.kids[..j] && r.kids[j + 1..] == t.kids[j + 2..];
    assert r.items[..j] == t.items[..j] && r.items[j..] == t.items[j + 1..];
    SameSides(t.items, t.kids, j, j + 1, r.items, r.kids, j, j);
  }

  lemma SameSides(i1: seq<Item>, k1: seq<Tree>, l1: nat, r1: nat, i2: seq<Item>, k2: seq<Tree>, l2: nat, r2: nat)
    requires |k1| == |i1| + 1 && |k2| == |i2| + 1 && l1 <= r1 <= |i1| && l2 <= r2 <= |i2|
    requires l1 == l2 && i1[..l1] == i2[..l2] && k1[..l1] == k2[..l2]
    requires i1[r1..] == i2[r2..] && k1[r1 + 1..] == k2[r2 + 1..]
    ensures Before(i1, k1, l1) == Before(i2, k2, l2)
    ensures After(i1, k1, r1) == After(i2, k2, r2)
  {
    if l1 > 0 {
      assert i1[..l1 - 1] == i1[..l1][..l1 - 1] && i2[..l2 - 1] == i2[..l2][..l2 - 1];
      assert i1[l1 - 1] == i1[..l1][l1 - 1] && i2[l2 - 1] == i2[..l2][l2 - 1];
    }
    if r1 < |i1| {
      assert i1[r1 + 1..] == i1[r1..][1..] && i2[r2 + 1..] == i2[r2..][1..];
      assert i1[r1] == i1[r1..][0] && i2[r2] == i2[r2..][0];
    }
  }

  /** Uses after each replacement, in terms of the children put in and taken out. */
  lemma ReplaceUses(t: Tree, j: nat, a: Tree, x: Item, b: Tree, p: PageNum)
    requires j <= |t.items| && j < |t.kids|
    ensures Uses(TwoForOne(t, j, a, x, b), p) + Uses(t.kids[j], p) == Uses(t, p) + Uses(a, p) + Uses(b, p)
    ensures j < |t.items| && j + 1 < |t.kids| ==>
      Uses(TwoForTwo(t, j, a, x, b), p) + Uses(t.kids[j], p) + Uses(t.kids[j + 1], p) == Uses(t, p) + Uses(a, p) + Uses(b, p)
    ensures j < |t.items| && j + 1 < |t.kids| ==>
      Uses(OneForTwo(t, j, a), p) + Uses(t.kids[j], p) + Uses(t.kids[j + 1], p) == Uses(t, p) + Uses(a, p)
  {
    TwoForOneUses(t.kids, j, a, b, p);
    if j < |t.items| && j + 1 < |t.kids| {
      UsesOfReplace(t.kids, j, a, p);
      UsesOfReplace(t.kids[j := a], j + 1, b, p);
      OneForTwoUses(t.kids, j, a, p);
    }
  }

  lemma TwoForOneUses(ks: seq<Tree>, j: nat, a: Tree, b: Tree, p: PageNum)
    requires j < |ks|
    ensures UsesOf(ks[..j] + [a, b] + ks[j + 1..], p) + Uses(ks[j], p) == UsesOf(ks, p) + Uses(a, p) + Uses(b, p)
  {
    UsesOfAt(ks, j, p);
    UsesOfAppend(ks[..j] + [a, b], ks[j + 1..], p);
    UsesOfAppend(ks[..j], [a, b], p);
    assert [a, b] == [a] + [b];
    UsesOfAppend([a], [b], p);
    UsesOfOne(a, p);
    UsesOfOne(b, p);
  }

  lemma OneForTwoUses(ks: seq<Tree>, j: nat, a: Tree, p: PageNum)
    requires j + 1 < |ks|
    ensures UsesOf(ks[..j] + [a] + ks[j + 2..], p) + Uses(ks[j], p) + Uses(ks[j + 1], p) == UsesOf(ks, p) + Uses(a, p)
  {
    UsesOfAt(ks, j, p);
    UsesOfAt(ks[j + 1..], 0, p);
    assert ks[j + 1..][1..] == ks[j + 2..] && ks[j + 1..][..0] == [];
    UsesOfAppend(ks[..j] + [a], ks[j + 2..], p);
    UsesOfAppend(ks[..j], [a], p);
    UsesOfOne(a, p);
  }

  // ---------------------------------------------------------------- split, rotations, merge

  /** A node that is a leaf or has one child more than items. */
  predicate Regular(t: Tree) {
    t.kids == [] || |t.kids| == |t.items| + 1
  }

  /** The left half keeps the page; the right half goes to a new one. */
  function LeftHalf(c: Tree, s: nat): Tree
    requires s < |c.items| && Regular(c)
  {
    Tree(c.page, c.items[..s], if c.kids == [] then [] else c.kids[..s + 1])
  }

  function RightHalf(c: Tree, s: nat, page: PageNum): Tree
    requires s < |c.items| && Regular(c)
  {
    Tree(page, c.items[s + 1..], if c.kids == [] then [] else c.kids[s + 1..])
  }

  function Split(t: Tree, i: nat, s: nat, page: PageNum): Tree
    requires i < |t.kids| && i <= |t.items| && s < |t.kids[i].items| && Regular(t.kids[i])
  {
    var c := t.kids[i];
    TwoForOne(t, i, LeftHalf(c, s), c.items[s], RightHalf(c, s, page))
  }

  function WithoutLast(a: Tree): Tree
    requires a.items != []
  {
    Tree(a.page, a.items[..|a.items| - 1], if a.kids == [] then [] else a.kids[..|a.kids| - 1])
  }

  function WithoutFirst(b: Tree): Tree
    requires b.items != []
  {
    Tree(b.page, b.items[1..], if b.kids == [] then [] else b.kids[1..])
  }

  /** The outermost child as a sequence: none for a leaf. */
  function LastKid(a: Tree): seq<Tree> {
    if a.kids == [] then [] else [a.kids[|a.kids| - 1]]
  }

  function FirstKid(b: Tree): seq<Tree> {
    if b.kids == [] then [] else [b.kids[0]]
  }

  /** The parent item i-1 goes down to child i, the last item of child i-1 goes up. */
  function RotateRight(t: Tree, i: nat): Tree
    requires 0 < i < |t.kids| && i <= |t.items| && t.kids[i - 1].items != []
  {
    var a, b := t.kids[i - 1], t.kids[i];
    TwoForTwo(t, i - 1, WithoutLast(a), a.items[|a.items| - 1],
      Tree(b.page, [t.items[i - 1]] + b.items, LastKid(a) + b.kids))
  }

  /** The parent item i goes down to child i, the first item of child i+1 goes up. */
  function RotateLeft(t: Tree, i: nat): Tree
    requires i + 1 < |t.kids| && i < |t.items| && t.kids[i + 1].items != []
  {
    var a, b := t.kids[i], t.kids[i + 1];
    TwoForTwo(t, i, Tree(a.page, a.items + [t.items[i]], a.kids + FirstKid(b)), b.items[0], WithoutFirst(b))
  }

  /** Child i and the parent item before it are appended to child i-1. */
  function Merge(t: Tree, i: nat): Tree
    requires 0 < i < |t.kids| && i <= |t.items|
  {
    var a, b := t.kids[i - 1], t.kids[i];
    OneForTwo(t, i - 1, Tree(a.page, a.items + [t.items[i - 1]] + b.items, if a.kids == [] then a.kids else a.kids + b.kids))
  }

  /** Split leaves the in-order sequence and the height, and takes one more page. */
  lemma SplitPreserves(t: Tree, h: nat, i: nat, s: nat, page: PageNum)
    requires h > 0 && Shape(t, h) && i < |t.kids| && Shape(t.kids[i], h - 1) && s < |t.kids[i].items|
    ensures var r := Split(t, i, s, page);
      && Shape(r, h) && InOrder(r) == InOrder(t)
      && forall p :: Uses(r, p) == Uses(t, p) + if p == page then 1 else 0
  {
    var c := t.kids[i];
    var l, r := LeftHalf(c, s), RightHalf(c, s, page);
    CutAt(c.items, s);
    assert Joins(c, l, c.items[s], r) by { if h > 1 { CutAt(c.kids, s); } }
    JoinInOrder(c, l, c.items[s], r, h - 1);
    TwoForOneInOrder(t, h, i, l, c.items[s], r);
    forall p ensures Uses(Split(t, i, s, page), p) == Uses(t, p) + if p == page then 1 else 0 {
      ReplaceUses(t, i, l, c.items[s], r, p);
      UsesOfAppend(l.kids, r.kids, p);
    }
  }

  lemma Regroup2<T>(a: seq<T>, x: T, e: seq<T>, y: T, b: seq<T>)
    ensures (a + [x] + e) + [y] + b == a + [x] + (e + [y] + b)
  {
  }

  /** The end e of child j crosses to child j+1, its item y replacing x in the parent. */
  lemma ShiftRight(t: Tree, h: nat, j: nat, l: Tree, y: Item, e: Tree, r: Tree)
    requires h > 0 && Shape(t, h) && j < |t.items|
    requires Shape(l, h - 1) && Shape(e, h - 1)
    requires l.page == t.kids[j].page && r.page == t.kids[j + 1].page
    requires Joins(t.kids[j], l, y, e) && Joins(r, e, t.items[j], t.kids[j + 1])
    ensures var n := TwoForTwo(t, j, l, y, r);
      Shape(n, h) && InOrder(n) == InOrder(t) && forall p :: Uses(n, p) == Uses(t, p)
  {
    var a, x, b := t.kids[j], t.items[j], t.kids[j + 1];
    JoinInOrder(a, l, y, e, h - 1);
    JoinInOrder(r, e, x, b, h - 1);
    Regroup2(InOrder(l), y, InOrder(e), x, InOrder(b));
    TwoForTwoInOrder(t, h, j, l, y, r);
    forall p ensures Uses(TwoForTwo(t, j, l, y, r), p) == Uses(t, p) {
      ReplaceUses(t, j, l, y, r, p);
      UsesOfAppend(l.kids, e.kids, p);
      UsesOfAppend(e.kids, b.kids, p);
    }
  }

  /** The end e of child j+1 crosses to child j, its item y replacing x in the parent. */
  lemma ShiftLeft(t: Tree, h: nat, j: nat, l: Tree, y: Item, e: Tree, r: Tree)
    requires h > 0 && Shape(t, h) && j < |t.items|
    requires Shape(e, h - 1) && Shape(r, h - 1)
    requires l.page == t.kids[j].page && r.page == t.kids[j + 1].page
    requires Joins(l, t.kids[j], t.items[j], e) && Joins(t.kids[j + 1], e, y, r)
    ensures var n := TwoForTwo(t, j, l, y, r);
      Shape(n, h) && InOrder(n) == InOrder(t) && forall p :: Uses(n, p) == Uses(t, p)
  {
    var a, x, b := t.kids[j], t.items[j], t.kids[j + 1];
    JoinInOrder(l, a, x, e, h - 1);
    JoinInOrder(b, e, y, r, h - 1);
    Regroup2(InOrder(a), x, InOrder(e), y, InOrder(r));
    TwoForTwoInOrder(t, h, j, l, y, r);
    forall p ensures Uses(TwoForTwo(t, j, l, y, r), p) == Uses(t, p) {
      ReplaceUses(t, j, l, y, r, p);
      UsesOfAppend(a.kids, e.kids, p);
      UsesOfAppend(e.kids, r.kids, p);
    }
  }

  lemma LastParts(a: Tree, h: nat)
    requires Shape(a, h) && a.items != []
    ensures Shape(WithoutLast(a), h) && Shape(Tree(a.page, [], LastKid(a)), h)
    ensures Joins(a, WithoutLast(a), a.items[|a.items| - 1], Tree(a.page, [], LastKid(a)))
  {
  }

  lemma FirstParts(b: Tree, h: nat)
    requires Shape(b, h) && b.items != []
    ensures Shape(WithoutFirst(b), h) && Shape(Tree(b.page, [], FirstKid(b)), h)
    ensures Joins(b, Tree(b.page, [], FirstKid(b)), b.items[0], WithoutFirst(b))
  {
  }

  /** A right rotation leaves the in-order sequence, the height and the pages. */
  lemma RotateRightPreserves(t: Tree, h: nat, i: nat)
    requires h > 0 && Shape(t, h) && 0 < i < |t.kids| && t.kids[i - 1].items != []
    ensures var r := RotateRight(t, i);
      && Shape(r, h) && InOrder(r) == InOrder(t)
      && forall p :: Uses(r, p) == Uses(t, p)
  {
    var a, b := t.kids[i - 1], t.kids[i];
    LastParts(a, h - 1);
    var e := Tree(a.page, [], LastKid(a));
    var b' := Tree(b.page, [t.items[i - 1]] + b.items, LastKid(a) + b.kids);
    assert Joins(b', e, t.items[i - 1], b);
    ShiftRight(t, h, i - 1, WithoutLast(a), a.items[|a.items| - 1], e, b');
  }

  /** A left rotation leaves the in-order sequence, the height and the pages. */
  lemma RotateLeftPreserves(t: Tree, h: nat, i: nat)
    requires h > 0 && Shape(t, h) && i + 1 < |t.kids| && t.kids[i + 1].items != []
    ensures var r := RotateLeft(t, i);
      && Shape(r, h) && InOrder(r) == InOrder(t)
      && forall p :: Uses(r, p) == Uses(t, p)
  {
    var a, b := t.kids[i], t.kids[i + 1];
    FirstParts(b, h - 1);
    var e := Tree(b.page, [], FirstKid(b));
    var a' := Tree(a.page, a.items + [t.items[i]], a.kids + FirstKid(b));
    assert Joins(a', a, t.items[i], e);
    ShiftLeft(t, h, i, a', b.items[0], e, WithoutFirst(b));
  }

  /** A merge leaves the in-order sequence and the height, and gives up the page of the right child. */
  lemma MergePreserves(t: Tree, h: nat, i: nat)
    requires h > 0 && Shape(t, h) && 0 < i < |t.kids|
    ensures var r := Merge(t, i);
      && Shape(r, h) && InOrder(r) == InOrder(t)
      && forall p :: Uses(t, p) == Uses(r, p) + if p == t.kids[i].page then 1 else 0
  {
    var r := Merge(t, i);
    var a, b, c := t.kids[i - 1], t.kids[i], r.kids[i - 1];
    assert Joins(c, a, t.items[i - 1], b);
    JoinInOrder(c, a, t.items[i - 1], b, h - 1);
    OneForTwoInOrder(t, h, i - 1, c);
    forall p ensures Uses(t, p) == Uses(r, p) + if p == b.page then 1 else 0 {
      ReplaceUses(t, i - 1, c, t.items[i - 1], c, p);
      UsesOfAppend(a.kids, b.kids, p);
    }
  }
}
