/** Put on trees (collection.go): insert at the end of the search path, then split upwards. */
module TreePut {
  import opened Maybe
  import opened Seqs
  import opened Keys
  import opened Items
  import opened Fill
  import opened Trees
  import opened TreeOps
  import opened Pool
  import opened TreeSearch

  /** Splits child i if it is overpopulated; None where the code indexes items with -1. */
  function SplitKid(f: Fill, t: Tree, h: nat, i: nat, p: Pool): Option<(Tree, Pool)>
    requires h > 0 && Shape(t, h) && i < |t.kids|
  {
    var c := t.kids[i];
    if !Over(f, c.items) then Some((t, p))
    else
      var s := SplitIndex(f, c.items);
      if s == -1 then None
      else
        assert Shape(c, h - 1);
        var (n, q) := NextPage(p);
        Some((Split(t, i, s, n), q))
  }

  /** The upward loop of Put: every node below the root on the path is split if it has to be. */
  function Grow(f: Fill, t: Tree, h: nat, path: Path, p: Pool): (r: Option<(Tree, Pool)>)
    requires Shape(t, h) && ValidPath(t, path)
    ensures r.Some? ==> Shape(r.value.0, h) && InOrder(r.value.0) == InOrder(t) && r.value.0.page == t.page
    decreases h
  {
    if path == [] then Some((t, p))
    else
      var i := path[0];
      match Grow(f, t.kids[i], h - 1, path[1..], p)
      case None => None
      case Some(cq) =>
        var t1 := t.(kids := t.kids[i := cq.0]);
        WeaveReplace(t.items, t.kids, i, cq.0);
        WeaveAt(t.items, t.kids, i);
        var r := SplitKid(f, t1, h, i, cq.1);
        assert r.Some? ==> Shape(r.value.0, h) && InOrder(r.value.0) == InOrder(t1) by {
          SplitKidPreserves(f, t1, h, i, cq.1);
        }
        r
  }

  lemma SplitKidPreserves(f: Fill, t: Tree, h: nat, i: nat, p: Pool)
    requires h > 0 && Shape(t, h) && i < |t.kids|
    ensures var r := SplitKid(f, t, h, i, p);
      r.Some? ==> Shape(r.value.0, h) && InOrder(r.value.0) == InOrder(t) && r.value.0.page == t.page
  {
    var s := SplitIndex(f, t.kids[i].items);
    if s != -1 { SplitPreserves(t, h, i, s, NextPage(p).0); }
  }

  /** The root step of Put: an overpopulated root gets a new root above it. */
  function GrowRoot(f: Fill, t: Tree, h: nat, p: Pool): Option<(Tree, Pool)>
    requires Shape(t, h)
  {
    if !Over(f, t.items) then Some((t, p))
    else
      var (n, q) := NextPage(p);
      SplitKid(f, Tree(n, [], [t]), h + 1, 0, q)
  }

  /** The tree with x put into the node where its key is or belongs, before any split. */
  function Inserted(t: Tree, h: nat, x: Item): (r: Tree)
    requires Shape(t, h)
    ensures ValidPath(r, SearchPath(t, h, x.key)) && Shape(r, h)
  {
    var path := SearchPath(t, h, x.key);
    var n := Sub(t, path);
    var n' := n.(items := Upsert(n.items, x));
    PathLength(t, h, path);
    PlugSub(t, path, n');
    PlugShape(t, h, path, n');
    Plug(t, path, n')
  }

  /** Collection.Put on an existing root: the new tree and the allocator after it. */
  function PutTree(f: Fill, t: Tree, h: nat, x: Item, p: Pool): Option<(Tree, Pool)>
    requires Shape(t, h)
  {
    match Grow(f, Inserted(t, h, x), h, SearchPath(t, h, x.key), p)
    case None => None
    case Some(tq) => GrowRoot(f, tq.0, h, tq.1)
  }

  // ---------------------------------------------------------------- node by node

  /**
   * A child over the maximum keeps the fewest leading items that outgrow the
   * minimum, the next item goes up, and the others get a new page; a child that
   * is not over the maximum stays as it is.
   */
  lemma SplitKidExact(f: Fill, t: Tree, h: nat, i: nat, p: Pool)
    requires h > 0 && Shape(t, h) && i < |t.kids|
    ensures var c, r := t.kids[i], SplitKid(f, t, h, i, p); var s := SplitIndex(f, c.items);
      && Shape(c, h - 1)
      && (r.None? <==> NodeSize(c.items) as real > f.hi && s == -1)
      && (NodeSize(c.items) as real <= f.hi ==> r == Some((t, p)))
      && (r.Some? && NodeSize(c.items) as real > f.hi ==>
        && r.value.1 == NextPage(p).1 && |r.value.0.kids| == |t.kids| + 1
        && r.value.0.items == t.items[..i] + [c.items[s]] + t.items[i..]
        && var a, b := r.value.0.kids[i], r.value.0.kids[i + 1];
          && a.page == c.page && a.items == c.items[..s] && a.kids == (if c.kids == [] then [] else c.kids[..s + 1])
          && b.page == NextPage(p).0 && b.items == c.items[s + 1..] && b.kids == (if c.kids == [] then [] else c.kids[s + 1..])
          && forall j :: 0 <= j < |t.kids| && j != i ==> r.value.0.kids[if j < i then j else j + 1] == t.kids[j])
  {
  }

  lemma {:induction false} SubSuffix(t: Tree, path: Path, k: nat)
    requires ValidPath(t, path) && k <= |path|
    ensures ValidPath(t, path[..k]) && ValidPath(Sub(t, path[..k]), path[k..])
    decreases k
  {
    if k == 0 {
      Ends(path);
    } else {
      var i, rest := path[0], path[1..];
      SubSuffix(t.kids[i], rest, k - 1);
      var p := path[..k];
      TailPrefix(path, k);
      assert Sub(t, p) == Sub(t.kids[i], rest[..k - 1]);
    }
  }

  /** The loop comes to the top of t, which is then over the maximum and has no split index. */
  ghost predicate StuckTop(f: Fill, t: Tree, h: nat, path: Path, p: Pool)
    requires Shape(t, h) && ValidPath(t, path)
  {
    var g := Grow(f, t, h, path, p);
    g.Some? && NodeSize(g.value.0.items) as real > f.hi && SplitIndex(f, g.value.0.items) == -1
  }

  /** So does the node at level j of the path. */
  ghost predicate StuckAt(f: Fill, t: Tree, h: nat, path: Path, p: Pool, j: nat)
    requires Shape(t, h) && ValidPath(t, path) && j <= |path|
  {
    SubSuffix(t, path, j);
    PathLength(t, h, path[..j]);
    StuckTop(f, Sub(t, path[..j]), h - j, path[j..], p)
  }

  lemma StuckBelow(f: Fill, t: Tree, h: nat, path: Path, p: Pool, j: nat)
    requires Shape(t, h) && ValidPath(t, path) && 0 < j <= |path|
    ensures StuckAt(f, t, h, path, p, j) <==> StuckAt(f, t.kids[path[0]], h - 1, path[1..], p, j - 1)
  {
    SubBelow(t, h, path, j);
  }

  lemma SubBelow(t: Tree, h: nat, path: Path, j: nat)
    requires Shape(t, h) && ValidPath(t, path) && 0 < j <= |path|
    ensures ValidPath(t, path[..j]) && ValidPath(t.kids[path[0]], path[1..][..j - 1]) && Shape(t.kids[path[0]], h - 1) && h > 0
    ensures Sub(t, path[..j]) == Sub(t.kids[path[0]], path[1..][..j - 1]) && path[j..] == path[1..][j - 1..] && j <= h
  {
    TailPrefix(path, j);
    SubSuffix(t, path, j);
    PathLength(t, h, path[..j]);
  }

  /** Some node from level k on down is stuck. */
  ghost predicate Stuck(f: Fill, t: Tree, h: nat, path: Path, p: Pool, k: nat)
    requires Shape(t, h) && ValidPath(t, path)
  {
    exists j :: k <= j <= |path| && StuckAt(f, t, h, path, p, j)
  }

  lemma StuckFromTop(f: Fill, t: Tree, h: nat, path: Path, p: Pool)
    requires Shape(t, h) && ValidPath(t, path)
    ensures Stuck(f, t, h, path, p, 0) <==> StuckAt(f, t, h, path, p, 0) || Stuck(f, t, h, path, p, 1)
  {
  }

  lemma StuckKid(f: Fill, t: Tree, h: nat, path: Path, p: Pool)
    requires Shape(t, h) && ValidPath(t, path) && path != []
    ensures Stuck(f, t, h, path, p, 1) <==> Stuck(f, t.kids[path[0]], h - 1, path[1..], p, 0)
  {
    var c, rest, g := t.kids[path[0]], path[1..], h - 1;
    if Stuck(f, t, h, path, p, 1) {
      var j :| 1 <= j <= |path| && StuckAt(f, t, h, path, p, j);
      StuckBelow(f, t, h, path, p, j);
      assert StuckAt(f, c, g, rest, p, j - 1);
    }
    if Stuck(f, c, g, rest, p, 0) {
      var j :| 0 <= j <= |rest| && StuckAt(f, c, g, rest, p, j);
      StuckBelow(f, t, h, path, p, j + 1);
      assert StuckAt(f, t, h, path, p, j + 1);
    }
  }

  /** The loop indexes with -1 exactly if some node below the root is stuck. */
  lemma {:induction false} GrowFailsExact(f: Fill, t: Tree, h: nat, path: Path, p: Pool)
    requires Shape(t, h) && ValidPath(t, path)
    ensures Grow(f, t, h, path, p).None? <==> Stuck(f, t, h, path, p, 1)
    decreases h
  {
    if path != [] {
      var c, rest := t.kids[path[0]], path[1..];
      GrowFailsExact(f, c, h - 1, rest, p);
      StuckKid(f, t, h, path, p);
      StuckFromTop(f, c, h - 1, rest, p);
      StuckAtRoot(f, c, h - 1, rest, p);
    }
  }

  /** So Put indexes with -1 exactly if some node on the path, the root included, is stuck. */
  lemma PutFailsExact(f: Fill, t: Tree, h: nat, x: Item, p: Pool)
    requires Shape(t, h)
    ensures PutTree(f, t, h, x, p).None? <==> Stuck(f, Inserted(t, h, x), h, SearchPath(t, h, x.key), p, 0)
  {
    var t0, path := Inserted(t, h, x), SearchPath(t, h, x.key);
    GrowFailsExact(f, t0, h, path, p);
    StuckFromTop(f, t0, h, path, p);
    StuckAtRoot(f, t0, h, path, p);
    var g := Grow(f, t0, h, path, p);
    if g.Some? { GrowRootFails(f, g.value.0, h, g.value.1); }
  }

  lemma StuckAtRoot(f: Fill, t: Tree, h: nat, path: Path, p: Pool)
    requires Shape(t, h) && ValidPath(t, path)
    ensures var g := Grow(f, t, h, path, p);
      StuckAt(f, t, h, path, p, 0) <==> g.Some? && NodeSize(g.value.0.items) as real > f.hi && SplitIndex(f, g.value.0.items) == -1
  {
    Ends(path);
  }

  lemma GrowRootFails(f: Fill, t: Tree, h: nat, p: Pool)
    requires Shape(t, h)
    ensures GrowRoot(f, t, h, p).None? <==> NodeSize(t.items) as real > f.hi && SplitIndex(f, t.items) == -1
  {
  }

  /** A root over the maximum becomes the left child of a new root, on a new page; the right child gets another. */
  lemma GrowRootExact(f: Fill, t: Tree, h: nat, p: Pool)
    requires Shape(t, h)
    ensures var r, s := GrowRoot(f, t, h, p), SplitIndex(f, t.items);
      && (NodeSize(t.items) as real <= f.hi ==> r == Some((t, p)))
      && (NodeSize(t.items) as real > f.hi ==> (r.None? <==> s == -1))
      && (NodeSize(t.items) as real > f.hi && s != -1 ==>
        var (page, q) := NextPage(p); var u := r.value.0;
        && u.page == page && u.items == [t.items[s]] && |u.kids| == 2 && r.value.1 == NextPage(q).1
        && u.kids[0].page == t.page && u.kids[0].items == t.items[..s]
        && u.kids[1].page == NextPage(q).0 && u.kids[1].items == t.items[s + 1..])
  {
  }

  // ---------------------------------------------------------------- meaning

  lemma UpsertInNode(n: Tree, h: nat, x: Item)
    requires Shape(n, h) && Sorted(InOrder(n)) && (n.kids == [] || Has(n.items, x.key))
    ensures InOrder(n.(items := Upsert(n.items, x))) == Upsert(InOrder(n), x)
  {
    if n.kids != [] {
      var i := Pos(n.items, x.key);
      var n' := n.(items := n.items[i := x]);
      var a, y, c := Weave(n.items[..i], n.kids[..i + 1]), n.items[i], Weave(n.items[i + 1..], n.kids[i + 1..]);
      FoundSplits(n, h, i);
      ItemInOrder(n, h, i);
      ItemInOrder(n', h, i);
      assert n'.items[..i] == n.items[..i] && n'.items[i + 1..] == n.items[i + 1..];
      LessIrreflexive(x.key);
      assert Pos([y], x.key) == 0 && Upsert([y], x) == [x];
      UpsertInContext(a, [y], c, x);
    }
  }

  lemma UpsertAtPath(t: Tree, h: nat, path: Path, n: Tree, x: Item)
    requires Shape(t, h) && ValidPath(t, path)
    requires AllBelow(Left(t, path), x.key) && AllAbove(x.key, Right(t, path))
    requires InOrder(n) == Upsert(InOrder(Sub(t, path)), x)
    ensures InOrder(Plug(t, path, n)) == Upsert(InOrder(t), x)
  {
    SubInOrder(t, h, path);
    PlugInOrder(t, h, path, n);
    UpsertInContext(Left(t, path), InOrder(Sub(t, path)), Right(t, path), x);
  }

  lemma InsertedInOrder(t: Tree, h: nat, x: Item)
    requires Shape(t, h) && Sorted(InOrder(t))
    ensures InOrder(Inserted(t, h, x)) == Upsert(InOrder(t), x)
  {
    var path := SearchPath(t, h, x.key);
    var n := Sub(t, path);
    SearchSplits(t, h, x.key);
    PathLength(t, h, path);
    UpsertInNode(n, h - |path|, x);
    UpsertAtPath(t, h, path, n.(items := Upsert(n.items, x)), x);
  }

  lemma GrowRootPreserves(f: Fill, t: Tree, h: nat, p: Pool)
    requires Shape(t, h)
    ensures var r := GrowRoot(f, t, h, p);
      r.Some? ==> InOrder(r.value.0) == InOrder(t) && Shape(r.value.0, if r.value.0.page == t.page && !Over(f, t.items) then h else h + 1)
  {
    if Over(f, t.items) {
      var (n, q) := NextPage(p);
      var root := Tree(n, [], [t]);
      assert Shape(root, h + 1);
      SplitKidPreserves(f, root, h + 1, 0, q);
    }
  }

  /** The height of the tree after a put. */
  ghost function PutHeight(f: Fill, t: Tree, h: nat, x: Item, p: Pool): nat
    requires Shape(t, h)
  {
    match Grow(f, Inserted(t, h, x), h, SearchPath(t, h, x.key), p)
    case None => h
    case Some(tq) => if Over(f, tq.0.items) then h + 1 else h
  }

  /** Put is map update, on trees of any height: the new tree denotes the old map with the key set. */
  lemma PutRefines(f: Fill, t: Tree, h: nat, x: Item, p: Pool)
    requires Shape(t, h) && Sorted(InOrder(t))
    requires PutTree(f, t, h, x, p).Some?
    ensures var r := PutTree(f, t, h, x, p).value.0;
      && Shape(r, PutHeight(f, t, h, x, p))
      && InOrder(r) == Upsert(InOrder(t), x)
      && Sorted(InOrder(r))
      && ToMap(InOrder(r)) == ToMap(InOrder(t))[x.key := x.value]
  {
    InsertedInOrder(t, h, x);
    UpsertIsUpdate(InOrder(t), x);
    var g := Grow(f, Inserted(t, h, x), h, SearchPath(t, h, x.key), p);
    GrowRootPreserves(f, g.value.0, h, g.value.1);
  }

  // ---------------------------------------------------------------- pages

  /** r, built while the allocator went from p to q, has the pages of t and those handed out. */
  ghost predicate Gains(t: Tree, p: Pool, r: Tree, q: Pool) {
    Extends(p, q) && forall x :: Uses(r, x) == Uses(t, x) + Taken(p, q, x)
  }

  lemma SplitKidGains(f: Fill, t: Tree, h: nat, i: nat, p: Pool)
    requires h > 0 && Shape(t, h) && i < |t.kids| && Sound(p)
    ensures var r := SplitKid(f, t, h, i, p); r.Some? ==> Gains(t, p, r.value.0, r.value.1)
  {
    var s := SplitIndex(f, t.kids[i].items);
    if !Over(f, t.kids[i].items) { NothingGained(t, p); }
    else if s != -1 { SplitGains(t, h, i, s, p); }
  }

  lemma NothingGained(t: Tree, p: Pool)
    requires Sound(p)
    ensures Gains(t, p, t, p)
  {
  }

  lemma SplitGains(t: Tree, h: nat, i: nat, s: nat, p: Pool)
    requires h > 0 && Shape(t, h) && i < |t.kids| && Shape(t.kids[i], h - 1) && s < |t.kids[i].items| && Sound(p)
    ensures var (n, q) := NextPage(p); Gains(t, p, Split(t, i, s, n), q)
  {
    var (n, q) := NextPage(p);
    NextPageFresh(p);
    SplitPreserves(t, h, i, s, n);
  }

  lemma {:induction false} GrowGains(f: Fill, t: Tree, h: nat, path: Path, p: Pool)
    requires Shape(t, h) && ValidPath(t, path) && Sound(p)
    ensures var r := Grow(f, t, h, path, p); r.Some? ==> Gains(t, p, r.value.0, r.value.1)
    decreases h
  {
    if path != [] {
      var i := path[0];
      GrowGains(f, t.kids[i], h - 1, path[1..], p);
      var g := Grow(f, t.kids[i], h - 1, path[1..], p);
      if g.Some? {
        var (c, q) := g.value;
        var t1 := t.(kids := t.kids[i := c]);
        forall x ensures Uses(t1, x) == Uses(t, x) + Taken(p, q, x) { UsesOfReplace(t.kids, i, c, x); }
        SplitKidGains(f, t1, h, i, q);
      }
    }
  }

  lemma GrowRootGains(f: Fill, t: Tree, h: nat, p: Pool)
    requires Shape(t, h) && Sound(p)
    ensures var r := GrowRoot(f, t, h, p); r.Some? ==> Gains(t, p, r.value.0, r.value.1)
  {
    if Over(f, t.items) {
      NextPageFresh(p);
      var (n, q) := NextPage(p);
      var root := Tree(n, [], [t]);
      forall x ensures Uses(root, x) == Uses(t, x) + Taken(p, q, x) { UsesOfOne(t, x); }
      SplitKidGains(f, root, h + 1, 0, q);
    }
  }

  /** Put gives the tree exactly the pages it allocates, each once. */
  lemma PutGains(f: Fill, t: Tree, h: nat, x: Item, p: Pool)
    requires Shape(t, h) && Sound(p)
    ensures var r := PutTree(f, t, h, x, p); r.Some? ==> Gains(t, p, r.value.0, r.value.1)
  {
    var path := SearchPath(t, h, x.key);
    var n := Sub(t, path);
    forall q ensures Uses(Inserted(t, h, x), q) == Uses(t, q) { PlugUses(t, path, n.(items := Upsert(n.items, x)), q); }
    GrowGains(f, Inserted(t, h, x), h, path, p);
    var g := Grow(f, Inserted(t, h, x), h, path, p);
    if g.Some? { GrowRootGains(f, g.value.0, h, g.value.1); }
  }
}
