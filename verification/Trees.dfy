/**
 * The tree a root page denotes: its nodes, each with the page that holds it, and
 * the in-order item sequence that is its meaning. Paths are the breadcrumbs of
 * a search: the child index taken at each level.
 */
module Trees {
  import opened Seqs
  import opened Items

  /** Page numbers and counters below this fit their 64-bit fields. */
  const UINT64_LIMIT := 0x1_0000_0000_0000_0000

  type PageNum = nat
  type Path = seq<nat>

  datatype Tree = Tree(page: PageNum, items: seq<Item>, kids: seq<Tree>)

  /** The items of t from left to right; items of an internal node lie between its children. */
  function InOrder(t: Tree): seq<Item>
    decreases t, 1
  {
    if |t.kids| == |t.items| + 1 then Weave(t.items, t.kids) else t.items
  }

  function Weave(items: seq<Item>, kids: seq<Tree>): seq<Item>
    requires |kids| == |items| + 1
    decreases kids, 0
  {
    var n := |items|;
    if n == 0 then InOrder(kids[0]) else Weave(items[..n - 1], kids[..n]) + [items[n - 1]] + InOrder(kids[n])
  }

  /** Every leaf is h levels below t, and every internal node has one child more than items. */
  ghost predicate Shape(t: Tree, h: nat)
    decreases h
  {
    if h == 0 then t.kids == []
    else |t.kids| == |t.items| + 1 && forall i :: 0 <= i < |t.kids| ==> Shape(t.kids[i], h - 1)
  }

  /** Every node below t has an item. */
  ghost predicate Full(t: Tree) {
    forall i :: 0 <= i < |t.kids| ==> t.kids[i].items != [] && Full(t.kids[i])
  }

  /** What the tree of a collection keeps: a root with children has an item, and so has every other node. */
  ghost predicate WellFilled(t: Tree) {
    Full(t) && (t.kids != [] ==> t.items != [])
  }

  /** How many nodes of t sit on page p. */
  ghost function Uses(t: Tree, p: PageNum): nat
    decreases t, 1
  {
    (if t.page == p then 1 else 0) + UsesOf(t.kids, p)
  }

  ghost function UsesOf(ts: seq<Tree>, p: PageNum): nat
    decreases ts, 0
  {
    if ts == [] then 0 else UsesOf(ts[..|ts| - 1], p) + Uses(ts[|ts| - 1], p)
  }

  /** Every node of t has a page of its own. */
  ghost predicate Distinct(t: Tree) {
    forall p :: Uses(t, p) <= 1
  }

  // ---------------------------------------------------------------- in-order sequences

  lemma {:induction false} WeaveJoin(i1: seq<Item>, k1: seq<Tree>, x: Item, i2: seq<Item>, k2: seq<Tree>)
    requires |k1| == |i1| + 1 && |k2| == |i2| + 1
    ensures Weave(i1 + [x] + i2, k1 + k2) == Weave(i1, k1) + [x] + Weave(i2, k2)
    decreases |i2|
  {
    var items, kids := i1 + [x] + i2, k1 + k2;
    var n := |items|;
    if i2 == [] {
      assert items[..n - 1] == i1 && kids[..n] == k1;
    } else {
      var m := |i2|;
      WeaveJoin(i1, k1, x, i2[..m - 1], k2[..m]);
      assert items[..n - 1] == i1 + [x] + i2[..m - 1] && kids[..n] == k1 + k2[..m];
    }
  }

  /** What a node contributes to the in-order sequence before its child i. */
  function Before(items: seq<Item>, kids: seq<Tree>, i: nat): seq<Item>
    requires i <= |items| && i <= |kids|
  {
    if i == 0 then [] else Weave(items[..i - 1], kids[..i]) + [items[i - 1]]
  }

  /** What a node contributes after its child i. */
  function After(items: seq<Item>, kids: seq<Tree>, i: nat): seq<Item>
    requires |kids| == |items| + 1 && i <= |items|
  {
    if i == |items| then [] else [items[i]] + Weave(items[i + 1..], kids[i + 1..])
  }

  lemma WeaveAt(items: seq<Item>, kids: seq<Tree>, i: nat)
    requires |kids| == |items| + 1 && i <= |items|
    ensures Weave(items, kids) == Before(items, kids, i) + InOrder(kids[i]) + After(items, kids, i)
  {
    WeaveUpTo(items, kids, i);
    if i < |items| {
      CutAt(items, i);
      CutAt(kids, i);
      WeaveJoin(items[..i], kids[..i + 1], items[i], items[i + 1..], kids[i + 1..]);
      Assoc(Weave(items[..i], kids[..i + 1]), [items[i]], Weave(items[i + 1..], kids[i + 1..]));
    } else {
      assert items[..i] == items && kids[..i + 1] == kids;
    }
  }

  lemma WeaveUpTo(items: seq<Item>, kids: seq<Tree>, i: nat)
    requires i <= |items| && i < |kids|
    ensures Weave(items[..i], kids[..i + 1]) == Before(items, kids, i) + InOrder(kids[i])
  {
    if i > 0 {
      assert items[..i][..i - 1] == items[..i - 1] && kids[..i + 1][..i] == kids[..i];
    }
  }

  lemma Regroup<T>(a: seq<T>, l: seq<T>, x: T, r: seq<T>, c: seq<T>)
    ensures a + l + ([x] + (r + c)) == a + (l + [x] + r) + c
  {
  }

  /** Two neighbouring children with the item between them. */
  lemma WeaveAtPair(items: seq<Item>, kids: seq<Tree>, i: nat)
    requires |kids| == |items| + 1 && i < |items|
    ensures Weave(items, kids)
      == Before(items, kids, i) + (InOrder(kids[i]) + [items[i]] + InOrder(kids[i + 1])) + After(items, kids, i + 1)
  {
    WeaveAt(items, kids, i);
    var it, ks := items[i + 1..], kids[i + 1..];
    var a, l, r := Before(items, kids, i), InOrder(kids[i]), InOrder(kids[i + 1]);
    var c := After(items, kids, i + 1);
    WeaveAt(it, ks, 0);
    assert After(it, ks, 0) == c by {
      if i + 1 < |items| { assert it[1..] == items[i + 2..] && ks[1..] == kids[i + 2..]; }
    }
    assert Before(it, ks, 0) == [] && [] + r == r;
    Regroup(a, l, items[i], r, c);
  }

  /** Only child i of a node changes: so does only its part of the in-order sequence. */
  lemma WeaveReplace(items: seq<Item>, kids: seq<Tree>, i: nat, c: Tree)
    requires |kids| == |items| + 1 && i <= |items|
    ensures Weave(items, kids[i := c]) == Before(items, kids, i) + InOrder(c) + After(items, kids, i)
  {
    WeaveAt(items, kids[i := c], i);
    assert kids[i := c][..i] == kids[..i] && kids[i := c][i + 1..] == kids[i + 1..];
  }

  // ---------------------------------------------------------------- paths

  predicate ValidPath(t: Tree, path: Path) {
    path == [] || (path[0] < |t.kids| && ValidPath(t.kids[path[0]], path[1..]))
  }

  function Sub(t: Tree, path: Path): Tree
    requires ValidPath(t, path)
  {
    if path == [] then t else Sub(t.kids[path[0]], path[1..])
  }

  /** t with the subtree at path replaced by s. */
  function Plug(t: Tree, path: Path, s: Tree): (r: Tree)
    requires ValidPath(t, path)
    ensures path != [] ==> r.page == t.page && r.items == t.items && |r.kids| == |t.kids|
  {
    if path == [] then s
    else t.(kids := t.kids[path[0] := Plug(t.kids[path[0]], path[1..], s)])
  }

  /** The items of t to the left and to the right of the subtree at path. */
  ghost function Left(t: Tree, path: Path): seq<Item>
    requires ValidPath(t, path)
  {
    if path == [] || |t.kids| != |t.items| + 1 then []
    else Before(t.items, t.kids, path[0]) + Left(t.kids[path[0]], path[1..])
  }

  ghost function Right(t: Tree, path: Path): seq<Item>
    requires ValidPath(t, path)
  {
    if path == [] || |t.kids| != |t.items| + 1 then []
    else Right(t.kids[path[0]], path[1..]) + After(t.items, t.kids, path[0])
  }

  lemma {:induction false} PathLength(t: Tree, h: nat, path: Path)
    requires Shape(t, h) && ValidPath(t, path)
    ensures |path| <= h && Shape(Sub(t, path), h - |path|)
  {
    if path != [] { PathLength(t.kids[path[0]], h - 1, path[1..]); }
  }

  lemma {:induction false} PlugSub(t: Tree, path: Path, s: Tree)
    requires ValidPath(t, path)
    ensures ValidPath(Plug(t, path, s), path) && Sub(Plug(t, path, s), path) == s
    ensures Plug(t, path, Sub(t, path)) == t
    ensures forall s2 :: Plug(Plug(t, path, s), path, s2) == Plug(t, path, s2)
  {
    if path != [] { PlugSub(t.kids[path[0]], path[1..], s); }
  }

  /** Replacing the child i of the subtree at path, seen from t. */
  lemma {:induction false} PlugOne(t: Tree, path: Path, i: nat, c: Tree)
    requires ValidPath(t, path) && i < |Sub(t, path).kids|
    ensures ValidPath(t, path + [i])
    ensures Sub(t, path + [i]) == Sub(t, path).kids[i]
    ensures var s := Sub(t, path); Plug(t, path + [i], c) == Plug(t, path, s.(kids := s.kids[i := c]))
  {
    var p := path + [i];
    if path == [] {
      assert p[1..] == [];
    } else {
      assert p[1..] == path[1..] + [i];
      PlugOne(t.kids[path[0]], path[1..], i, c);
    }
  }

  lemma Nest<T>(a: seq<T>, b: seq<T>, m: seq<T>, c: seq<T>, d: seq<T>)
    ensures a + (b + m + c) + d == (a + b) + m + (c + d)
  {
  }

  lemma {:induction false} PlugInOrder(t: Tree, h: nat, path: Path, s: Tree)
    requires Shape(t, h) && ValidPath(t, path)
    ensures InOrder(Plug(t, path, s)) == Left(t, path) + InOrder(s) + Right(t, path)
  {
    if path != [] {
      var i := path[0];
      var c := Plug(t.kids[i], path[1..], s);
      PlugInOrder(t.kids[i], h - 1, path[1..], s);
      WeaveReplace(t.items, t.kids, i, c);
      Nest(Before(t.items, t.kids, i), Left(t.kids[i], path[1..]), InOrder(s), Right(t.kids[i], path[1..]), After(t.items, t.kids, i));
    }
  }

  lemma SubInOrder(t: Tree, h: nat, path: Path)
    requires Shape(t, h) && ValidPath(t, path)
    ensures InOrder(t) == Left(t, path) + InOrder(Sub(t, path)) + Right(t, path)
  {
    PlugInOrder(t, h, path, Sub(t, path));
    PlugSub(t, path, t);
  }

  lemma {:induction false} PlugShape(t: Tree, h: nat, path: Path, s: Tree)
    requires Shape(t, h) && ValidPath(t, path) && |path| <= h && Shape(s, h - |path|)
    ensures Shape(Plug(t, path, s), h)
  {
    if path != [] { PlugShape(t.kids[path[0]], h - 1, path[1..], s); }
  }

  // ---------------------------------------------------------------- pages

  lemma {:induction false} UsesOfAppend(a: seq<Tree>, b: seq<Tree>, p: PageNum)
    ensures UsesOf(a + b, p) == UsesOf(a, p) + UsesOf(b, p)
  {
    if b == [] {
      assert a + b == a;
    } else {
      var n := |b| - 1;
      UsesOfAppend(a, b[..n], p);
      var ab := a + b;
      assert ab[..|ab| - 1] == a + b[..n] && ab[|ab| - 1] == b[n];
    }
  }

  lemma UsesOfOne(t: Tree, p: PageNum)
    ensures UsesOf([t], p) == Uses(t, p)
  {
    assert [t][..0] == [];
  }

  lemma UsesOfAt(ts: seq<Tree>, i: nat, p: PageNum)
    requires i < |ts|
    ensures UsesOf(ts, p) == UsesOf(ts[..i], p) + Uses(ts[i], p) + UsesOf(ts[i + 1..], p)
  {
    assert ts[..i + 1][..i] == ts[..i];
    assert ts == ts[..i + 1] + ts[i + 1..];
    UsesOfAppend(ts[..i + 1], ts[i + 1..], p);
  }

  lemma UsesOfReplace(ts: seq<Tree>, i: nat, c: Tree, p: PageNum)
    requires i < |ts|
    ensures UsesOf(ts[i := c], p) + Uses(ts[i], p) == UsesOf(ts, p) + Uses(c, p)
  {
    UsesOfAt(ts, i, p);
    UsesOfAt(ts[i := c], i, p);
    assert ts[i := c][..i] == ts[..i] && ts[i := c][i + 1..] == ts[i + 1..];
  }

  lemma UsesOfTwo(ts: seq<Tree>, i: nat, j: nat, p: PageNum)
    requires i < |ts| && j < |ts| && i != j
    ensures Uses(ts[i], p) + Uses(ts[j], p) <= UsesOf(ts, p)
  {
    var lo, hi := if i < j then i else j, if i < j then j else i;
    UsesOfAt(ts, hi, p);
    UsesOfAt(ts[..hi], lo, p);
  }

  lemma {:induction false} PlugUses(t: Tree, path: Path, s: Tree, p: PageNum)
    requires ValidPath(t, path)
    ensures Uses(Plug(t, path, s), p) + Uses(Sub(t, path), p) == Uses(t, p) + Uses(s, p)
    ensures Uses(Sub(t, path), p) <= Uses(t, p)
  {
    if path != [] {
      var i := path[0];
      var c := Plug(t.kids[i], path[1..], s);
      PlugUses(t.kids[i], path[1..], s, p);
      UsesOfReplace(t.kids, i, c, p);
      UsesOfAt(t.kids, i, p);
      assert Plug(t, path, s).kids == t.kids[i := c];
    }
  }

  lemma KidUses(t: Tree, i: nat, p: PageNum)
    requires i < |t.kids|
    ensures Uses(t.kids[i], p) <= Uses(t, p)
    ensures p == t.page ==> Uses(t.kids[i], p) < Uses(t, p)
  {
    UsesOfAt(t.kids, i, p);
  }

  // ---------------------------------------------------------------- the store

  /** What a page holds once decoded. */
  datatype NodeRec = NodeRec(items: seq<Item>, childNodes: seq<PageNum>)

  type Store = map<PageNum, NodeRec>

  function KidPages(kids: seq<Tree>): (r: seq<PageNum>)
    ensures |r| == |kids| && forall i :: 0 <= i < |r| ==> r[i] == kids[i].page
  {
    seq(|kids|, i requires 0 <= i < |kids| => kids[i].page)
  }

  function Rec(t: Tree): NodeRec {
    NodeRec(t.items, KidPages(t.kids))
  }

  /** The store holds t at t's pages. */
  ghost predicate Holds(st: Store, t: Tree) {
    t.page in st && st[t.page] == Rec(t) && forall i :: 0 <= i < |t.kids| ==> Holds(st, t.kids[i])
  }

  /** b holds what a holds on every page of t. */
  ghost predicate AgreeOn(a: Store, b: Store, t: Tree) {
    forall p :: p in a && Uses(t, p) > 0 ==> p in b && b[p] == a[p]
  }

  lemma {:induction false} HoldsFrame(a: Store, b: Store, t: Tree)
    requires Holds(a, t) && AgreeOn(a, b, t)
    ensures Holds(b, t)
  {
    forall i | 0 <= i < |t.kids| ensures Holds(b, t.kids[i]) {
      forall p { KidUses(t, i, p); }
      HoldsFrame(a, b, t.kids[i]);
    }
  }

  lemma {:induction false} HoldsSub(st: Store, t: Tree, path: Path)
    requires Holds(st, t) && ValidPath(t, path)
    ensures Holds(st, Sub(t, path))
  {
    if path != [] { HoldsSub(st, t.kids[path[0]], path[1..]); }
  }

  /** Rewriting the pages of a subtree leaves the rest of a tree in place. */
  lemma {:induction false} HoldsPlug(a: Store, b: Store, t: Tree, path: Path, s: Tree)
    requires Holds(a, t) && ValidPath(t, path) && Distinct(t)
    requires s.page == Sub(t, path).page && Holds(b, s)
    requires forall p :: p in a && Uses(t, p) > 0 && Uses(Sub(t, path), p) == 0 ==> p in b && b[p] == a[p]
    ensures Holds(b, Plug(t, path, s))
  {
    if path != [] {
      var i := path[0];
      forall p ensures Uses(Sub(t, path), p) <= Uses(t.kids[i], p) <= Uses(t, p) <= 1 {
        KidUses(t, i, p);
        PlugUses(t.kids[i], path[1..], s, p);
      }
      KidUses(t, i, t.page);
      HoldsPlug(a, b, t.kids[i], path[1..], s);
      forall j | 0 <= j < |t.kids| && j != i ensures Holds(b, t.kids[j]) {
        forall p { UsesOfTwo(t.kids, i, j, p); }
        HoldsFrame(a, b, t.kids[j]);
      }
      var r := Plug(t, path, s);
      assert KidPages(r.kids) == KidPages(t.kids) by {
        PlugPage(t.kids[i], path[1..], s);
      }
    }
  }

  lemma PlugPage(t: Tree, path: Path, s: Tree)
    requires ValidPath(t, path) && s.page == Sub(t, path).page
    ensures Plug(t, path, s).page == t.page
  {
  }
}
