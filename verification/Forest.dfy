/**
 * A write transaction on the whole database (tx.go, collection.go): the root
 * collection, whose items are the other collections' metadata, the collections
 * themselves, and who owns which page.
 */
module Forest {
  import opened Keys
  import opened Items
  import opened Fill
  import opened Trees
  import opened Pool
  import opened TreePut
  import opened TreeRemove
  import opened RemoveProofs
  import opened PutBounds
  import opened HeadCodec

  /**
   * A collection: its tree, the counter of ID, and whether its metadata in the
   * root collection is out of date. issued are the IDs handed out since it was
   * created, by transactions that committed and by this one.
   */
  datatype Coll = Coll(name: Key, tree: Tree, height: nat, counter: nat, dirty: bool, issued: seq<nat>)

  /** The options, and the page of the freelist. */
  datatype Setup = Setup(fill: Fill, freelistPage: PageNum, mode: Mode)

  /**
   * What a write transaction works on. leaked are trees nobody can reach any
   * more but whose pages were not released: old roots, and the trees of deleted
   * or overwritten collections.
   */
  datatype State = State(
    pool: Pool, root: Tree, rootHeight: nat, colls: seq<Coll>, toDelete: seq<PageNum>, leaked: seq<Tree>)

  // ---------------------------------------------------------------- what every state keeps

  ghost predicate GoodTree(f: Fill, t: Tree, h: nat) {
    Shape(t, h) && WellFilled(t) && Sorted(InOrder(t)) && ValidItems(f, InOrder(t))
  }

  function TreesOf(colls: seq<Coll>): (r: seq<Tree>)
    ensures |r| == |colls|
  {
    seq(|colls|, i requires 0 <= i < |colls| => colls[i].tree)
  }

  function One(b: bool): nat {
    if b then 1 else 0
  }

  /** How many owners page p has: the meta page, the freelist, the root collection, the collections, what leaked, what is to be released. */
  ghost function Owners(u: Setup, s: State, p: PageNum): nat {
    One(p == 0) + One(p == u.freelistPage) + Uses(s.root, p) + UsesOf(TreesOf(s.colls), p) + UsesOf(s.leaked, p) + Count(s.toDelete, p)
  }

  /** Every page in use has exactly one owner, every other page has none. */
  ghost predicate Owned(u: Setup, s: State) {
    forall p {:trigger Owners(u, s, p)} :: Owners(u, s, p) == One(InUse(s.pool, p))
  }

  /** Fill rules under which Put never fails and neither Put nor Remove empties a node. */
  predicate Usable(f: Fill) {
    Roomy(f) && f.lo > 11.0
  }

  ghost predicate NamesApart(colls: seq<Coll>) {
    forall i, j :: 0 <= i < j < |colls| ==> colls[i].name != colls[j].name
  }

  predicate IsName(colls: seq<Coll>, name: Key) {
    exists i :: 0 <= i < |colls| && colls[i].name == name
  }

  /** The root collection as a map. */
  function Metadata(s: State): map<Key, seq<Byte>> {
    ToMap(InOrder(s.root))
  }

  function Value(c: Coll): seq<Byte> {
    CollectionValue(c.tree.page, c.counter)
  }

  /** The root collection lists exactly the collections, and is up to date for those not marked dirty. */
  ghost predicate Coherent(s: State) {
    && NamesApart(s.colls)
    && (forall name :: name in Metadata(s) <==> IsName(s.colls, name))
    && (forall name :: name in Metadata(s) ==> |Metadata(s)[name]| == 16)
    && forall c :: c in s.colls && !c.dirty ==> c.name in Metadata(s) && Metadata(s)[c.name] == Value(c)
  }

  ghost predicate GoodTrees(f: Fill, s: State) {
    && GoodTree(f, s.root, s.rootHeight)
    && forall c :: c in s.colls ==> GoodTree(f, c.tree, c.height) && Consecutive(c)
  }

  /** The IDs of a collection are 0, 1, 2 and so on, modulo the width of the counter, and the counter is the next one. */
  ghost predicate Consecutive(c: Coll) {
    c.counter == |c.issued| % UINT64_LIMIT && forall k :: 0 <= k < |c.issued| ==> c.issued[k] == k % UINT64_LIMIT
  }

  ghost predicate Inv(u: Setup, s: State) {
    match u
    case Setup(f, freelistPage, _) =>
      Sound(s.pool) && freelistPage != 0 && Usable(f) && GoodTrees(f, s) && Owned(u, s) && Coherent(s)
  }

  // ---------------------------------------------------------------- pages

  /** t's owners are those of s and the pages handed out since. */
  ghost predicate OwnersGrow(u: Setup, s: State, t: State) {
    Extends(s.pool, t.pool) && forall p {:trigger Owners(u, t, p)} :: Owners(u, t, p) == Owners(u, s, p) + Taken(s.pool, t.pool, p)
  }

  lemma OwnedGrows(u: Setup, s: State, t: State)
    requires Owned(u, s) && OwnersGrow(u, s, t)
    ensures Owned(u, t)
  {
    forall p ensures Owners(u, t, p) == One(InUse(t.pool, p)) {
      assert Owners(u, s, p) == One(InUse(s.pool, p));
    }
  }

  lemma ReplaceColl(colls: seq<Coll>, i: nat, c: Coll, p: PageNum)
    requires i < |colls|
    ensures UsesOf(TreesOf(colls[i := c]), p) + Uses(colls[i].tree, p) == UsesOf(TreesOf(colls), p) + Uses(c.tree, p)
  {
    assert TreesOf(colls[i := c]) == TreesOf(colls)[i := c.tree];
    UsesOfReplace(TreesOf(colls), i, c.tree, p);
  }

  // ---------------------------------------------------------------- Put, Remove and ID on a collection

  /** The collection after its tree, and so perhaps its root page, changed. */
  function WithTree(c: Coll, t: Tree, h: nat): Coll {
    c.(tree := t, height := h, dirty := c.dirty || t.page != c.tree.page)
  }

  /** Put on collection i. */
  ghost function PutIn(u: Setup, s: State, i: nat, x: Item): State
    requires Inv(u, s) && i < |s.colls| && ValidItem(u.fill, x)
  {
    var c := s.colls[i];
    PutSucceeds(u.fill, c.tree, c.height, x, s.pool);
    var (t, q) := PutTree(u.fill, c.tree, c.height, x, s.pool).value;
    s.(pool := q, colls := s.colls[i := WithTree(c, t, PutHeight(u.fill, c.tree, c.height, x, s.pool))])
  }

  lemma PutGood(f: Fill, t: Tree, h: nat, x: Item, p: Pool)
    requires GoodTree(f, t, h) && ValidItem(f, x) && Roomy(f) && Sound(p)
    ensures var r := PutTree(f, t, h, x, p);
      && r.Some? && GoodTree(f, r.value.0, PutHeight(f, t, h, x, p)) && Gains(t, p, r.value.0, r.value.1)
      && ToMap(InOrder(r.value.0)) == ToMap(InOrder(t))[x.key := x.value]
  {
    PutSucceeds(f, t, h, x, p);
    PutRefines(f, t, h, x, p);
    PutGains(f, t, h, x, p);
  }

  /** Putting an item keeps the invariant, and only that collection's map changes. */
  lemma PutInKeeps(u: Setup, s: State, i: nat, x: Item)
    requires Inv(u, s) && i < |s.colls| && ValidItem(u.fill, x)
    ensures var t := PutIn(u, s, i, x);
      && Inv(u, t)
      && ToMap(InOrder(t.colls[i].tree)) == ToMap(InOrder(s.colls[i].tree))[x.key := x.value]
  {
    var c, t := s.colls[i], PutIn(u, s, i, x);
    PutGood(u.fill, c.tree, c.height, x, s.pool);
    forall p ensures Owners(u, t, p) == Owners(u, s, p) + Taken(s.pool, t.pool, p) { ReplaceColl(s.colls, i, t.colls[i], p); }
    OwnedGrows(u, s, t);
    SameNames(s, t);
  }

  /** The same names over the same root collection. */
  lemma SameNames(s: State, t: State)
    requires Coherent(s) && t.root == s.root && |t.colls| == |s.colls|
    requires forall i :: 0 <= i < |s.colls| ==> t.colls[i].name == s.colls[i].name
    requires forall i :: 0 <= i < |s.colls| && !t.colls[i].dirty ==> !s.colls[i].dirty && Value(t.colls[i]) == Value(s.colls[i])
    ensures Coherent(t)
  {
    forall name ensures IsName(t.colls, name) <==> IsName(s.colls, name) {
      if IsName(s.colls, name) {
        var i :| 0 <= i < |s.colls| && s.colls[i].name == name;
        assert t.colls[i].name == name;
      }
    }
  }

  /** The removal of k from t goes where the comments of the code say; always so in the documented mode. */
  ghost predicate Removable(u: Setup, t: Tree, h: nat, k: Key)
    requires GoodTree(u.fill, t, h)
  {
    DescentRight(u.mode, t, h, k) && !DropsLeftChild(u.mode, u.fill, t, h, k)
  }

  /** A root that is dropped keeps its page. */
  function Dropped(t: Tree, dropped: bool): seq<Tree> {
    if dropped then [Tree(t.page, [], [])] else []
  }

  lemma DeleteValid(f: Fill, s: seq<Item>, k: Key)
    requires ValidItems(f, s)
    ensures ValidItems(f, Delete(s, k))
  {
  }

  lemma DroppedUses(t: Tree, dropped: bool, p: PageNum)
    ensures UsesOf(Dropped(t, dropped), p) == One(dropped && p == t.page)
  {
    if dropped { UsesOfOne(Tree(t.page, [], []), p); }
  }

  lemma RemoveGood(u: Setup, t: Tree, h: nat, k: Key)
    requires GoodTree(u.fill, t, h) && Usable(u.fill) && Removable(u, t, h, k)
    ensures var r := RemoveTree(u.mode, u.fill, t, h, k);
      && r.Some? && GoodTree(u.fill, r.value.tree, RemoveHeight(u.mode, u.fill, t, h, k))
      && ToMap(InOrder(r.value.tree)) == ToMap(InOrder(t)) - {k}
      && GivesUp(t, r.value, DropsRoot(u.mode, u.fill, t, h, k))
  {
    RemoveGuarded(u.mode, u.fill, t, h, k);
    RemovePages(u.mode, u.fill, t, h, k);
    DeleteIsRemoval(InOrder(t), k);
    DeleteValid(u.fill, InOrder(t), k);
  }

  lemma CountAppend(a: seq<PageNum>, b: seq<PageNum>, p: PageNum)
    ensures Count(a + b, p) == Count(a, p) + Count(b, p)
  {
  }

  /** Remove on collection i: merged pages are to be released, a dropped root leaks. */
  ghost function RemoveIn(u: Setup, s: State, i: nat, k: Key): State
    requires Inv(u, s) && i < |s.colls| && Removable(u, s.colls[i].tree, s.colls[i].height, k)
  {
    var c := s.colls[i];
    RemoveGood(u, c.tree, c.height, k);
    var r := RemoveTree(u.mode, u.fill, c.tree, c.height, k).value;
    s.(colls := s.colls[i := WithTree(c, r.tree, RemoveHeight(u.mode, u.fill, c.tree, c.height, k))],
       toDelete := s.toDelete + r.deleted,
       leaked := s.leaked + Dropped(c.tree, DropsRoot(u.mode, u.fill, c.tree, c.height, k)))
  }

  lemma RemoveInKeeps(u: Setup, s: State, i: nat, k: Key)
    requires Inv(u, s) && i < |s.colls| && Removable(u, s.colls[i].tree, s.colls[i].height, k)
    ensures var t := RemoveIn(u, s, i, k);
      && Inv(u, t)
      && ToMap(InOrder(t.colls[i].tree)) == ToMap(InOrder(s.colls[i].tree)) - {k}
  {
    var c, t := s.colls[i], RemoveIn(u, s, i, k);
    RemoveGood(u, c.tree, c.height, k);
    var r, d := RemoveTree(u.mode, u.fill, c.tree, c.height, k).value, DropsRoot(u.mode, u.fill, c.tree, c.height, k);
    forall p ensures Owners(u, t, p) == Owners(u, s, p) {
      ReplaceColl(s.colls, i, t.colls[i], p);
      CountAppend(s.toDelete, r.deleted, p);
      UsesOfAppend(s.leaked, Dropped(c.tree, d), p);
      DroppedUses(c.tree, d, p);
    }
    OwnedGrows(u, s, t);
    SameNames(s, t);
  }

  /** ID: the counter, which wraps at 64 bits, is handed out and moves on. */
  function Counted(c: Coll): Coll {
    c.(counter := (c.counter + 1) % UINT64_LIMIT, dirty := true, issued := c.issued + [c.counter])
  }

  /** ID on collection i. */
  function IdIn(s: State, i: nat): (nat, State)
    requires i < |s.colls|
  {
    (s.colls[i].counter, s.(colls := s.colls[i := Counted(s.colls[i])]))
  }

  lemma CountedConsecutive(c: Coll)
    requires Consecutive(c)
    ensures Consecutive(Counted(c))
  {
    var n, m := |c.issued|, UINT64_LIMIT;
    assert n == m * (n / m) + c.counter;
    if c.counter + 1 < m {
      assert n + 1 == m * (n / m) + (c.counter + 1);
    } else {
      assert n + 1 == m * (n / m + 1);
    }
  }

  lemma IdInKeeps(u: Setup, s: State, i: nat)
    requires Inv(u, s) && i < |s.colls|
    ensures Inv(u, IdIn(s, i).1)
  {
    var t := IdIn(s, i).1;
    CountedConsecutive(s.colls[i]);
    assert TreesOf(t.colls) == TreesOf(s.colls);
    forall p ensures Owners(u, t, p) == Owners(u, s, p) {}
    OwnedGrows(u, s, t);
    SameNames(s, t);
  }

  // ---------------------------------------------------------------- the root collection

  /** Put on the root collection. */
  ghost function PutRoot(u: Setup, s: State, x: Item): State
    requires Inv(u, s) && ValidItem(u.fill, x)
  {
    PutSucceeds(u.fill, s.root, s.rootHeight, x, s.pool);
    var (t, q) := PutTree(u.fill, s.root, s.rootHeight, x, s.pool).value;
    s.(pool := q, root := t, rootHeight := PutHeight(u.fill, s.root, s.rootHeight, x, s.pool))
  }

  /** All of the invariant but for the metadata. */
  ghost predicate Sane(u: Setup, s: State) {
    Sound(s.pool) && u.freelistPage != 0 && Usable(u.fill) && GoodTrees(u.fill, s) && Owned(u, s)
  }

  lemma PutRootKeeps(u: Setup, s: State, x: Item)
    requires Inv(u, s) && ValidItem(u.fill, x)
    ensures var t := PutRoot(u, s, x); Sane(u, t) && t.colls == s.colls && Metadata(t) == Metadata(s)[x.key := x.value]
  {
    var t := PutRoot(u, s, x);
    PutGood(u.fill, s.root, s.rootHeight, x, s.pool);
    forall p ensures Owners(u, t, p) == Owners(u, s, p) + Taken(s.pool, t.pool, p) {}
    OwnedGrows(u, s, t);
  }

  /** One turn of flushCollectionMetadata: the metadata of collection i goes into the root collection. */
  ghost function FlushOne(u: Setup, s: State, i: nat): State
    requires Inv(u, s) && i < |s.colls| && ValidItem(u.fill, Item(s.colls[i].name, Value(s.colls[i])))
  {
    var t := PutRoot(u, s, Item(s.colls[i].name, Value(s.colls[i])));
    t.(colls := t.colls[i := t.colls[i].(dirty := false)])
  }

  /** The length of a metadata item depends on the name only. */
  lemma ValueFits(f: Fill, name: Key, v: seq<Byte>, w: seq<Byte>)
    requires |v| == |w| && ValidItem(f, Item(name, v))
    ensures ValidItem(f, Item(name, w))
  {
    assert SumSize([Item(name, v)]) == SumSize([Item(name, w)]) by {
      assert [Item(name, v)][..0] == [] == [Item(name, w)][..0];
    }
  }

  function Clean(colls: seq<Coll>, i: nat): seq<Coll>
    requires i < |colls|
  {
    colls[i := colls[i].(dirty := false)]
  }

  lemma CleanSane(u: Setup, s: State, i: nat)
    requires Sane(u, s) && i < |s.colls|
    ensures Sane(u, s.(colls := Clean(s.colls, i)))
  {
    var t := s.(colls := Clean(s.colls, i));
    assert TreesOf(t.colls) == TreesOf(s.colls);
    forall p ensures Owners(u, t, p) == Owners(u, s, p) {}
    OwnedGrows(u, s, t);
  }

  lemma CleanNames(colls: seq<Coll>, i: nat, name: Key)
    requires i < |colls|
    ensures IsName(Clean(colls, i), name) <==> IsName(colls, name)
    ensures name == colls[i].name ==> IsName(colls, name)
  {
    if IsName(colls, name) {
      var j :| 0 <= j < |colls| && colls[j].name == name;
      assert Clean(colls, i)[j].name == name;
    }
  }

  lemma CleanCoherent(s: State, t: State, i: nat)
    requires Coherent(s) && i < |s.colls| && t.colls == Clean(s.colls, i)
    requires Metadata(t) == Metadata(s)[s.colls[i].name := Value(s.colls[i])]
    ensures Coherent(t)
  {
    forall name ensures name in Metadata(t) <==> IsName(t.colls, name) { CleanNames(s.colls, i, name); }
    forall c | c in t.colls && !c.dirty ensures c.name in Metadata(t) && Metadata(t)[c.name] == Value(c) { CleanValue(s, t, i, c); }
  }

  lemma CleanValue(s: State, t: State, i: nat, c: Coll)
    requires Coherent(s) && i < |s.colls| && t.colls == Clean(s.colls, i) && c in t.colls && !c.dirty
    requires Metadata(t) == Metadata(s)[s.colls[i].name := Value(s.colls[i])]
    ensures c.name in Metadata(t) && Metadata(t)[c.name] == Value(c)
  {
    var j :| 0 <= j < |t.colls| && t.colls[j] == c;
    assert s.colls[j] in s.colls;
  }

  lemma FlushOneKeeps(u: Setup, s: State, i: nat)
    requires Inv(u, s) && i < |s.colls| && ValidItem(u.fill, Item(s.colls[i].name, Value(s.colls[i])))
    ensures var t := FlushOne(u, s, i);
      Inv(u, t) && t.colls == Clean(s.colls, i) && Metadata(t) == Metadata(s)[s.colls[i].name := Value(s.colls[i])]
  {
    var x := Item(s.colls[i].name, Value(s.colls[i]));
    PutRootKeeps(u, s, x);
    CleanSane(u, PutRoot(u, s, x), i);
    CleanCoherent(s, FlushOne(u, s, i), i);
  }

  // ---------------------------------------------------------------- creating and deleting collections

  /** The position of a name among the collections, or -1. */
  function At(colls: seq<Coll>, name: Key): (i: int)
    ensures -1 <= i < |colls| && (i >= 0 ==> colls[i].name == name)
  {
    if colls == [] then -1
    else
      var n := |colls| - 1;
      if colls[n].name == name then n else At(colls[..n], name)
  }

  lemma {:induction false} AtFinds(colls: seq<Coll>, name: Key)
    ensures At(colls, name) == -1 <==> !IsName(colls, name)
  {
    if colls != [] {
      var n := |colls| - 1;
      if IsName(colls, name) && colls[n].name != name {
        var j :| 0 <= j < |colls| && colls[j].name == name;
        assert colls[..n][j].name == name;
      }
      AtFinds(colls[..n], name);
      if At(colls, name) != -1 { assert colls[At(colls, name)].name == name; }
    }
  }

  function Without(colls: seq<Coll>, name: Key): seq<Coll> {
    var i := At(colls, name);
    if i == -1 then colls else colls[..i] + colls[i + 1..]
  }

  /** The tree that leaks when the metadata under a name is overwritten or removed. */
  function Lost(colls: seq<Coll>, name: Key): seq<Tree> {
    var i := At(colls, name);
    if i == -1 then [] else [colls[i].tree]
  }

  lemma WithoutUses(colls: seq<Coll>, name: Key, p: PageNum)
    ensures UsesOf(TreesOf(Without(colls, name)), p) + UsesOf(Lost(colls, name), p) == UsesOf(TreesOf(colls), p)
  {
    var i := At(colls, name);
    if i == -1 {
      assert UsesOf([], p) == 0;
    } else {
      var ts := TreesOf(colls);
      UsesOfAt(ts, i, p);
      UsesOfAppend(ts[..i], ts[i + 1..], p);
      UsesOfOne(colls[i].tree, p);
      assert TreesOf(Without(colls, name)) == ts[..i] + ts[i + 1..];
    }
  }

  /** What is left are the collections of other names. */
  lemma WithoutNames(colls: seq<Coll>, name: Key)
    requires NamesApart(colls)
    ensures var w := Without(colls, name);
      && NamesApart(w)
      && (forall c :: c in w <==> c in colls && c.name != name)
      && (forall n :: IsName(w, n) <==> n != name && IsName(colls, n))
  {
    var i, w := At(colls, name), Without(colls, name);
    AtFinds(colls, name);
    if i != -1 {
      forall j | 0 <= j < |w| ensures w[j] == colls[if j < i then j else j + 1] && w[j].name != name {
        assert colls[i].name == name;
      }
      forall c | c in colls && c.name != name ensures c in w {
        var j :| 0 <= j < |colls| && colls[j] == c;
        assert w[if j < i then j else j - 1] == c;
      }
    }
    forall n ensures IsName(w, n) <==> n != name && IsName(colls, n) {
      if n != name && IsName(colls, n) {
        var j :| 0 <= j < |colls| && colls[j].name == n;
        assert colls[j] in w;
        var k :| 0 <= k < |w| && w[k] == colls[j];
      }
    }
  }
}
