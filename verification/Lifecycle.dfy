/** Creating and deleting collections, and flushing their metadata (tx.go). */
module Lifecycle {
  import opened Keys
  import opened Items
  import opened Fill
  import opened Trees
  import opened Pool
  import opened TreeRemove
  import opened RemoveProofs
  import opened Forest

  // ---------------------------------------------------------------- CreateCollection

  function Leaf(page: PageNum): Tree {
    Tree(page, [], [])
  }

  /** A page is handed out for an empty root that no collection has yet. */
  function Allocated(s: State): State {
    var (n, q) := NextPage(s.pool);
    s.(pool := q, leaked := s.leaked + [Leaf(n)])
  }

  lemma AllocatedKeeps(u: Setup, s: State)
    requires Inv(u, s)
    ensures Inv(u, Allocated(s)) && Extends(s.pool, Allocated(s).pool)
  {
    var t, n := Allocated(s), NextPage(s.pool).0;
    NextPageFresh(s.pool);
    forall p ensures Owners(u, t, p) == Owners(u, s, p) + Taken(s.pool, t.pool, p) {
      UsesOfAppend(s.leaked, [Leaf(n)], p);
      UsesOfOne(Leaf(n), p);
    }
    OwnedGrows(u, s, t);
  }

  function NewColl(name: Key, page: PageNum): Coll {
    Coll(name, Leaf(page), 0, 0, false, [])
  }

  /** CreateCollection. A name too long for an item is an error; the page handed out then leaks. A name in use is overwritten. */
  ghost function Create(u: Setup, s: State, name: Key): State
    requires Inv(u, s)
  {
    AllocatedKeeps(u, s);
    var a, c := Allocated(s), NewColl(name, NextPage(s.pool).0);
    if !ValidItem(u.fill, Item(name, Value(c))) then a
    else
      var b := PutRoot(u, a, Item(name, Value(c)));
      b.(colls := Without(s.colls, name) + [c], leaked := s.leaked + Lost(s.colls, name))
  }

  /** The new leaf passes from the leaked trees to the collections, an overwritten tree the other way. */
  lemma SwapOwners(u: Setup, s: State, b: State, t: State, c: Coll, p: PageNum)
    requires b.colls == s.colls && b.leaked == s.leaked + [c.tree]
    requires t == b.(colls := Without(s.colls, c.name) + [c], leaked := s.leaked + Lost(s.colls, c.name))
    ensures Owners(u, t, p) == Owners(u, b, p)
  {
    var w := Without(s.colls, c.name);
    assert TreesOf(w + [c]) == TreesOf(w) + [c.tree];
    UsesOfAppend(TreesOf(w), [c.tree], p);
    UsesOfAppend(s.leaked, [c.tree], p);
    UsesOfAppend(s.leaked, Lost(s.colls, c.name), p);
    WithoutUses(s.colls, c.name, p);
  }

  /** Collections w and a new one of another name, over a root collection that gained its metadata. */
  lemma CreatedCoherent(s: State, t: State, c: Coll)
    requires Coherent(s) && t.colls == Without(s.colls, c.name) + [c]
    requires Metadata(t) == Metadata(s)[c.name := Value(c)]
    ensures Coherent(t)
  {
    var w := Without(s.colls, c.name);
    WithoutNames(s.colls, c.name);
    assert forall i :: 0 <= i < |w| ==> w[i] in w;
    forall name ensures name in Metadata(t) <==> IsName(t.colls, name) {
      assert t.colls[|w|].name == c.name;
      if IsName(w, name) {
        var i :| 0 <= i < |w| && w[i].name == name;
        assert t.colls[i].name == name;
      }
    }
  }

  /** The collections change hands; trees stay good, and pages owned. */
  lemma CreatedSane(u: Setup, s: State, b: State, t: State, c: Coll)
    requires Sane(u, s) && NamesApart(s.colls) && Sane(u, b)
    requires b.colls == s.colls && b.leaked == s.leaked + [c.tree] && c.tree == Leaf(c.tree.page) && c.height == 0 && Consecutive(c)
    requires t == b.(colls := Without(s.colls, c.name) + [c], leaked := s.leaked + Lost(s.colls, c.name))
    ensures Sane(u, t)
  {
    forall p ensures Owners(u, t, p) == Owners(u, b, p) { SwapOwners(u, s, b, t, c, p); }
    OwnedGrows(u, b, t);
    WithoutNames(s.colls, c.name);
    assert GoodTree(u.fill, c.tree, 0);
  }

  lemma CreateKeeps(u: Setup, s: State, name: Key)
    requires Inv(u, s)
    ensures Inv(u, Create(u, s, name))
  {
    AllocatedKeeps(u, s);
    var a, t, c := Allocated(s), Create(u, s, name), NewColl(name, NextPage(s.pool).0);
    if ValidItem(u.fill, Item(name, Value(c))) {
      PutRootKeeps(u, a, Item(name, Value(c)));
      CreatedSane(u, s, PutRoot(u, a, Item(name, Value(c))), t, c);
      CreatedCoherent(a, t, c);
    }
  }

  // ---------------------------------------------------------------- DeleteCollection

  /** DeleteCollection: the metadata goes; the collection's tree leaks. */
  ghost function DropColl(u: Setup, s: State, name: Key): State
    requires Inv(u, s) && Removable(u, s.root, s.rootHeight, name)
  {
    RemoveGood(u, s.root, s.rootHeight, name);
    var r := RemoveTree(u.mode, u.fill, s.root, s.rootHeight, name).value;
    State(s.pool, r.tree, RemoveHeight(u.mode, u.fill, s.root, s.rootHeight, name), Without(s.colls, name),
      s.toDelete + r.deleted, s.leaked + Dropped(s.root, DropsRoot(u.mode, u.fill, s.root, s.rootHeight, name)) + Lost(s.colls, name))
  }

  lemma DropCollOwners(u: Setup, s: State, name: Key, p: PageNum)
    requires Inv(u, s) && Removable(u, s.root, s.rootHeight, name)
    ensures Owners(u, DropColl(u, s, name), p) == Owners(u, s, p)
  {
    RemoveGood(u, s.root, s.rootHeight, name);
    var r, d := RemoveTree(u.mode, u.fill, s.root, s.rootHeight, name).value, DropsRoot(u.mode, u.fill, s.root, s.rootHeight, name);
    CountAppend(s.toDelete, r.deleted, p);
    UsesOfAppend(s.leaked + Dropped(s.root, d), Lost(s.colls, name), p);
    UsesOfAppend(s.leaked, Dropped(s.root, d), p);
    DroppedUses(s.root, d, p);
    WithoutUses(s.colls, name, p);
  }

  lemma DroppedCoherent(s: State, t: State, name: Key)
    requires Coherent(s) && t.colls == Without(s.colls, name) && Metadata(t) == Metadata(s) - {name}
    ensures Coherent(t)
  {
    WithoutNames(s.colls, name);
  }

  lemma DropCollKeeps(u: Setup, s: State, name: Key)
    requires Inv(u, s) && Removable(u, s.root, s.rootHeight, name)
    ensures var t := DropColl(u, s, name); Inv(u, t) && Metadata(t) == Metadata(s) - {name}
  {
    var t := DropColl(u, s, name);
    RemoveGood(u, s.root, s.rootHeight, name);
    forall p ensures Owners(u, t, p) == Owners(u, s, p) { DropCollOwners(u, s, name, p); }
    OwnedGrows(u, s, t);
    WithoutNames(s.colls, name);
    DroppedCoherent(s, t, name);
  }

  // ---------------------------------------------------------------- flushCollectionMetadata

  /** The metadata of a collection that exists fits the root collection. */
  lemma MetadataFits(u: Setup, s: State, i: nat)
    requires Inv(u, s) && i < |s.colls|
    ensures ValidItem(u.fill, Item(s.colls[i].name, Value(s.colls[i])))
  {
    var c, items := s.colls[i], InOrder(s.root);
    assert IsName(s.colls, c.name);
    HasIsKey(items, c.name);
    var x := items[Pos(items, c.name)];
    ValueFits(u.fill, c.name, x.value, Value(c));
  }
}
