/** Collections (collection.go): Put, Find, Remove and ID on a tree reached through a transaction. */
module Collections {
  import opened Seqs
  import opened Maybe
  import opened Keys
  import opened Items
  import opened Fill
  import opened Trees
  import opened Pool
  import opened TreeSearch
  import opened TreePut
  import opened TreeRemove
  import opened RemoveProofs
  import opened RemoveOutcome
  import opened Engine
  import opened NodeOps
  import opened Walks
  import opened PathWork

  /** How a call ends: the errors of the source, and its index panics. */
  datatype Outcome = Done | WriteInsideReadTx | ItemTooLarge | IndexOutOfRange

  /** A new root is noted in the transaction for the root collection, and else as metadata to be flushed. */
  predicate RootMoved(rootCollection: bool, write: bool, was: PageNum, root: PageNum, wasTxRoot: PageNum, txRoot: PageNum, wasDirty: bool, dirty: bool) {
    && txRoot == (if rootCollection && root != was then root else wasTxRoot)
    && dirty == (wasDirty || (!rootCollection && write && root != was))
  }

  class Collection {
    const tx: Tx
    const rootCollection: bool
    var root: PageNum
    var counter: nat
    var dirtyMeta: bool

    constructor (tx: Tx, rootCollection: bool, root: PageNum, counter: nat)
      ensures this.tx == tx && this.rootCollection == rootCollection
      ensures this.root == root && this.counter == counter && !dirtyMeta
    {
      this.tx := tx;
      this.rootCollection := rootCollection;
      this.root := root;
      this.counter := counter;
      dirtyMeta := false;
    }

    /** markMetadataDirty: only handles of ordinary collections in write transactions need flushing. */
    method MarkMetadataDirty()
      modifies this`dirtyMeta
      ensures dirtyMeta == (old(dirtyMeta) || (!rootCollection && tx.write))
    {
      if rootCollection || !tx.write {
        return;
      }
      dirtyMeta := true;
    }

    /** setRoot: the root collection's root lives in the transaction, that of others in their metadata. */
    method SetRoot(newRoot: PageNum)
      modifies this`root, this`dirtyMeta, tx`root
      ensures root == newRoot
      ensures RootMoved(rootCollection, tx.write, old(root), root, old(tx.root), tx.root, old(dirtyMeta), dirtyMeta)
    {
      if root == newRoot {
        return;
      }
      root := newRoot;
      if rootCollection {
        tx.root := newRoot;
        return;
      }
      MarkMetadataDirty();
    }

    /** ID: the counter's value before the call; the 64-bit counter wraps. */
    method ID() returns (id: nat)
      requires counter < UINT64_LIMIT
      modifies this`counter, this`dirtyMeta
      ensures !tx.write ==> id == 0 && counter == old(counter) && dirtyMeta == old(dirtyMeta)
      ensures tx.write ==> id == old(counter) && counter == (old(counter) + 1) % UINT64_LIMIT
      ensures tx.write ==> dirtyMeta == (old(dirtyMeta) || !rootCollection)
    {
      if !tx.write {
        return 0;
      }
      id := counter;
      counter := if counter + 1 == UINT64_LIMIT then 0 else counter + 1;
      MarkMetadataDirty();
    }

    /** The collection's tree t, of height h, is in the view and sorted. */
    ghost predicate HasTree(t: Tree, h: nat)
      reads *
    {
      root == t.page && Ready(tx, t) && Shape(t, h) && Sorted(InOrder(t))
    }

    /** Find: the item with the key, by the tree's in-order sequence. */
    method Find(key: Key, ghost t: Tree, ghost h: nat) returns (item: Option<Item>)
      requires HasTree(t, h)
      ensures key in ToMap(InOrder(t)) <==> item.Some?
      ensures item.Some? ==> item.value.key == key && item.value.value == ToMap(InOrder(t))[key]
    {
      var n := GetHeld(tx, root, t);
      var index, containing, trail := FindKey(tx, n, key, true, t, h);
      SearchFinds(t, h, key);
      HasIsKey(InOrder(t), key);
      if index == -1 {
        return None;
      }
      return Some(containing.items[index]);
    }
  
    /** The first part of Put: the item goes into the node found by the search. */
    method Insert(item: Item, ghost t: Tree, ghost h: nat) returns (trail: seq<nat>, ghost u: Tree)
      requires HasTree(t, h)
      modifies tx`dirtyNodes, tx`view, tx.dirtyNodes.Values
      ensures trail == [0] + SearchPath(t, h, item.key)
      ensures u == Inserted(t, h, item) && u.page == t.page && Ready(tx, u) && forall p :: Uses(u, p) == Uses(t, p)
      ensures Untouched(t, tx.freelist.State(), old(tx.view), tx.view, old(tx.dirtyNodes), tx.dirtyNodes)
      ensures forall n :: n in tx.dirtyNodes.Values ==> n in old(tx.dirtyNodes.Values) || fresh(n)
    {
      var rootNode := GetHeld(tx, root, t);
      var index, node, crumbs := FindKey(tx, rootNode, item.key, false, t, h);
      trail := crumbs;
      ghost var path := SearchPath(t, h, item.key);
      ghost var s := Sub(t, path);
      ghost var s' := s.(items := Upsert(s.items, item));
      node.PutItem(item, index);
      u := WriteChanged(tx, node, t, path, s');
      PlugPage(t, path, s');
    }
  
    /** The last part of Put: an overpopulated root is split under a new root. */
    method GrowUp(rootNode: Node, ghost t: Tree, ghost h: nat) returns (ok: bool, ghost u: Tree)
      requires root == t.page && Ready(tx, t) && Shape(t, h) && Stands(tx, rootNode, t)
      modifies tx`dirtyNodes, tx`view, tx`root, tx.freelist, rootNode, this`root, this`dirtyMeta
      ensures ok <==> GrowRoot(tx.db.fill, t, h, old(tx.freelist.State())).Some?
      ensures ok ==> (u, tx.freelist.State()) == GrowRoot(tx.db.fill, t, h, old(tx.freelist.State())).value
      ensures ok ==> Ready(tx, u) && root == u.page
      ensures ok ==> Untouched(t, old(tx.freelist.State()), old(tx.view), tx.view, old(tx.dirtyNodes), tx.dirtyNodes)
      ensures RootMoved(rootCollection, tx.write, old(root), root, old(tx.root), tx.root, old(dirtyMeta), dirtyMeta)
    {
      ok, u := true, t;
      if NodeSize(rootNode.items) as real > tx.db.fill.hi {
        var newRoot: Node;
        ok, newRoot, u := SplitRoot(tx, rootNode, t, h);
        if ok {
          SetRoot(newRoot.pageNum);
        }
      }
    }

    /** Put on a tree: insert, split upwards, grow at the root. */
    method PutInTree(item: Item, ghost t: Tree, ghost h: nat) returns (ok: bool, ghost u: Tree)
      requires HasTree(t, h)
      modifies this`root, this`dirtyMeta, tx`dirtyNodes, tx`view, tx`root, tx.freelist, tx.dirtyNodes.Values
      ensures !ok ==> PutTree(tx.db.fill, t, h, item, old(tx.freelist.State())).None?
      ensures ok ==> PutTree(tx.db.fill, t, h, item, old(tx.freelist.State())) == Some((u, tx.freelist.State()))
      ensures ok ==> Ready(tx, u) && root == u.page
      ensures ok ==> Untouched(t, old(tx.freelist.State()), old(tx.view), tx.view, old(tx.dirtyNodes), tx.dirtyNodes)
      ensures RootMoved(rootCollection, tx.write, old(root), root, old(tx.root), tx.root, old(dirtyMeta), dirtyMeta)
    {
      ghost var pool, path := tx.freelist.State(), SearchPath(t, h, item.key);
      var trail: seq<nat>;
      trail, u := Insert(item, t, h);
      ghost var t1, view1, filed1 := u, tx.view, tx.dirtyNodes;
      var nodes := GetNodes(tx, root, trail, t1, path);
      ok, u := SplitUpwards(tx, nodes, trail[1..], t1, h);
      if !ok {
        return;
      }
      GrowGains(tx.db.fill, t1, h, path, pool);
      ghost var t2, view2, filed2, pool2 := u, tx.view, tx.dirtyNodes, tx.freelist.State();
      UntouchedTwice(t, pool, t1, pool, old(tx.view), view1, view2, old(tx.dirtyNodes), filed1, filed2);
      ok, u := GrowUp(nodes[0], t2, h);
      if !ok {
        return;
      }
      UntouchedTwice(t, pool, t2, pool2, old(tx.view), view2, tx.view, old(tx.dirtyNodes), filed2, tx.dirtyNodes);
    }

    /** Put. The ghost arguments are the collection's tree and its height; u is the tree afterwards. */
    method Put(key: Key, value: seq<Byte>, ghost t: Tree, ghost h: nat) returns (r: Outcome, ghost u: Tree)
      requires root != 0 ==> HasTree(t, h)
      requires root == 0 ==> tx.Valid() && tx.InSync({})
      modifies this`root, this`dirtyMeta, tx`dirtyNodes, tx`view, tx`root, tx.freelist, tx.dirtyNodes.Values
      ensures r == WriteInsideReadTx <==> !tx.write
      ensures r == ItemTooLarge <==> tx.write && !ValidItem(tx.db.fill, Item(key, value))
      ensures r == ItemTooLarge <==> tx.write && (|key| > 255 || |value| > 255 || |key| + |value| + 19 > tx.db.fill.pageSize)
      ensures r == WriteInsideReadTx || r == ItemTooLarge ==> unchanged(this, tx, tx.freelist) && tx.Valid() && tx.InSync({})
      ensures r == IndexOutOfRange ==> old(root) != 0 && PutTree(tx.db.fill, t, h, Item(key, value), old(tx.freelist.State())).None?
      ensures r == Done && old(root) == 0 ==> (root, tx.freelist.State()) == NextPage(old(tx.freelist.State())) && u == Tree(root, [Item(key, value)], [])
      ensures r == Done && old(root) != 0 ==> PutTree(tx.db.fill, t, h, Item(key, value), old(tx.freelist.State())) == Some((u, tx.freelist.State()))
      ensures r == Done ==> Ready(tx, u) && root == u.page
      ensures r == Done && old(root) != 0 ==> Untouched(t, old(tx.freelist.State()), old(tx.view), tx.view, old(tx.dirtyNodes), tx.dirtyNodes)
      ensures RootMoved(rootCollection, tx.write, old(root), root, old(tx.root), tx.root, old(dirtyMeta), dirtyMeta)
    {
      u := t;
      if !tx.write {
        return WriteInsideReadTx, t;
      }
      var i := Item(key, value);
      ValidItemExact(tx.db.fill, i);
      if !ValidItem(tx.db.fill, i) {
        return ItemTooLarge, t;
      }
      if root == 0 {
        var newRoot := tx.WriteNewNode([i], []);
        SetRoot(newRoot.pageNum);
        LeafUses(newRoot.pageNum, [i]);
        return Done, Tree(newRoot.pageNum, [i], []);
      }
      var ok;
      ok, u := PutInTree(i, t, h);
      r := if ok then Done else IndexOutOfRange;
    }

    /** Remove. The ghost arguments are the collection's tree and its height; u is the tree afterwards. */
    method Remove(mode: Mode, key: Key, ghost t: Tree, ghost h: nat) returns (r: Outcome, ghost u: Tree)
      requires HasTree(t, h) && WellFilled(t)
      modifies this`root, this`dirtyMeta, tx`dirtyNodes, tx`view, tx`root, tx`pagesToDelete, tx.dirtyNodes.Values
      ensures r == WriteInsideReadTx <==> !tx.write
      ensures r == WriteInsideReadTx ==> unchanged(this, tx) && tx.Valid() && tx.InSync({})
      ensures r != ItemTooLarge
      ensures r == IndexOutOfRange <==> tx.write && IndexesPast(mode, t, h, key)
      ensures r == IndexOutOfRange ==> RemoveTree(mode, tx.db.fill, t, h, key).None?
      ensures r == Done ==>
        var x := RemoveTree(mode, tx.db.fill, t, h, key);
        x.Some? && u == x.value.tree && tx.pagesToDelete == old(tx.pagesToDelete) + x.value.deleted
      ensures r == Done ==> tx.Valid() && tx.InSync({}) && Holds(tx.view, u) && root == u.page
      ensures r == Done ==> Untouched(t, tx.freelist.State(), old(tx.view), tx.view, old(tx.dirtyNodes), tx.dirtyNodes)
      ensures RootMoved(rootCollection, tx.write, old(root), root, old(tx.root), tx.root, old(dirtyMeta), dirtyMeta)
    {
      u := t;
      if !tx.write {
        return WriteInsideReadTx, t;
      }
      RemoveFailsExact(mode, tx.db.fill, t, h, key);
      var rootNode := GetHeld(tx, root, t);
      var index, n, trail := FindKey(tx, rootNode, key, true, t, h);
      if index == -1 {
        return Done, t;
      }
      var ok;
      ok, u := RemoveAt(mode, n, index, trail, t, h, key);
      r := if ok then Done else IndexOutOfRange;
    }

    /** Remove from the node n found by the search. */
    method RemoveAt(mode: Mode, n: Node, index: nat, trail: seq<nat>, ghost t: Tree, ghost h: nat, ghost k: Key) returns (ok: bool, ghost u: Tree)
      requires HasTree(t, h) && WellFilled(t) && trail == [0] + SearchPath(t, h, k)
      requires var s := Sub(t, SearchPath(t, h, k)); Has(s.items, k) && index == Pos(s.items, k) && Stands(tx, n, s)
      modifies this`root, this`dirtyMeta, tx`dirtyNodes, tx`view, tx`root, tx`pagesToDelete, n, tx.dirtyNodes.Values
      ensures !ok ==> RemoveTree(mode, tx.db.fill, t, h, k).None?
      ensures ok ==>
        var x := RemoveTree(mode, tx.db.fill, t, h, k);
        x.Some? && u == x.value.tree && tx.pagesToDelete == old(tx.pagesToDelete) + x.value.deleted
      ensures ok ==> tx.Valid() && tx.InSync({}) && Holds(tx.view, u) && root == u.page
      ensures ok ==> Untouched(t, tx.freelist.State(), old(tx.view), tx.view, old(tx.dirtyNodes), tx.dirtyNodes)
      ensures RootMoved(rootCollection, tx.write, old(root), root, old(tx.root), tx.root, old(dirtyMeta), dirtyMeta)
    {
      ghost var t1: Tree, touched: set<Node>, affected: Path;
      var longTrail: seq<nat>;
      ok, longTrail, affected, t1, touched := TakeOut(tx, mode, n, index, trail, t, h, k);
      u := t1;
      if !ok {
        return;
      }
      ghost var view1, filed1 := tx.view, tx.dirtyNodes;
      u := Finish(mode, longTrail, t1, h, affected);
      UntouchedTwice(t, tx.freelist.State(), t1, tx.freelist.State(), old(tx.view), view1, tx.view, old(tx.dirtyNodes), filed1, tx.dirtyNodes);
    }

    /** The rest of Remove: rebalance upwards, then drop a root that has run empty. */
    method Finish(mode: Mode, trail: seq<nat>, ghost t: Tree, ghost h: nat, ghost path: Path) returns (ghost u: Tree)
      requires root == t.page && Ready(tx, t) && Shape(t, h) && trail == [0] + path
      requires ValidPath(t, path) && NearFull(t, path) && Sub(t, path).kids == []
      modifies this`root, this`dirtyMeta, tx`dirtyNodes, tx`view, tx`root, tx`pagesToDelete, tx.dirtyNodes.Values
      ensures u == Collapsed(mode, tx.db.fill, t, h, path)
      ensures tx.pagesToDelete == old(tx.pagesToDelete) + Fix(tx.db.fill, t, h, path).deleted
      ensures tx.Valid() && tx.InSync({}) && Holds(tx.view, u) && root == u.page
      ensures Untouched(t, tx.freelist.State(), old(tx.view), tx.view, old(tx.dirtyNodes), tx.dirtyNodes)
      ensures RootMoved(rootCollection, tx.write, old(root), root, old(tx.root), tx.root, old(dirtyMeta), dirtyMeta)
    {
      var newRoot;
      newRoot, u := RebalancedRoot(tx, root, mode, trail, t, h, path);
      SetRoot(newRoot);
    }
  }

  /** Rebalancing upwards, and the page of the root that is left. */
  method RebalancedRoot(tx: Tx, root: PageNum, mode: Mode, trail: seq<nat>, ghost t: Tree, ghost h: nat, ghost path: Path) returns (newRoot: PageNum, ghost u: Tree)
    requires root == t.page && Ready(tx, t) && Shape(t, h) && trail == [0] + path
    requires ValidPath(t, path) && NearFull(t, path) && Sub(t, path).kids == []
    modifies tx`dirtyNodes, tx`view, tx`pagesToDelete, tx.dirtyNodes.Values
    ensures u == Collapsed(mode, tx.db.fill, t, h, path) && newRoot == u.page
    ensures tx.pagesToDelete == old(tx.pagesToDelete) + Fix(tx.db.fill, t, h, path).deleted
    ensures tx.Valid() && tx.InSync({}) && Holds(tx.view, u)
    ensures Untouched(t, tx.freelist.State(), old(tx.view), tx.view, old(tx.dirtyNodes), tx.dirtyNodes)
  {
    var nodes := GetNodes(tx, root, trail, t, path);
    u := RebalanceUpwards(tx, nodes, trail[1..], t, h);
    newRoot, u := SurvivingRoot(tx, mode, nodes, t, h, path);
  }

  /** The end of Remove: which page is the root now. A root that has run empty is left out. */
  method SurvivingRoot(tx: Tx, mode: Mode, nodes: seq<Node>, ghost t: Tree, ghost h: nat, ghost path: Path) returns (newRoot: PageNum, ghost u: Tree)
    requires Shape(t, h) && ValidPath(t, path) && NearFull(t, path) && Sub(t, path).kids == []
    requires var r := Fix(tx.db.fill, t, h, path).tree;
      nodes != [] && Holds(tx.view, r) && Stands(tx, nodes[0], r)
    requires MergedKept(tx, t, h, path, 0)
    requires |nodes| == |path| + 1 && (path != [] ==> ValidPath(t, path[..1]) && nodes[1].pageNum == Sub(t, path[..1]).page)
    ensures u == Collapsed(mode, tx.db.fill, t, h, path) && newRoot == u.page && Holds(tx.view, u)
  {
    var rootNode := nodes[0];
    u := Fix(tx.db.fill, t, h, path).tree;
    if rootNode.items != [] || rootNode.childNodes == [] {
      return rootNode.pageNum, u;
    }
    NewRootOf(mode, tx.db.fill, t, h, path);
    u := Collapsed(mode, tx.db.fill, t, h, path);
    newRoot := if mode == AsWritten then nodes[1].pageNum else rootNode.childNodes[0];
  }

  /** Which page becomes the root when the old one has run empty, and which tree is there. */
  lemma NewRootOf(mode: Mode, f: Fill, t: Tree, h: nat, path: Path)
    requires Shape(t, h) && ValidPath(t, path) && NearFull(t, path) && Sub(t, path).kids == []
    requires var r := Fix(f, t, h, path).tree; r.items == [] && r.kids != []
    ensures path != [] && ValidPath(t, path[..1])
    ensures var c, r := Collapsed(mode, f, t, h, path), Fix(f, t, h, path).tree;
      && c.page == (if mode == AsWritten then Sub(t, path[..1]).page else r.kids[0].page)
      && (c == r.kids[0]
        || var s := FixedBelow(f, t, h, path, 0);
          path[0] == 1 && c == s.kids[1] && Under(f, c.items) && Rebalance(f, s, h, 1).deleted != [])
  {
    EmptiedRoot(f, t, h, path);
    FixTurn(f, t, h, path, 0);
    FixAtEnds(f, t, h, path);
    assert path[..1][1..] == [];
  }

  /** The first part of Remove, where the item is in a leaf n. */
  method TakeOutOfLeaf(tx: Tx, mode: Mode, n: Node, index: nat, ghost t: Tree, ghost h: nat, ghost k: Key) returns (ghost u: Tree)
    requires Ready(tx, t) && Shape(t, h) && WellFilled(t)
    requires var s := Sub(t, SearchPath(t, h, k)); s.kids == [] && Has(s.items, k) && index == Pos(s.items, k) && Stands(tx, n, s)
    modifies tx`dirtyNodes, tx`view, n
    ensures Removal(mode, t, h, k) == Some((u, SearchPath(t, h, k))) && u.page == t.page
    ensures Ready(tx, u) && forall p :: Uses(u, p) == Uses(t, p)
    ensures Untouched(t, tx.freelist.State(), old(tx.view), tx.view, old(tx.dirtyNodes), tx.dirtyNodes)
    ensures FiledFrom(old(tx.dirtyNodes), tx.dirtyNodes, {n})
  {
    ghost var path := SearchPath(t, h, k);
    ghost var s' := TakenOut(Sub(t, path), index, []);
    n.RemoveItem(index);
    u := WriteChanged(tx, n, t, path, s');
    PlugPage(t, path, s');
  }

  /** The first part of Remove, where the item is in an internal node n. */
  method TakeOutOfInternal(tx: Tx, mode: Mode, n: Node, index: nat, ghost t: Tree, ghost h: nat, ghost k: Key)
    returns (ok: bool, affected: seq<nat>, ghost u: Tree, ghost leafNode: Node)
    requires Ready(tx, t) && Shape(t, h) && WellFilled(t)
    requires var s := Sub(t, SearchPath(t, h, k)); s.kids != [] && Has(s.items, k) && index == Pos(s.items, k) && Stands(tx, n, s)
    modifies tx`dirtyNodes, tx`view, n, tx.dirtyNodes.Values
    ensures !ok ==> Removal(mode, t, h, k).None?
    ensures ok ==> Removal(mode, t, h, k) == Some((u, SearchPath(t, h, k) + affected)) && u.page == t.page
    ensures ok ==> Ready(tx, u) && forall p :: Uses(u, p) == Uses(t, p)
    ensures ok ==> Untouched(t, tx.freelist.State(), old(tx.view), tx.view, old(tx.dirtyNodes), tx.dirtyNodes)
    ensures FiledFrom(old(tx.dirtyNodes), tx.dirtyNodes, {n, leafNode}) && (leafNode in old(tx.dirtyNodes.Values) || fresh(leafNode))
  {
    ghost var path := SearchPath(t, h, k);
    ghost var s, pool, was, filed := Sub(t, path), tx.freelist.State(), tx.view, tx.dirtyNodes;
    PathLength(t, h, path);
    SubFull(t, path);
    Ends(path);
    SubKept(t, path, |path|, pool, was);
    ok, affected, leafNode := RemoveItemFromInternal(tx, mode, n, index, s, h - |path|);
    u := t;
    if !ok {
      return;
    }
    u := Plug(t, path, TakenOut(s, index, affected[1..]));
    assert [index] + affected[1..] == affected;
    TakenOutSeen(t, path, index, affected[1..], pool, was, tx.view, filed, tx.dirtyNodes);
  }

  /** The first part of Remove: the item is taken out, and the breadcrumbs extended to the node that lost one. */
  method TakeOut(tx: Tx, mode: Mode, n: Node, index: nat, trail: seq<nat>, ghost t: Tree, ghost h: nat, ghost k: Key)
    returns (ok: bool, longTrail: seq<nat>, ghost path: Path, ghost u: Tree, ghost touched: set<Node>)
    requires Ready(tx, t) && Shape(t, h) && WellFilled(t) && trail == [0] + SearchPath(t, h, k)
    requires var s := Sub(t, SearchPath(t, h, k)); Has(s.items, k) && index == Pos(s.items, k) && Stands(tx, n, s)
    modifies tx`dirtyNodes, tx`view, n, tx.dirtyNodes.Values
    ensures !ok ==> Removal(mode, t, h, k).None?
    ensures ok ==> Removal(mode, t, h, k) == Some((u, path)) && u.page == t.page && longTrail == [0] + path
    ensures ok ==> Ready(tx, u) && forall p :: Uses(u, p) == Uses(t, p)
    ensures ok ==> Untouched(t, tx.freelist.State(), old(tx.view), tx.view, old(tx.dirtyNodes), tx.dirtyNodes)
    ensures FiledFrom(old(tx.dirtyNodes), tx.dirtyNodes, touched)
    ensures forall x :: x in touched ==> x == n || x in old(tx.dirtyNodes.Values) || fresh(x)
  {
    if n.childNodes == [] {
      u := TakeOutOfLeaf(tx, mode, n, index, t, h, k);
      ok, longTrail, path, touched := true, trail, SearchPath(t, h, k), {n};
      return;
    }
    ghost var leafNode: Node;
    var affected: seq<nat>;
    ok, affected, u, leafNode := TakeOutOfInternal(tx, mode, n, index, t, h, k);
    longTrail, path, touched := trail + affected, SearchPath(t, h, k) + affected, {n, leafNode};
    assert longTrail == [0] + path;
  }

  /** Taking an item out of the node at path, seen from the whole tree. */
  lemma TakenOutSeen(t: Tree, path: Path, i: nat, d: Path, pool: Pool, was: Store, now: Store, filed: map<PageNum, Node>, refiled: map<PageNum, Node>)
    requires ValidPath(t, path) && Holds(was, t) && Distinct(t) && forall p :: Uses(t, p) > 0 ==> InUse(pool, p)
    requires var s := Sub(t, path);
      && s.kids != [] && i < |s.items| && i < |s.kids| && ValidPath(s.kids[i], d)
      && Sub(s.kids[i], d).items != [] && Sub(s.kids[i], d).kids == []
      && Holds(now, TakenOut(s, i, d)) && Local(s, was, now, filed, refiled)
    ensures var u := Plug(t, path, TakenOut(Sub(t, path), i, d));
      Holds(now, u) && u.page == t.page && Distinct(u) && forall p :: Uses(u, p) == Uses(t, p)
    ensures Untouched(t, pool, was, now, filed, refiled)
  {
    var s := Sub(t, path);
    var s' := TakenOut(s, i, d);
    forall p ensures Uses(Plug(t, path, s'), p) == Uses(t, p) && Uses(s, p) <= Uses(t, p) {
      TakenOutUses(s, i, d, p);
      PlugUses(t, path, s', p);
    }
    TakenOutUses(s, i, d, 0);
    HoldsPlug(was, now, t, path, s');
    PlugPage(t, path, s');
  }

  /** Splitting the old root, tree t, under a new one whose page was the last handed out. */
  method SplitUnder(tx: Tx, newRoot: Node, rootNode: Node, ghost t: Tree, ghost h: nat, ghost pool: Pool) returns (ok: bool, ghost u: Tree)
    requires Ready(tx, t) && Shape(t, h) && Stands(tx, rootNode, t) && Over(tx.db.fill, t.items)
    requires Sound(pool) && NextPage(pool) == (newRoot.pageNum, tx.freelist.State())
    requires forall p :: Uses(t, p) > 0 ==> InUse(pool, p)
    requires newRoot.Rec() == NodeRec([], [t.page]) && newRoot.pageNum !in tx.dirtyNodes
    modifies tx`dirtyNodes, tx`view, tx.freelist, newRoot, rootNode
    ensures ok <==> GrowRoot(tx.db.fill, t, h, pool).Some?
    ensures ok ==> (u, tx.freelist.State()) == GrowRoot(tx.db.fill, t, h, pool).value && u.page == newRoot.pageNum
    ensures ok ==> Ready(tx, u) && newRoot.pageNum in tx.dirtyNodes && tx.dirtyNodes[newRoot.pageNum] == newRoot
    ensures ok ==> Untouched(t, pool, old(tx.view), tx.view, old(tx.dirtyNodes), tx.dirtyNodes)
  {
    ghost var was, filed, q := tx.view, tx.dirtyNodes, tx.freelist.State();
    ghost var above := Tree(newRoot.pageNum, [], [t]);
    NewRootReady(t, h, newRoot.pageNum, pool, q);
    ok, u := SplitAt(tx, newRoot, rootNode, 0, above, h + 1);
    if !ok {
      return;
    }
    NewRootSplit(tx.db.fill, t, h, newRoot.pageNum, pool, q, u, tx.freelist.State(), was, tx.view, filed, tx.dirtyNodes);
  }

  /** Put's handling of an overpopulated root, up to setting the new one. */
  method SplitRoot(tx: Tx, rootNode: Node, ghost t: Tree, ghost h: nat) returns (ok: bool, newRoot: Node, ghost u: Tree)
    requires Ready(tx, t) && Shape(t, h) && Stands(tx, rootNode, t) && Over(tx.db.fill, t.items)
    modifies tx`dirtyNodes, tx`view, tx.freelist, rootNode
    ensures ok <==> GrowRoot(tx.db.fill, t, h, old(tx.freelist.State())).Some?
    ensures ok ==> (u, tx.freelist.State()) == GrowRoot(tx.db.fill, t, h, old(tx.freelist.State())).value
    ensures ok ==> Ready(tx, u) && newRoot.pageNum == u.page
    ensures ok ==> Untouched(t, old(tx.freelist.State()), old(tx.view), tx.view, old(tx.dirtyNodes), tx.dirtyNodes)
  {
    ghost var pool := tx.freelist.State();
    newRoot := tx.NewNode([], [rootNode.pageNum]);
    ok, u := SplitUnder(tx, newRoot, rootNode, t, h, pool);
    if ok {
      tx.RewriteNode(newRoot);
    }
  }

  lemma LeafUses(page: PageNum, items: seq<Item>)
    ensures forall p :: Uses(Tree(page, items, []), p) == if p == page then 1 else 0
  {
  }

  /** A new root over t, on the page just handed out. */
  lemma NewRootUses(t: Tree, page: PageNum, p: PageNum)
    ensures Uses(Tree(page, [], [t]), p) == Uses(t, p) + if p == page then 1 else 0
  {
    UsesOfOne(t, p);
  }

  lemma NewRootReady(t: Tree, h: nat, page: PageNum, pool: Pool, q: Pool)
    requires Shape(t, h) && Distinct(t) && forall p :: Uses(t, p) > 0 ==> InUse(pool, p)
    requires Sound(pool) && NextPage(pool) == (page, q)
    ensures var u := Tree(page, [], [t]);
      Shape(u, h + 1) && Distinct(u) && forall p :: Uses(u, p) > 0 ==> InUse(q, p)
  {
    NextPageFresh(pool);
    forall p { NewRootUses(t, page, p); }
  }

  lemma NewRootSplit(f: Fill, t: Tree, h: nat, page: PageNum, pool: Pool, q: Pool, u: Tree, q': Pool, was: Store, now: Store, filed: map<PageNum, Node>, refiled: map<PageNum, Node>)
    requires Shape(t, h) && Distinct(t) && Over(f, t.items) && forall p :: Uses(t, p) > 0 ==> InUse(pool, p)
    requires Sound(pool) && NextPage(pool) == (page, q)
    requires SplitKid(f, Tree(page, [], [t]), h + 1, 0, q) == Some((u, q')) && Local(u, was, now, filed, refiled)
    ensures Distinct(u) && (forall p :: Uses(u, p) > 0 ==> InUse(q', p)) && u.page == page
    ensures GrowRoot(f, t, h, pool) == Some((u, q'))
    ensures Untouched(t, pool, was, now, filed, refiled)
  {
    GrowRootGains(f, t, h, pool);
    SplitKidPreserves(f, Tree(page, [], [t]), h + 1, 0, q);
    NewRootKeeps(t, pool, u, q', was, now, filed, refiled);
  }

  lemma NewRootKeeps(t: Tree, pool: Pool, u: Tree, q': Pool, was: Store, now: Store, filed: map<PageNum, Node>, refiled: map<PageNum, Node>)
    requires Distinct(t) && (forall p :: Uses(t, p) > 0 ==> InUse(pool, p)) && Gains(t, pool, u, q') && Local(u, was, now, filed, refiled)
    ensures Distinct(u) && (forall p :: Uses(u, p) > 0 ==> InUse(q', p)) && Untouched(t, pool, was, now, filed, refiled)
  {
    forall p ensures Uses(u, p) == Uses(t, p) + Taken(pool, q', p) { }
  }
}
