/** Collections of a transaction (tx.go): getting, creating, deleting, and flushing their metadata. */
module Sessions {
  import opened Maybe
  import opened Seqs
  import opened Keys
  import opened Items
  import opened Fill
  import opened Trees
  import opened Pool
  import opened TreePut
  import opened TreeRemove
  import opened HeadCodec
  import opened Engine
  import opened NodeOps
  import opened PathWork
  import opened Collections
  import opened Forest
  import opened Lifecycle
  import opened Database
  import opened Histories
  import opened Commits

  // ---------------------------------------------------------------- trees of one transaction

  /** A tree on other pages is where it was. */
  lemma HeldApart(t: Tree, pool: Pool, was: Store, now: Store, filed: map<PageNum, Node>, refiled: map<PageNum, Node>, o: Tree)
    requires Untouched(t, pool, was, now, filed, refiled) && Holds(was, o)
    requires forall p :: Uses(o, p) > 0 ==> InUse(pool, p) && Uses(t, p) == 0
    ensures Holds(now, o)
  {
    HoldsFrame(was, now, o);
  }

  /** The pages of a tree in a state are in use, and no other tree's. */
  lemma RootApart(u: Setup, s: State)
    requires Inv(u, s)
    ensures s.root.page != 0 && Distinct(s.root) && forall p :: Uses(s.root, p) > 0 ==> InUse(s.pool, p)
    ensures forall c, p :: c in s.colls && Uses(c.tree, p) > 0 ==> InUse(s.pool, p) && Uses(s.root, p) == 0
  {
    assert Owners(u, s, 0) == One(InUse(s.pool, 0));
    forall p ensures Uses(s.root, p) <= 1 && (Uses(s.root, p) > 0 ==> InUse(s.pool, p)) {
      assert Owners(u, s, p) == One(InUse(s.pool, p));
    }
    forall c, p | c in s.colls && Uses(c.tree, p) > 0 ensures InUse(s.pool, p) && Uses(s.root, p) == 0 {
      var i :| 0 <= i < |s.colls| && s.colls[i] == c;
      assert Owners(u, s, p) == One(InUse(s.pool, p));
      UsesOfAt(TreesOf(s.colls), i, p);
    }
  }

  lemma CollApart(u: Setup, s: State, i: nat)
    requires Inv(u, s) && i < |s.colls|
    ensures var t := s.colls[i].tree;
      && Distinct(t) && (forall p :: Uses(t, p) > 0 ==> InUse(s.pool, p) && Uses(s.root, p) == 0)
      && (forall p :: Uses(s.root, p) > 0 ==> InUse(s.pool, p) && Uses(t, p) == 0)
    ensures forall j, p :: 0 <= j < |s.colls| && j != i && Uses(s.colls[j].tree, p) > 0 ==> InUse(s.pool, p) && Uses(s.colls[i].tree, p) == 0
  {
    var t := s.colls[i].tree;
    RootApart(u, s);
    forall p ensures Uses(t, p) <= 1 {
      assert Owners(u, s, p) == One(InUse(s.pool, p));
      UsesOfAt(TreesOf(s.colls), i, p);
    }
    assert s.colls[i] in s.colls;
    forall j, p | 0 <= j < |s.colls| && j != i && Uses(s.colls[j].tree, p) > 0 ensures InUse(s.pool, p) && Uses(t, p) == 0 {
      assert Owners(u, s, p) == One(InUse(s.pool, p));
      UsesOfTwo(TreesOf(s.colls), i, j, p);
    }
  }

  lemma LeakedApart(u: Setup, s: State, t: Tree)
    requires Inv(u, s) && exists i :: 0 <= i < |s.leaked| && s.leaked[i] == t
    ensures forall p :: Uses(t, p) > 0 ==> InUse(s.pool, p) && Uses(s.root, p) == 0
  {
    var i :| 0 <= i < |s.leaked| && s.leaked[i] == t;
    forall p | Uses(t, p) > 0 ensures InUse(s.pool, p) && Uses(s.root, p) == 0 {
      assert Owners(u, s, p) == One(InUse(s.pool, p));
      UsesOfAt(s.leaked, i, p);
    }
  }

  /** The database's own pages are in use and no tree's. */
  lemma ReservedApart(u: Setup, s: State, t: Tree)
    requires Inv(u, s) && (t == s.root || exists c :: c in s.colls && c.tree == t)
    ensures forall p :: p == 0 || p == u.freelistPage ==> InUse(s.pool, p) && Uses(t, p) == 0
  {
    forall p | p == 0 || p == u.freelistPage ensures InUse(s.pool, p) && Uses(t, p) == 0 {
      assert Owners(u, s, p) == One(InUse(s.pool, p));
      if t != s.root {
        var c :| c in s.colls && c.tree == t;
        var i :| 0 <= i < |s.colls| && s.colls[i] == c;
        UsesOfAt(TreesOf(s.colls), i, p);
      }
    }
  }

  /** The transaction's pages are those of state s. */
  ghost predicate Backed(tx: Tx, u: Setup, s: State)
    reads tx`dirtyNodes, tx`view, tx`root, tx`pagesToDelete, tx.freelist, tx.db, set p | p in tx.dirtyNodes :: tx.dirtyNodes[p]
  {
    match s
    case State(pool, root, _, _, toDelete, _) =>
      && tx.Valid() && tx.InSync({}) && tx.write && u.fill == tx.db.fill && u.freelistPage == tx.db.freelistPage
      && tx.freelist.State() == pool && tx.root == root.page && tx.pagesToDelete == toDelete && AllHeld(tx.view, s)
      && Clear(tx.dirtyNodes.Keys, u.freelistPage)
  }

  /** The transaction, which may be a read transaction, finds the trees of state s. */
  ghost predicate Shown(tx: Tx, s: State)
    reads tx`dirtyNodes, tx`view, tx`root, tx.freelist, tx.db, set p | p in tx.dirtyNodes :: tx.dirtyNodes[p]
  {
    tx.Valid() && tx.InSync({}) && tx.freelist.State() == s.pool && tx.root == s.root.page && AllHeld(tx.view, s)
  }

  /** After work on the root collection alone. */
  lemma RootWorked(u: Setup, s: State, was: Store, now: Store, filed: map<PageNum, Node>, refiled: map<PageNum, Node>)
    requires Inv(u, s) && AllHeld(was, s) && Untouched(s.root, s.pool, was, now, filed, refiled) && Clear(filed.Keys, u.freelistPage)
    ensures Clear(refiled.Keys, u.freelistPage) && forall c :: c in s.colls ==> Holds(now, c.tree)
  {
    RootApart(u, s);
    ReservedApart(u, s, s.root);
    forall c | c in s.colls ensures Holds(now, c.tree) { HeldApart(s.root, s.pool, was, now, filed, refiled, c.tree); }
  }

  /** After work on collection i alone. */
  lemma CollWorked(u: Setup, s: State, i: nat, was: Store, now: Store, filed: map<PageNum, Node>, refiled: map<PageNum, Node>)
    requires Inv(u, s) && i < |s.colls| && AllHeld(was, s) && Clear(filed.Keys, u.freelistPage)
    requires Untouched(s.colls[i].tree, s.pool, was, now, filed, refiled)
    ensures Clear(refiled.Keys, u.freelistPage) && Holds(now, s.root)
    ensures forall j :: 0 <= j < |s.colls| && j != i ==> Holds(now, s.colls[j].tree)
  {
    var t := s.colls[i].tree;
    CollApart(u, s, i);
    ReservedApart(u, s, t);
    HeldApart(t, s.pool, was, now, filed, refiled, s.root);
    forall j | 0 <= j < |s.colls| && j != i ensures Holds(now, s.colls[j].tree) {
      assert s.colls[j] in s.colls;
      HeldApart(t, s.pool, was, now, filed, refiled, s.colls[j].tree);
    }
  }

  // ---------------------------------------------------------------- the root collection

  /** getRootCollection().Find. */
  method FindMetadata(tx: Tx, name: Key, ghost u: Setup, ghost s: State) returns (value: Option<seq<Byte>>)
    requires Inv(u, s) && Shown(tx, s)
    ensures value.Some? <==> name in Metadata(s)
    ensures value.Some? ==> value.value == Metadata(s)[name]
  {
    RootApart(u, s);
    var root := new Collection(tx, true, tx.root, 0);
    var item := root.Find(name, s.root, s.rootHeight);
    if item.None? {
      return None;
    }
    return Some(item.value.value);
  }

  /** getRootCollection().Put. */
  method PutMetadata(tx: Tx, name: Key, value: seq<Byte>, ghost u: Setup, ghost s: State, ghost extra: Tree) returns (ok: bool)
    requires Inv(u, s) && Backed(tx, u, s)
    requires Holds(tx.view, extra) && (extra == s.root || exists i :: 0 <= i < |s.leaked| && s.leaked[i] == extra)
    modifies tx`dirtyNodes, tx`view, tx`root, tx.freelist, tx.dirtyNodes.Values
    ensures ok <==> ValidItem(u.fill, Item(name, value))
    ensures ok ==> Backed(tx, u, PutRoot(u, s, Item(name, value)))
    ensures ok && extra != s.root ==> Holds(tx.view, extra)
    ensures !ok ==> Backed(tx, u, s)
  {
    ghost var was, filed := tx.view, tx.dirtyNodes;
    ghost var t;
    ok, t := PutRootCall(tx, name, value, u, s);
    if !ok {
      return false;
    }
    RootPut(tx, u, s, Item(name, value), t, was, filed, extra);
    return true;
  }

  /** The call, which cannot index out of range. */
  method PutRootCall(tx: Tx, name: Key, value: seq<Byte>, ghost u: Setup, ghost s: State) returns (ok: bool, ghost t: Tree)
    requires Inv(u, s) && Backed(tx, u, s)
    modifies tx`dirtyNodes, tx`view, tx`root, tx.freelist, tx.dirtyNodes.Values
    ensures ok <==> ValidItem(u.fill, Item(name, value))
    ensures !ok ==> Backed(tx, u, s) && tx.view == old(tx.view)
    ensures ok ==> PutTree(u.fill, s.root, s.rootHeight, Item(name, value), s.pool) == Some((t, tx.freelist.State()))
    ensures ok ==> tx.Valid() && tx.InSync({}) && tx.root == t.page && Holds(tx.view, t)
    ensures ok ==> Untouched(s.root, s.pool, old(tx.view), tx.view, old(tx.dirtyNodes), tx.dirtyNodes)
  {
    RootApart(u, s);
    var root := new Collection(tx, true, tx.root, 0);
    var r;
    r, t := root.Put(name, value, s.root, s.rootHeight);
    ok := r != ItemTooLarge;
    if ok { PutGood(u.fill, s.root, s.rootHeight, Item(name, value), s.pool); }
  }

  /** What it leaves is the state after it. */
  lemma RootPut(tx: Tx, u: Setup, s: State, x: Item, t: Tree, was: Store, filed: map<PageNum, Node>, extra: Tree)
    requires Inv(u, s) && ValidItem(u.fill, x) && AllHeld(was, s) && Clear(filed.Keys, u.freelistPage)
    requires PutTree(u.fill, s.root, s.rootHeight, x, s.pool) == Some((t, tx.freelist.State()))
    requires tx.Valid() && tx.InSync({}) && tx.write && u.fill == tx.db.fill && u.freelistPage == tx.db.freelistPage
    requires tx.root == t.page && tx.pagesToDelete == s.toDelete && Holds(tx.view, t)
    requires Untouched(s.root, s.pool, was, tx.view, filed, tx.dirtyNodes)
    requires Holds(was, extra) && (extra == s.root || exists i :: 0 <= i < |s.leaked| && s.leaked[i] == extra)
    ensures Backed(tx, u, PutRoot(u, s, x)) && (extra != s.root ==> Holds(tx.view, extra))
  {
    RootWorked(u, s, was, tx.view, filed, tx.dirtyNodes);
    if extra != s.root {
      LeakedApart(u, s, extra);
      HeldApart(s.root, s.pool, was, tx.view, filed, tx.dirtyNodes, extra);
    }
  }

  /** getRootCollection().Remove. */
  method RemoveMetadata(tx: Tx, name: Key, ghost u: Setup, mode: Mode, ghost s: State) returns (ghost t: State)
    requires Inv(u, s) && Backed(tx, u, s) && u.mode == mode && Removable(u, s.root, s.rootHeight, name)
    modifies tx`dirtyNodes, tx`view, tx`root, tx`pagesToDelete, tx.dirtyNodes.Values
    ensures t == DropColl(u, s, name) && t.colls == Without(s.colls, name) && Backed(tx, u, t)
  {
    RootApart(u, s);
    t := DropColl(u, s, name);
    RemoveGood(u, s.root, s.rootHeight, name);
    ghost var was, filed := tx.view, tx.dirtyNodes;
    var root := new Collection(tx, true, tx.root, 0);
    var r;
    ghost var left;
    r, left := root.Remove(mode, name, s.root, s.rootHeight);
    RootWorked(u, s, was, tx.view, filed, tx.dirtyNodes);
    WithoutNames(s.colls, name);
  }

  // ---------------------------------------------------------------- handles

  /** The handle h is collection c. */
  ghost predicate Tied(tx: Tx, h: Collection, c: Coll)
    reads h
  {
    h.tx == tx && !h.rootCollection && h.root == c.tree.page && h.counter == c.counter && h.dirtyMeta == c.dirty
  }

  /** Every tracked handle is the collection of its name, and every collection with metadata to flush is tracked. */
  ghost predicate Tracks(tx: Tx, handles: map<Key, Collection>, deleted: set<Key>, colls: seq<Coll>)
    reads handles.Values
  {
    && Named(handles, deleted, colls)
    && forall i :: 0 <= i < |colls| && colls[i].name in handles ==> Tied(tx, handles[colls[i].name], colls[i])
  }

  /** Distinct handles, each under the name of a collection, and one for every collection with metadata to flush. */
  ghost predicate Named(handles: map<Key, Collection>, deleted: set<Key>, colls: seq<Coll>) {
    && (forall n :: n in handles ==> IsName(colls, n))
    && (forall i :: 0 <= i < |colls| && colls[i].dirty ==> colls[i].name in handles)
    && (forall n, m :: n in handles && m in handles && n != m ==> handles[n] != handles[m])
    && (forall n :: n in deleted ==> !IsName(colls, n))
  }

  /**
   * A write transaction with the collections it hands out. state is what all of
   * it means; that its invariant is kept is proved of states (OpRefines).
   */
  class Session {
    const tx: Tx
    const mode: Mode
    var collections: map<Key, Collection>
    var deletedCollections: set<Key>
    ghost const setup: Setup
    ghost var state: State

    /** newTx: nothing tracked yet, over a committed state. */
    constructor (tx: Tx, mode: Mode, ghost setup: Setup, ghost state: State)
      requires setup.mode == mode && Settled(state) && Backed(tx, setup, state)
      ensures Valid() && this.tx == tx && this.mode == mode && this.setup == setup && this.state == state
      ensures collections == map[] && deletedCollections == {}
    {
      this.tx := tx;
      this.mode := mode;
      collections := map[];
      deletedCollections := {};
      this.setup := setup;
      this.state := state;
    }

    ghost predicate Valid()
      reads *
    {
      setup.mode == mode && Backed(tx, setup, state) && Tracks(tx, collections, deletedCollections, state.colls)
    }

    /** GetCollection: the tracked handle, else one made from the metadata; null if there is no such collection. */
    method GetCollection(name: Key) returns (h: Collection?)
      requires Valid() && Inv(setup, state) && state.pool.maxPage < UINT64_LIMIT
      modifies this`collections
      ensures Valid() && state == old(state)
      ensures h != null <==> IsName(state.colls, name)
      ensures h != null ==> name in collections && collections[name] == h
    {
      if name in deletedCollections {
        return null;
      }
      if name in collections {
        return collections[name];
      }
      var value := FindMetadata(tx, name, setup, state);
      if value.None? {
        return null;
      }
      h := OpenCollection(tx, name, value.value, collections, deletedCollections, setup, state);
      Track(name, h);
    }

    /** trackCollection. */
    method Track(name: Key, h: Collection)
      requires setup.mode == mode && Backed(tx, setup, state) && Tracks(tx, collections[name := h], deletedCollections, state.colls)
      modifies this`collections
      ensures Valid() && name in collections && collections[name] == h
    {
      collections := collections[name := h];
    }

    /** CreateCollection. A collection of the same name is replaced. */
    method CreateCollection(name: Key) returns (r: Outcome, h: Collection?)
      requires Valid() && Inv(setup, state)
      modifies this`collections, this`deletedCollections, this`state
      modifies tx`dirtyNodes, tx`view, tx`root, tx.freelist, tx.dirtyNodes.Values
      ensures Valid() && state == Create(setup, old(state), name)
      ensures r == (if ValidName(setup.fill, name) then Done else ItemTooLarge)
      ensures r == Done ==> h != null && name in collections && collections[name] == h
    {
      ghost var t: State;
      var ok, page;
      ok, page, t := CreateOnPages(tx, name, setup, state);
      h := Adopt(ok, name, page, t);
      r := if ok then Done else ItemTooLarge;
    }

    /** trackCollection of a collection, if it was created, and the new state. */
    method Adopt(ok: bool, name: Key, page: PageNum, ghost t: State) returns (h: Collection?)
      requires setup.mode == mode && Backed(tx, setup, t) && NamesApart(state.colls)
      requires Tracks(tx, collections, deletedCollections, state.colls)
      requires t.colls == if ok then Without(state.colls, name) + [NewColl(name, page)] else state.colls
      modifies this`collections, this`deletedCollections, this`state
      ensures Valid() && state == t && (ok ==> h != null && name in collections && collections[name] == h)
    {
      if !ok {
        Become(t);
        return null;
      }
      h := NewHandle(tx, name, page, collections, deletedCollections, state.colls);
      TrackAs(name, h, t);
    }

    /** A collection just created is tracked, and the session in state t. */
    method TrackAs(name: Key, h: Collection, ghost t: State)
      requires setup.mode == mode && Backed(tx, setup, t) && Tracks(tx, collections[name := h], deletedCollections - {name}, t.colls)
      modifies this`collections, this`deletedCollections, this`state
      ensures Valid() && state == t && name in collections && collections[name] == h
    {
      deletedCollections := deletedCollections - {name};
      collections := collections[name := h];
      state := t;
    }

    /** DeleteCollection. */
    method DeleteCollection(name: Key)
      requires Valid() && Inv(setup, state) && Removable(setup, state.root, state.rootHeight, name)
      modifies this`collections, this`deletedCollections, this`state
      modifies tx`dirtyNodes, tx`view, tx`root, tx`pagesToDelete, tx.dirtyNodes.Values
      ensures Valid() && state == DropColl(setup, old(state), name)
      ensures name !in collections && name in deletedCollections
    {
      ghost var before := state;
      ghost var t := RemoveMetadata(tx, name, setup, mode, before);
      Forget(name, t);
    }

    method Forget(name: Key, ghost t: State)
      requires setup.mode == mode && Backed(tx, setup, t) && NamesApart(state.colls)
      requires Tracks(tx, collections, deletedCollections, state.colls) && t.colls == Without(state.colls, name)
      modifies this`collections, this`deletedCollections, this`state
      ensures Valid() && state == t && name !in collections && name in deletedCollections
    {
      WithoutNames(state.colls, name);
      collections := collections - {name};
      deletedCollections := deletedCollections + {name};
      state := t;
    }

    /** The session is in state t. */
    ghost method Become(t: State)
      requires setup.mode == mode && Backed(tx, setup, t) && Tracks(tx, collections, deletedCollections, t.colls)
      modifies this`state
      ensures Valid() && state == t
    {
      state := t;
    }

    /** Put on the collection of a tracked handle; false is the error for an item too large. */
    method Put(name: Key, key: Key, value: seq<Byte>) returns (ok: bool)
      requires Valid() && Inv(setup, state) && name in collections
      modifies this`state, collections[name], tx`dirtyNodes, tx`view, tx`root, tx.freelist, tx.dirtyNodes.Values
      ensures Valid() && collections == old(collections)
      ensures ok <==> ValidItem(setup.fill, Item(key, value))
      ensures state == Do(setup, old(state), Op.Put(name, Item(key, value)))
    {
      ghost var t: State;
      ok, t := PutTracked(tx, collections, deletedCollections, name, key, value, setup, state);
      Become(t);
    }

    /** Remove on the collection of a tracked handle. */
    method Remove(name: Key, key: Key)
      requires Valid() && Inv(setup, state) && name in collections && Allowed(setup, state, Op.Remove(name, key))
      modifies this`state, collections[name], tx`dirtyNodes, tx`view, tx`root, tx`pagesToDelete, tx.dirtyNodes.Values
      ensures Valid() && collections == old(collections)
      ensures state == Do(setup, old(state), Op.Remove(name, key))
    {
      ghost var t := RemoveTracked(tx, collections, deletedCollections, mode, name, key, setup, state);
      Become(t);
    }

    /** ID on the collection of a tracked handle. */
    method NextId(name: Key) returns (id: nat)
      requires Valid() && Inv(setup, state) && name in collections
      modifies this`state, collections[name]
      ensures Valid() && collections == old(collections)
      ensures At(old(state).colls, name) >= 0 && (id, state) == IdIn(old(state), At(old(state).colls, name))
      ensures state == Do(setup, old(state), Op.Id(name))
    {
      ghost var s, t := state, state;
      id, t := IdTracked(tx, collections, deletedCollections, name, setup, s);
      IdDone(setup, s, name);
      Become(t);
    }
  }

  lemma IdDone(u: Setup, s: State, name: Key)
    requires Inv(u, s) && At(s.colls, name) >= 0
    ensures Do(u, s, Op.Id(name)) == IdIn(s, At(s.colls, name)).1
  {
  }

  /** Put on the collection of a tracked handle. */
  method PutTracked(tx: Tx, handles: map<Key, Collection>, deleted: set<Key>, name: Key, key: Key, value: seq<Byte>, ghost u: Setup, ghost s: State)
    returns (ok: bool, ghost t: State)
    requires Inv(u, s) && Backed(tx, u, s) && Tracks(tx, handles, deleted, s.colls) && name in handles
    modifies handles[name], tx`dirtyNodes, tx`view, tx`root, tx.freelist, tx.dirtyNodes.Values
    ensures ok <==> ValidItem(u.fill, Item(key, value))
    ensures var i := At(s.colls, name); i >= 0 && t == (if ok then PutIn(u, s, i, Item(key, value)) else s)
    ensures Backed(tx, u, t) && Tracks(tx, handles, deleted, t.colls)
  {
    ghost var i := At(s.colls, name);
    HandleFound(tx, handles, deleted, s.colls, name);
    ok, t := PutBeside(tx, handles[name], handles, key, value, u, s, i);
    TrackOne(tx, handles, deleted, s.colls, i, t.colls);
  }

  /** Remove on the collection of a tracked handle. */
  method RemoveTracked(tx: Tx, handles: map<Key, Collection>, deleted: set<Key>, mode: Mode, name: Key, key: Key, ghost u: Setup, ghost s: State)
    returns (ghost t: State)
    requires Inv(u, s) && Backed(tx, u, s) && Tracks(tx, handles, deleted, s.colls) && name in handles && u.mode == mode
    requires Allowed(u, s, Op.Remove(name, key))
    modifies handles[name], tx`dirtyNodes, tx`view, tx`root, tx`pagesToDelete, tx.dirtyNodes.Values
    ensures var i := At(s.colls, name); i >= 0 && t == RemoveIn(u, s, i, key)
    ensures Backed(tx, u, t) && Tracks(tx, handles, deleted, t.colls)
  {
    ghost var i := At(s.colls, name);
    HandleFound(tx, handles, deleted, s.colls, name);
    t := RemoveBeside(tx, handles[name], handles, mode, key, u, s, i);
    TrackOne(tx, handles, deleted, s.colls, i, t.colls);
  }

  /** ID on the collection of a tracked handle. */
  method IdTracked(tx: Tx, handles: map<Key, Collection>, deleted: set<Key>, name: Key, ghost u: Setup, ghost s: State)
    returns (id: nat, ghost t: State)
    requires Inv(u, s) && Backed(tx, u, s) && Tracks(tx, handles, deleted, s.colls) && name in handles
    modifies handles[name]
    ensures var i := At(s.colls, name); i >= 0 && (id, t) == IdIn(s, i)
    ensures Backed(tx, u, t) && Tracks(tx, handles, deleted, t.colls)
  {
    ghost var i := At(s.colls, name);
    HandleFound(tx, handles, deleted, s.colls, name);
    id, t := IdOnPages(tx, handles[name], u, s, i);
    TrackOne(tx, handles, deleted, s.colls, i, t.colls);
  }

  /** Collection.Put leaves the other handles as they are. */
  method PutBeside(tx: Tx, h: Collection, handles: map<Key, Collection>, key: Key, value: seq<Byte>, ghost u: Setup, ghost s: State, ghost i: nat)
    returns (ok: bool, ghost t: State)
    requires Inv(u, s) && Backed(tx, u, s) && i < |s.colls| && Tied(tx, h, s.colls[i])
    requires OwnHandle(h, handles, s.colls[i].name) && OthersTied(tx, handles, s.colls, i)
    modifies h`root, h`dirtyMeta, tx`dirtyNodes, tx`view, tx`root, tx.freelist, tx.dirtyNodes.Values
    ensures ok <==> ValidItem(u.fill, Item(key, value))
    ensures t == (if ok then PutIn(u, s, i, Item(key, value)) else s) && Backed(tx, u, t)
    ensures OnlyChanged(s.colls, t.colls, i) && Tied(tx, h, t.colls[i]) && OthersTied(tx, handles, s.colls, i)
  {
    ok, t := PutOnPages(tx, h, key, value, u, s, i);
  }

  /** Collection.Remove leaves the other handles as they are. */
  method RemoveBeside(tx: Tx, h: Collection, handles: map<Key, Collection>, mode: Mode, key: Key, ghost u: Setup, ghost s: State, ghost i: nat)
    returns (ghost t: State)
    requires Inv(u, s) && Backed(tx, u, s) && i < |s.colls| && Tied(tx, h, s.colls[i])
    requires OwnHandle(h, handles, s.colls[i].name) && OthersTied(tx, handles, s.colls, i)
    requires u.mode == mode && Removable(u, s.colls[i].tree, s.colls[i].height, key)
    modifies h`root, h`dirtyMeta, tx`dirtyNodes, tx`view, tx`root, tx`pagesToDelete, tx.dirtyNodes.Values
    ensures t == RemoveIn(u, s, i, key) && Backed(tx, u, t)
    ensures OnlyChanged(s.colls, t.colls, i) && Tied(tx, h, t.colls[i]) && OthersTied(tx, handles, s.colls, i)
  {
    t := RemoveOnPages(tx, h, mode, key, u, s, i);
  }

  /** Collection.Remove on collection i of state s. */
  method RemoveOnPages(tx: Tx, h: Collection, mode: Mode, key: Key, ghost u: Setup, ghost s: State, ghost i: nat) returns (ghost t: State)
    requires Inv(u, s) && Backed(tx, u, s) && i < |s.colls| && Tied(tx, h, s.colls[i]) && u.mode == mode
    requires Removable(u, s.colls[i].tree, s.colls[i].height, key)
    modifies h`root, h`dirtyMeta, tx`dirtyNodes, tx`view, tx`root, tx`pagesToDelete, tx.dirtyNodes.Values
    ensures t == RemoveIn(u, s, i, key) && Backed(tx, u, t)
    ensures OnlyChanged(s.colls, t.colls, i) && Tied(tx, h, t.colls[i])
  {
    ghost var was, filed := tx.view, tx.dirtyNodes;
    ghost var r := RemoveCall(tx, h, mode, key, u, s, i);
    t := RemoveDone(tx, h, u, s, i, key, r, was, filed);
  }

  /** The call, which cannot index out of range. */
  method RemoveCall(tx: Tx, h: Collection, mode: Mode, key: Key, ghost u: Setup, ghost s: State, ghost i: nat) returns (ghost r: Removed)
    requires Inv(u, s) && Backed(tx, u, s) && i < |s.colls| && Tied(tx, h, s.colls[i]) && u.mode == mode
    requires Removable(u, s.colls[i].tree, s.colls[i].height, key)
    modifies h`root, h`dirtyMeta, tx`dirtyNodes, tx`view, tx`root, tx`pagesToDelete, tx.dirtyNodes.Values
    ensures RemoveTree(u.mode, u.fill, s.colls[i].tree, s.colls[i].height, key) == Some(r)
    ensures tx.Valid() && tx.InSync({}) && tx.root == s.root.page && tx.pagesToDelete == s.toDelete + r.deleted && Holds(tx.view, r.tree)
    ensures Untouched(s.colls[i].tree, s.pool, old(tx.view), tx.view, old(tx.dirtyNodes), tx.dirtyNodes)
    ensures h.root == r.tree.page && h.dirtyMeta == (s.colls[i].dirty || r.tree.page != s.colls[i].tree.page)
  {
    ghost var c := s.colls[i];
    CollReady(tx, u, s, i);
    RemoveGood(u, c.tree, c.height, key);
    r := RemoveTree(u.mode, u.fill, c.tree, c.height, key).value;
    var o;
    ghost var tree;
    o, tree := h.Remove(mode, key, c.tree, c.height);
  }

  /** Collection.ID on collection i of state s. */
  method IdOnPages(tx: Tx, h: Collection, ghost u: Setup, ghost s: State, ghost i: nat) returns (id: nat, ghost t: State)
    requires Inv(u, s) && Backed(tx, u, s) && i < |s.colls| && Tied(tx, h, s.colls[i])
    modifies h`counter, h`dirtyMeta
    ensures (id, t) == IdIn(s, i) && Backed(tx, u, t)
    ensures OnlyChanged(s.colls, t.colls, i) && Tied(tx, h, t.colls[i])
  {
    t := IdIn(s, i).1;
    IdBacked(tx, u, s, i);
    id := h.ID();
  }

  lemma IdBacked(tx: Tx, u: Setup, s: State, i: nat)
    requires Inv(u, s) && Backed(tx, u, s) && i < |s.colls|
    ensures s.colls[i].counter < UINT64_LIMIT && Backed(tx, u, IdIn(s, i).1) && OnlyChanged(s.colls, IdIn(s, i).1.colls, i)
  {
    assert s.colls[i] in s.colls;
    SameTrees(tx.view, s, IdIn(s, i).1, i);
  }

  /** The counter does not matter to the pages. */
  lemma SameTrees(st: Store, s: State, t: State, i: nat)
    requires AllHeld(st, s) && i < |s.colls| && t.root == s.root && |t.colls| == |s.colls|
    requires t.colls == s.colls[i := t.colls[i]] && t.colls[i].tree == s.colls[i].tree
    ensures AllHeld(st, t)
  {
    forall c | c in t.colls ensures Holds(st, c.tree) {
      var j :| 0 <= j < |t.colls| && t.colls[j] == c;
      assert s.colls[j] in s.colls;
    }
  }

  /** Collection i may have changed, but for its name. */
  ghost predicate OnlyChanged(colls: seq<Coll>, now: seq<Coll>, i: nat) {
    i < |colls| && |now| == |colls| && now == colls[i := now[i]] && now[i].name == colls[i].name
  }

  lemma NothingChanged(colls: seq<Coll>, i: nat)
    requires i < |colls|
    ensures OnlyChanged(colls, colls, i)
  {
  }

  /** The handles of the collections other than i are these. */
  ghost predicate OthersTied(tx: Tx, handles: map<Key, Collection>, colls: seq<Coll>, i: nat)
    requires i < |colls|
    reads set n | n in handles && n != colls[i].name :: handles[n]
  {
    forall j :: 0 <= j < |colls| && colls[j].name in handles && colls[j].name != colls[i].name ==> Tied(tx, handles[colls[j].name], colls[j])
  }

  /** No other name has this handle. */
  ghost predicate OwnHandle(h: Collection, handles: map<Key, Collection>, name: Key) {
    forall n :: n in handles && n != name ==> handles[n] != h
  }

  lemma HandleFound(tx: Tx, handles: map<Key, Collection>, deleted: set<Key>, colls: seq<Coll>, name: Key)
    requires Tracks(tx, handles, deleted, colls) && name in handles
    ensures var i := At(colls, name);
      && i != -1 && colls[i].name == name && Tied(tx, handles[name], colls[i])
      && Named(handles, deleted, colls) && OthersTied(tx, handles, colls, i) && OwnHandle(handles[name], handles, name)
  {
    AtFinds(colls, name);
  }

  /** Handle and collection i changed alike. */
  lemma TrackOne(tx: Tx, handles: map<Key, Collection>, deleted: set<Key>, colls: seq<Coll>, i: nat, now: seq<Coll>)
    requires i < |colls| && NamesApart(colls) && Named(handles, deleted, colls) && OthersTied(tx, handles, colls, i) && OnlyChanged(colls, now, i)
    requires now[i].name in handles && Tied(tx, handles[now[i].name], now[i])
    ensures Tracks(tx, handles, deleted, now)
  {
    forall n ensures IsName(now, n) <==> IsName(colls, n) {
      if IsName(colls, n) {
        var j :| 0 <= j < |colls| && colls[j].name == n;
        assert now[j].name == n;
      }
    }
  }

  /** Collection.Put on collection i of state s. */
  method PutOnPages(tx: Tx, h: Collection, key: Key, value: seq<Byte>, ghost u: Setup, ghost s: State, ghost i: nat) returns (ok: bool, ghost t: State)
    requires Inv(u, s) && Backed(tx, u, s) && i < |s.colls| && Tied(tx, h, s.colls[i])
    modifies h`root, h`dirtyMeta, tx`dirtyNodes, tx`view, tx`root, tx.freelist, tx.dirtyNodes.Values
    ensures ok <==> ValidItem(u.fill, Item(key, value))
    ensures t == (if ok then PutIn(u, s, i, Item(key, value)) else s) && Backed(tx, u, t)
    ensures OnlyChanged(s.colls, t.colls, i) && Tied(tx, h, t.colls[i])
  {
    ghost var was, filed := tx.view, tx.dirtyNodes;
    ghost var tree;
    ok, tree := PutCall(tx, h, key, value, u, s, i);
    if !ok {
      NothingChanged(s.colls, i);
      return false, s;
    }
    t := PutDone(tx, h, u, s, i, Item(key, value), tree, was, filed);
  }

  /** The call, which cannot index out of range. */
  method PutCall(tx: Tx, h: Collection, key: Key, value: seq<Byte>, ghost u: Setup, ghost s: State, ghost i: nat) returns (ok: bool, ghost tree: Tree)
    requires Inv(u, s) && Backed(tx, u, s) && i < |s.colls| && Tied(tx, h, s.colls[i])
    modifies h`root, h`dirtyMeta, tx`dirtyNodes, tx`view, tx`root, tx.freelist, tx.dirtyNodes.Values
    ensures ok <==> ValidItem(u.fill, Item(key, value))
    ensures !ok ==> Backed(tx, u, s) && Tied(tx, h, s.colls[i])
    ensures ok ==> PutTree(u.fill, s.colls[i].tree, s.colls[i].height, Item(key, value), s.pool) == Some((tree, tx.freelist.State()))
    ensures ok ==> tx.Valid() && tx.InSync({}) && tx.root == s.root.page && Holds(tx.view, tree)
    ensures ok ==> Untouched(s.colls[i].tree, s.pool, old(tx.view), tx.view, old(tx.dirtyNodes), tx.dirtyNodes)
    ensures ok ==> h.root == tree.page && h.dirtyMeta == (s.colls[i].dirty || tree.page != s.colls[i].tree.page)
  {
    ghost var c := s.colls[i];
    CollReady(tx, u, s, i);
    var r;
    r, tree := h.Put(key, value, c.tree, c.height);
    ok := r != ItemTooLarge;
    if ok { PutGood(u.fill, c.tree, c.height, Item(key, value), s.pool); }
  }

  // ---------------------------------------------------------------- flushing

  /** The handle h is the collection of this name. */
  ghost predicate HandleOf(tx: Tx, h: Collection, colls: seq<Coll>, name: Key)
    reads h
  {
    IsName(colls, name) && forall i :: 0 <= i < |colls| && colls[i].name == name ==> Tied(tx, h, colls[i])
  }

  /** flushCollectionMetadata. */
  method FlushMetadata(tx: Tx, handles: map<Key, Collection>, deleted: set<Key>, ghost u: Setup, ghost s: State) returns (ghost order: seq<Key>, ghost t: State)
    requires Inv(u, s) && Backed(tx, u, s) && Tracks(tx, handles, deleted, s.colls)
    modifies handles.Values, tx`dirtyNodes, tx`view, tx`root, tx.freelist
    modifies set n: Node | allocated(n) || n in tx.dirtyNodes.Values
    ensures Covers(order, s.colls) && t == Flush(u, s, order) && Backed(tx, u, t)
  {
    var names, hs;
    ghost var ts;
    names, hs, ts := PlannedOrder(tx, handles, deleted, u, s);
    order := names;
    t := FlushList(tx, hs, names, deleted, u, s, ts, Records(hs));
  }

  /** Some order of the handles, with what the turns will find. */
  method PlannedOrder(tx: Tx, handles: map<Key, Collection>, deleted: set<Key>, ghost u: Setup, ghost s: State)
    returns (names: seq<Key>, hs: seq<Collection>, ghost ts: seq<State>)
    requires Inv(u, s) && Tracks(tx, handles, deleted, s.colls)
    ensures |hs| == |names| && Covers(names, s.colls) && |ts| == |names| + 1 && ts[0] == s && ts[|names|] == Flush(u, s, names)
    ensures forall k :: 0 <= k < |names| ==> names[k] !in deleted && TurnOk(u, ts[k], ts[k + 1], names[k], Records(hs)[k])
    ensures forall i, j :: 0 <= i < j < |hs| ==> hs[i] != hs[j]
    ensures forall h :: h in hs ==> h in handles.Values
  {
    names, hs := SomeOrder(handles);
    ts := PlanFor(tx, handles, deleted, names, hs, u, s);
  }

  /** What the turns over all tracked handles will find. */
  lemma PlanFor(tx: Tx, handles: map<Key, Collection>, deleted: set<Key>, names: seq<Key>, hs: seq<Collection>, u: Setup, s: State) returns (ts: seq<State>)
    requires Inv(u, s) && Tracks(tx, handles, deleted, s.colls)
    requires |hs| == |names| && forall n :: n in handles <==> n in names
    requires forall i :: 0 <= i < |names| ==> names[i] in handles && hs[i] == handles[names[i]]
    requires forall i, j :: 0 <= i < j < |names| ==> names[i] != names[j]
    ensures Covers(names, s.colls) && |ts| == |names| + 1 && ts[0] == s && ts[|names|] == Flush(u, s, names)
    ensures forall k :: 0 <= k < |names| ==> names[k] !in deleted && TurnOk(u, ts[k], ts[k + 1], names[k], Records(hs)[k])
    ensures forall i, j :: 0 <= i < j < |hs| ==> hs[i] != hs[j]
  {
    AllMet(handles.Keys, s.colls, names);
    HandlesFor(tx, handles, deleted, names, hs, s.colls);
    FlushPlan(tx, hs, names, u, s);
    ts := FlushStates(u, s, names);
  }

  /** The tracked handles in some order. */
  lemma HandlesFor(tx: Tx, handles: map<Key, Collection>, deleted: set<Key>, names: seq<Key>, hs: seq<Collection>, colls: seq<Coll>)
    requires Tracks(tx, handles, deleted, colls) && |hs| == |names|
    requires forall i :: 0 <= i < |names| ==> names[i] in handles && hs[i] == handles[names[i]]
    requires forall i, j :: 0 <= i < j < |names| ==> names[i] != names[j]
    ensures forall k :: 0 <= k < |names| ==> HandleOf(tx, hs[k], colls, names[k]) && names[k] !in deleted
    ensures forall i, j :: 0 <= i < j < |hs| ==> hs[i] != hs[j]
  {
    forall k | 0 <= k < |names| ensures HandleOf(tx, hs[k], colls, names[k]) && names[k] !in deleted {
      TrackedHandle(tx, handles, deleted, colls, names[k]);
    }
    forall i, j | 0 <= i < j < |hs| ensures hs[i] != hs[j] { assert names[i] != names[j]; }
  }

  lemma TrackedHandle(tx: Tx, handles: map<Key, Collection>, deleted: set<Key>, colls: seq<Coll>, name: Key)
    requires Tracks(tx, handles, deleted, colls) && name in handles
    ensures HandleOf(tx, handles[name], colls, name) && name !in deleted
  {
  }

  /** The order in which a range over the map meets its entries. */
  method SomeOrder(handles: map<Key, Collection>) returns (names: seq<Key>, hs: seq<Collection>)
    ensures |hs| == |names| && forall n :: n in handles <==> n in names
    ensures forall i :: 0 <= i < |names| ==> names[i] in handles && hs[i] == handles[names[i]]
    ensures forall i, j :: 0 <= i < j < |names| ==> names[i] != names[j]
  {
    names, hs := [], [];
    var todo := handles.Keys;
    while todo != {}
      invariant |hs| == |names| && todo <= handles.Keys && forall n :: n in handles <==> n in todo || n in names
      invariant forall i :: 0 <= i < |names| ==> names[i] in handles && hs[i] == handles[names[i]] && names[i] !in todo
      invariant forall i, j :: 0 <= i < j < |names| ==> names[i] != names[j]
      decreases |todo|
    {
      var name :| name in todo;
      todo := todo - {name};
      names, hs := names + [name], hs + [handles[name]];
    }
  }

  /** The states the loop goes through. */
  ghost function FlushStates(u: Setup, s: State, names: seq<Key>): (ts: seq<State>)
    requires Inv(u, s)
    ensures |ts| == |names| + 1
  {
    seq(|names| + 1, k requires 0 <= k <= |names| => Flush(u, s, names[..k]))
  }

  /** A turn for a handle with this metadata takes state t to next. */
  ghost predicate TurnOk(u: Setup, t: State, next: State, name: Key, r: Record) {
    && Inv(u, t) && next == FlushNamed(u, t, name)
    && (!r.dirty ==> next == t)
    && (r.dirty ==>
      var i := At(t.colls, name);
      && i != -1 && t.colls[i].dirty && Value(t.colls[i]) == CollectionValue(r.root, r.counter)
      && ValidItem(u.fill, Item(name, Value(t.colls[i]))))
  }

  /** What a handle says of its collection. */
  datatype Record = Record(root: PageNum, counter: nat, dirty: bool)

  function RecordOf(h: Collection): Record
    reads h
  {
    Record(h.root, h.counter, h.dirtyMeta)
  }

  function Records(hs: seq<Collection>): (rs: seq<Record>)
    reads hs
    ensures |rs| == |hs| && forall i :: 0 <= i < |hs| ==> rs[i] == RecordOf(hs[i])
  {
    if hs == [] then [] else Records(hs[..|hs| - 1]) + [RecordOf(hs[|hs| - 1])]
  }

  /** What turn k will find. */
  lemma PlanAt(tx: Tx, h: Collection, names: seq<Key>, k: nat, u: Setup, s: State)
    requires Inv(u, s) && k < |names| && HandleOf(tx, h, s.colls, names[k]) && names[k] !in names[..k]
    ensures TurnOk(u, Flush(u, s, names[..k]), Flush(u, s, names[..k + 1]), names[k], RecordOf(h))
  {
    Suffix(names, k);
    FlushNext(u, s, names[..k], names[k]);
    TurnFinds(u, s, names[..k], names[k]);
  }

  /** What every turn will find. */
  lemma FlushPlan(tx: Tx, hs: seq<Collection>, names: seq<Key>, u: Setup, s: State)
    requires Inv(u, s) && |hs| == |names|
    requires forall i, j :: 0 <= i < j < |names| ==> names[i] != names[j]
    requires forall i :: 0 <= i < |names| ==> HandleOf(tx, hs[i], s.colls, names[i])
    ensures var ts := FlushStates(u, s, names);
      && ts[0] == s && ts[|names|] == Flush(u, s, names)
      && forall k :: 0 <= k < |names| ==> TurnOk(u, ts[k], ts[k + 1], names[k], RecordOf(hs[k]))
  {
    Ends(names);
    forall k | 0 <= k < |names| ensures TurnOk(u, Flush(u, s, names[..k]), Flush(u, s, names[..k + 1]), names[k], RecordOf(hs[k])) {
      PlanAt(tx, hs[k], names, k, u, s);
    }
  }

  /** The loop of flushCollectionMetadata, over the tracked handles in any order. */
  method FlushList(tx: Tx, hs: seq<Collection>, names: seq<Key>, deleted: set<Key>, ghost u: Setup, ghost s: State, ghost ts: seq<State>, ghost rs: seq<Record>)
    returns (ghost t: State)
    requires Backed(tx, u, s) && |hs| == |names| == |rs| && |ts| == |names| + 1 && ts[0] == s
    requires forall i, j :: 0 <= i < j < |hs| ==> hs[i] != hs[j]
    requires forall k :: 0 <= k < |names| ==> names[k] !in deleted && RecordOf(hs[k]) == rs[k]
    requires forall k :: 0 <= k < |names| ==> TurnOk(u, ts[k], ts[k + 1], names[k], rs[k])
    modifies hs, tx`dirtyNodes, tx`view, tx`root, tx.freelist
    modifies set n: Node | allocated(n) || n in tx.dirtyNodes.Values
    ensures t == ts[|names|] && Backed(tx, u, t)
  {
    t := s;
    for k := 0 to |names|
      invariant t == ts[k] && Backed(tx, u, t)
      invariant forall i :: k <= i < |names| ==> RecordOf(hs[i]) == rs[i]
    {
      FlushTurn(tx, hs[k], names[k], deleted, u, t, ts[k + 1], rs[k]);
      t := ts[k + 1];
    }
  }

  /** Once every tracked handle was met, so was every collection with metadata to flush. */
  lemma AllMet(names: set<Key>, colls: seq<Coll>, order: seq<Key>)
    requires forall i :: 0 <= i < |colls| && colls[i].dirty ==> colls[i].name in names
    requires forall n :: n in names ==> n in order
    ensures Covers(order, colls)
  {
    forall c | c in colls && c.dirty ensures c.name in order {
      var i :| 0 <= i < |colls| && colls[i] == c;
    }
  }

  /** One turn of the loop. */
  method FlushTurn(tx: Tx, h: Collection, name: Key, deleted: set<Key>, ghost u: Setup, ghost t: State, ghost next: State, ghost r: Record)
    requires TurnOk(u, t, next, name, r) && RecordOf(h) == r && Backed(tx, u, t) && name !in deleted
    modifies h`dirtyMeta, tx`dirtyNodes, tx`view, tx`root, tx.freelist, tx.dirtyNodes.Values
    ensures !h.dirtyMeta && Backed(tx, u, next)
  {
    if name in deleted || !h.dirtyMeta {
      return;
    }
    ghost var after := FlushOnPages(tx, h, name, u, t, At(t.colls, name));
    h.dirtyMeta := false;
  }

  /** A turn finds the collection as it was before the flush. */
  lemma TurnFinds(u: Setup, s: State, order: seq<Key>, name: Key)
    requires Inv(u, s) && name !in order && IsName(s.colls, name)
    ensures var t := Flush(u, s, order); var i := At(t.colls, name);
      && 0 <= i < |s.colls| == |t.colls| && t.colls[i] == s.colls[i] && s.colls[i].name == name
      && ValidItem(u.fill, Item(name, Value(s.colls[i])))
      && (!s.colls[i].dirty ==> FlushNamed(u, t, name) == t)
  {
    var t := Flush(u, s, order);
    FlushIs(u, s, order);
    AtFinds(t.colls, name);
    var k :| 0 <= k < |s.colls| && s.colls[k].name == name;
    assert t.colls[k].name == name;
    assert IsName(t.colls, name);
    MetadataFits(u, t, At(t.colls, name));
  }

  /** The metadata of collection i goes into the root collection. */
  method FlushOnPages(tx: Tx, h: Collection, name: Key, ghost u: Setup, ghost s: State, ghost i: nat) returns (ghost t: State)
    requires Inv(u, s) && Backed(tx, u, s) && i < |s.colls| && i == At(s.colls, name) && s.colls[i].dirty
    requires Value(s.colls[i]) == CollectionValue(h.root, h.counter) && ValidItem(u.fill, Item(name, Value(s.colls[i])))
    modifies tx`dirtyNodes, tx`view, tx`root, tx.freelist, tx.dirtyNodes.Values
    ensures t == FlushNamed(u, s, name) && t.colls == Clean(s.colls, i) && Backed(tx, u, t)
  {
    FlushOneKeeps(u, s, i);
    t := FlushNamed(u, s, name);
    var ok := PutMetadata(tx, name, CollectionValue(h.root, h.counter), u, s, s.root);
    SameTrees(tx.view, PutRoot(u, s, Item(name, Value(s.colls[i]))), t, i);
  }

  /** The transaction can work on collection i. */
  lemma CollReady(tx: Tx, u: Setup, s: State, i: nat)
    requires Inv(u, s) && Backed(tx, u, s) && i < |s.colls|
    ensures var c := s.colls[i]; c.tree.page != 0 && Ready(tx, c.tree) && GoodTree(u.fill, c.tree, c.height)
  {
    CollApart(u, s, i);
    assert s.colls[i] in s.colls;
    assert Owners(u, s, 0) == One(InUse(s.pool, 0));
    UsesOfAt(TreesOf(s.colls), i, 0);
  }

  /** What Put on collection i leaves is the state after it. */
  lemma CollPut(u: Setup, s: State, i: nat, x: Item, was: Store, now: Store, filed: map<PageNum, Node>, refiled: map<PageNum, Node>)
    requires Inv(u, s) && i < |s.colls| && ValidItem(u.fill, x) && AllHeld(was, s) && Clear(filed.Keys, u.freelistPage)
    requires Untouched(s.colls[i].tree, s.pool, was, now, filed, refiled)
    requires Holds(now, PutIn(u, s, i, x).colls[i].tree)
    ensures AllHeld(now, PutIn(u, s, i, x)) && Clear(refiled.Keys, u.freelistPage)
  {
    CollWorked(u, s, i, was, now, filed, refiled);
    var t := PutIn(u, s, i, x);
    forall c | c in t.colls ensures Holds(now, c.tree) {
      var j :| 0 <= j < |t.colls| && t.colls[j] == c;
      assert j != i ==> c == s.colls[j];
    }
  }

  /** So after Collection.Put, given what it ensures, the transaction has the pages of that state, and its handle the metadata. */
  lemma PutDone(tx: Tx, h: Collection, u: Setup, s: State, i: nat, x: Item, tree: Tree, was: Store, filed: map<PageNum, Node>) returns (t: State)
    requires Inv(u, s) && i < |s.colls| && ValidItem(u.fill, x) && AllHeld(was, s) && Clear(filed.Keys, u.freelistPage)
    requires PutTree(u.fill, s.colls[i].tree, s.colls[i].height, x, s.pool) == Some((tree, tx.freelist.State()))
    requires tx.Valid() && tx.InSync({}) && tx.write && u.fill == tx.db.fill && u.freelistPage == tx.db.freelistPage
    requires tx.root == s.root.page && tx.pagesToDelete == s.toDelete && Holds(tx.view, tree)
    requires Untouched(s.colls[i].tree, s.pool, was, tx.view, filed, tx.dirtyNodes)
    requires h.tx == tx && !h.rootCollection && h.counter == s.colls[i].counter
    requires h.root == tree.page && h.dirtyMeta == (s.colls[i].dirty || tree.page != s.colls[i].tree.page)
    ensures t == PutIn(u, s, i, x) && Backed(tx, u, t) && OnlyChanged(s.colls, t.colls, i) && Tied(tx, h, t.colls[i])
  {
    t := PutIn(u, s, i, x);
    assert t.colls[i].tree == tree;
    CollPut(u, s, i, x, was, tx.view, filed, tx.dirtyNodes);
  }

  /** The same of Remove. */
  lemma CollRemove(u: Setup, s: State, i: nat, k: Key, was: Store, now: Store, filed: map<PageNum, Node>, refiled: map<PageNum, Node>)
    requires Inv(u, s) && i < |s.colls| && Removable(u, s.colls[i].tree, s.colls[i].height, k)
    requires AllHeld(was, s) && Clear(filed.Keys, u.freelistPage)
    requires Untouched(s.colls[i].tree, s.pool, was, now, filed, refiled)
    requires Holds(now, RemoveIn(u, s, i, k).colls[i].tree)
    ensures AllHeld(now, RemoveIn(u, s, i, k)) && Clear(refiled.Keys, u.freelistPage)
  {
    CollWorked(u, s, i, was, now, filed, refiled);
    var t := RemoveIn(u, s, i, k);
    forall c | c in t.colls ensures Holds(now, c.tree) {
      var j :| 0 <= j < |t.colls| && t.colls[j] == c;
      assert j != i ==> c == s.colls[j];
    }
  }

  lemma RemoveDone(tx: Tx, h: Collection, u: Setup, s: State, i: nat, k: Key, r: Removed, was: Store, filed: map<PageNum, Node>) returns (t: State)
    requires Inv(u, s) && i < |s.colls| && Removable(u, s.colls[i].tree, s.colls[i].height, k)
    requires AllHeld(was, s) && Clear(filed.Keys, u.freelistPage)
    requires RemoveTree(u.mode, u.fill, s.colls[i].tree, s.colls[i].height, k) == Some(r)
    requires tx.Valid() && tx.InSync({}) && tx.write && u.fill == tx.db.fill && u.freelistPage == tx.db.freelistPage
    requires tx.freelist.State() == s.pool && tx.root == s.root.page && tx.pagesToDelete == s.toDelete + r.deleted && Holds(tx.view, r.tree)
    requires Untouched(s.colls[i].tree, s.pool, was, tx.view, filed, tx.dirtyNodes)
    requires h.tx == tx && !h.rootCollection && h.counter == s.colls[i].counter
    requires h.root == r.tree.page && h.dirtyMeta == (s.colls[i].dirty || r.tree.page != s.colls[i].tree.page)
    ensures t == RemoveIn(u, s, i, k) && Backed(tx, u, t) && OnlyChanged(s.colls, t.colls, i) && Tied(tx, h, t.colls[i])
  {
    t := RemoveIn(u, s, i, k);
    assert t.colls[i].tree == r.tree;
    CollRemove(u, s, i, k, was, tx.view, filed, tx.dirtyNodes);
  }

  /** The pages of a new collection: its root, and its metadata in the root collection. */
  method CreateOnPages(tx: Tx, name: Key, ghost u: Setup, ghost s: State) returns (ok: bool, page: PageNum, ghost t: State)
    requires Inv(u, s) && Backed(tx, u, s)
    modifies tx`dirtyNodes, tx`view, tx`root, tx.freelist, tx.dirtyNodes.Values
    ensures ok == ValidName(u.fill, name) && page == NextPage(s.pool).0
    ensures t == Create(u, s, name) && Backed(tx, u, t)
    ensures t.colls == if ok then Without(s.colls, name) + [NewColl(name, page)] else s.colls
  {
    t := Create(u, s, name);
    ghost var c := NewColl(name, NextPage(s.pool).0);
    AllocatedKeeps(u, s);
    page := NewLeaf(tx, u, s);
    assert Allocated(s).leaked[|s.leaked|] == Leaf(page);
    ok := PutMetadata(tx, name, CollectionValue(page, 0), u, Allocated(s), Leaf(page));
    NameFits(u.fill, name, page);
    CreatedColls(u, s, name);
    if ok {
      CreatedHeld(tx.view, PutRoot(u, Allocated(s), Item(name, Value(c))), Create(u, s, name), s, c);
    }
  }

  lemma NameFits(f: Fill, name: Key, page: PageNum)
    ensures ValidItem(f, Item(name, CollectionValue(page, 0))) <==> ValidName(f, name)
  {
    if ValidName(f, name) { ValueFits(f, name, CollectionValue(0, 0), CollectionValue(page, 0)); }
    if ValidItem(f, Item(name, CollectionValue(page, 0))) { ValueFits(f, name, CollectionValue(page, 0), CollectionValue(0, 0)); }
  }

  /** writeNode(newNode(nil, nil)), for the root of a new collection. */
  method NewLeaf(tx: Tx, ghost u: Setup, ghost s: State) returns (page: PageNum)
    requires Inv(u, s) && Backed(tx, u, s)
    modifies tx`dirtyNodes, tx`view, tx.freelist
    ensures Backed(tx, u, Allocated(s)) && page == NextPage(s.pool).0
    ensures page in tx.view && tx.view[page] == NodeRec([], []) && page != s.root.page
    ensures forall n :: n in tx.dirtyNodes.Values ==> n in old(tx.dirtyNodes.Values) || fresh(n)
  {
    ghost var was := tx.view;
    var node := tx.WriteNewNode([], []);
    page := node.pageNum;
    FreshPage(u, s, was, page);
  }

  /** A page that was free is no tree's. */
  lemma FreshPage(u: Setup, s: State, was: Store, page: PageNum)
    requires Inv(u, s) && AllHeld(was, s) && !InUse(s.pool, page)
    ensures page != 0 && page != u.freelistPage && page != s.root.page && AllHeld(was[page := NodeRec([], [])], s)
  {
    var now := was[page := NodeRec([], [])];
    assert Owners(u, s, page) == One(InUse(s.pool, page));
    RootApart(u, s);
    HoldsFrame(was, now, s.root);
    forall c | c in s.colls ensures Holds(now, c.tree) {
      HoldsFrame(was, now, c.tree);
    }
  }

  /** The new collection's tree is in the store, and the other collections' still are. */
  lemma CreatedHeld(st: Store, b: State, t: State, s: State, c: Coll)
    requires AllHeld(st, b) && b.colls == s.colls && t.root == b.root && t.colls == Without(s.colls, c.name) + [c]
    requires NamesApart(s.colls) && Holds(st, c.tree)
    ensures AllHeld(st, t)
  {
    WithoutNames(s.colls, c.name);
  }

  /** A new handle takes the place of any other under its name. */
  lemma TrackNew(tx: Tx, handles: map<Key, Collection>, deleted: set<Key>, colls: seq<Coll>, c: Coll, h: Collection)
    requires Tracks(tx, handles, deleted, colls) && NamesApart(colls) && Tied(tx, h, c) && h !in handles.Values
    ensures Tracks(tx, handles[c.name := h], deleted - {c.name}, Without(colls, c.name) + [c])
  {
    var w := Without(colls, c.name);
    WithoutNames(colls, c.name);
    forall n ensures IsName(w + [c], n) <==> n == c.name || IsName(w, n) {
      assert (w + [c])[|w|].name == c.name;
      if IsName(w, n) {
        var i :| 0 <= i < |w| && w[i].name == n;
        assert (w + [c])[i].name == n;
      }
    }
  }

  /** The handle of a collection just created. */
  method NewHandle(tx: Tx, name: Key, page: PageNum, handles: map<Key, Collection>, deleted: set<Key>, ghost colls: seq<Coll>) returns (h: Collection)
    requires Tracks(tx, handles, deleted, colls) && NamesApart(colls)
    ensures Tracks(tx, handles[name := h], deleted - {name}, Without(colls, name) + [NewColl(name, page)])
  {
    h := new Collection(tx, false, page, 0);
    TrackNew(tx, handles, deleted, colls, NewColl(name, page), h);
  }

  /** A handle made from the metadata in the root collection. */
  method OpenCollection(tx: Tx, name: Key, value: seq<Byte>, handles: map<Key, Collection>, deleted: set<Key>, ghost u: Setup, ghost s: State)
    returns (h: Collection)
    requires Inv(u, s) && s.pool.maxPage < UINT64_LIMIT && Tracks(tx, handles, deleted, s.colls) && name !in handles
    requires name in Metadata(s) && value == Metadata(s)[name]
    ensures Tracks(tx, handles[name := h], deleted, s.colls)
  {
    MetadataReads(u, s, name);
    var parts := ReadCollectionValue(value).value;
    h := new Collection(tx, false, parts.0, parts.1);
    TrackRead(tx, handles, deleted, u, s, name, h);
  }

  /** GetCollection in a read transaction, which tracks nothing: a new handle made from the metadata; null if there is no such collection. */
  method GetCollectionToRead(tx: Tx, name: Key, ghost u: Setup, ghost s: State) returns (h: Collection?)
    requires Inv(u, s) && Settled(s) && Shown(tx, s) && !tx.write && s.pool.maxPage < UINT64_LIMIT
    ensures h != null <==> IsName(s.colls, name)
    ensures h != null ==> HandleOf(tx, h, s.colls, name)
  {
    var value := FindMetadata(tx, name, u, s);
    if value.None? {
      return null;
    }
    h := OpenCollection(tx, name, value.value, map[], {}, u, s);
    assert map[name := h][name] == h;
  }

  /** A handle made from the metadata of an untracked collection is that collection. */
  lemma TrackRead(tx: Tx, handles: map<Key, Collection>, deleted: set<Key>, u: Setup, s: State, name: Key, h: Collection)
    requires Inv(u, s) && s.pool.maxPage < UINT64_LIMIT && Tracks(tx, handles, deleted, s.colls)
    requires name in Metadata(s) && name !in handles && h !in handles.Values
    requires h.tx == tx && !h.rootCollection && !h.dirtyMeta && ReadCollectionValue(Metadata(s)[name]) == Some((h.root, h.counter))
    ensures Tracks(tx, handles[name := h], deleted, s.colls)
  {
    MetadataReads(u, s, name);
    forall i | 0 <= i < |s.colls| && s.colls[i].name == name ensures Tied(tx, h, s.colls[i]) {
      assert s.colls[i] in s.colls;
    }
  }

  /** The metadata of a collection that is not marked dirty reads as its root and counter. */
  lemma MetadataReads(u: Setup, s: State, name: Key)
    requires Inv(u, s) && s.pool.maxPage < UINT64_LIMIT && name in Metadata(s)
    ensures ReadCollectionValue(Metadata(s)[name]).Some?
    ensures forall c :: c in s.colls && c.name == name && !c.dirty ==> ReadCollectionValue(Metadata(s)[name]) == Some((c.tree.page, c.counter))
  {
    forall c | c in s.colls && c.name == name && !c.dirty
      ensures ReadCollectionValue(Metadata(s)[name]) == Some((c.tree.page, c.counter))
    {
      var i :| 0 <= i < |s.colls| && s.colls[i] == c;
      CollectionPage(u, s, i);
      CollectionRoundTrip(c.tree.page, c.counter);
    }
  }
}
