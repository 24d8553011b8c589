/**
 * Any number of write transactions, each with any operations, ended by commit
 * or rollback; and what a database opened from the committed pages shows.
 */
module Histories {
  import opened Maybe
  import opened Keys
  import opened Items
  import opened Fill
  import opened Trees
  import opened Pool
  import opened TreeRemove
  import opened HeadCodec
  import opened Forest
  import opened Lifecycle
  import opened Database

  /** What is committed, and the write transaction under way. */
  datatype Db = Db(base: State, cur: Option<State>)

  /** Commit lists the collections in the order its loop over a map meets them. */
  datatype Action = Begin | Operate(op: Op) | Commit(order: seq<Key>) | Rollback

  /** The committed state has nothing left to flush or to release. */
  ghost predicate Settled(s: State) {
    AllClean(s.colls) && s.toDelete == []
  }

  ghost predicate DbInv(u: Setup, d: Db) {
    && Inv(u, d.base) && Settled(d.base)
    && (d.cur.Some? ==> Inv(u, d.cur.value) && Extends(d.base.pool, d.cur.value.pool))
  }

  ghost predicate Enabled(u: Setup, d: Db, a: Action)
    requires DbInv(u, d)
  {
    match a
    case Begin => d.cur.None?
    case Operate(op) => d.cur.Some? && Allowed(u, d.cur.value, op)
    case Commit(order) => d.cur.Some? && Covers(order, d.cur.value.colls)
    case Rollback => d.cur.Some?
  }

  ghost function Act(u: Setup, d: Db, a: Action): (e: Db)
    requires DbInv(u, d) && Enabled(u, d, a)
  {
    match a
    case Begin => d.(cur := Some(d.base))
    case Operate(op) => d.(cur := Some(Do(u, d.cur.value, op)))
    case Commit(order) => Db(Publish(Flush(u, d.cur.value, order)), None)
    case Rollback => d.(cur := None)
  }

  /** As documented, every operation is possible in every transaction, and with some order every commit: only begin waits for the one before to end. */
  lemma AlwaysEnabled(u: Setup, d: Db, op: Op)
    requires DbInv(u, d) && u.mode == AsDocumented
    ensures Enabled(u, d, Begin) <==> d.cur == None
    ensures Enabled(u, d, Operate(op)) <==> d.cur != None
    ensures Enabled(u, d, Rollback) <==> d.cur != None
    ensures (exists order :: Enabled(u, d, Commit(order))) <==> d.cur != None
  {
    if d.cur.Some? {
      var order := AllNames(d.cur.value.colls);
      assert Enabled(u, d, Commit(order));
      if op.Remove? { AtFinds(d.cur.value.colls, op.name); }
    }
  }

  /** The names of all collections, in an order that meets them all. */
  lemma AllNames(colls: seq<Coll>) returns (order: seq<Key>)
    ensures Covers(order, colls)
  {
    order := seq(|colls|, i requires 0 <= i < |colls| => colls[i].name);
    forall i | 0 <= i < |colls| ensures colls[i].name in order { assert order[i] == colls[i].name; }
  }

  /** An operation only hands pages out: those to be released wait for the commit. */
  lemma OpExtends(u: Setup, s: State, op: Op)
    requires Inv(u, s) && Allowed(u, s, op)
    ensures Extends(s.pool, Do(u, s, op).pool)
  {
    var i := At(s.colls, op.name);
    match op
    case CreateColl(name) =>
      AllocatedKeeps(u, s);
      var c := NewColl(name, NextPage(s.pool).0);
      if ValidItem(u.fill, Item(name, Value(c))) {
        var a := Allocated(s);
        PutGood(u.fill, a.root, a.rootHeight, Item(name, Value(c)), a.pool);
      }
    case Put(_, x) => if i != -1 && ValidItem(u.fill, x) {
      assert s.colls[i] in s.colls;
      PutGood(u.fill, s.colls[i].tree, s.colls[i].height, x, s.pool);
    }
    case _ =>
  }

  lemma ActKeeps(u: Setup, d: Db, a: Action)
    requires DbInv(u, d) && Enabled(u, d, a)
    ensures DbInv(u, Act(u, d, a))
  {
    match a
    case Begin =>
    case Operate(op) =>
      OpRefines(u, d.cur.value, op, op.name);
      OpExtends(u, d.cur.value, op);
    case Commit(order) =>
      FlushCleans(u, d.cur.value, order, []);
      PublishKeeps(u, Flush(u, d.cur.value, order));
    case Rollback =>
  }

  /** These actions lead from d to e. */
  ghost predicate Leads(u: Setup, d: Db, actions: seq<Action>, e: Db)
    requires DbInv(u, d)
    decreases |actions|
  {
    if actions == [] then e == d
    else Enabled(u, d, actions[0]) && (ActKeeps(u, d, actions[0]); Leads(u, Act(u, d, actions[0]), actions[1..], e))
  }

  /**
   * In every state of every history: the committed pages and those of the
   * transaction under way have exactly one owner each if in use and none if
   * free, and all trees are good.
   */
  lemma {:induction false} HistoryKeeps(u: Setup, d: Db, actions: seq<Action>, e: Db)
    requires DbInv(u, d) && Leads(u, d, actions, e)
    ensures DbInv(u, e)
    decreases |actions|
  {
    if actions != [] {
      ActKeeps(u, d, actions[0]);
      HistoryKeeps(u, Act(u, d, actions[0]), actions[1..], e);
    }
  }

  // ---------------------------------------------------------------- meaning

  /** What is seen under one name: in what is committed, and in the transaction under way. */
  datatype Seen = Seen(base: Option<View>, cur: Option<Option<View>>)

  function SeenIn(d: Db, name: Key): Seen {
    Seen(Sees(d.base.colls, name), if d.cur.None? then None else Some(Sees(d.cur.value.colls, name)))
  }

  /** The specification: commit publishes what the transaction sees, rollback drops it. */
  function SpecAct(f: Fill, name: Key, m: Seen, a: Action): Seen {
    match a
    case Begin => m.(cur := Some(m.base))
    case Operate(op) => if m.cur.None? then m else m.(cur := Some(Effect(f, op, name, m.cur.value)))
    case Commit(_) => if m.cur.None? then m else Seen(m.cur.value, None)
    case Rollback => m.(cur := None)
  }

  function SpecAll(f: Fill, name: Key, m: Seen, actions: seq<Action>): Seen
    decreases |actions|
  {
    if actions == [] then m else SpecAll(f, name, SpecAct(f, name, m, actions[0]), actions[1..])
  }

  lemma ActRefines(u: Setup, d: Db, a: Action, name: Key)
    requires DbInv(u, d) && Enabled(u, d, a)
    ensures SeenIn(Act(u, d, a), name) == SpecAct(u.fill, name, SeenIn(d, name), a)
  {
    match a
    case Begin =>
    case Operate(op) => OpRefines(u, d.cur.value, op, name);
    case Commit(order) => FlushCleans(u, d.cur.value, order, name);
    case Rollback =>
  }

  /** Every history does to every name exactly what the specification says, whatever the order of flushing. */
  lemma {:induction false} HistoryRefines(u: Setup, d: Db, actions: seq<Action>, e: Db, name: Key)
    requires DbInv(u, d) && Leads(u, d, actions, e)
    ensures SeenIn(e, name) == SpecAll(u.fill, name, SeenIn(d, name), actions)
    decreases |actions|
  {
    if actions != [] {
      ActKeeps(u, d, actions[0]);
      ActRefines(u, d, actions[0], name);
      HistoryRefines(u, Act(u, d, actions[0]), actions[1..], e, name);
    }
  }

  // ---------------------------------------------------------------- IDs

  /** Begin, operate, end: the actions of one transaction. */
  function Transaction(ops: seq<Op>, end: Action): seq<Action> {
    [Begin] + Operations(ops) + [end]
  }

  function Operations(ops: seq<Op>): (r: seq<Action>)
    ensures |r| == |ops|
  {
    seq(|ops|, i requires 0 <= i < |ops| => Operate(ops[i]))
  }

  function IdsIn(ops: seq<Op>, name: Key): nat {
    if ops == [] then 0 else IdsIn(ops[..|ops| - 1], name) + if ops[|ops| - 1] == Id(name) then 1 else 0
  }

  /** The ID handed out is the number of IDs issued before it, modulo the counter's width. */
  lemma IdIsNext(u: Setup, s: State, i: nat)
    requires Inv(u, s) && i < |s.colls|
    ensures Sees(s.colls, s.colls[i].name).Some?
    ensures IdIn(s, i).0 == Sees(s.colls, s.colls[i].name).value.issued % UINT64_LIMIT
  {
    assert s.colls[i] in s.colls;
    AtUnique(s.colls, i);
  }

  /** The operations neither create nor delete the name. */
  ghost predicate KeepsName(ops: seq<Op>, name: Key) {
    forall i :: 0 <= i < |ops| ==> ops[i] != CreateColl(name) && ops[i] != DeleteColl(name)
  }

  lemma {:induction false} SpecAppend(f: Fill, name: Key, m: Seen, a: seq<Action>, b: seq<Action>)
    ensures SpecAll(f, name, m, a + b) == SpecAll(f, name, SpecAll(f, name, m, a), b)
    decreases |a|
  {
    if a == [] {
      assert a + b == b;
    } else {
      assert (a + b)[1..] == a[1..] + b;
      SpecAppend(f, name, SpecAct(f, name, m, a[0]), a[1..], b);
    }
  }

  lemma {:induction false} SpecIds(f: Fill, name: Key, m: Seen, ops: seq<Op>)
    requires m.cur.Some? && m.cur.value.Some? && KeepsName(ops, name)
    ensures var r := SpecAll(f, name, m, Operations(ops));
      r.base == m.base && r.cur.Some? && r.cur.value.Some? && r.cur.value.value.issued == m.cur.value.value.issued + IdsIn(ops, name)
  {
    if ops == [] {
    } else {
      var n := |ops| - 1;
      SpecIds(f, name, m, ops[..n]);
      assert Operations(ops) == Operations(ops[..n]) + [Operate(ops[n])];
      SpecAppend(f, name, m, Operations(ops[..n]), [Operate(ops[n])]);
      var r := SpecAll(f, name, m, Operations(ops[..n]));
      assert SpecAll(f, name, r, [Operate(ops[n])]) == SpecAct(f, name, r, Operate(ops[n]));
    }
  }

  /** A transaction that commits moves the count of issued IDs on by the IDs it took; one that rolls back does not. */
  lemma IdsOfTransaction(f: Fill, name: Key, m: Seen, ops: seq<Op>, order: seq<Key>)
    requires m.base.Some? && m.cur.None? && KeepsName(ops, name)
    ensures var r := SpecAll(f, name, m, Transaction(ops, Commit(order)));
      r.cur.None? && r.base.Some? && r.base.value.issued == m.base.value.issued + IdsIn(ops, name)
    ensures SpecAll(f, name, m, Transaction(ops, Rollback)) == m
  {
    var b := SpecAct(f, name, m, Begin);
    SpecIds(f, name, b, ops);
    var r := SpecAll(f, name, b, Operations(ops));
    forall end: Action ensures SpecAll(f, name, m, Transaction(ops, end)) == SpecAct(f, name, r, end) {
      var t := Transaction(ops, end);
      assert t[1..] == Operations(ops) + [end];
      SpecAppend(f, name, b, Operations(ops), [end]);
      assert SpecAll(f, name, r, [end]) == SpecAct(f, name, r, end);
    }
  }

  // ---------------------------------------------------------------- pages handed out

  /** What allocates pages in a transaction: its operations, and the turns of the flush when it commits. */
  datatype Move = Perform(op: Op) | FlushColl(name: Key)

  ghost predicate MoveAllowed(u: Setup, s: State, m: Move)
    requires Inv(u, s)
  {
    m.Perform? ==> Allowed(u, s, m.op)
  }

  ghost function Moved(u: Setup, s: State, m: Move): State
    requires Inv(u, s) && MoveAllowed(u, s, m)
  {
    match m
    case Perform(op) => Do(u, s, op)
    case FlushColl(name) => FlushNamed(u, s, name)
  }

  lemma MovedKeeps(u: Setup, s: State, m: Move)
    requires Inv(u, s) && MoveAllowed(u, s, m)
    ensures Inv(u, Moved(u, s, m)) && Extends(s.pool, Moved(u, s, m).pool)
  {
    match m
    case Perform(op) =>
      OpRefines(u, s, op, []);
      OpExtends(u, s, op);
    case FlushColl(name) =>
      var i := At(s.colls, name);
      if i != -1 && s.colls[i].dirty {
        MetadataFits(u, s, i);
        PutGood(u.fill, s.root, s.rootHeight, Item(s.colls[i].name, Value(s.colls[i])), s.pool);
      }
  }

  /** The states of one transaction, from its start on. */
  ghost predicate Path(u: Setup, ss: seq<State>, moves: seq<Move>) {
    && |ss| == |moves| + 1 && Inv(u, ss[0])
    && forall i :: 0 <= i < |moves| ==> Inv(u, ss[i]) ==> MoveAllowed(u, ss[i], moves[i]) && ss[i + 1] == Moved(u, ss[i], moves[i])
  }

  lemma {:induction false} PathKeeps(u: Setup, ss: seq<State>, moves: seq<Move>, i: nat, j: nat)
    requires Path(u, ss, moves) && i <= j < |ss|
    ensures Inv(u, ss[j]) && forall p :: InUse(ss[i].pool, p) ==> InUse(ss[j].pool, p)
    decreases j
  {
    if j > 0 {
      PathKeeps(u, ss, moves, if i < j then i else j - 1, j - 1);
      MovedKeeps(u, ss[j - 1], moves[j - 1]);
    }
  }

  /** Move i of the transaction hands page p out. */
  ghost predicate HandsOut(ss: seq<State>, i: nat, p: PageNum)
    requires i + 1 < |ss|
  {
    Taken(ss[i].pool, ss[i + 1].pool, p) == 1
  }

  /**
   * No page is handed out twice in a transaction, also if it is to be released
   * in between, and none that is reachable from the committed root or reserved.
   */
  lemma NeverHandedOutAgain(u: Setup, ss: seq<State>, moves: seq<Move>, i: nat, j: nat, p: PageNum)
    requires Path(u, ss, moves) && i <= j < |moves|
    ensures i < j && HandsOut(ss, i, p) ==> !HandsOut(ss, j, p)
    ensures p in ss[i].toDelete ==> !HandsOut(ss, j, p)
    ensures Uses(ss[0].root, p) > 0 || UsesOf(TreesOf(ss[0].colls), p) > 0 || p == 0 || p == u.freelistPage ==> !HandsOut(ss, j, p)
  {
    PathKeeps(u, ss, moves, 0, i);
    PathKeeps(u, ss, moves, i, j);
    PathKeeps(u, ss, moves, 0, j);
    assert Owners(u, ss[0], p) == One(InUse(ss[0].pool, p));
    assert Owners(u, ss[i], p) == One(InUse(ss[i].pool, p));
    if i < j { PathKeeps(u, ss, moves, i + 1, j); }
    if p in ss[i].toDelete { assert Count(ss[i].toDelete, p) > 0; }
  }

  // ---------------------------------------------------------------- opening

  /** The store holds one tree at most at a page. */
  lemma {:induction false} HoldsUnique(st: Store, t: Tree, r: Tree)
    requires Holds(st, t) && Holds(st, r) && t.page == r.page
    ensures t == r
  {
    assert KidPages(t.kids) == KidPages(r.kids);
    forall i | 0 <= i < |t.kids| ensures t.kids[i] == r.kids[i] {
      assert KidPages(t.kids)[i] == KidPages(r.kids)[i];
      HoldsUnique(st, t.kids[i], r.kids[i]);
    }
    assert t.kids == r.kids;
  }

  ghost predicate AllHeld(st: Store, s: State) {
    Holds(st, s.root) && forall c :: c in s.colls ==> Holds(st, c.tree)
  }

  /** What is read from the pages: the root collection at the root page, and for each of its items a collection. */
  ghost predicate OpensAs(st: Store, root: PageNum, s: State) {
    && s.root.page == root && AllHeld(st, s) && NamesApart(s.colls)
    && (forall name :: name in Metadata(s) <==> IsName(s.colls, name))
    && forall c :: c in s.colls ==> c.name in Metadata(s) && ReadCollectionValue(Metadata(s)[c.name]) == Some((c.tree.page, c.counter))
  }

  /** Opening the committed pages gives back every collection, with the root, counter and contents the writer left. */
  lemma OpenedAsCommitted(u: Setup, s: State, st: Store, r: State, name: Key)
    requires Inv(u, s) && Settled(s) && s.pool.maxPage < UINT64_LIMIT && AllHeld(st, s) && OpensAs(st, s.root.page, r)
    ensures r.root == s.root && (Named(r.colls, name).Some? <==> Named(s.colls, name).Some?)
    ensures Named(s.colls, name).Some? ==>
      var x, y := Named(r.colls, name).value, Named(s.colls, name).value; x.tree == y.tree && x.counter == y.counter
  {
    HoldsUnique(st, s.root, r.root);
    AtFinds(s.colls, name);
    AtFinds(r.colls, name);
    assert IsName(r.colls, name) <==> name in Metadata(s);
    if IsName(s.colls, name) {
      var x, y := r.colls[At(r.colls, name)], s.colls[At(s.colls, name)];
      assert x in r.colls && y in s.colls;
      CollectionPage(u, s, At(s.colls, name));
      CollectionRoundTrip(y.tree.page, y.counter);
      HoldsUnique(st, x.tree, y.tree);
    }
  }

  lemma CollectionPage(u: Setup, s: State, i: nat)
    requires Inv(u, s) && i < |s.colls|
    ensures s.colls[i].tree.page <= s.pool.maxPage && s.colls[i].counter < UINT64_LIMIT
  {
    var t := s.colls[i].tree;
    assert s.colls[i] in s.colls;
    assert Owners(u, s, t.page) == One(InUse(s.pool, t.page));
    UsesOfAt(TreesOf(s.colls), i, t.page);
  }
}
