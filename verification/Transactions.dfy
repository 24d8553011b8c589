/** A write transaction from WriteTx to Commit (db.go, tx.go): what the next transaction starts from. */
module Transactions {
  import opened Keys
  import opened Bytes
  import opened Trees
  import opened Pool
  import opened HeadCodec
  import opened WalCodec
  import opened Replay
  import opened Engine
  import opened Collections
  import opened Forest
  import opened Database
  import opened Histories
  import opened Storage
  import opened Commits
  import opened Sessions
  import opened Opening
  import C = Crash

  /** Page numbers are 64-bit numbers, and a log of all pages is shorter than 2^63 bytes. */
  predicate Bounded(p: Pool, pageSize: nat) {
    && p.maxPage < UINT64_LIMIT && pageSize < 0x1_0000_0000
    && WAL_HEADER_SIZE + (p.maxPage + 1) * (PAGE_NUM_BYTES + pageSize) < 0x8000_0000_0000_0000
  }

  lemma {:induction false} CountUpTo(s: set<nat>, n: nat)
    requires forall x :: x in s ==> x <= n
    ensures |s| <= n + 1
  {
    if n > 0 {
      CountUpTo(s - {n}, n - 1);
    } else {
      assert s <= {0};
      Subset(s, {0});
    }
  }

  lemma {:induction false} Subset(a: set<nat>, b: set<nat>)
    requires a <= b
    ensures |a| <= |b|
  {
    if a != {} {
      var x :| x in a;
      Subset(a - {x}, b - {x});
    }
  }

  lemma BoundedFitsLog(u: Setup, s: Forest.State, dirty: set<PageNum>, pageSize: nat)
    requires Inv(u, s) && Bounded(s.pool, pageSize) && forall p :: p in dirty ==> InUse(s.pool, p)
    ensures FitsLog(dirty + {u.freelistPage, 0}, pageSize)
  {
    assert Owners(u, s, u.freelistPage) == One(InUse(s.pool, u.freelistPage));
    var all := dirty + {u.freelistPage, 0};
    CountUpTo(all, s.pool.maxPage);
    Product(|all|, s.pool.maxPage + 1, PAGE_NUM_BYTES + pageSize);
  }

  lemma Product(a: nat, b: nat, c: nat)
    requires a <= b
    ensures a * c <= b * c
  {
  }

  /** The database is in the committed state s: its pages, in memory and in the file, its root and its free pages. */
  ghost predicate Stored(db: DB, dal: Dal, u: Setup, s: Forest.State)
    reads db, db.freelist, dal
  {
    && u.fill == db.fill && u.freelistPage == db.freelistPage && dal.pageSize == db.fill.pageSize
    && Settled(s) && AllHeld(db.disk, s) && db.root == s.root.page && db.freelist.State() == s.pool
    && dal.Valid() && dal.Now().phase.Idle? && Shows(dal.file, dal.pageSize, db.disk, {0, u.freelistPage})
  }

  /** WriteTx: a transaction starts from what is committed. */
  method Begin(db: DB, dal: Dal, ghost u: Setup, ghost s: Forest.State) returns (tx: Tx)
    requires Inv(u, s) && Stored(db, dal, u, s)
    ensures fresh(tx) && fresh(tx.freelist) && tx.db == db && tx.dirtyNodes == map[] && Backed(tx, u, s)
  {
    tx := new Tx(db, true);
  }

  /** ReadTx: a transaction that finds what is committed. */
  method BeginRead(db: DB, dal: Dal, ghost u: Setup, ghost s: Forest.State) returns (tx: Tx)
    requires Inv(u, s) && Stored(db, dal, u, s)
    ensures fresh(tx) && fresh(tx.freelist) && tx.db == db && !tx.write && Shown(tx, s) && Settled(s)
  {
    tx := new Tx(db, false);
  }

  /** Commit: flush the metadata, then apply and publish. t is the state after flushing, in some order of the handles. */
  method Commit(tx: Tx, handles: map<Key, Collection>, deleted: set<Key>, dal: Dal, ghost u: Setup, ghost s: Forest.State)
    returns (v: Verdict, ghost order: seq<Key>, ghost t: Forest.State)
    requires Inv(u, s) && Backed(tx, u, s) && Tracks(tx, handles, deleted, s.colls)
    requires forall order :: Bounded(Flush(u, s, order).pool, dal.pageSize)
    requires dal.Valid() && dal.Now().phase.Idle? && dal.pageSize == tx.db.fill.pageSize
    requires Shows(dal.file, dal.pageSize, tx.db.disk, {0, tx.db.freelistPage})
    modifies handles.Values, tx`dirtyNodes, tx`view, tx`root, tx.freelist, tx.db, dal
    modifies set n: Node | allocated(n) || n in tx.dirtyNodes.Values
    ensures Covers(order, s.colls) && t == Flush(u, s, order)
    ensures v == Committed && AllFit(tx.dirtyNodes.Keys, tx.view, dal.pageSize) ==> Stored(tx.db, dal, u, Publish(t))
    ensures v == Committed && AllFit(tx.dirtyNodes.Keys, tx.view, dal.pageSize) && dal.pageSize <= MAX_PAGE_SIZE ==>
      && OnFile(dal.file, dal.pageSize, u, Publish(t))
      && CommitSafe(C.Config(dal.pageSize, dal.crc), dal.trace, |old(dal.trace)| - 1, old(dal.file), u, t)
    ensures v != Committed ==> dal.file == old(dal.file) && tx.db.disk == old(tx.db.disk) && tx.db.root == old(tx.db.root)
  {
    order, t := FlushMetadata(tx, handles, deleted, u, s);
    BoundedFitsLog(u, t, tx.dirtyNodes.Keys, dal.pageSize);
    v := CommitFlushed(tx, dal, u, t);
    FlushCleans(u, s, order, []);
  }

  /** Commit after flushing. */
  method CommitFlushed(tx: Tx, dal: Dal, ghost u: Setup, ghost t: Forest.State) returns (v: Verdict)
    requires Inv(u, t) && Backed(tx, u, t) && FitsLog(tx.dirtyNodes.Keys + {u.freelistPage, 0}, dal.pageSize) && t.pool.maxPage < UINT64_LIMIT
    requires dal.Valid() && dal.Now().phase.Idle? && dal.pageSize == tx.db.fill.pageSize
    requires Shows(dal.file, dal.pageSize, tx.db.disk, {0, tx.db.freelistPage})
    modifies tx.db, dal
    ensures v == Committed && AllClean(t.colls) && AllFit(tx.dirtyNodes.Keys, tx.view, dal.pageSize) ==> Stored(tx.db, dal, u, Publish(t))
    ensures v == Committed && AllFit(tx.dirtyNodes.Keys, tx.view, dal.pageSize) && dal.pageSize <= MAX_PAGE_SIZE ==>
      && OnFile(dal.file, dal.pageSize, u, Publish(t))
      && CommitSafe(C.Config(dal.pageSize, dal.crc), dal.trace, |old(dal.trace)| - 1, old(dal.file), u, t)
    ensures v != Committed ==> dal.file == old(dal.file) && tx.db.disk == old(tx.db.disk) && tx.db.root == old(tx.db.root)
  {
    ghost var written;
    ghost var trace, file, disk, view, dirty := dal.trace, dal.file, tx.db.disk, tx.view, tx.dirtyNodes.Keys;
    assert forall p :: p !in dirty ==> Lookup(view, p) == Lookup(disk, p);
    assert u.freelistPage in dirty + {u.freelistPage, 0};
    v, written := Commits.Commit(tx, dal);
    ghost var next, meta := tx.db.freelist.State(), Meta(tx.root, tx.db.freelistPage);
    if v == Committed && AllFit(dirty, view, dal.pageSize) && dal.pageSize <= MAX_PAGE_SIZE {
      CommitDurable(C.Config(dal.pageSize, dal.crc), trace, dal.trace, file, written, dirty, disk, view, next, meta, u, t);
    }
  }

  /** The file after a commit, and the file found after a crash in it. */
  lemma CommitDurable(c: C.Config, a: seq<C.State>, r: seq<C.State>, file: File, written: seq<Page>, dirty: set<PageNum>, before: Store, view: Store,
      next: Pool, meta: Meta, u: Setup, t: Forest.State)
    requires C.Run(c, r) && a != [] && file == a[|a| - 1].file && a[|a| - 1].phase.Idle? && Storage.Extends(a, r) && |a| < |r|
    requires r[|a|].phase == C.Logging(written, 0) && u.freelistPage < UINT64_LIMIT
    requires Inv(u, t) && AllHeld(view, t) && Publish(t).pool.maxPage < UINT64_LIMIT && c.pageSize <= MAX_PAGE_SIZE
    requires next == Publish(t).pool && meta == Meta(t.root.page, u.freelistPage)
    requires PagesOfCommit(written, dirty, view, next, meta, c.pageSize) && Clear(dirty, u.freelistPage)
    requires AllFit(dirty, view, c.pageSize) && Shows(file, c.pageSize, before, {0, u.freelistPage})
    requires forall p :: p !in dirty ==> Lookup(view, p) == Lookup(before, p)
    ensures OnFile(Apply(file, written), c.pageSize, u, Publish(t))
    ensures CommitSafe(c, r, |a| - 1, file, u, t)
  {
    CommitOnFile(file, written, dirty, before, view, u, t, c.pageSize);
    forall s | OnFile(file, c.pageSize, u, s) ensures CrashSafe(c, r, |a| - 1, u, s, t) {
      CommitCrashSafe(c, a, r, written, dirty, before, view, u, s, t);
    }
  }
}
