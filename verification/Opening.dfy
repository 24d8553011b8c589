/**
 * Opening a database (dal.go), also one that crashed in a commit: recovery, then
 * the meta page, then the freelist.
 */
module Opening {
  import opened Maybe
  import opened Keys
  import opened Bytes
  import opened Fill
  import opened Trees
  import opened Pool
  import opened HeadCodec
  import opened WalCodec
  import opened Replay
  import opened Engine
  import opened Forest
  import opened Database
  import opened Histories
  import C = Crash
  import opened Storage
  import opened Commits
  import opened Sessions

  /** The file holds the committed state s: meta page, freelist page and trees. */
  ghost predicate OnFile(file: File, pageSize: nat, u: Setup, s: State) {
    && 0 in file && |file[0]| >= META_HEADER_SIZE && ReadMeta(file[0]) == Some(Meta(s.root.page, u.freelistPage))
    && u.freelistPage in file && ReadFreelist(file[u.freelistPage]) == Some(s.pool)
    && exists st :: Shows(file, pageSize, st, {0, u.freelistPage}) && AllHeld(st, s)
  }

  /** What a commit writes from state t is the state that it publishes. */
  lemma CommitOnFile(file: File, pages: seq<Page>, dirty: set<PageNum>, before: Store, view: Store, u: Setup, t: State, pageSize: nat)
    requires Inv(u, t) && AllHeld(view, t) && Publish(t).pool.maxPage < UINT64_LIMIT && pageSize <= MAX_PAGE_SIZE && u.freelistPage < UINT64_LIMIT
    requires PagesOfCommit(pages, dirty, view, Publish(t).pool, Meta(t.root.page, u.freelistPage), pageSize) && Clear(dirty, u.freelistPage)
    requires AllFit(dirty, view, pageSize) && Shows(file, pageSize, before, {0, u.freelistPage})
    requires forall p :: p !in dirty ==> Lookup(view, p) == Lookup(before, p)
    ensures OnFile(Apply(file, pages), pageSize, u, Publish(t))
  {
    var next, meta := Publish(t).pool, Meta(t.root.page, u.freelistPage);
    PublishKeeps(u, t);
    RootInUse(u, t);
    FreelistShort(next, pageSize, pages[|pages| - 2].data);
    CommitReopens(file, pages, dirty, view, next, meta, pageSize);
    CommitShows(file, pages, dirty, before, view, next, meta, pageSize);
    assert AllHeld(view, Publish(t));
  }

  lemma RootInUse(u: Setup, t: State)
    requires Inv(u, t)
    ensures t.root.page <= t.pool.maxPage
  {
    assert Owners(u, t, t.root.page) == One(InUse(t.pool, t.root.page));
  }

  /** A freelist that fits its page is short enough for its two-byte length. */
  lemma FreelistShort(p: Pool, pageSize: nat, data: seq<Byte>)
    requires pageSize <= MAX_PAGE_SIZE && Overwrite(Blank(pageSize), 0, FreelistBytes(p)) == Some(data)
    ensures |p.released| < 0x1_0000
  {
    Bytes.FlatLength(PageNums(p.released), 8);
  }

  /** Opening the crashed database finds s or Publish(t); the latter if the commit was decided. */
  ghost predicate Survives(c: C.Config, r: C.State, crashed: C.State, u: Setup, s: State, t: State) {
    var f := C.Reopened(c, crashed);
    && f.Some? && (OnFile(f.value, c.pageSize, u, s) || OnFile(f.value, c.pageSize, u, Publish(t)))
    && (C.Decided(c, r) ==> OnFile(f.value, c.pageSize, u, Publish(t)))
  }

  /**
   * A crash at any point of the commit that takes state s to Publish(t): opening
   * finds a file that holds s or one that holds Publish(t), and the latter if
   * the commit was decided, as it is from the sync of the log on.
   */
  lemma CrashInCommit(c: C.Config, r: seq<C.State>, i: nat, k: nat, crashed: C.State,
      dirty: set<PageNum>, before: Store, view: Store, u: Setup, s: State, t: State)
    requires C.Run(c, r) && i < k < |r| && C.Pending(r, i, k) && !r[k].phase.Idle? && C.CrashOf(r[k], crashed)
    requires r[i + 1].phase.Logging? && OnFile(r[i].file, c.pageSize, u, s)
    requires Inv(u, t) && AllHeld(view, t) && Publish(t).pool.maxPage < UINT64_LIMIT && c.pageSize <= MAX_PAGE_SIZE && u.freelistPage < UINT64_LIMIT
    requires PagesOfCommit(r[i + 1].phase.pages, dirty, view, Publish(t).pool, Meta(t.root.page, u.freelistPage), c.pageSize) && Clear(dirty, u.freelistPage)
    requires AllFit(dirty, view, c.pageSize) && Shows(r[i].file, c.pageSize, before, {0, u.freelistPage})
    requires forall p :: p !in dirty ==> Lookup(view, p) == Lookup(before, p)
    ensures Survives(c, r[k], crashed, u, s, t)
  {
    C.RunInv(c, r, k);
    C.PendingAbout(c, r, i, k);
    C.CrashAtomicity(c, r[k], crashed);
    CommitOnFile(r[i].file, r[i + 1].phase.pages, dirty, before, view, u, t, c.pageSize);
    if C.Decided(c, r[k]) { C.DecidedStays(c, r[k], crashed); }
  }

  /** So it is for a crash after any file operation after the first i, until the commit is over. */
  ghost predicate CrashSafe(c: C.Config, r: seq<C.State>, i: nat, u: Setup, s: State, t: State) {
    forall k, crashed :: i < k < |r| && !r[k].phase.Idle? && C.CrashOf(r[k], crashed) ==> Survives(c, r[k], crashed, u, s, t)
  }

  /** So it is for every state that the file held before. */
  ghost predicate CommitSafe(c: C.Config, r: seq<C.State>, i: nat, before: File, u: Setup, t: State) {
    forall s :: OnFile(before, c.pageSize, u, s) ==> CrashSafe(c, r, i, u, s, t)
  }

  /** The trace of one commit, from a file that holds s. */
  lemma CommitCrashSafe(c: C.Config, a: seq<C.State>, r: seq<C.State>, written: seq<Page>,
      dirty: set<PageNum>, before: Store, view: Store, u: Setup, s: State, t: State)
    requires C.Run(c, r) && a != [] && a[|a| - 1].phase.Idle? && Storage.Extends(a, r) && |a| < |r|
    requires r[|a|].phase == C.Logging(written, 0) && OnFile(a[|a| - 1].file, c.pageSize, u, s)
    requires Inv(u, t) && AllHeld(view, t) && Publish(t).pool.maxPage < UINT64_LIMIT && c.pageSize <= MAX_PAGE_SIZE && u.freelistPage < UINT64_LIMIT
    requires PagesOfCommit(written, dirty, view, Publish(t).pool, Meta(t.root.page, u.freelistPage), c.pageSize) && Clear(dirty, u.freelistPage)
    requires AllFit(dirty, view, c.pageSize) && Shows(a[|a| - 1].file, c.pageSize, before, {0, u.freelistPage})
    requires forall p :: p !in dirty ==> Lookup(view, p) == Lookup(before, p)
    ensures CrashSafe(c, r, |a| - 1, u, s, t)
  {
    var i := |a| - 1;
    assert r[i] == r[..|a|][i];
    forall k, crashed | i < k < |r| && !r[k].phase.Idle? && C.CrashOf(r[k], crashed) ensures Survives(c, r[k], crashed, u, s, t) {
      CrashInCommit(c, r, i, k, crashed, dirty, before, view, u, s, t);
    }
  }

  /** A meta page and, where it says, a freelist page. */
  predicate Openable(file: File) {
    && 0 in file && |file[0]| >= META_HEADER_SIZE
    && var m := ReadMeta(file[0]);
      m.Some? && m.value.freelistPage in file && ReadFreelist(file[m.value.freelistPage]).Some?
  }

  /** newDal of a file that exists; null for a corrupt log, meta page or freelist page. */
  method Open(dal: Dal, fill: Fill) returns (db: DB?)
    requires dal.Valid() && dal.Now().phase.Down?
    modifies dal
    ensures dal.Valid()
    ensures db != null <==> var f := C.Reopened(C.Config(dal.pageSize, dal.crc), old(dal.Now())); f.Some? && Openable(f.value)
    ensures db != null ==> dal.Now().phase.Idle? && C.Reopened(C.Config(dal.pageSize, dal.crc), old(dal.Now())) == Some(dal.file)
    ensures db != null ==> 0 in dal.file && |dal.file[0]| >= META_HEADER_SIZE && ReadMeta(dal.file[0]) == Some(Meta(db.root, db.freelistPage))
    ensures db != null ==> db.freelistPage in dal.file && ReadFreelist(dal.file[db.freelistPage]) == Some(db.freelist.State())
    ensures db != null ==> db.fill == fill && Shows(dal.file, dal.pageSize, db.disk, {})
    ensures db == null ==> forall u, s :: Some(dal.file) == C.Reopened(C.Config(dal.pageSize, dal.crc), old(dal.Now())) ==> !OnFile(dal.file, dal.pageSize, u, s)
  {
    var ok := dal.RecoverWal();
    if !ok || 0 !in dal.file || |dal.file[0]| < META_HEADER_SIZE {
      return null;
    }
    var meta := ReadMeta(dal.file[0]);
    if meta.None? || meta.value.freelistPage !in dal.file {
      return null;
    }
    var pool := DeserializeFreelist(dal.file[meta.value.freelistPage]);
    if pool.None? {
      return null;
    }
    var freelist := new Freelist(pool.value.maxPage, pool.value.released);
    var disk := map p | p in dal.file && FetchNode(dal.file, dal.pageSize, p).Some? :: FetchNode(dal.file, dal.pageSize, p).value;
    db := new DB(fill, disk, meta.value.root, meta.value.freelistPage, freelist);
  }

  /** The database opened from a file that holds s is in state s. */
  lemma OpenedIs(db: DB, file: File, pageSize: nat, u: Setup, s: State)
    requires Inv(u, s) && OnFile(file, pageSize, u, s)
    requires 0 in file && |file[0]| >= META_HEADER_SIZE && ReadMeta(file[0]) == Some(Meta(db.root, db.freelistPage))
    requires db.freelistPage in file && ReadFreelist(file[db.freelistPage]) == Some(db.freelist.State())
    requires Shows(file, pageSize, db.disk, {})
    ensures db.root == s.root.page && db.freelistPage == u.freelistPage && db.freelist.State() == s.pool && AllHeld(db.disk, s)
  {
    var st :| Shows(file, pageSize, st, {0, u.freelistPage}) && AllHeld(st, s);
    forall p | p != 0 && p != u.freelistPage ensures Lookup(db.disk, p) == Lookup(st, p) {
      assert FetchNode(file, pageSize, p) == Lookup(st, p);
    }
    ReservedApart(u, s, s.root);
    HeldAlike(st, db.disk, s.root, u.freelistPage);
    forall c | c in s.colls ensures Holds(db.disk, c.tree) {
      ReservedApart(u, s, c.tree);
      HeldAlike(st, db.disk, c.tree, u.freelistPage);
    }
  }

  lemma HeldAlike(a: Store, b: Store, t: Tree, freelistPage: PageNum)
    requires Holds(a, t) && Uses(t, 0) == 0 && Uses(t, freelistPage) == 0
    requires forall p :: p != 0 && p != freelistPage ==> Lookup(b, p) == Lookup(a, p)
    ensures Holds(b, t)
  {
    forall p | p in a && Uses(t, p) > 0 ensures p in b && b[p] == a[p] { assert Lookup(b, p) == Lookup(a, p); }
    HoldsFrame(a, b, t);
  }
}
