/**
 * Commit and rollback (tx.go): the pages of a commit, what the file shows
 * afterwards, and the published state.
 */
module Commits {
  import opened Maybe
  import opened Keys
  import opened Bytes
  import opened Trees
  import opened Pool
  import opened NodeCodec
  import opened HeadCodec
  import opened WalCodec
  import opened Replay
  import opened Engine
  import opened Crash
  import opened Storage

  // ---------------------------------------------------------------- reading nodes from the file

  /** dal.getNode: reads, decodes and validates a page. */
  function FetchNode(file: File, pageSize: nat, p: PageNum): Option<NodeRec> {
    if p !in file || |file[p]| != pageSize then None
    else
      match Deserialized(file[p])
      case None => None
      case Some(r) => if Validated(r, pageSize) then Some(r) else None
  }

  function Lookup(st: Store, p: PageNum): Option<NodeRec> {
    if p in st then Some(st[p]) else None
  }

  /** Outside the reserved pages, the nodes in the file are those of the store. */
  ghost predicate Shows(file: File, pageSize: nat, st: Store, reserved: set<PageNum>) {
    forall p :: p !in reserved ==> FetchNode(file, pageSize, p) == Lookup(st, p)
  }

  // ---------------------------------------------------------------- the pages of a commit

  /** nodePage, of a node that validate accepts. */
  ghost predicate IsNodePage(page: Page, st: Store, pageSize: nat) {
    && page.num in st && Validated(st[page.num], pageSize)
    && Serialized(st[page.num], Blank(pageSize)) == Some(page.data)
  }

  /** One page a changed node. */
  ghost predicate NodePages(pages: seq<Page>, dirty: set<PageNum>, st: Store, pageSize: nat) {
    && Apart(pages) && Numbers(pages) == dirty
    && forall i :: 0 <= i < |pages| ==> IsNodePage(pages[i], st, pageSize)
  }

  /** The changed nodes' pages in some order, the freelist page and the meta page. */
  ghost predicate PagesOfCommit(pages: seq<Page>, dirty: set<PageNum>, st: Store, next: Pool, meta: Meta, pageSize: nat) {
    && |pages| >= 2
    && var n := |pages| - 2;
      && NodePages(pages[..n], dirty, st, pageSize)
      && pages[n].num == meta.freelistPage && Overwrite(Blank(pageSize), 0, FreelistBytes(next)) == Some(pages[n].data)
      && pages[n + 1].num == 0 && Overwrite(Blank(pageSize), 0, MetaBytes(meta)) == Some(pages[n + 1].data)
  }

  /** Changed nodes are on neither of the database's own pages. */
  ghost predicate Clear(dirty: set<PageNum>, freelistPage: PageNum) {
    0 !in dirty && freelistPage !in dirty && freelistPage != 0
  }

  /** The pages of one commit have distinct numbers. */
  lemma CommitPagesApart(pages: seq<Page>, dirty: set<PageNum>, st: Store, next: Pool, meta: Meta, pageSize: nat)
    requires PagesOfCommit(pages, dirty, st, next, meta, pageSize) && Clear(dirty, meta.freelistPage)
    ensures Apart(pages) && PagesOf(pages, pageSize)
    ensures Numbers(pages) == dirty + {meta.freelistPage, 0}
  {
    var n := |pages| - 2;
    var nodes := pages[..n];
    NodeDataSizes(nodes, dirty, st, pageSize);
    ApartAppend(nodes, pages[n]);
    ApartAppend(nodes + [pages[n]], pages[n + 1]);
    LastTwo(pages);
  }

  lemma LastTwo<T>(s: seq<T>)
    requires |s| >= 2
    ensures s == s[..|s| - 2] + [s[|s| - 2]] + [s[|s| - 1]]
  {
  }

  lemma NodeDataSizes(nodes: seq<Page>, dirty: set<PageNum>, st: Store, pageSize: nat)
    requires NodePages(nodes, dirty, st, pageSize)
    ensures PagesOf(nodes, pageSize)
  {
  }

  /** Every changed node fits its page. */
  ghost predicate AllFit(dirty: set<PageNum>, st: Store, pageSize: nat) {
    forall p :: p in dirty ==> p in st && FitsPage(st[p], pageSize)
  }

  /** Once the pages of a commit are in the file, the file shows what the transaction saw. */
  lemma CommitShows(file: File, pages: seq<Page>, dirty: set<PageNum>, before: Store, view: Store, next: Pool, meta: Meta, pageSize: nat)
    requires PagesOfCommit(pages, dirty, view, next, meta, pageSize) && Clear(dirty, meta.freelistPage)
    requires AllFit(dirty, view, pageSize) && Shows(file, pageSize, before, {0, meta.freelistPage})
    requires forall p :: p !in dirty ==> Lookup(view, p) == Lookup(before, p)
    ensures Shows(Apply(file, pages), pageSize, view, {0, meta.freelistPage})
  {
    CommitPagesApart(pages, dirty, view, next, meta, pageSize);
    ApplyKeeps(file, pages);
    forall p | p !in {0, meta.freelistPage} ensures FetchNode(Apply(file, pages), pageSize, p) == Lookup(view, p) {
      if p in dirty {
        var i := IndexOf(pages, dirty, p);
        ApplyAt(file, pages, i);
        assert IsNodePage(pages[i], view, pageSize) by { assert pages[i] == pages[..|pages| - 2][i]; }
        SerializeRoundTrip(view[p], Blank(pageSize));
      }
    }
  }

  lemma IndexOf(pages: seq<Page>, dirty: set<PageNum>, p: PageNum) returns (i: nat)
    requires |pages| >= 2 && Numbers(pages[..|pages| - 2]) == dirty && p in dirty
    ensures i < |pages| - 2 && pages[i].num == p
  {
    var x :| x in pages[..|pages| - 2] && x.num == p;
    i :| 0 <= i < |pages| - 2 && pages[..|pages| - 2][i] == x;
  }

  /** And the database reopened from it has the root and the free pages of the transaction. */
  lemma CommitReopens(file: File, pages: seq<Page>, dirty: set<PageNum>, st: Store, next: Pool, meta: Meta, pageSize: nat)
    requires PagesOfCommit(pages, dirty, st, next, meta, pageSize) && Clear(dirty, meta.freelistPage)
    requires meta.root < UINT64_LIMIT && meta.freelistPage < UINT64_LIMIT && next.maxPage < UINT64_LIMIT
    requires forall i :: 0 <= i < |next.released| ==> next.released[i] < UINT64_LIMIT
    ensures var f := Apply(file, pages);
      && 0 in f && |f[0]| >= META_HEADER_SIZE && ReadMeta(f[0]) == Some(meta)
      && meta.freelistPage in f && (ReadFreelist(f[meta.freelistPage]) == Some(next) <==> |next.released| < 0x1_0000)
  {
    var n := |pages| - 2;
    CommitPagesApart(pages, dirty, st, next, meta, pageSize);
    ApplyAt(file, pages, n);
    ApplyAt(file, pages, n + 1);
    StartsWith(Blank(pageSize), FreelistBytes(next), pages[n].data);
    StartsWith(Blank(pageSize), MetaBytes(meta), pages[n + 1].data);
    FreelistRoundTrip(next, pages[n].data);
    MetaRoundTrip(meta, pages[n + 1].data);
  }

  lemma StartsWith(buf: seq<Byte>, s: seq<Byte>, r: seq<Byte>)
    requires Overwrite(buf, 0, s) == Some(r)
    ensures |s| <= |r| && r[..|s|] == s
  {
    assert r[0..0 + |s|] == r[..|s|];
  }

  // ---------------------------------------------------------------- the code

  /** How a commit ends: with the pages applied, an error of validate or writeWAL, or an index panic. */
  datatype Verdict = Committed | Refused | Panicked

  /** nodePage. */
  method NodePage(node: Node, pageSize: nat) returns (v: Verdict, page: Page)
    ensures v == Refused <==> !Validated(node.Rec(), pageSize)
    ensures v == Panicked ==> !FitsPage(node.Rec(), pageSize)
    ensures v == Committed ==> page.num == node.pageNum && Serialized(node.Rec(), Blank(pageSize)) == Some(page.data)
  {
    var r := node.Rec();
    page := Page(node.pageNum, []);
    if !Validated(r, pageSize) {
      return Refused, page;
    }
    var buf := new Byte[pageSize](_ => 0);
    assert buf[..] == Blank(pageSize);
    var ok := Serialize(r, buf);
    if !ok {
      if FitsPage(r, pageSize) { SerializedIsPage(r, Blank(pageSize)); }
      return Panicked, page;
    }
    return Committed, Page(node.pageNum, buf[..]);
  }

  /** A page with these bytes at its start and zeros after them; false if they are too long. */
  method HeadPage(num: PageNum, pool: Pool, pageSize: nat) returns (ok: bool, page: Page)
    ensures ok <==> Overwrite(Blank(pageSize), 0, FreelistBytes(pool)).Some?
    ensures ok ==> page.num == num && Overwrite(Blank(pageSize), 0, FreelistBytes(pool)) == Some(page.data)
  {
    FlatLength(PageNums(pool.released), 8);
    var buf := new Byte[pageSize](_ => 0);
    assert buf[..] == Blank(pageSize);
    ok := SerializeFreelist(pool, buf);
    page := Page(num, buf[..]);
  }

  /** The nodes are on their own pages, and the store has what they hold. */
  ghost predicate Mirrors(nodes: map<PageNum, Node>, st: Store)
    reads nodes.Values
  {
    forall p :: p in nodes ==> nodes[p].pageNum == p && p in st && st[p] == nodes[p].Rec()
  }

  /** The loop of commitPages over dirtyNodes, in any order. */
  method DirtyPages(dirtyNodes: map<PageNum, Node>, pageSize: nat, ghost st: Store) returns (v: Verdict, pages: seq<Page>)
    requires Mirrors(dirtyNodes, st)
    ensures v == Committed ==> NodePages(pages, dirtyNodes.Keys, st, pageSize)
    ensures v == Refused ==> exists p :: p in dirtyNodes && !Validated(st[p], pageSize)
    ensures v == Panicked ==> exists p :: p in dirtyNodes && !FitsPage(st[p], pageSize)
  {
    pages := [];
    var todo := dirtyNodes.Keys;
    ghost var done: set<PageNum> := {};
    while todo != {}
      invariant done + todo == dirtyNodes.Keys && done !! todo
      invariant NodePages(pages, done, st, pageSize)
      decreases |todo|
    {
      var p :| p in todo;
      var page;
      v, page := NodePage(dirtyNodes[p], pageSize);
      if v != Committed {
        return;
      }
      NodePagesStep(pages, done, st, pageSize, page);
      SetStep(dirtyNodes.Keys, done, todo, p);
      pages, todo, done := pages + [page], todo - {p}, done + {p};
    }
    v := Committed;
  }

  lemma SetStep<T>(all: set<T>, done: set<T>, todo: set<T>, x: T)
    requires done + todo == all && done !! todo && x in todo
    ensures (done + {x}) + (todo - {x}) == all && (done + {x}) !! (todo - {x})
    ensures |todo - {x}| < |todo|
  {
  }

  lemma NodePagesStep(pages: seq<Page>, done: set<PageNum>, st: Store, pageSize: nat, page: Page)
    requires NodePages(pages, done, st, pageSize) && page.num !in done && IsNodePage(page, st, pageSize)
    ensures NodePages(pages + [page], done + {page.num}, st, pageSize)
  {
    var r := pages + [page];
    NumbersStep(r);
    assert r[..|r| - 1] == pages;
    forall i | 0 <= i < |pages| ensures pages[i].num in done { assert pages[i] in pages; }
  }

  /** commitPages, after flushCollectionMetadata. */
  method CommitPages(tx: Tx) returns (v: Verdict, pages: seq<Page>, next: Freelist, meta: Meta)
    requires tx.Valid() && tx.InSync({})
    ensures fresh(next) && next.State() == ReleaseAll(tx.freelist.State(), tx.pagesToDelete)
    ensures meta == Meta(tx.root, tx.db.freelistPage)
    ensures v == Committed ==> PagesOfCommit(pages, tx.dirtyNodes.Keys, tx.view, next.State(), meta, tx.db.fill.pageSize)
    ensures v == Refused ==> exists p :: p in tx.dirtyNodes && !Validated(tx.view[p], tx.db.fill.pageSize)
    ensures v == Panicked ==>
      || (exists p :: p in tx.dirtyNodes && !FitsPage(tx.view[p], tx.db.fill.pageSize))
      || |FreelistBytes(next.State())| > tx.db.fill.pageSize || tx.db.fill.pageSize < META_HEADER_SIZE
  {
    var pageSize := tx.db.fill.pageSize;
    meta := Meta(tx.root, tx.db.freelistPage);
    next := ReleaseDeleted(tx);
    v, pages := DirtyPages(tx.dirtyNodes, pageSize, tx.view);
    if v != Committed {
      return;
    }
    v, pages := AddHeadPages(pages, Pool(next.maxPage, next.releasedPages), meta, pageSize, tx.dirtyNodes.Keys, tx.view);
  }

  /** The end of commitPages: the freelist page and the meta page. */
  method AddHeadPages(nodes: seq<Page>, next: Pool, meta: Meta, pageSize: nat, ghost dirty: set<PageNum>, ghost st: Store) returns (v: Verdict, pages: seq<Page>)
    requires NodePages(nodes, dirty, st, pageSize)
    ensures v != Refused
    ensures v == Committed ==> PagesOfCommit(pages, dirty, st, next, meta, pageSize)
    ensures v == Panicked ==> |FreelistBytes(next)| > pageSize || pageSize < META_HEADER_SIZE
  {
    var ok, freelistPage := HeadPage(meta.freelistPage, next, pageSize);
    if !ok || pageSize < META_HEADER_SIZE {
      return Panicked, nodes;
    }
    var buf := new Byte[pageSize](_ => 0);
    assert buf[..] == Blank(pageSize);
    PutBytes(buf, 0, MetaBytes(meta));
    pages := nodes + [freelistPage] + [Page(0, buf[..])];
    LastTwoOf(nodes, freelistPage, Page(0, buf[..]));
    v := Committed;
  }

  lemma LastTwoOf<T>(s: seq<T>, x: T, y: T)
    ensures var r := s + [x] + [y]; |r| == |s| + 2 && r[..|r| - 2] == s && r[|r| - 2] == x && r[|r| - 1] == y
  {
  }

  /** The freelist of the next state: the transaction's own with the deleted pages released. */
  method ReleaseDeleted(tx: Tx) returns (next: Freelist)
    ensures fresh(next) && next.State() == ReleaseAll(tx.freelist.State(), tx.pagesToDelete)
    ensures next.releasedPages == tx.freelist.releasedPages + tx.pagesToDelete && next.maxPage == tx.freelist.maxPage
  {
    next := tx.freelist.Clone();
    for i := 0 to |tx.pagesToDelete|
      invariant fresh(next) && next.State() == ReleaseAll(tx.freelist.State(), tx.pagesToDelete[..i])
    {
      next.ReleasePage(tx.pagesToDelete[i]);
      assert tx.pagesToDelete[..i + 1] == tx.pagesToDelete[..i] + [tx.pagesToDelete[i]];
    }
    assert tx.pagesToDelete[..|tx.pagesToDelete|] == tx.pagesToDelete;
  }

  /** The numbers of a commit are below 2^64 and its log is shorter than 2^63 bytes. */
  ghost predicate FitsLog(numbers: set<PageNum>, pageSize: nat) {
    && (forall p :: p in numbers ==> p < UINT64_LIMIT)
    && pageSize < 0x1_0000_0000
    && WAL_HEADER_SIZE + |numbers| * (PAGE_NUM_BYTES + pageSize) < 0x8000_0000_0000_0000
  }

  lemma {:induction false} HowMany(pages: seq<Page>)
    requires Apart(pages)
    ensures |Numbers(pages)| == |pages|
  {
    if pages != [] {
      var n := |pages| - 1;
      HowMany(pages[..n]);
      NumbersStep(pages);
      assert pages[n].num !in Numbers(pages[..n]);
    }
  }

  lemma CommitLoggable(pages: seq<Page>, pageSize: nat, crc: Checksum)
    requires Apart(pages) && PagesOf(pages, pageSize) && FitsLog(Numbers(pages), pageSize)
    ensures Loggable(Config(pageSize, crc), pages)
  {
    HowMany(pages);
    RecordsLength(pages, pageSize);
    forall i | 0 <= i < |pages| ensures pages[i].num < UINT64_LIMIT {
      assert pages[i] in pages;
      assert pages[i].num in Numbers(pages);
    }
  }

  /** The end of Commit: what later transactions start from. */
  method PublishState(tx: Tx, nextFreelist: Freelist, nextMeta: Meta)
    requires tx.Valid() && tx.InSync({})
    modifies tx.db
    ensures tx.db.disk == tx.view && tx.db.root == nextMeta.root && tx.db.freelist == nextFreelist
  {
    var db := tx.db;
    ghost var before := db.disk;
    db.disk := db.disk + map p | p in tx.dirtyNodes :: tx.dirtyNodes[p].Rec();
    db.freelist := nextFreelist;
    db.root := nextMeta.root;
    assert db.disk.Keys == tx.view.Keys;
    assert forall p :: p in tx.view ==> db.disk[p] == tx.view[p];
  }

  /** The pages of a commit go through the log into the file. */
  method WriteCommit(dal: Dal, pages: seq<Page>, ghost dirty: set<PageNum>, ghost before: Store, ghost view: Store, ghost next: Pool, ghost meta: Meta)
    requires dal.Valid() && dal.Now().phase.Idle?
    requires PagesOfCommit(pages, dirty, view, next, meta, dal.pageSize) && Clear(dirty, meta.freelistPage)
    requires FitsLog(dirty + {meta.freelistPage, 0}, dal.pageSize)
    requires Shows(dal.file, dal.pageSize, before, {0, meta.freelistPage})
    requires forall p :: p !in dirty ==> Lookup(view, p) == Lookup(before, p)
    modifies dal
    ensures dal.Valid() && dal.Now().phase.Idle? && Storage.Extends(old(dal.trace), dal.trace)
    ensures dal.file == Apply(old(dal.file), pages)
    ensures |old(dal.trace)| < |dal.trace| && dal.trace[|old(dal.trace)|].phase == Logging(pages, 0)
    ensures AllFit(dirty, view, dal.pageSize) ==> Shows(dal.file, dal.pageSize, view, {0, meta.freelistPage})
  {
    CommitPagesApart(pages, dirty, view, next, meta, dal.pageSize);
    CommitLoggable(pages, dal.pageSize, dal.crc);
    ghost var file := dal.file;
    var ok := dal.ApplyPagesWithWal(pages);
    if AllFit(dirty, view, dal.pageSize) {
      CommitShows(file, pages, dirty, before, view, next, meta, dal.pageSize);
    }
  }

  lemma ViewOverDisk(tx: Tx)
    requires tx.Valid()
    ensures forall p :: p !in tx.dirtyNodes.Keys ==> Lookup(tx.view, p) == Lookup(tx.db.disk, p)
  {
  }

  /** The end of Commit: the pages into the file, then the new state published. */
  method Install(tx: Tx, dal: Dal, pages: seq<Page>, next: Freelist, meta: Meta)
    requires tx.Valid() && tx.InSync({}) && Clear(tx.dirtyNodes.Keys, meta.freelistPage) && dal.Valid() && dal.Now().phase.Idle?
    requires meta.freelistPage == tx.db.freelistPage && dal.pageSize == tx.db.fill.pageSize
    requires PagesOfCommit(pages, tx.dirtyNodes.Keys, tx.view, next.State(), meta, dal.pageSize)
    requires FitsLog(tx.dirtyNodes.Keys + {meta.freelistPage, 0}, dal.pageSize)
    requires Shows(dal.file, dal.pageSize, tx.db.disk, {0, meta.freelistPage})
    modifies tx.db, dal
    ensures dal.Valid() && dal.Now().phase.Idle? && Storage.Extends(old(dal.trace), dal.trace)
    ensures dal.file == Apply(old(dal.file), pages)
    ensures |old(dal.trace)| < |dal.trace| && dal.trace[|old(dal.trace)|].phase == Logging(pages, 0)
    ensures tx.db.disk == tx.view && tx.db.root == meta.root && tx.db.freelist == next
    ensures AllFit(tx.dirtyNodes.Keys, tx.view, dal.pageSize) ==> Shows(dal.file, dal.pageSize, tx.db.disk, {0, meta.freelistPage})
  {
    ViewOverDisk(tx);
    WriteCommit(dal, pages, tx.dirtyNodes.Keys, tx.db.disk, tx.view, next.State(), meta);
    PublishState(tx, next, meta);
  }

  /** Commit of a write transaction, after flushCollectionMetadata; written are the pages it applied. */
  method Commit(tx: Tx, dal: Dal) returns (v: Verdict, ghost written: seq<Page>)
    requires tx.Valid() && tx.InSync({}) && tx.write && Clear(tx.dirtyNodes.Keys, tx.db.freelistPage)
    requires dal.Valid() && dal.Now().phase.Idle? && dal.pageSize == tx.db.fill.pageSize
    requires Shows(dal.file, dal.pageSize, tx.db.disk, {0, tx.db.freelistPage})
    requires FitsLog(tx.dirtyNodes.Keys + {tx.db.freelistPage, 0}, dal.pageSize)
    modifies tx.db, dal
    ensures dal.Valid() && dal.Now().phase.Idle? && Storage.Extends(old(dal.trace), dal.trace)
    ensures v != Committed ==> dal.file == old(dal.file) && tx.db.disk == old(tx.db.disk)
    ensures v != Committed ==> tx.db.root == old(tx.db.root) && tx.db.freelist == old(tx.db.freelist)
    ensures v == Committed ==> tx.db.disk == tx.view && tx.db.root == tx.root
    ensures v == Committed ==> tx.db.freelist.State() == ReleaseAll(tx.freelist.State(), tx.pagesToDelete)
    ensures v == Committed && AllFit(tx.dirtyNodes.Keys, tx.view, dal.pageSize) ==> Shows(dal.file, dal.pageSize, tx.db.disk, {0, tx.db.freelistPage})
    ensures v == Committed ==> PagesOfCommit(written, tx.dirtyNodes.Keys, tx.view, tx.db.freelist.State(), Meta(tx.root, tx.db.freelistPage), dal.pageSize)
    ensures v == Committed ==> dal.file == Apply(old(dal.file), written)
    ensures v == Committed ==> |old(dal.trace)| < |dal.trace| && dal.trace[|old(dal.trace)|].phase == Logging(written, 0)
  {
    var pages, nextFreelist, nextMeta;
    v, pages, nextFreelist, nextMeta := CommitPages(tx);
    written := pages;
    if v != Committed {
      return;
    }
    Install(tx, dal, pages, nextFreelist, nextMeta);
  }

  /** Rollback of a write transaction: it forgets its changes, and touches nothing else. */
  method Rollback(tx: Tx)
    requires tx.write && Sound(tx.freelist.State())
    modifies tx`dirtyNodes, tx`pagesToDelete, tx`view
    ensures tx.Valid() && tx.InSync({}) && tx.dirtyNodes == map[] && tx.view == tx.db.disk && tx.pagesToDelete == []
  {
    tx.dirtyNodes := map[];
    tx.pagesToDelete := [];
    tx.view := tx.db.disk;
  }
}
