/**
 * Readers and writers (db.go, tx.go) as a machine over the two locks: writeLock
 * admits one writer, commitLock keeps readers out while a commit is applied.
 * Steps of different transactions interleave freely as far as the locks let them.
 */
module Locks {
  import opened Maybe
  import opened Keys
  import opened Trees
  import opened Pool
  import opened WalCodec
  import opened Replay

  type Id = nat

  /** What a commit publishes. based is the position in the history of the state its writer started from. */
  datatype Committed = Committed(file: File, root: PageNum, freelist: Pool, based: int)

  datatype Read = Read(page: PageNum, data: Option<seq<Byte>>)

  /** A read transaction: waiting has the lock but no root yet; start is the last commit when it got one. */
  datatype Reader = Waiting | Active(root: PageNum, start: nat, seen: seq<Read>)

  /** Where the writer is; Absent means that writeLock is free. */
  datatype Writer =
    | Absent
    | Starting
    | Building(root: PageNum, freelist: Pool, start: nat, seen: seq<Read>)
    | Exclusive(start: nat)
    | Applying(start: nat, pages: seq<Page>, applied: nat, root: PageNum, freelist: Pool)
    | FreelistPublished(start: nat, pages: seq<Page>, root: PageNum, freelist: Pool)
    | Published
    | Releasing

  /** file, root and freelist are shared; history lists what was committed and is not in the program. */
  datatype State = State(
    file: File, root: PageNum, freelist: Pool, readers: map<Id, Reader>, writer: Writer, history: seq<Committed>)

  /** The writer holds commitLock. */
  predicate CommitLocked(w: Writer) {
    w.Exclusive? || w.Applying? || w.FreelistPublished? || w.Published?
  }

  function Fetch(file: File, p: PageNum): Option<seq<Byte>> {
    if p in file then Some(file[p]) else None
  }

  // ---------------------------------------------------------------- readers

  /** ReadTx takes commitLock.RLock. */
  ghost predicate LockRead(s: State, t: State, id: Id) {
    !CommitLocked(s.writer) && id !in s.readers && t == s.(readers := s.readers[id := Waiting])
  }

  /** ... and newTx copies the root. */
  ghost predicate StartRead(s: State, t: State, id: Id) {
    && id in s.readers && s.readers[id].Waiting? && s.history != []
    && t == s.(readers := s.readers[id := Active(s.root, |s.history| - 1, [])])
  }

  /** getNode reads a page of the file. */
  ghost predicate ReadPage(s: State, t: State, id: Id, p: PageNum) {
    && id in s.readers && s.readers[id].Active?
    && var r := s.readers[id];
      t == s.(readers := s.readers[id := r.(seen := r.seen + [Read(p, Fetch(s.file, p))])])
  }

  /** Commit or Rollback of a read transaction. */
  ghost predicate EndRead(s: State, t: State, id: Id) {
    id in s.readers && t == s.(readers := s.readers - {id})
  }

  // ---------------------------------------------------------------- the writer

  /** WriteTx takes writeLock. */
  ghost predicate LockWrite(s: State, t: State) {
    s.writer.Absent? && t == s.(writer := Starting)
  }

  /** ... and newTx copies the root and the freelist. */
  ghost predicate StartWrite(s: State, t: State) {
    s.writer.Starting? && s.history != [] && t == s.(writer := Building(s.root, s.freelist, |s.history| - 1, []))
  }

  ghost predicate WriterReadsPage(s: State, t: State, p: PageNum) {
    s.writer.Building? && t == s.(writer := s.writer.(seen := s.writer.seen + [Read(p, Fetch(s.file, p))]))
  }

  /** Rollback, or Commit when flushing collection metadata fails. */
  ghost predicate GiveUp(s: State, t: State) {
    s.writer.Building? && t == s.(writer := Absent)
  }

  /** Commit takes commitLock, once there are no readers. */
  ghost predicate LockCommit(s: State, t: State) {
    s.writer.Building? && s.readers == map[] && t == s.(writer := Exclusive(s.writer.start))
  }

  /** commitPages fails. */
  ghost predicate FailCommit(s: State, t: State) {
    s.writer.Exclusive? && t == s.(writer := Releasing)
  }

  /** commitPages has built the pages. */
  ghost predicate BuildPages(s: State, t: State) {
    && s.writer.Exclusive? && t.writer.Applying? && t.writer.applied == 0 && t.writer.start == s.writer.start
    && t == s.(writer := t.writer)
  }

  ghost predicate ApplyPage(s: State, t: State) {
    && s.writer.Applying? && s.writer.applied < |s.writer.pages|
    && var p := s.writer.pages[s.writer.applied];
      t == s.(file := s.file[p.num := p.data], writer := s.writer.(applied := s.writer.applied + 1))
  }

  ghost predicate PublishFreelist(s: State, t: State) {
    && s.writer.Applying? && s.writer.applied == |s.writer.pages|
    && var w := s.writer;
      t == s.(freelist := w.freelist, writer := FreelistPublished(w.start, w.pages, w.root, w.freelist))
  }

  ghost predicate PublishMeta(s: State, t: State) {
    && s.writer.FreelistPublished?
    && var w := s.writer;
      t == s.(root := w.root, writer := Published, history := s.history + [Committed(s.file, w.root, w.freelist, w.start)])
  }

  ghost predicate UnlockCommit(s: State, t: State) {
    s.writer.Published? && t == s.(writer := Releasing)
  }

  ghost predicate UnlockWrite(s: State, t: State) {
    s.writer.Releasing? && t == s.(writer := Absent)
  }

  ghost predicate StepOf(s: State, t: State, id: Id, p: PageNum) {
    LockRead(s, t, id) || StartRead(s, t, id) || ReadPage(s, t, id, p) || EndRead(s, t, id)
  }

  ghost predicate ReaderStep(s: State, t: State) {
    exists id: Id, p: PageNum :: StepOf(s, t, id, p)
  }

  ghost predicate WriterStep(s: State, t: State) {
    || LockWrite(s, t) || StartWrite(s, t) || (exists p: PageNum :: WriterReadsPage(s, t, p)) || GiveUp(s, t)
    || LockCommit(s, t) || FailCommit(s, t) || BuildPages(s, t) || ApplyPage(s, t)
    || PublishFreelist(s, t) || PublishMeta(s, t) || UnlockCommit(s, t) || UnlockWrite(s, t)
  }

  /** A database just opened. */
  ghost predicate Init(s: State) {
    s.readers == map[] && s.writer.Absent? && s.history == [Committed(s.file, s.root, s.freelist, -1)]
  }

  ghost predicate Run(r: seq<State>) {
    r != [] && Init(r[0]) && forall i :: 0 <= i < |r| - 1 ==> ReaderStep(r[i], r[i + 1]) || WriterStep(r[i], r[i + 1])
  }

  // ---------------------------------------------------------------- the invariant

  function Last(s: State): Committed
    requires s.history != []
  {
    s.history[|s.history| - 1]
  }

  /** All that was read is what a committed file holds. */
  ghost predicate ReadsOf(seen: seq<Read>, file: File) {
    forall i :: 0 <= i < |seen| ==> seen[i].data == Fetch(file, seen[i].page)
  }

  /** r sees the root and the pages of the commit it started after, and there has been none since. */
  ghost predicate SeesCommit(s: State, r: Reader)
    requires s.history != []
  {
    r.Active? ==> r.start == |s.history| - 1 && r.root == Last(s).root && ReadsOf(r.seen, Last(s).file)
  }

  /** Every commit was built on the one before it. */
  ghost predicate Chain(history: seq<Committed>) {
    forall i :: 0 <= i < |history| ==> history[i].based == i - 1
  }

  /** What is shared is what was committed last, but for what a commit under way has changed already. */
  ghost predicate SharedIs(s: State)
    requires s.history != []
  {
    match s.writer
    case Applying(_, pages, n, _, _) =>
      n <= |pages| && s.file == Apply(Last(s).file, pages[..n]) && s.root == Last(s).root && s.freelist == Last(s).freelist
    case FreelistPublished(_, pages, _, freelist) =>
      s.file == Apply(Last(s).file, pages) && s.root == Last(s).root && s.freelist == freelist
    case _ => s.file == Last(s).file && s.root == Last(s).root && s.freelist == Last(s).freelist
  }

  ghost predicate WriterIs(s: State)
    requires s.history != []
  {
    match s.writer
    case Building(root, freelist, start, seen) =>
      start == |s.history| - 1 && root == Last(s).root && freelist == Last(s).freelist && ReadsOf(seen, Last(s).file)
    case Exclusive(start) => start == |s.history| - 1
    case Applying(start, _, _, _, _) => start == |s.history| - 1
    case FreelistPublished(start, _, _, _) => start == |s.history| - 1
    case _ => true
  }

  ghost predicate Inv(s: State) {
    && s.history != [] && Chain(s.history) && SharedIs(s) && WriterIs(s)
    && (CommitLocked(s.writer) ==> s.readers == map[])
    && forall id :: id in s.readers ==> SeesCommit(s, s.readers[id])
  }

  lemma ReaderKeepsInv(s: State, t: State)
    requires Inv(s) && ReaderStep(s, t)
    ensures Inv(t)
  {
    var id, p :| StepOf(s, t, id, p);
    assert t == s.(readers := t.readers);
    forall x | x in t.readers ensures SeesCommit(t, t.readers[x]) {
      if x != id { assert t.readers[x] == s.readers[x]; }
    }
  }

  lemma WriterKeepsInv(s: State, t: State)
    requires Inv(s) && WriterStep(s, t)
    ensures Inv(t)
  {
    if BuildPages(s, t) {
      assert t.writer.pages[..0] == [];
    } else if ApplyPage(s, t) {
      var n := s.writer.applied;
      assert s.writer.pages[..n + 1][..n] == s.writer.pages[..n];
    } else if PublishFreelist(s, t) {
      assert s.writer.pages[..|s.writer.pages|] == s.writer.pages;
    } else if PublishMeta(s, t) {
      assert s.readers == map[];
    }
  }

  lemma {:induction false} RunInv(r: seq<State>, n: nat)
    requires Run(r) && n < |r|
    ensures Inv(r[n])
  {
    if n > 0 {
      RunInv(r, n - 1);
      if ReaderStep(r[n - 1], r[n]) { ReaderKeepsInv(r[n - 1], r[n]); } else { WriterKeepsInv(r[n - 1], r[n]); }
    }
  }

  // ---------------------------------------------------------------- what the locks guarantee

  /**
   * In every interleaving: an active reader has the root, and has read and
   * will read the pages, of the last commit before it started.
   */
  lemma SnapshotIsolation(r: seq<State>, n: nat, id: Id)
    requires Run(r) && n < |r| && id in r[n].readers && r[n].readers[id].Active?
    ensures var s, x := r[n], r[n].readers[id];
      && x.start < |s.history|
      && var c := s.history[x.start];
        && x.root == c.root && ReadsOf(x.seen, c.file)
        && forall p :: Fetch(s.file, p) == Fetch(c.file, p)
  {
    RunInv(r, n);
  }

  /** The writer, too, sees the last commit, and no one commits besides it: commits form one chain. */
  lemma LinearHistory(r: seq<State>, n: nat)
    requires Run(r) && n < |r|
    ensures Chain(r[n].history)
    ensures r[n].writer.Building? ==> r[n].writer.start == |r[n].history| - 1 && ReadsOf(r[n].writer.seen, Last(r[n]).file)
  {
    RunInv(r, n);
  }

  /** A commit appends the file it has built in full; nothing else changes the history. */
  lemma HistoryStep(s: State, t: State)
    requires Inv(s) && (ReaderStep(s, t) || WriterStep(s, t))
    ensures t.history == s.history
      || (s.writer.FreelistPublished?
        && t.history == s.history + [Committed(Apply(Last(s).file, s.writer.pages), s.writer.root, s.writer.freelist, |s.history| - 1)])
  {
  }

  /** Giving up, or failing to build the pages, leaves everything committed as it was. */
  lemma FailureChangesNothing(s: State, t: State)
    requires Inv(s) && (GiveUp(s, t) || FailCommit(s, t))
    ensures t.file == Last(s).file && t.root == Last(s).root && t.freelist == Last(s).freelist && t.history == s.history
    ensures GiveUp(s, t) ==> t.writer.Absent?
  {
  }
}
