/**
 * What the two locks let happen (db.go, tx.go): exactly when each step is
 * possible, that writers do not keep readers out, and that no interleaving
 * ends in a state from which transactions cannot be completed.
 */
module LockProgress {
  import opened Trees
  import opened Pool
  import opened WalCodec
  import opened Replay
  import opened Locks

  // ---------------------------------------------------------------- when steps are possible

  /** RLock waits only while a commit is applied. */
  lemma LockReadExact(s: State, id: Id)
    ensures (exists t :: LockRead(s, t, id))
      <==> id !in s.readers && (s.writer.Absent? || s.writer.Starting? || s.writer.Building? || s.writer.Releasing?)
  {
    if id !in s.readers && !CommitLocked(s.writer) { assert LockRead(s, s.(readers := s.readers[id := Waiting]), id); }
  }

  /** Once it has the lock, a reader starts, reads and ends whenever it likes. */
  lemma ReaderExact(s: State, id: Id, p: PageNum)
    requires s.history != []
    ensures (exists t :: StartRead(s, t, id)) <==> id in s.readers && s.readers[id] == Waiting
    ensures (exists t :: ReadPage(s, t, id, p)) <==> id in s.readers && s.readers[id] != Waiting
    ensures (exists t :: EndRead(s, t, id)) <==> id in s.readers
  {
    if id in s.readers {
      assert EndRead(s, s.(readers := s.readers - {id}), id);
      match s.readers[id]
      case Waiting => assert StartRead(s, s.(readers := s.readers[id := Active(s.root, |s.history| - 1, [])]), id);
      case Active(root, start, seen) =>
        assert ReadPage(s, s.(readers := s.readers[id := Active(root, start, seen + [Read(p, Fetch(s.file, p))])]), id, p);
    }
  }

  /** One writer at a time; and commitLock waits for the readers, whoever they are. */
  lemma LockWriteExact(s: State)
    ensures (exists t :: LockWrite(s, t)) <==> s.writer == Absent
    ensures (exists t :: LockCommit(s, t)) <==> s.writer.Building? && s.readers == map[]
  {
    if s.writer == Absent { assert LockWrite(s, s.(writer := Starting)); }
    if s.writer.Building? && s.readers == map[] { assert LockCommit(s, s.(writer := Exclusive(s.writer.start))); }
  }

  /** While it builds, a writer reads any page and may give up. */
  lemma BuildingExact(s: State, p: PageNum)
    requires s.history != []
    ensures (exists t :: StartWrite(s, t)) <==> s.writer == Starting
    ensures (exists t :: WriterReadsPage(s, t, p)) <==> s.writer.Building?
    ensures (exists t :: GiveUp(s, t)) <==> s.writer.Building?
  {
    match s.writer
    case Starting => assert StartWrite(s, s.(writer := Building(s.root, s.freelist, |s.history| - 1, [])));
    case Building(root, freelist, start, seen) =>
      assert GiveUp(s, s.(writer := Absent));
      assert WriterReadsPage(s, s.(writer := Building(root, freelist, start, seen + [Read(p, Fetch(s.file, p))])), p);
    case _ =>
  }

  /** With commitLock, a commit builds any pages or fails; then it applies and publishes them, and nothing holds it up. */
  lemma CommittingExact(s: State, pages: seq<Page>, root: PageNum, freelist: Pool)
    ensures (exists t :: FailCommit(s, t)) <==> s.writer.Exclusive?
    ensures (exists t :: BuildPages(s, t) && t.writer.pages == pages && t.writer.root == root && t.writer.freelist == freelist)
      <==> s.writer.Exclusive?
    ensures (exists t :: ApplyPage(s, t)) <==> s.writer.Applying? && s.writer.applied < |s.writer.pages|
    ensures (exists t :: PublishFreelist(s, t)) <==> s.writer.Applying? && s.writer.applied == |s.writer.pages|
    ensures (exists t :: PublishMeta(s, t)) <==> s.writer.FreelistPublished?
    ensures (exists t :: UnlockCommit(s, t)) <==> s.writer.Published?
    ensures (exists t :: UnlockWrite(s, t)) <==> s.writer.Releasing?
  {
    match s.writer
    case Exclusive(start) =>
      assert FailCommit(s, s.(writer := Releasing));
      var t := s.(writer := Applying(start, pages, 0, root, freelist));
      assert BuildPages(s, t) && t.writer.pages == pages;
    case Applying(_, ps, n, _, _) =>
      if n < |ps| { assert ApplyPage(s, AfterApply(s)); }
      if n == |ps| { assert PublishFreelist(s, AfterFreelist(s)); }
    case FreelistPublished(_, _, _, _) => assert PublishMeta(s, AfterMeta(s));
    case Published => assert UnlockCommit(s, s.(writer := Releasing));
    case Releasing => assert UnlockWrite(s, s.(writer := Absent));
    case _ =>
  }

  function AfterApply(s: State): State
    requires s.writer.Applying? && s.writer.applied < |s.writer.pages|
  {
    var p := s.writer.pages[s.writer.applied];
    s.(file := s.file[p.num := p.data], writer := s.writer.(applied := s.writer.applied + 1))
  }

  function AfterFreelist(s: State): State
    requires s.writer.Applying?
  {
    var w := s.writer;
    s.(freelist := w.freelist, writer := FreelistPublished(w.start, w.pages, w.root, w.freelist))
  }

  function AfterMeta(s: State): State
    requires s.writer.FreelistPublished?
  {
    var w := s.writer;
    s.(root := w.root, writer := Published, history := s.history + [Committed(s.file, w.root, w.freelist, w.start)])
  }

  // ---------------------------------------------------------------- longer runs

  function End(r: seq<State>): State
    requires r != []
  {
    r[|r| - 1]
  }

  /** q is a run that goes on from the end of r. */
  ghost predicate GoesOn(r: seq<State>, q: seq<State>) {
    Run(q) && r != [] && r <= q
  }

  /** One more step. */
  lemma OneStep(r: seq<State>, t: State) returns (q: seq<State>)
    requires Run(r) && (ReaderStep(End(r), t) || WriterStep(End(r), t))
    ensures GoesOn(r, q) && q == r + [t]
  {
    q := r + [t];
    forall i | 0 <= i < |q| - 1 ensures ReaderStep(q[i], q[i + 1]) || WriterStep(q[i], q[i + 1]) {
      if i < |r| - 1 { assert q[i] == r[i] && q[i + 1] == r[i + 1]; }
    }
  }

  lemma WriterMoves(r: seq<State>, t: State) returns (q: seq<State>)
    requires Run(r) && WriterStep(End(r), t)
    ensures GoesOn(r, q) && q == r + [t]
  {
    q := OneStep(r, t);
  }

  lemma ReaderMoves(r: seq<State>, t: State, id: Id) returns (q: seq<State>)
    requires Run(r) && StepOf(End(r), t, id, 0)
    ensures GoesOn(r, q) && q == r + [t]
  {
    q := OneStep(r, t);
  }

  /** Wherever no commit is being applied, a new reader gets in at once and sees the last commit, whatever the writer is doing. */
  lemma ReaderGetsIn(r: seq<State>, id: Id) returns (q: seq<State>)
    requires Run(r) && id !in End(r).readers
    requires End(r).writer.Absent? || End(r).writer.Starting? || End(r).writer.Building? || End(r).writer.Releasing?
    ensures GoesOn(r, q) && |q| == |r| + 2
    ensures var s, t := End(r), End(q);
      s.history != [] && t == s.(readers := s.readers[id := Active(Last(s).root, |s.history| - 1, [])])
  {
    var s := End(r);
    RunInv(r, |r| - 1);
    var t := s.(readers := s.readers[id := Waiting]);
    var u := s.(readers := s.readers[id := Active(s.root, |s.history| - 1, [])]);
    assert LockRead(s, t, id);
    assert StepOf(s, t, id, 0);
    var p := ReaderMoves(r, t, id);
    assert End(p) == t;
    assert StartRead(t, u, id) by { assert t.readers[id := Active(s.root, |s.history| - 1, [])] == u.readers; }
    assert StepOf(t, u, id, 0);
    q := ReaderMoves(p, u, id);
  }

  /** So there are runs in which a reader is active while a writer builds its pages, in a database just opened already. */
  lemma ReaderBesideWriter(s: State, id: Id) returns (r: seq<State>)
    requires Init(s)
    ensures Run(r) && r[0] == s && End(r).writer.Building? && id in End(r).readers && End(r).readers[id].Active?
  {
    var a := WriterMoves([s], s.(writer := Starting));
    var b := WriterMoves(a, s.(writer := Building(s.root, s.freelist, 0, [])));
    r := ReaderGetsIn(b, id);
  }

  /** All readers end. */
  lemma {:induction false} ReadersEnd(r: seq<State>) returns (q: seq<State>)
    requires Run(r)
    ensures GoesOn(r, q) && End(q) == End(r).(readers := map[])
    decreases |End(r).readers|
  {
    var s := End(r);
    if s.readers == map[] { return r; }
    var id :| id in s.readers;
    var t := s.(readers := s.readers - {id});
    assert EndRead(s, t, id);
    FewerReaders(s.readers, id);
    var p := ReaderMoves(r, t, id);
    q := ReadersEnd(p);
  }

  lemma FewerReaders(m: map<Id, Reader>, id: Id)
    requires id in m
    ensures |m - {id}| < |m|
  {
    assert (m - {id}).Keys == m.Keys - {id};
  }

  /** A commit that has built its pages is carried through: the file holds them all, and the history the commit. */
  lemma {:induction false} PagesApplied(r: seq<State>) returns (q: seq<State>)
    requires Run(r) && End(r).writer.Applying?
    ensures var s := End(r); var w, n := s.writer, |s.history|;
      && n > 0 && GoesOn(r, q)
      && End(q).history == s.history + [Committed(Apply(Last(s).file, w.pages), w.root, w.freelist, n - 1)]
      && End(q).writer == Absent && End(q).readers == s.readers
      && End(q).file == Apply(Last(s).file, w.pages) && End(q).root == w.root && End(q).freelist == w.freelist
    decreases |End(r).writer.pages| - End(r).writer.applied
  {
    var s := End(r);
    RunInv(r, |r| - 1);
    if s.writer.applied < |s.writer.pages| {
      assert ApplyPage(s, AfterApply(s));
      var p := WriterMoves(r, AfterApply(s));
      assert Last(AfterApply(s)) == Last(s);
      q := PagesApplied(p);
    } else {
      q := CommitEnds(r);
    }
  }

  /** The last part of a commit. */
  lemma CommitEnds(r: seq<State>) returns (q: seq<State>)
    requires Run(r) && End(r).writer.Applying? && End(r).writer.applied == |End(r).writer.pages|
    ensures var s := End(r); var w, n := s.writer, |s.history|;
      && n > 0 && GoesOn(r, q)
      && End(q).history == s.history + [Committed(Apply(Last(s).file, w.pages), w.root, w.freelist, n - 1)]
      && End(q).writer == Absent && End(q).readers == s.readers
      && End(q).file == Apply(Last(s).file, w.pages) && End(q).root == w.root && End(q).freelist == w.freelist
  {
    var s := End(r);
    RunInv(r, |r| - 1);
    assert s.writer.pages[..|s.writer.pages|] == s.writer.pages;
    var a, b := AfterFreelist(s), AfterMeta(AfterFreelist(s));
    assert PublishFreelist(s, a) && PublishMeta(a, b);
    var p := WriterMoves(r, a);
    p := WriterMoves(p, b);
    q := Unlocked(p);
  }

  /** The locks are given up. */
  lemma Unlocked(r: seq<State>) returns (q: seq<State>)
    requires Run(r) && (End(r).writer.Published? || End(r).writer.Releasing?)
    ensures GoesOn(r, q) && End(q) == End(r).(writer := Absent)
  {
    var s, p := End(r), r;
    if s.writer.Published? {
      assert UnlockCommit(s, s.(writer := Releasing));
      p := WriterMoves(r, s.(writer := Releasing));
    }
    assert UnlockWrite(End(p), s.(writer := Absent));
    q := WriterMoves(p, s.(writer := Absent));
  }

  /** Whatever a writer has built, it can commit once the readers there are have ended. */
  lemma CommitCompletes(r: seq<State>, pages: seq<Page>, root: PageNum, freelist: Pool) returns (q: seq<State>)
    requires Run(r) && End(r).writer.Building?
    ensures var s := End(r); var n := |s.history|;
      && n > 0 && GoesOn(r, q)
      && End(q) == State(Apply(Last(s).file, pages), root, freelist, map[], Absent, s.history + [Committed(Apply(Last(s).file, pages), root, freelist, n - 1)])
  {
    var s := End(r);
    RunInv(r, |r| - 1);
    var p := ReadersEnd(r);
    var a := End(p).(writer := Exclusive(s.writer.start));
    var b := a.(writer := Applying(s.writer.start, pages, 0, root, freelist));
    assert LockCommit(End(p), a) && BuildPages(a, b);
    p := WriterMoves(p, a);
    p := WriterMoves(p, b);
    q := PagesApplied(p);
  }

  /** No deadlock: from every state that any run reaches, all transactions can be brought to an end. */
  lemma AlwaysEnds(r: seq<State>) returns (q: seq<State>)
    requires Run(r)
    ensures GoesOn(r, q) && End(q).writer == Absent && End(q).readers == map[]
  {
    var p := ReadersEnd(r);
    q := WriterEnds(p);
  }

  lemma WriterEnds(r: seq<State>) returns (q: seq<State>)
    requires Run(r)
    ensures GoesOn(r, q) && End(q).writer == Absent && End(q).readers == End(r).readers
  {
    var s := End(r);
    RunInv(r, |r| - 1);
    match s.writer
    case Absent => q := r;
    case Starting =>
      var t := s.(writer := Building(s.root, s.freelist, |s.history| - 1, []));
      assert StartWrite(s, t) && GiveUp(t, s.(writer := Absent));
      var p := WriterMoves(r, t);
      q := WriterMoves(p, s.(writer := Absent));
    case Building(_, _, _, _) =>
      assert GiveUp(s, s.(writer := Absent));
      q := WriterMoves(r, s.(writer := Absent));
    case Exclusive(_) =>
      assert FailCommit(s, s.(writer := Releasing));
      var p := WriterMoves(r, s.(writer := Releasing));
      q := Unlocked(p);
    case Applying(_, _, _, _, _) => q := PagesApplied(r);
    case FreelistPublished(_, _, _, _) =>
      assert PublishMeta(s, AfterMeta(s));
      var p := WriterMoves(r, AfterMeta(s));
      q := Unlocked(p);
    case _ => q := Unlocked(r);
  }
}
