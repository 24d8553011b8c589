/**
 * Commit and recovery as a machine whose steps are single file operations
 * (wal.go), with a crash possible between any two of them, in recovery too.
 *
 * A crash leaves arbitrary bytes in every page written since the last sync, and
 * of a log that is not synced yet it leaves any prefix, or nothing.
 */
module Crash {
  import opened Maybe
  import opened Seqs
  import opened Keys
  import opened Trees
  import opened WalCodec
  import opened Replay

  datatype Config = Config(pageSize: nat, crc: Checksum)

  /** Where the program is; Down is a crashed or closed database. */
  datatype Phase =
    | Idle
    | Logging(pages: seq<Page>, written: nat)
    | Applying(pages: seq<Page>, applied: nat)
    | Synced(pages: seq<Page>)
    | Down
    | Replaying(pages: seq<Page>, applied: nat)
    | Replayed(pages: seq<Page>)

  /**
   * file is what a read returns; unsynced are the pages written since the last
   * sync. pre and post are not in the program: the page store before and after
   * the commit under way, or the last one.
   */
  datatype State = State(
    file: File, unsynced: set<PageNum>, wal: Option<seq<Byte>>, walSynced: bool, phase: Phase, pre: File, post: File)

  /** What the commit code gives applyPagesWithWAL. */
  ghost predicate Loggable(c: Config, pages: seq<Page>) {
    && PagesOf(pages, c.pageSize) && Numbered(pages) && c.pageSize < 0x1_0000_0000
    && |WalFile(pages, c.pageSize, c.crc)| < 0x8000_0000_0000_0000
  }

  // ---------------------------------------------------------------- steps

  /** writeWAL begins: the log is created empty, or truncated. */
  ghost predicate Begin(c: Config, s: State, t: State) {
    && s.phase.Idle? && t.phase.Logging? && t.phase.written == 0 && Loggable(c, t.phase.pages)
    && t == s.(wal := Some([]), walSynced := false, phase := t.phase, pre := s.file, post := Apply(s.file, t.phase.pages))
  }

  /** Some more bytes of the log are written. */
  ghost predicate Log(c: Config, s: State, t: State) {
    && s.phase.Logging? && t.phase.Logging? && t.phase.pages == s.phase.pages
    && var log := WalFile(s.phase.pages, c.pageSize, c.crc);
      s.phase.written <= t.phase.written <= |log| && t == s.(wal := Some(log[..t.phase.written]), phase := t.phase)
  }

  ghost predicate SyncLog(c: Config, s: State, t: State) {
    && s.phase.Logging? && s.phase.written == |WalFile(s.phase.pages, c.pageSize, c.crc)|
    && t == s.(walSynced := true, phase := Applying(s.phase.pages, 0))
  }

  /** writePage: what is written can be read, but is not durable. */
  function Written(s: State, p: Page): State {
    s.(file := s.file[p.num := p.data], unsynced := s.unsynced + {p.num})
  }

  /** writePages writes the next page. */
  ghost predicate ApplyPage(s: State, t: State) {
    && s.phase.Applying? && s.phase.applied < |s.phase.pages|
    && var n := s.phase.applied;
      t == Written(s, s.phase.pages[n]).(phase := Applying(s.phase.pages, n + 1))
  }

  ghost predicate SyncFile(s: State, t: State) {
    && s.phase.Applying? && s.phase.applied == |s.phase.pages|
    && t == s.(unsynced := {}, phase := Synced(s.phase.pages))
  }

  /** The log is removed, and the commit is over. */
  ghost predicate Finish(s: State, t: State) {
    s.phase.Synced? && t == s.(wal := None, walSynced := false, phase := Idle, pre := s.file, post := s.file)
  }

  /** recoverWAL finds nothing to replay; a log that is cut short is removed. */
  ghost predicate OpenClean(c: Config, s: State, t: State) {
    && s.phase.Down? && ReadWal(s.wal, c.pageSize, c.crc).NoWal?
    && t == s.(wal := None, walSynced := false, phase := Idle, pre := s.file, post := s.file)
  }

  /** recoverWAL finds pages to replay. */
  ghost predicate OpenReplay(c: Config, s: State, t: State) {
    && s.phase.Down? && ReadWal(s.wal, c.pageSize, c.crc).Replay?
    && t == s.(phase := Replaying(ReadWal(s.wal, c.pageSize, c.crc).pages, 0))
  }

  ghost predicate ReplayPage(s: State, t: State) {
    && s.phase.Replaying? && s.phase.applied < |s.phase.pages|
    && var n := s.phase.applied;
      t == Written(s, s.phase.pages[n]).(phase := Replaying(s.phase.pages, n + 1))
  }

  ghost predicate SyncReplay(s: State, t: State) {
    && s.phase.Replaying? && s.phase.applied == |s.phase.pages|
    && t == s.(unsynced := {}, phase := Replayed(s.phase.pages))
  }

  ghost predicate EndRecovery(s: State, t: State) {
    s.phase.Replayed? && t == s.(wal := None, walSynced := false, phase := Idle, pre := s.file, post := s.file)
  }

  /** A crash, from any state. */
  ghost predicate CrashOf(s: State, t: State) {
    && (forall p :: p !in s.unsynced ==> (p in t.file <==> p in s.file) && (p in s.file ==> t.file[p] == s.file[p]))
    && (if s.walSynced || s.wal.None? then t.wal == s.wal
        else t.wal.Some? ==> |t.wal.value| <= |s.wal.value| && t.wal.value == s.wal.value[..|t.wal.value|])
    && t == s.(file := t.file, unsynced := {}, wal := t.wal, walSynced := t.wal.Some?, phase := Down)
  }

  /**
   * A crash may leave anything on the pages written since the last sync, also
   * nothing, and of a log not synced any prefix, or no file. Everything else stays.
   */
  lemma CrashExact(s: State, file: File, wal: Option<seq<Byte>>)
    ensures (exists t :: CrashOf(s, t) && t.file == file && t.wal == wal) <==>
      && (forall p :: p !in s.unsynced ==> (p in file <==> p in s.file) && (p in s.file ==> file[p] == s.file[p]))
      && (wal == s.wal || (!s.walSynced && s.wal.Some? && (wal.None? || wal.value <= s.wal.value)))
  {
    var t := s.(file := file, unsynced := {}, wal := wal, walSynced := wal.Some?, phase := Down);
    if wal == s.wal && s.wal.Some? { assert s.wal.value[..|s.wal.value|] == s.wal.value; }
    assert (exists t :: CrashOf(s, t) && t.file == file && t.wal == wal) ==> CrashOf(s, t);
  }

  ghost predicate Step(c: Config, s: State, t: State) {
    || Begin(c, s, t) || Log(c, s, t) || SyncLog(c, s, t) || ApplyPage(s, t) || SyncFile(s, t) || Finish(s, t)
    || OpenClean(c, s, t) || OpenReplay(c, s, t) || ReplayPage(s, t) || SyncReplay(s, t) || EndRecovery(s, t)
    || CrashOf(s, t)
  }

  ghost predicate Init(s: State) {
    s.phase.Idle? && s.wal.None? && !s.walSynced && s.unsynced == {} && s.pre == s.file == s.post
  }

  /** Any number of steps. */
  ghost predicate Run(c: Config, r: seq<State>) {
    r != [] && Init(r[0]) && forall i :: 0 <= i < |r| - 1 ==> Step(c, r[i], r[i + 1])
  }

  // ---------------------------------------------------------------- the invariant

  /** The log of the pages is complete and durable, and replaying it on the file gives post. */
  ghost predicate Logged(c: Config, s: State, pages: seq<Page>) {
    && Loggable(c, pages) && s.wal == Some(WalFile(pages, c.pageSize, c.crc)) && s.walSynced
    && s.post == Apply(s.file, pages) && s.unsynced <= Numbers(pages)
  }

  /** The file holds what the first n pages leave of it after replay. */
  ghost predicate Done(s: State, pages: seq<Page>, n: nat) {
    n <= |pages| && exists f :: s.file == Apply(f, pages[..n])
  }

  /** There is no log to replay, and the file is the page store before the commit. */
  ghost predicate NotLogged(c: Config, s: State) {
    ReadWal(s.wal, c.pageSize, c.crc).NoWal? && s.file == s.pre && s.unsynced == {}
  }

  ghost predicate Inv(c: Config, s: State) {
    match s.phase
    case Idle => Init(s)
    case Logging(pages, n) =>
      && Loggable(c, pages) && !s.walSynced && s.file == s.pre && s.unsynced == {} && s.post == Apply(s.file, pages)
      && n <= |WalFile(pages, c.pageSize, c.crc)| && s.wal == Some(WalFile(pages, c.pageSize, c.crc)[..n])
    case Applying(pages, n) => Logged(c, s, pages) && Done(s, pages, n)
    case Replaying(pages, n) => Logged(c, s, pages) && Done(s, pages, n)
    case Synced(pages) => Logged(c, s, pages) && s.file == s.post && s.unsynced == {}
    case Replayed(pages) => Logged(c, s, pages) && s.file == s.post && s.unsynced == {}
    case Down => s.unsynced == {} && s.walSynced == s.wal.Some? && (NotLogged(c, s) || exists pages :: Logged(c, s, pages))
  }

  /** Writing the next page neither undoes the earlier ones nor changes what replay gives. */
  lemma NextPage(c: Config, s: State, t: State, pages: seq<Page>, n: nat)
    requires Logged(c, s, pages) && Done(s, pages, n) && n < |pages|
    requires t == Written(s, pages[n]).(phase := t.phase)
    ensures Logged(c, t, pages) && Done(t, pages, n + 1)
  {
    var f :| s.file == Apply(f, pages[..n]);
    assert pages[..n + 1][..n] == pages[..n];
    assert t.file == Apply(f, pages[..n + 1]);
    assert pages[n] in pages;
    ApplyCompletes(t.file, s.file, pages);
  }

  /** All pages written: the file is what replay gives. */
  lemma AllWritten(c: Config, s: State, pages: seq<Page>)
    requires Logged(c, s, pages) && Done(s, pages, |pages|)
    ensures s.file == s.post
  {
    assert pages[..|pages|] == pages;
    var f :| s.file == Apply(f, pages);
    ReplayIdempotent(f, pages);
  }

  /** What a crash does to the file is undone by replay. */
  lemma CrashLogged(c: Config, s: State, t: State, pages: seq<Page>)
    requires Logged(c, s, pages) && CrashOf(s, t)
    ensures Logged(c, t, pages)
  {
    ApplyCompletes(t.file, s.file, pages);
  }

  /** A crash while the log is written leaves the store before or the complete log. */
  lemma CrashLogging(c: Config, s: State, t: State)
    requires Inv(c, s) && s.phase.Logging? && CrashOf(s, t)
    ensures NotLogged(c, t) || Logged(c, t, s.phase.pages)
  {
    var log := WalFile(s.phase.pages, c.pageSize, c.crc);
    assert t.file == s.file;
    if t.wal.Some? {
      var n := |t.wal.value|;
      assert t.wal.value == log[..n];
      PrefixRead(s.phase.pages, c.pageSize, c.crc, n);
      assert n == |log| ==> log[..n] == log;
    }
  }

  lemma CrashKeepsInv(c: Config, s: State, t: State)
    requires Inv(c, s) && CrashOf(s, t)
    ensures Inv(c, t)
  {
    match s.phase
    case Idle => assert t.file == s.file;
    case Logging(_, _) => CrashLogging(c, s, t);
    case Applying(pages, _) => CrashLogged(c, s, t, pages);
    case Replaying(pages, _) => CrashLogged(c, s, t, pages);
    case Synced(pages) => CrashLogged(c, s, t, pages);
    case Replayed(pages) => CrashLogged(c, s, t, pages);
    case Down =>
      assert t.file == s.file;
      if !NotLogged(c, s) {
        var pages :| Logged(c, s, pages);
        CrashLogged(c, s, t, pages);
      }
  }

  lemma StepKeepsInv(c: Config, s: State, t: State)
    requires Inv(c, s) && Step(c, s, t)
    ensures Inv(c, t)
  {
    if CrashOf(s, t) {
      CrashKeepsInv(c, s, t);
    } else if Begin(c, s, t) {
      assert WalFile(t.phase.pages, c.pageSize, c.crc)[..0] == [];
    } else if SyncLog(c, s, t) {
      LogComplete(c, s, t);
    } else if ApplyPage(s, t) || ReplayPage(s, t) {
      NextPage(c, s, t, s.phase.pages, s.phase.applied);
    } else if SyncFile(s, t) || SyncReplay(s, t) {
      AllWritten(c, s, s.phase.pages);
    } else if OpenReplay(c, s, t) {
      ReplayStarts(c, s, t);
    }
  }

  lemma LogComplete(c: Config, s: State, t: State)
    requires Inv(c, s) && SyncLog(c, s, t)
    ensures Inv(c, t)
  {
    var pages := s.phase.pages;
    var log := WalFile(pages, c.pageSize, c.crc);
    assert log[..|log|] == log;
    assert pages[..0] == [];
    assert t.file == Apply(t.file, pages[..0]);
  }

  lemma ReplayStarts(c: Config, s: State, t: State)
    requires Inv(c, s) && OpenReplay(c, s, t)
    ensures Inv(c, t)
  {
    assert !NotLogged(c, s);
    var pages :| Logged(c, s, pages);
    WalRoundTrip(pages, c.pageSize, c.crc);
    assert pages[..0] == [];
    assert t.file == Apply(t.file, pages[..0]);
  }

  // ---------------------------------------------------------------- what the protocol guarantees

  /** The page store that opening a crashed database ends up with; None where opening fails. */
  function Reopened(c: Config, s: State): Option<File> {
    match ReadWal(s.wal, c.pageSize, c.crc)
    case NoWal => Some(s.file)
    case Failed => None
    case Replay(pages) => Some(Apply(s.file, pages))
  }

  /**
   * A crash anywhere in a run, in recovery too: opening gives exactly the page
   * store before the commit or that after it, and the latter once the log was synced.
   */
  lemma CrashAtomicity(c: Config, s: State, t: State)
    requires Inv(c, s) && CrashOf(s, t)
    ensures Reopened(c, t) == Some(s.pre) || Reopened(c, t) == Some(s.post)
    ensures s.walSynced && !s.phase.Down? ==> Reopened(c, t) == Some(s.post)
  {
    CrashKeepsInv(c, s, t);
    if !NotLogged(c, t) {
      var pages :| Logged(c, t, pages);
      WalRoundTrip(pages, c.pageSize, c.crc);
    }
    LoggedReads(c, s);
    LoggedReads(c, t);
  }

  /** A durable complete log is read. */
  lemma LoggedReads(c: Config, s: State)
    ensures forall pages :: Logged(c, s, pages) ==> ReadWal(s.wal, c.pageSize, c.crc) == Replay(pages)
  {
    forall pages | Logged(c, s, pages) ensures ReadWal(s.wal, c.pageSize, c.crc) == Replay(pages) {
      WalRoundTrip(pages, c.pageSize, c.crc);
    }
  }

  ghost predicate Recovering(s: State) {
    s.phase.Down? || s.phase.Replaying? || s.phase.Replayed?
  }

  /** What a crashed database will be once opened does not change during recovery, however often that crashes. */
  lemma RecoveryStable(c: Config, s: State, t: State)
    requires Inv(c, s) && Recovering(s) && Step(c, s, t)
    ensures Reopened(c, s).Some? && Reopened(c, t) == Reopened(c, s)
    ensures Recovering(t) || (t.phase.Idle? && Reopened(c, s) == Some(t.file))
  {
    StepKeepsInv(c, s, t);
    LoggedReads(c, s);
    LoggedReads(c, t);
    if s.phase.Down? && CrashOf(s, t) { assert t.file == s.file; }
  }

  // ---------------------------------------------------------------- whole runs

  lemma {:induction false} RunInv(c: Config, r: seq<State>, n: nat)
    requires Run(c, r) && n < |r|
    ensures Inv(c, r[n])
  {
    if n > 0 {
      RunInv(c, r, n - 1);
      assert Step(c, r[n - 1], r[n]);
      StepKeepsInv(c, r[n - 1], r[n]);
    }
  }

  /** The commit under way can no longer be lost. */
  ghost predicate Decided(c: Config, s: State) {
    s.phase.Applying? || s.phase.Synced? || (Recovering(s) && Reopened(c, s) == Some(s.post))
  }

  lemma DecidedStays(c: Config, s: State, t: State)
    requires Inv(c, s) && Decided(c, s) && Step(c, s, t)
    ensures if t.phase.Idle? then t.file == s.post else Decided(c, t)
  {
    StepKeepsInv(c, s, t);
    if Recovering(s) {
      RecoveryStable(c, s, t);
    } else if CrashOf(s, t) {
      CrashAtomicity(c, s, t);
    }
  }

  /** The pages written in commit or recovery count as unsynced until all of them are. */
  ghost predicate MayTear(s: State) {
    match s.phase
    case Applying(pages, n) => n <= |pages| && Numbers(pages[..n]) <= s.unsynced
    case Replaying(pages, n) => n <= |pages| && Numbers(pages[..n]) <= s.unsynced
    case _ => true
  }

  lemma StepMayTear(c: Config, s: State, t: State)
    requires MayTear(s) && Step(c, s, t)
    ensures MayTear(t)
  {
    if ApplyPage(s, t) || ReplayPage(s, t) {
      var n := s.phase.applied;
      NumbersStep(s.phase.pages[..n + 1]);
      assert s.phase.pages[..n + 1][..n] == s.phase.pages[..n];
    }
  }

  lemma {:induction false} RunMayTear(c: Config, r: seq<State>, n: nat)
    requires Run(c, r) && n < |r|
    ensures MayTear(r[n])
  {
    if n > 0 {
      RunMayTear(c, r, n - 1);
      StepMayTear(c, r[n - 1], r[n]);
    }
  }

  /** In every run, a crash may leave any bytes at all on each page that commit or recovery has written and not yet synced. */
  lemma AnyPageMayTear(c: Config, r: seq<State>, k: nat, i: nat, torn: seq<Byte>) returns (t: State)
    requires Run(c, r) && k < |r| && (r[k].phase.Applying? || r[k].phase.Replaying?) && i < r[k].phase.applied
    ensures i < |r[k].phase.pages| && CrashOf(r[k], t) && t.file == r[k].file[r[k].phase.pages[i].num := torn]
  {
    var s := r[k];
    RunMayTear(c, r, k);
    var p := s.phase.pages[i];
    assert s.phase.pages[..s.phase.applied][i] == p;
    assert p in s.phase.pages[..s.phase.applied] && p.num in s.unsynced;
    CrashExact(s, s.file[p.num := torn], s.wal);
    t :| CrashOf(s, t) && t.file == s.file[p.num := torn] && t.wal == s.wal;
  }

  /** And while the log is written, a crash may leave any prefix of it, or no log. */
  lemma AnyPrefixMayStay(c: Config, r: seq<State>, k: nat, m: nat) returns (t: State, gone: State)
    requires Run(c, r) && k < |r| && r[k].phase.Logging? && m <= r[k].phase.written
    ensures m <= |WalFile(r[k].phase.pages, c.pageSize, c.crc)|
    ensures CrashOf(r[k], t) && t.wal == Some(WalFile(r[k].phase.pages, c.pageSize, c.crc)[..m]) && t.file == r[k].file
    ensures CrashOf(r[k], gone) && gone.wal == None && gone.file == r[k].file
  {
    var s := r[k];
    RunInv(c, r, k);
    var log := WalFile(s.phase.pages, c.pageSize, c.crc);
    Prefix(log, m, s.phase.written);
    CrashExact(s, s.file, Some(log[..m]));
    t :| CrashOf(s, t) && t.file == s.file && t.wal == Some(log[..m]);
    CrashExact(s, s.file, None);
    gone :| CrashOf(s, gone) && gone.file == s.file && gone.wal == None;
  }

  /** No commit ends between states i and j of a run. */
  ghost predicate Pending(r: seq<State>, i: nat, j: nat)
    requires i <= j < |r|
  {
    r[i].phase.Idle? && forall k :: i < k < j ==> !r[k].phase.Idle?
  }

  /** Until the next idle state, pre and post are about the commit begun at i, if one was. */
  ghost predicate About(r: seq<State>, i: nat, s: State)
    requires i + 1 < |r|
  {
    && s.pre == r[i].file
    && s.post == if r[i + 1].phase.Logging? then Apply(r[i].file, r[i + 1].phase.pages) else r[i].file
  }

  /** The first step away from idle begins a commit or is a crash. */
  lemma NeverIdleTwice(c: Config, s: State, t: State)
    requires Step(c, s, t) && Inv(c, s) && s.phase.Idle?
    ensures !t.phase.Idle? && t.pre == s.file && t.post == if t.phase.Logging? then Apply(s.file, t.phase.pages) else s.file
  {
  }

  lemma AboutKept(c: Config, s: State, t: State)
    requires Step(c, s, t) && !s.phase.Idle? && !t.phase.Idle?
    ensures t.pre == s.pre && t.post == s.post
  {
  }

  lemma {:induction false} PendingAbout(c: Config, r: seq<State>, i: nat, j: nat)
    requires Run(c, r) && i < j < |r| && Pending(r, i, j) && !r[j].phase.Idle?
    ensures About(r, i, r[j])
    decreases j
  {
    RunInv(c, r, j - 1);
    assert Step(c, r[j - 1], r[j]);
    if j > i + 1 {
      PendingAbout(c, r, i, j - 1);
      AboutKept(c, r[j - 1], r[j]);
    } else {
      NeverIdleTwice(c, r[i], r[j]);
    }
  }

  lemma {:induction false} PendingDecided(c: Config, r: seq<State>, i: nat, k: nat, j: nat)
    requires Run(c, r) && i < k <= j < |r| && Pending(r, i, j) && !r[j].phase.Idle? && Decided(c, r[k])
    ensures Decided(c, r[j])
    decreases j
  {
    if k < j {
      PendingDecided(c, r, i, k, j - 1);
      RunInv(c, r, j - 1);
      assert Step(c, r[j - 1], r[j]);
      DecidedStays(c, r[j - 1], r[j]);
    }
  }

  /** An undecided commit that ends has left the file as it was, or as the commit leaves it. */
  lemma EndsEitherWay(c: Config, s: State, t: State)
    requires Inv(c, s) && !s.phase.Idle? && Step(c, s, t) && t.phase.Idle?
    ensures t.file == s.pre || t.file == s.post
  {
    LoggedReads(c, s);
  }

  /**
   * In every run, with crashes anywhere and any number of them: between two
   * neighbouring idle states, the page store either stays or takes the whole
   * commit begun in the first; the latter if the log was synced in between.
   */
  lemma CommitsAreAtomic(c: Config, r: seq<State>, i: nat, j: nat)
    requires Run(c, r) && i < j < |r| && Pending(r, i, j) && r[j].phase.Idle?
    ensures r[j].file == r[i].file || (r[i + 1].phase.Logging? && r[j].file == Apply(r[i].file, r[i + 1].phase.pages))
    ensures forall k :: i < k < j && Decided(c, r[k]) ==> r[i + 1].phase.Logging? ==> r[j].file == Apply(r[i].file, r[i + 1].phase.pages)
  {
    assert Step(c, r[j - 1], r[j]);
    RunInv(c, r, j - 1);
    RunInv(c, r, i);
    assert Step(c, r[i], r[i + 1]);
    NeverIdleTwice(c, r[i], r[i + 1]);
    PendingAbout(c, r, i, j - 1);
    EndsEitherWay(c, r[j - 1], r[j]);
    forall k | i < k < j && Decided(c, r[k]) ensures r[j].file == r[j - 1].post {
      PendingDecided(c, r, i, k, j - 1);
      DecidedStays(c, r[j - 1], r[j]);
    }
  }
}
