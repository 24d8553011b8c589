/**
 * The file operations of commit and recovery (dal.go, wal.go). The ghost trace
 * records the state after every single operation; it is always a run of the
 * machine in Crash, so that what holds of crashes in its runs holds of crashes here.
 */
module Storage {
  import opened Maybe
  import opened Keys
  import opened WalCodec
  import opened Replay
  import opened Crash

  class Dal {
    const pageSize: nat
    const crc: Checksum
    var file: File
    var wal: Option<seq<Byte>>
    ghost var trace: seq<State>

    ghost function Now(): State
      reads this
      requires trace != []
    {
      trace[|trace| - 1]
    }

    ghost predicate Valid()
      reads this
    {
      Run(Config(pageSize, crc), trace) && Now().file == file && Now().wal == wal
    }

    ghost method Take(t: State)
      requires Run(Config(pageSize, crc), trace) && Step(Config(pageSize, crc), Now(), t)
      modifies this`trace
      ensures trace == old(trace) + [t] && Run(Config(pageSize, crc), trace)
    {
      trace := trace + [t];
    }

    /** writePage. */
    method WritePage(p: Page, ghost phase: Phase)
      requires Valid() && Step(Config(pageSize, crc), Now(), Written(Now(), p).(phase := phase))
      modifies this`file, this`trace
      ensures Valid() && trace == old(trace) + [Written(old(Now()), p).(phase := phase)]
    {
      file := file[p.num := p.data];
      Take(Written(Now(), p).(phase := phase));
    }

    /** file.Sync. */
    method Sync(ghost phase: Phase)
      requires Valid() && Step(Config(pageSize, crc), Now(), Now().(unsynced := {}, phase := phase))
      modifies this`trace
      ensures Valid() && trace == old(trace) + [old(Now()).(unsynced := {}, phase := phase)]
    {
      Take(Now().(unsynced := {}, phase := phase));
    }

    /** removeIfExists, after which commit or recovery is over. */
    method RemoveWal()
      requires Valid()
      requires var s := Now(); Step(Config(pageSize, crc), s, s.(wal := None, walSynced := false, phase := Idle, pre := s.file, post := s.file))
      modifies this`wal, this`trace
      ensures Valid() && wal == None
      ensures var s := old(Now()); trace == old(trace) + [s.(wal := None, walSynced := false, phase := Idle, pre := s.file, post := s.file)]
    {
      wal := None;
      Take(Now().(wal := None, walSynced := false, phase := Idle, pre := Now().file, post := Now().file));
    }

    /** writeWAL: header, records, sync; false for a page of another size, before any file operation. */
    method WriteWal(pages: seq<Page>) returns (ok: bool)
      requires Valid() && Now().phase.Idle?
      requires PagesOf(pages, pageSize) ==> Loggable(Config(pageSize, crc), pages)
      modifies this`wal, this`trace
      ensures Valid() && ok == PagesOf(pages, pageSize)
      ensures !ok ==> wal == old(wal) && trace == old(trace)
      ensures ok ==> Now().phase == Applying(pages, 0) && Now().post == Apply(file, pages) && Extends(old(trace), trace)
      ensures ok ==> |old(trace)| < |trace| && trace[|old(trace)|].phase == Logging(pages, 0)
    {
      var log := EncodeWal(pages, pageSize, crc);
      if log.None? {
        return false;
      }
      ghost var s := Now();
      var bytes := log.value;
      HeaderFits(pages, pageSize, crc);
      wal := Some([]);
      Take(s.(wal := wal, walSynced := false, phase := Logging(pages, 0), pre := file, post := Apply(file, pages)));
      wal := Some(bytes[..WAL_HEADER_SIZE]);
      Take(Now().(wal := wal, phase := Logging(pages, WAL_HEADER_SIZE)));
      wal := Some(bytes);
      assert bytes[..|bytes|] == bytes;
      Take(Now().(wal := wal, phase := Logging(pages, |bytes|)));
      Take(Now().(walSynced := true, phase := Applying(pages, 0)));
      return true;
    }

    /** writePages, in a commit or in recovery. */
    method WritePages(pages: seq<Page>, ghost recovery: bool)
      requires Valid() && Now().phase == Writing(recovery, pages, 0)
      modifies this`file, this`trace
      ensures Valid() && Now().phase == Writing(recovery, pages, |pages|) && Extends(old(trace), trace)
      ensures file == Apply(old(file), pages) && Now().pre == old(Now()).pre && Now().post == old(Now()).post
    {
      ghost var s := Now();
      assert pages[..0] == [];
      for i := 0 to |pages|
        invariant Valid() && Now().phase == Writing(recovery, pages, i) && Extends(old(trace), trace)
        invariant file == Apply(old(file), pages[..i]) && Now().pre == s.pre && Now().post == s.post
      {
        WritePage(pages[i], Writing(recovery, pages, i + 1));
        assert pages[..i + 1][..i] == pages[..i];
      }
      assert pages[..|pages|] == pages;
    }

    /** applyPagesWithWAL: log, write, sync, remove the log. */
    method ApplyPagesWithWal(pages: seq<Page>) returns (ok: bool)
      requires Valid() && Now().phase.Idle?
      requires PagesOf(pages, pageSize) ==> Loggable(Config(pageSize, crc), pages)
      modifies this
      ensures Valid() && Now().phase.Idle? && ok == PagesOf(pages, pageSize) && Extends(old(trace), trace)
      ensures file == if ok then Apply(old(file), pages) else old(file)
      ensures ok ==> |old(trace)| < |trace| && trace[|old(trace)|].phase == Logging(pages, 0)
    {
      ghost var t0 := trace;
      ok := WriteWal(pages);
      if !ok {
        return;
      }
      ghost var t1 := trace;
      ApplyLogged(pages);
      ExtendsTwice(t0, t1, trace);
    }

    /** The part of applyPagesWithWAL after writeWAL. */
    method ApplyLogged(pages: seq<Page>)
      requires Valid() && Now().phase == Applying(pages, 0)
      modifies this
      ensures Valid() && Now().phase.Idle? && Extends(old(trace), trace) && file == Apply(old(file), pages)
    {
      ghost var t0 := trace;
      WritePages(pages, false);
      ghost var t1 := trace;
      Sync(Phase.Synced(pages));
      ghost var t2 := trace;
      ExtendsStep(t0, t1, Now());
      RemoveWal();
      ExtendsStep(t0, t2, Now());
    }

    /** recoverWAL, on opening; false is the error for a corrupt log. */
    method RecoverWal() returns (ok: bool)
      requires Valid() && Now().phase.Down?
      modifies this
      ensures Valid() && ok == Reopened(Config(pageSize, crc), old(Now())).Some? && Extends(old(trace), trace)
      ensures ok ==> Now().phase.Idle? && Reopened(Config(pageSize, crc), old(Now())) == Some(file)
      ensures !ok ==> file == old(file) && wal == old(wal)
    {
      var r := DecodeWal(wal, pageSize, crc);
      if r.Failed? {
        return false;
      }
      if r.NoWal? {
        RemoveWal();
        return true;
      }
      ghost var t0 := trace;
      Take(Now().(phase := Replaying(r.pages, 0)));
      ghost var t1 := trace;
      ExtendsStep(t0, t0, Now());
      ReplayPages(r.pages);
      ExtendsTwice(t0, t1, trace);
      return true;
    }

    /** The part of recoverWAL after readWAL. */
    method ReplayPages(pages: seq<Page>)
      requires Valid() && Now().phase == Replaying(pages, 0)
      modifies this
      ensures Valid() && Now().phase.Idle? && Extends(old(trace), trace) && file == Apply(old(file), pages)
    {
      ghost var t0 := trace;
      WritePages(pages, true);
      ghost var t1 := trace;
      Sync(Replayed(pages));
      ghost var t2 := trace;
      ExtendsStep(t0, t1, Now());
      RemoveWal();
      ExtendsStep(t0, t2, Now());
    }
  }

  function Writing(recovery: bool, pages: seq<Page>, n: nat): Phase {
    if recovery then Replaying(pages, n) else Applying(pages, n)
  }

  lemma HeaderFits(pages: seq<Page>, pageSize: nat, crc: Checksum)
    ensures WAL_HEADER_SIZE <= |WalFile(pages, pageSize, crc)|
  {
  }

  /** One more file operation. */
  lemma ExtendsStep(a: seq<State>, b: seq<State>, s: State)
    requires Extends(a, b) && (|a| < |b| ==> !b[|b| - 1].phase.Idle?)
    ensures Extends(a, b + [s])
  {
  }

  /** One stretch of operations after another. */
  lemma ExtendsTwice(a: seq<State>, b: seq<State>, c: seq<State>)
    requires Extends(a, b) && Extends(b, c) && (|a| < |b| ==> !b[|b| - 1].phase.Idle?)
    ensures Extends(a, c)
  {
  }

  /** Some states were added to a trace, all but the last before the end of commit or recovery. */
  ghost predicate Extends(a: seq<State>, b: seq<State>) {
    |a| <= |b| && b[..|a|] == a && forall k :: |a| <= k < |b| - 1 ==> !b[k].phase.Idle?
  }
}
