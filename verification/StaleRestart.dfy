/**
 * The workload theorem needs its guard on kills. Killed between the rename of a table and the
 * deprecation of its log, the database comes back with the table twice. If the table holds a
 * removal, the copies cancel each other, and the removed key reads as set, without any
 * further call. The logs in this run hold removals alone, which the loader does read back.
 */
module StaleRestart {
  import opened Bytes
  import opened Tables
  import opened Compaction
  import opened Sizes
  import opened Grouping
  import opened Errors
  import opened Engine
  import opened Refinement
  import opened Workload
  import opened StaleRead
  import opened TransactionLog
  import opened Recovery
  import opened ByteRecovery
  import opened Crash
  import opened Lifetime
  import opened LifetimeWorkload

  /** Every write fills a memtable, every merge passes the limit, four tables to a window. */
  const FOUR := Config(1, 1, 3)

  const SET_K := Op.Set(K, OLD_TEXT)
  const SET_X := Op.Set(X, [])
  const REMOVE_K := Op.Remove(K)

  /** Sets two keys and removes the first; the removal is flushed but not yet harvested. */
  function FirstEvents(): seq<Event> {
    Shelved(SET_K) + Shelved(SET_X) + [Call(REMOVE_K)] + [FlushDone(0)]
  }

  /** Killed in the next call, after the first file operation of its harvest. */
  function FirstSession(): Session {
    Session(FirstEvents(), KillDuring(SET_X, 1), map[])
  }

  /** Reads; the log's copy is flushed, and one compaction runs. */
  function SecondEvents(): seq<Event> {
    [FlushDone(0)] + [Event.Get(K)] + [CompactionDone] + [Event.Get(K)]
  }

  // ----- the first session -----

  /** The oldest log holds the removal, the newer one nothing. */
  predicate RemovalLogged(mems: seq<Mem>) {
    && |mems| == 2
    && mems[0].table == Apply(map[], REMOVE_K) && mems[0].log == [REMOVE_K]
    && mems[1].table == map[] && mems[1].log == []
  }

  /** The two sets are flushed and harvested. */
  lemma TwoShelved()
    ensures Run(FOUR, EMPTY, Shelved(SET_K) + Shelved(SET_X)).Success?
    ensures var db := Run(FOUR, EMPTY, Shelved(SET_K) + Shelved(SET_X)).value;
            && Idle(db) && Valid(FOUR, db) && db.start == 0 && db.ssTableCounter == 2
            && db.queue == [SsTable(1, Apply(map[], SET_K)), SsTable(2, Apply(map[], SET_X))]
  {
    hide Run, Shelved, Valid;
    ShelveOne(FOUR, EMPTY, SET_K);
    ShelveOne(FOUR, Run(FOUR, EMPTY, Shelved(SET_K)).value, SET_X);
    RunAppend(FOUR, EMPTY, Shelved(SET_K), Shelved(SET_X));
    EmptyValid(FOUR);
    RunValid(FOUR, EMPTY, Shelved(SET_K) + Shelved(SET_X));
  }

  lemma FirstRun()
    ensures Run(FOUR, EMPTY, FirstEvents()).Success?
    ensures var db := Run(FOUR, EMPTY, FirstEvents()).value;
            && db.queue == [SsTable(1, Apply(map[], SET_K)), SsTable(2, Apply(map[], SET_X))]
            && db.start == 0 && db.job == None && RemovalLogged(db.mems)
            && db.flushes == [FlushJob(3, Apply(map[], REMOVE_K), true)]
  {
    hide Run, Shelved, Valid, Idle, RemovalLogged;
    TwoShelved();
    var es := Shelved(SET_K) + Shelved(SET_X);
    RemovalFrozen(Run(FOUR, EMPTY, es).value);
    RunAppend(FOUR, EMPTY, es, [Call(REMOVE_K)] + [FlushDone(0)]);
    assert es + ([Call(REMOVE_K)] + [FlushDone(0)]) == FirstEvents();
  }

  lemma RemovalFrozen(db: Db)
    requires Idle(db) && Valid(FOUR, db) && db.start == 0 && db.ssTableCounter == 2
    requires db.queue == [SsTable(1, Apply(map[], SET_K)), SsTable(2, Apply(map[], SET_X))]
    ensures Run(FOUR, db, [Call(REMOVE_K)] + [FlushDone(0)]).Success?
    ensures var after := Run(FOUR, db, [Call(REMOVE_K)] + [FlushDone(0)]).value;
            && after.queue == db.queue && after.start == 0 && after.job == None && RemovalLogged(after.mems)
            && after.flushes == [FlushJob(3, Apply(map[], REMOVE_K), true)]
  {
    hide Total, Run;
    WriteAndHarvest(FOUR, db, REMOVE_K);
    SingleFills(REMOVE_K);
    if db.mems != [] {
      ReplayEmpty(db.mems[0].log);
    }
    var called := Write(FOUR, db, REMOVE_K);
    RunOne(FOUR, db, Call(REMOVE_K));
    RunOne(FOUR, called, FlushDone(0));
    RunAppend(FOUR, db, [Call(REMOVE_K)], [FlushDone(0)]);
  }

  /** Only the empty log leaves an empty memtable. */
  lemma ReplayEmpty(log: seq<Op>)
    ensures Replay(log) == map[] <==> log == []
  {
    if log != [] {
      assert log[|log|-1].key in Replay(log);
    }
  }

  /** The removal stands in a table file and in the oldest log. */
  lemma OpensWithCopies()
    ensures var disk := LifeDisk(FOUR, [FirstSession()]);
            && Init(disk).Success?
            && var db := Init(disk).value;
               && db.queue == [SsTable(1, Apply(map[], SET_K)), SsTable(2, Apply(map[], SET_X)),
                               SsTable(3, Apply(map[], REMOVE_K))]
               && db.start == 0 && db.job == None && RemovalLogged(db.mems)
               && db.flushes == [FlushJob(5, Apply(map[], REMOVE_K), false)] && db.ssTableCounter == 5
    ensures LifeModel(FOUR, [FirstSession()]) == ModelRun(map[], FirstEvents())
  {
    hide Run, RunDisk, OnDisk, RenameFlushed, Init, EndDisk, Made, CheckFutures, CheckCompaction, WithScratch;
    FirstRun();
    EmptyOpens();
    SessionRuns(FOUR, map[], FirstEvents());
    var db, disk := Run(FOUR, EMPTY, FirstEvents()).value, RunDisk(FOUR, EMPTY, map[], FirstEvents());
    var s := FirstSession();
    assert [s][..0] == [];
    var renamed := RenameFlushed(disk, 3);
    KilledAfterRename(db, disk);
    assert LifeDisk(FOUR, [s]) == WithScratch(renamed, map[]);
    ScratchIgnored(renamed, map[]);
    RenamedOpens(FOUR, db, disk);
  }

  lemma KilledAfterRename(db: Db, disk: Disk)
    requires db.job == None && db.mems != [] && db.flushes != [] && db.flushes[0].done
    ensures CheckCompaction(FOUR, db).Success? && CheckFutures(FOUR, db).Success?
    ensures EndDisk(FOUR, db, disk, KillDuring(SET_X, 1)) == RenameFlushed(disk, db.flushes[0].id)
    ensures !Made(FOUR, db, disk, KillDuring(SET_X, 1))
  {
    hide RenameFlushed, Harvest, HarvestedDisk, WrittenDisk, Write, LoggedDisk;
    assert CheckCompaction(FOUR, db) == Success(db) && AppliedDisk(FOUR, db, disk) == disk;
    assert HarvestDisks(db, disk)[0] == RenameFlushed(disk, db.flushes[0].id);
    assert CallDisks(FOUR, db, disk, SET_X)[1] == RenameFlushed(disk, db.flushes[0].id);
  }

  // ----- the second session -----

  lemma FourTables(a: SsTable, b: SsTable, c: SsTable, d: SsTable)
    ensures MergeWindow(1, [a, b, c, d]) ==
            [SsTable(a.id, Merged(a.table, b.table)), SsTable(c.id, Merged(c.table, d.table))]
  {
    PairFirst([a, b, c, d]);
    assert [a, b, c, d][2..] == [c, d];
    PairFirst([c, d]);
    MergeWindowEmpty(1, [c, d]);
  }

  /** Two tables fill the first group. */
  lemma PairFirst(w: seq<SsTable>)
    requires |w| >= 2
    ensures MergeWindow(1, w) == [SsTable(w[0].id, Merged(w[0].table, w[1].table))] + MergeWindow(1, w[2..])
  {
    var sizes := FileSizes(w);
    assert Sum(sizes, 2) == Sum(sizes, 1) + sizes[1] && Passes(1, sizes, 2);
    assert GroupEnd(1, sizes, 2) == 2 && GroupEnd(1, sizes, 1) == 2;
    MergeWindowPeel(1, w);
    FoldSingle(w[0].table);
    FoldExtend([w[0].table], w[1].table);
    assert TablesOf(w[..2]) == [w[0].table] + [w[1].table];
  }

  /** The copy is harvested, and the compaction of the four tables launched, done and applied. */
  lemma CopiesCancel(db: Db, a: SsTable, b: SsTable, c: SsTable, d: SsTable)
    requires db.queue == [a, b, c] && db.start == 0 && db.job == None
    requires db.flushes == [FlushJob(d.id, d.table, false)] && |db.mems| == 2 && db.mems[1].table == map[]
    ensures Run(FOUR, db, SecondEvents()).Success?
    ensures var after := Run(FOUR, db, SecondEvents()).value;
            && after.queue == [SsTable(a.id, Merged(a.table, b.table)), SsTable(c.id, Merged(c.table, d.table))]
            && MemTables(after.mems) == [map[]]
  {
    hide MergeWindow;
    var flushed := FinishFlush(db, 0);
    var one := HarvestOne(flushed);
    assert one.flushes == [] && one.mems == [db.mems[1]] && one.queue == [a, b, c, d];
    assert Harvest(one) == one && Harvest(flushed) == one;
    var launched := TryLaunch(FOUR, one);
    FourTables(a, b, c, d);
    assert launched.queue[0..4] == [a, b, c, d];
    var done := FinishCompaction(FOUR, launched).value;
    RunOne(FOUR, db, FlushDone(0));
    RunOne(FOUR, flushed, Event.Get(K));
    RunOne(FOUR, launched, CompactionDone);
    RunOne(FOUR, done, Event.Get(K));
    hide Run;
    RunAppend(FOUR, db, [FlushDone(0)], [Event.Get(K)]);
    RunAppend(FOUR, db, [FlushDone(0)] + [Event.Get(K)], [CompactionDone]);
    RunAppend(FOUR, db, [FlushDone(0)] + [Event.Get(K)] + [CompactionDone], [Event.Get(K)]);
    assert done.queue[..0] + MergeWindow(1, [a, b, c, d]) + done.queue[4..] == MergeWindow(1, [a, b, c, d]);
  }

  /** The removed key comes back. */
  lemma RestartForgetsRemoval()
    ensures var disk := LifeDisk(FOUR, [FirstSession()]);
            && Init(disk).Success? && Run(FOUR, Init(disk).value, SecondEvents()).Success?
            && GetValue(Run(FOUR, Init(disk).value, SecondEvents()).value, K) == Some(OLD_TEXT)
  {
    hide Run, Init, LifeDisk, FirstSession;
    OpensWithCopies();
    var db := Init(LifeDisk(FOUR, [FirstSession()])).value;
    var a, b := SsTable(1, Apply(map[], SET_K)), SsTable(2, Apply(map[], SET_X));
    var c, d := SsTable(3, Apply(map[], REMOVE_K)), SsTable(5, Apply(map[], REMOVE_K));
    CopiesCancel(db, a, b, c, d);
    var after := Run(FOUR, db, SecondEvents()).value;
    var ab, cd := Merged(a.table, b.table), Merged(c.table, d.table);
    assert TablesOf(after.queue) == [ab] + [cd];
    FindNewest([ab], cd, K);
    FindNewest([], ab, K);
    assert [] + [ab] == [ab];
    FindNewest([], map[], K);
    assert MemTables(after.mems) == [] + [map[]];
  }

  /** The bytes of the two logs load to their memtables. */
  lemma LogsLoadBack(mems: seq<Mem>)
    requires RemovalLogged(mems)
    ensures forall i :: 0 <= i < |mems| ==> Load(WriterLog(mems[i].log)) == Success(mems[i].table)
  {
    hide Load, WriterLog;
    assert [REMOVE_K][..0] == [] && Replay([REMOVE_K]) == Apply(map[], REMOVE_K);
    RemovalLogLoads([REMOVE_K]);
    RemovalLogLoads([]);
  }

  /** So the bytes of the directory open as the state that this run goes on from. */
  lemma BytesOpenWithCopies(raw: RawDisk)
    requires StoresAll(raw, LifeDisk(FOUR, [FirstSession()]))
    ensures Init(LifeDisk(FOUR, [FirstSession()])).Success?
    ensures var db := Init(LifeDisk(FOUR, [FirstSession()])).value;
            OpenBytes(raw) == Success(Opening(db.queue, MemTables(db.mems)))
  {
    hide Init, LifeDisk, FirstSession, OpenBytes, StoresAll, LogsSuffice, OrdinaryLogs, RemovalLogged, OnDisk;
    OpensWithCopies();
    var disk := LifeDisk(FOUR, [FirstSession()]);
    InitOnDisk(disk);
    OnlyRemovals(Init(disk).value, disk);
    RemovalLogsSuffice(disk);
    BytesSufficeExactly(raw, disk);
  }

  lemma OnlyRemovals(db: Db, disk: Disk)
    requires OnDisk(db, disk) && RemovalLogged(db.mems)
    ensures forall name :: name in disk && name.kind == Txl && disk[name].LogFile? ==>
              forall i :: 0 <= i < |disk[name].ops| ==> disk[name].ops[i].Remove?
  {
    forall name | name in disk && name.kind == Txl && disk[name].LogFile?
      ensures forall i :: 0 <= i < |disk[name].ops| ==> disk[name].ops[i].Remove?
    {
      assert name == Name(name.id, Txl);
      assert name.id in LogIds(db.mems);
    }
  }

  // ----- the workload -----

  lemma {:induction false} OtherCalls(es: seq<Event>, removes: bool)
    requires forall i :: 0 <= i < |es| && es[i].Call? ==> es[i].op.key != K
    ensures Calls(es, K, removes) == 0
  {
    if es != [] {
      OtherCalls(es[..|es|-1], removes);
    }
  }

  function BothSessions(): seq<Session> {
    [FirstSession()] + [Session(SecondEvents(), Kill, map[])]
  }

  /** Through both sessions the key is set once and removed once; only the guard on kills fails. */
  lemma OnceSetOnceRemoved()
    ensures LifeCalls(BothSessions(), K, false) == 1 && LifeCalls(BothSessions(), K, true) == 1
    ensures !LifeKeepsSingle(FOUR, BothSessions(), K)
    ensures K !in ModelRun(LifeModel(FOUR, [FirstSession()]), SecondEvents())
  {
    hide Calls, ModelRun, KeepsSingle, LifeModel, FirstSession, LifeCalls, LifeDisk;
    BothCalls(false);
    BothCalls(true);
    var first := FirstSession();
    assert BothSessions()[..1] == [first] && [first][..0] == [];
    TableTwice();
    EmptyLife();
    OpensWithCopies();
    RemovedInModel();
  }

  lemma EmptyLife()
    ensures LifeDisk(FOUR, []) == map[]
  {
  }

  lemma BothCalls(removes: bool)
    ensures LifeCalls(BothSessions(), K, removes) == 1
  {
    hide Calls;
    var first := FirstSession();
    assert BothSessions()[..1] == [first] && [first][..0] == [];
    FirstCalls(removes);
    OtherCalls(SecondEvents(), removes);
    assert LifeCalls([first], K, removes) == Calls(first.events, K, removes) + EndCalls(first.end, K, removes);
  }

  lemma FirstCalls(removes: bool)
    ensures Calls(FirstEvents(), K, removes) == 1
  {
    hide Calls;
    ShelvedCalls(SET_K, K, removes);
    ShelvedCalls(SET_X, K, removes);
    var removal: seq<Event>, done: seq<Event> := [Call(REMOVE_K)], [FlushDone(0)];
    OneCall(REMOVE_K, removes);
    OtherCalls(done, removes);
    CallsAppend(Shelved(SET_K) + Shelved(SET_X) + removal, done, K, removes);
    CallsAppend(Shelved(SET_K) + Shelved(SET_X), removal, K, removes);
    CallsAppend(Shelved(SET_K), Shelved(SET_X), K, removes);
  }

  lemma OneCall(op: Op, removes: bool)
    requires op.key == K
    ensures Calls([Call(op)], K, removes) == if op.Remove? == removes then 1 else 0
  {
    assert [Call(op)][..0] == [];
  }

  /** The table that is left twice holds the key. */
  lemma TableTwice()
    ensures !KeepsSingle(FOUR, map[], FirstSession(), K)
  {
    hide Run, RunDisk, OnDisk, Init, CheckFutures, CheckCompaction, CallDisks, CallHarvest;
    FirstRun();
    EmptyOpens();
    SessionRuns(FOUR, map[], FirstEvents());
    var db, disk := Run(FOUR, EMPTY, FirstEvents()).value, RunDisk(FOUR, EMPTY, map[], FirstEvents());
    HarvestStarts(db, disk);
    assert Twice(FOUR, db, disk, KillDuring(SET_X, 1)) == [Apply(map[], REMOVE_K)];
    assert K in [Apply(map[], REMOVE_K)][0];
  }

  lemma HarvestStarts(db: Db, disk: Disk)
    requires db.job == None && db.mems != [] && db.flushes != [] && db.flushes[0].done
    ensures CheckCompaction(FOUR, db).Success? && |CallHarvest(FOUR, db, disk)| >= 1
  {
  }

  lemma RemovedInModel()
    ensures K !in ModelRun(ModelRun(map[], FirstEvents()), SecondEvents())
  {
    var before := Shelved(SET_K) + Shelved(SET_X);
    assert FirstEvents()[..|FirstEvents()|-1] == before + [Call(REMOVE_K)];
    assert (before + [Call(REMOVE_K)])[..|before|] == before;
    assert K !in ModelRun(map[], before + [Call(REMOVE_K)]);
    NoCallsKeepModel(ModelRun(map[], FirstEvents()), SecondEvents());
  }

  lemma {:induction false} NoCallsKeepModel(m: Model, es: seq<Event>)
    requires forall i :: 0 <= i < |es| ==> !es[i].Call?
    ensures ModelRun(m, es) == m
  {
    if es != [] {
      NoCallsKeepModel(m, es[..|es|-1]);
    }
  }
}
