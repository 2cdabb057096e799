/**
 * Which workloads read exactly through restarts. A key that is never removed always does.
 * A key set at most once and removed at most once does, unless a kill falls between the
 * rename of a table that holds it and the deprecation of the table's log: then the database
 * opens with the table twice.
 */
module LifetimeWorkload {
  import opened Bytes
  import opened Tables
  import opened Grouping
  import opened Engine
  import opened Refinement
  import opened Workload
  import opened Recovery
  import opened Crash
  import opened Lifetime

  // ----- occurrences of a key after a kill -----

  lemma CountThree(a: seq<Table>, t: Table, b: seq<Table>, k: Key, tombstone: bool)
    ensures Count(a + [t] + b, k, tombstone) == Count(a, k, tombstone) + One(t, k, tombstone) + Count(b, k, tombstone)
  {
    CountAppend(a + [t], b, k, tombstone);
    CountNewest(a, t, k, tombstone);
  }

  /** Between rename and deprecation the table stands twice. */
  lemma RenamedCounts(cfg: Config, db: Db, disk: Disk, k: Key, tombstone: bool)
    requires Valid(cfg, db) && OnDisk(db, disk) && db.flushes != [] && db.flushes[0].done
    ensures var renamed := RenameFlushed(disk, db.flushes[0].id);
            && Init(renamed).Success?
            && Count(Chronicle(Init(renamed).value), k, tombstone) ==
               Count(Chronicle(db), k, tombstone) + One(db.flushes[0].table, k, tombstone)
  {
    hide OnDisk, Init, RenameFlushed, Valid;
    RenamedOpens(cfg, db, disk);
    OneMoreMemTable(cfg, db);
    var t := db.flushes[0].table;
    var a, b := TablesOf(db.queue), MemTables(db.mems);
    assert TablesOf(HarvestOne(db).queue) == a + [t];
    CountThree(a, t, b, k, tombstone);
    CountAppend(a, b, k, tombstone);
  }

  /** At an even position of the harvest one table stands twice, at an odd one none. */
  lemma {:induction false} HarvestCounts(cfg: Config, db: Db, disk: Disk, i: nat, k: Key, tombstone: bool)
    requires Valid(cfg, db) && OnDisk(db, disk) && db.job == None && i < |HarvestDisks(db, disk)|
    ensures i / 2 < |db.flushes| && Init(HarvestDisks(db, disk)[i]).Success?
    ensures Count(Chronicle(Init(HarvestDisks(db, disk)[i]).value), k, tombstone) ==
            Count(Chronicle(db), k, tombstone) + if i % 2 == 0 then One(db.flushes[i / 2].table, k, tombstone) else 0
    decreases |db.flushes|
  {
    hide Valid, OnDisk, RenameFlushed, DeprecateLog, Init, Chronicle, Count, One;
    if i == 0 {
      RenamedCounts(cfg, db, disk, k, tombstone);
    } else {
      var one := HarvestOne(db);
      var deprecated := DeprecateLog(RenameFlushed(disk, db.flushes[0].id), db.mems[0].logId);
      HarvestOneValid(cfg, db);
      HarvestedOnDisk(cfg, db, disk);
      if i == 1 {
        RecoversBetweenCalls(cfg, one, deprecated);
        SameTables(Init(deprecated).value, one);
      } else {
        HarvestCounts(cfg, one, deprecated, i - 2, k, tombstone);
        assert (i - 2) / 2 == i / 2 - 1 && one.flushes[(i - 2) / 2] == db.flushes[i / 2];
      }
    }
  }

  lemma SameTables(a: Db, b: Db)
    requires a.queue == b.queue && a.mems == b.mems
    ensures Chronicle(a) == Chronicle(b)
  {
  }

  /** The call counts as made from the moment on when it is logged. */
  function CallCount(op: Op, k: Key, removes: bool): nat {
    if op.key == k && op.Remove? == removes then 1 else 0
  }

  /** Logging the operation, and freezing the memtable thereafter, add one entry. */
  lemma LoggedCounts(cfg: Config, db: Db, op: Op, k: Key, tombstone: bool)
    ensures Count(Chronicle(WithMem(db)), k, tombstone) == Count(Chronicle(db), k, tombstone)
    ensures Count(Chronicle(LoggedDb(db, op)), k, tombstone) == Count(Chronicle(Write(cfg, db, op)), k, tombstone)
  {
    hide NeedsFlush;
    if db.mems == [] {
      assert Chronicle(WithMem(db)) == Chronicle(db) + [map[]];
      CountNewest(Chronicle(db), map[], k, tombstone);
    }
    var logged, written := Chronicle(LoggedDb(db, op)), Chronicle(Write(cfg, db, op));
    assert written == logged || written == logged + [map[]];
    CountNewest(logged, map[], k, tombstone);
  }

  lemma WriteDisksCount(cfg: Config, db: Db, disk: Disk, op: Op, i: nat, k: Key, tombstone: bool)
    requires Valid(cfg, db) && OnDisk(db, disk) && i < 3
    ensures Init(WriteDisks(cfg, db, disk, op)[i]).Success?
    ensures Count(Chronicle(Init(WriteDisks(cfg, db, disk, op)[i]).value), k, tombstone) <=
            Count(Chronicle(db), k, tombstone) + CallCount(op, k, tombstone)
  {
    hide Valid, OnDisk, Init, Write, WithMem, LoggedDb, WithLog, LoggedDisk, WrittenDisk, Chronicle;
    LoggedCounts(cfg, db, op, k, tombstone);
    WriteCounts(cfg, db, op, k, tombstone);
    if i == 0 {
      WithLogOnDisk(cfg, db, disk);
      RecoversBetweenCalls(cfg, WithMem(db), WithLog(db, disk));
      SameTables(Init(WithLog(db, disk)).value, WithMem(db));
    } else if i == 1 {
      LoggedOnDisk(cfg, db, disk, op);
      RecoversBetweenCalls(cfg, LoggedDb(db, op), LoggedDisk(db, disk, op));
      SameTables(Init(LoggedDisk(db, disk, op)).value, LoggedDb(db, op));
    } else {
      WrittenOnDisk(cfg, db, disk, op);
      WriteValid(cfg, db, op);
      RecoversBetweenCalls(cfg, Write(cfg, db, op), WrittenDisk(cfg, db, disk, op));
      SameTables(Init(WrittenDisk(cfg, db, disk, op)).value, Write(cfg, db, op));
    }
  }

  /** The harvest of the call, at position 1 and on in the directories of the call. */
  function CallHarvest(cfg: Config, db: Db, disk: Disk): seq<Disk>
    requires CheckCompaction(cfg, db).Success?
  {
    var applied := CheckCompaction(cfg, db).value;
    if applied.job == None then HarvestDisks(applied, AppliedDisk(cfg, db, disk)) else []
  }

  /** The table that a harvest killed after its i-th file operation leaves twice. */
  function HarvestTwice(db: Db, i: nat): seq<Table> {
    if i % 2 == 1 && i / 2 < |db.flushes| then [db.flushes[i / 2].table] else []
  }

  /** What stands twice after a kill: at most one table. */
  function Twice(cfg: Config, db: Db, disk: Disk, end: End): seq<Table>
    requires CheckCompaction(cfg, db).Success? && CheckFutures(cfg, db).Success?
  {
    match end
    case KillDuring(op, point) =>
      var i := KillPoint(CallDisks(cfg, db, disk, op), point);
      if i <= |CallHarvest(cfg, db, disk)| then HarvestTwice(db, i) else []
    case KillDuringClose(point) => HarvestTwice(db, KillPoint(ClosingDisks(db, disk), point))
    case _ => []
  }

  function EndCalls(end: End, k: Key, removes: bool): nat {
    if end.KillDuring? then CallCount(end.op, k, removes) else 0
  }

  lemma AppliedCounts(cfg: Config, db: Db, k: Key, tombstone: bool)
    requires Valid(cfg, db)
    ensures CheckCompaction(cfg, db).Success? && CheckFutures(cfg, db).Success?
    ensures var applied, checked := CheckCompaction(cfg, db).value, CheckFutures(cfg, db).value;
            && applied.flushes == db.flushes
            && Count(Chronicle(applied), k, tombstone) == Count(Chronicle(checked), k, tombstone)
               <= Count(Chronicle(db), k, tombstone)
  {
    hide Chronicle, Count, Harvest, MergeWindow, Numbered, LogsMatch;
    CheckCompactionValid(cfg, db);
    CheckFuturesValid(cfg, db);
    CheckCounts(cfg, db, k, tombstone);
  }

  lemma CallDisksCount(cfg: Config, db: Db, disk: Disk, op: Op, i: nat, k: Key, tombstone: bool)
    requires Valid(cfg, db) && OnDisk(db, disk)
    ensures CheckCompaction(cfg, db).Success? && CheckFutures(cfg, db).Success?
    ensures i < |CallDisks(cfg, db, disk, op)| ==>
              var twice := if i <= |CallHarvest(cfg, db, disk)| then HarvestTwice(db, i) else [];
              && Init(CallDisks(cfg, db, disk, op)[i]).Success?
              && Count(Chronicle(Init(CallDisks(cfg, db, disk, op)[i]).value), k, tombstone) <=
                 Count(Chronicle(db), k, tombstone) + Count(twice, k, tombstone) + CallCount(op, k, tombstone)
  {
    hide Valid, OnDisk, Init, Chronicle, One, AppliedDisk, HarvestDisks, WithLog, LoggedDisk, WrittenDisk, CheckedDisk;
    AppliedCounts(cfg, db, k, tombstone);
    AppliedOnDisk(cfg, db, disk);
    CheckedOnDisk(cfg, db, disk);
    CheckCompactionValid(cfg, db);
    CheckFuturesValid(cfg, db);
    var applied, harvest := CheckCompaction(cfg, db).value, CallHarvest(cfg, db, disk);
    var disk1 := AppliedDisk(cfg, db, disk);
    assert CallDisks(cfg, db, disk, op) ==
           [disk1] + harvest + WriteDisks(cfg, CheckFutures(cfg, db).value, CheckedDisk(cfg, db, disk), op);
    if i == 0 {
      RecoversBetweenCalls(cfg, applied, disk1);
      SameTables(Init(disk1).value, applied);
    } else if i <= |harvest| {
      HarvestCounts(cfg, applied, disk1, i - 1, k, tombstone);
      if i % 2 == 1 {
        CountNewest([], db.flushes[i / 2].table, k, tombstone);
        assert [] + [db.flushes[i / 2].table] == HarvestTwice(db, i);
        assert (i - 1) / 2 == i / 2;
      }
    } else if i < |harvest| + 4 {
      WriteDisksCount(cfg, CheckFutures(cfg, db).value, CheckedDisk(cfg, db, disk), op, i - 1 - |harvest|, k, tombstone);
    }
  }

  lemma ClosingDisksCount(cfg: Config, db: Db, disk: Disk, i: nat, k: Key, tombstone: bool)
    requires Valid(cfg, db) && OnDisk(db, disk) && i < |ClosingDisks(db, disk)|
    ensures Init(ClosingDisks(db, disk)[i]).Success?
    ensures Count(Chronicle(Init(ClosingDisks(db, disk)[i]).value), k, tombstone) <=
            Count(Chronicle(db), k, tombstone) + Count(HarvestTwice(db, i), k, tombstone)
  {
    hide Valid, OnDisk, Init, Chronicle, One, HarvestDisks;
    if i == 0 {
      RecoversBetweenCalls(cfg, db, disk);
      SameTables(Init(disk).value, db);
    } else {
      var idle := db.(job := None);
      IdleOnDisk(cfg, db, disk);
      SameTables(idle, db);
      HarvestCounts(cfg, idle, disk, i - 1, k, tombstone);
      if i % 2 == 1 {
        CountNewest([], db.flushes[i / 2].table, k, tombstone);
        assert [] + [db.flushes[i / 2].table] == HarvestTwice(db, i);
        assert (i - 1) / 2 == i / 2;
      }
    }
  }

  /** Reopening finds k no more often than the tables held it, but for a table left twice. */
  lemma EndCounts(cfg: Config, db: Db, disk: Disk, end: End, k: Key, tombstone: bool)
    requires Valid(cfg, db) && OnDisk(db, disk) && MayEnd(db, end)
    ensures CheckCompaction(cfg, db).Success? && CheckFutures(cfg, db).Success?
    ensures var left := EndDisk(cfg, db, disk, end);
            && Init(left).Success?
            && Count(Chronicle(Init(left).value), k, tombstone) <=
               Count(Chronicle(db), k, tombstone) + Count(Twice(cfg, db, disk, end), k, tombstone)
               + EndCalls(end, k, tombstone)
  {
    hide Valid, OnDisk, Init, Chronicle, Count, CallDisks, ClosedDisk, HarvestDisks, HarvestTwice, CallHarvest, AppliedDisk;
    AppliedCounts(cfg, db, k, tombstone);
    match end
    case Kill =>
      RecoversBetweenCalls(cfg, db, disk);
      SameTables(Init(disk).value, db);
    case KillDuring(op, point) =>
      CallDisksCount(cfg, db, disk, op, KillPoint(CallDisks(cfg, db, disk, op), point), k, tombstone);
    case KillDuringClose(point) =>
      ClosingDisksCount(cfg, db, disk, KillPoint(ClosingDisks(db, disk), point), k, tombstone);
    case Close =>
      CloseAndReopen(cfg, db, disk);
  }

  /** A table that is left twice is a table of the database. */
  lemma TwiceIsCounted(cfg: Config, db: Db, disk: Disk, end: End, k: Key, tombstone: bool)
    requires Valid(cfg, db) && CheckCompaction(cfg, db).Success? && CheckFutures(cfg, db).Success?
    ensures Count(Twice(cfg, db, disk, end), k, tombstone) <= Count(Chronicle(db), k, tombstone)
  {
    hide CallDisks, HarvestDisks, CallHarvest, CheckCompaction, CheckFutures;
    var twice := Twice(cfg, db, disk, end);
    if twice != [] {
      var j: nat :| j < |db.flushes| && twice == [db.flushes[j].table];
      JobTableCounted(cfg, db, j, k, tombstone);
    }
  }

  lemma JobTableCounted(cfg: Config, db: Db, j: nat, k: Key, tombstone: bool)
    requires Valid(cfg, db) && j < |db.flushes|
    ensures Count([db.flushes[j].table], k, tombstone) <= Count(Chronicle(db), k, tombstone)
  {
    var mems, t := MemTables(db.mems), db.flushes[j].table;
    assert mems == mems[..j] + [t] + mems[j+1..];
    CountThree(mems[..j], t, mems[j+1..], k, tombstone);
    CountAppend(TablesOf(db.queue), mems, k, tombstone);
    CountNewest([], t, k, tombstone);
    assert [] + [t] == [t];
  }

  // ----- a whole life -----

  /** How often the life calls for setting k, or for removing it, killed calls included. */
  function LifeCalls(ss: seq<Session>, k: Key, removes: bool): nat {
    if ss == [] then 0
    else
      var s := ss[|ss|-1];
      LifeCalls(ss[..|ss|-1], k, removes) + Calls(s.events, k, removes) + EndCalls(s.end, k, removes)
  }

  predicate Holds(ts: seq<Table>, k: Key) {
    exists i :: 0 <= i < |ts| && k in ts[i]
  }

  lemma {:induction false} NotHeldNotCounted(ts: seq<Table>, k: Key, tombstone: bool)
    requires !Holds(ts, k)
    ensures Count(ts, k, tombstone) == 0
  {
    if ts != [] {
      assert forall i :: 0 <= i < |ts| - 1 ==> ts[..|ts|-1][i] == ts[i];
      NotHeldNotCounted(ts[..|ts|-1], k, tombstone);
    }
  }

  /** The session is not killed between the rename of a table that holds k and the deprecation of its log. */
  predicate KeepsSingle(cfg: Config, disk: Disk, s: Session, k: Key) {
    Init(disk).Success? ==>
      (SessionRuns(cfg, disk, s.events);
       var (db, left) := SessionRun(cfg, disk, s.events).value;
       !Holds(Twice(cfg, db, left, s.end), k))
  }

  predicate LifeKeepsSingle(cfg: Config, ss: seq<Session>, k: Key) {
    ss == [] || (LifeKeepsSingle(cfg, ss[..|ss|-1], k) && KeepsSingle(cfg, LifeDisk(cfg, ss[..|ss|-1]), ss[|ss|-1], k))
  }

  lemma SessionCounts(cfg: Config, disk: Disk, s: Session, k: Key, tombstone: bool)
    requires Init(disk).Success? && SessionEnds(cfg, disk, s)
    ensures Init(SessionDisk(cfg, disk, s)).Success?
    ensures var before, left := Count(Chronicle(Init(disk).value), k, tombstone), SessionDisk(cfg, disk, s);
            var calls := Calls(s.events, k, tombstone) + EndCalls(s.end, k, tombstone);
            && (KeepsSingle(cfg, disk, s, k) ==> Count(Chronicle(Init(left).value), k, tombstone) <= before + calls)
            && (before + calls == 0 ==> Count(Chronicle(Init(left).value), k, tombstone) == 0)
  {
    hide Valid, OnDisk, Init, Run, RunDisk, Chronicle, Count, EndDisk, Twice, MayEnd, WithScratch, Calls, EndCalls, Holds;
    SessionRuns(cfg, disk, s.events);
    var (db, left) := SessionRun(cfg, disk, s.events).value;
    RunCounts(cfg, Init(disk).value, s.events, k, tombstone);
    EndCounts(cfg, db, left, s.end, k, tombstone);
    TwiceIsCounted(cfg, db, left, s.end, k, tombstone);
    ScratchIgnored(EndDisk(cfg, db, left, s.end), s.scratch);
    if !Holds(Twice(cfg, db, left, s.end), k) {
      NotHeldNotCounted(Twice(cfg, db, left, s.end), k, tombstone);
    }
  }

  /** Along a life, tables come to hold k no more often than it is written, kind by kind. */
  lemma {:induction false} LifeCounts(cfg: Config, ss: seq<Session>, k: Key, tombstone: bool)
    requires Waits(cfg, ss)
    requires LifeKeepsSingle(cfg, ss, k) || LifeCalls(ss, k, tombstone) == 0
    ensures Init(LifeDisk(cfg, ss)).Success?
    ensures Count(Chronicle(Init(LifeDisk(cfg, ss)).value), k, tombstone) <= LifeCalls(ss, k, tombstone)
  {
    hide Init, SessionDisk, SessionEnds, KeepsSingle, Chronicle, Count, Calls, EndCalls;
    if ss == [] {
      EmptyOpens();
      EmptyCounts(k, tombstone);
    } else {
      LifeCounts(cfg, ss[..|ss|-1], k, tombstone);
      SessionCounts(cfg, LifeDisk(cfg, ss[..|ss|-1]), ss[|ss|-1], k, tombstone);
    }
  }

  /** The calls on k are few, and a removed key is never caught in a table left twice. */
  predicate ModestLife(cfg: Config, ss: seq<Session>, k: Key) {
    || LifeCalls(ss, k, true) == 0
    || (LifeCalls(ss, k, false) <= 1 && LifeCalls(ss, k, true) <= 1 && LifeKeepsSingle(cfg, ss, k))
  }

  /**
   * Through any number of sessions and in any configuration, modest keys read as last
   * written, whatever the other keys do.
   */
  lemma {:induction false} ModestKeysReadExactly(cfg: Config, ss: seq<Session>, k: Key)
    requires Waits(cfg, ss) && ModestLife(cfg, ss, k)
    ensures SafeLife(cfg, ss, k) && ExactLife(cfg, ss, k)
  {
    hide Init, SessionDisk, SessionEnds, KeepsSingle, Chronicle, Count, Calls, EndCalls, SafeSession, ExactLife;
    if ss != [] {
      var front, s := ss[..|ss|-1], ss[|ss|-1];
      LifeOpens(cfg, front);
      ModestKeysReadExactly(cfg, front, k);
      LifeCounts(cfg, front, k, true);
      if LifeCalls(ss, k, true) > 0 {
        LifeCounts(cfg, front, k, false);
      }
      ModestSessionIsSafe(cfg, LifeDisk(cfg, front), s, k);
    }
    LifetimeReadsExactly(cfg, ss, k);
  }

  lemma ModestSessionIsSafe(cfg: Config, disk: Disk, s: Session, k: Key)
    requires Init(disk).Success? && ModestFrom(Init(disk).value, s.events, k)
    ensures SafeSession(cfg, disk, s, k)
  {
    hide Init, Valid, OnDisk, Run, RunDisk, SafeRun, AppliesStale, ModestFrom, Made;
    SessionRuns(cfg, disk, s.events);
    ModestRunsAreSafe(cfg, Init(disk).value, s.events, k);
    ModestNeverStale(cfg, Init(disk).value, s.events, k);
  }
}
