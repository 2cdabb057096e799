/**
 * Whole runs with their directory: after every step the directory holds the state, and a
 * crash at any file operation of a call, other than inside the replacement of a compacted
 * window, leaves a directory that reads as the calls so far demand.
 */
module Crash {
  import opened Bytes
  import opened Tables
  import opened Grouping
  import opened Engine
  import opened Refinement
  import opened Protocol
  import opened Workload
  import opened Recovery

  // ----- the replacement of a window, on files -----

  function DeprecateTable(disk: Disk, id: nat): Disk {
    if Name(id, Sst) in disk
    then (disk - {Name(id, Sst)})[Name(id, DeprecatedSst) := disk[Name(id, Sst)]]
    else disk
  }

  function DeprecateTables(disk: Disk, w: seq<SsTable>): Disk
    decreases |w|
  {
    if w == [] then disk else DeprecateTables(DeprecateTable(disk, w[0].id), w[1..])
  }

  function RenameMerged(disk: Disk, id: nat): Disk {
    if Name(id, MergedSst) in disk
    then (disk - {Name(id, MergedSst)})[Name(id, Sst) := disk[Name(id, MergedSst)]]
    else disk
  }

  function RenameAllMerged(disk: Disk, merged: seq<SsTable>): Disk
    decreases |merged|
  {
    if merged == [] then disk else RenameAllMerged(RenameMerged(disk, merged[0].id), merged[1..])
  }

  /** First the tables of the window are deprecated, then the merged ones renamed. */
  function AppliedDisk(cfg: Config, db: Db, disk: Disk): Disk {
    if CompactionReady(db) && db.start + cfg.tablesToCompact + 1 <= |db.queue|
    then RenameAllMerged(DeprecateTables(disk, Window(cfg, db)), MergedBy(db.job))
    else disk
  }

  /** Files of other kinds stay. */
  ghost predicate SameKind(disk: Disk, after: Disk, kind: Kind) {
    forall id :: (Name(id, kind) in after <==> Name(id, kind) in disk)
                 && (Name(id, kind) in disk ==> after[Name(id, kind)] == disk[Name(id, kind)])
  }

  lemma IncreasingWithout(a: seq<nat>, x: nat, b: seq<nat>)
    requires Increasing(a + [x] + b)
    ensures Increasing(a + b) && x !in a + b
  {
    var all, rest := a + [x] + b, a + b;
    assert all[|a|] == x;
    forall i | 0 <= i < |rest| ensures rest[i] == all[if i < |a| then i else i + 1] && rest[i] != x {
      assert rest[i] == all[if i < |a| then i else i + 1];
    }
  }

  lemma SameKindTransitive(a: Disk, b: Disk, c: Disk, kind: Kind)
    requires SameKind(a, b, kind) && SameKind(b, c, kind)
    ensures SameKind(a, c, kind)
  {
  }

  lemma IdsOfThree(a: seq<SsTable>, t: SsTable, b: seq<SsTable>)
    requires Increasing(Ids(a + [t] + b))
    ensures Ids(a + [t] + b) == Ids(a) + [t.id] + Ids(b) && Ids(a + b) == Ids(a) + Ids(b)
    ensures Increasing(Ids(a + b)) && t.id !in Ids(a + b)
    ensures forall s :: s in a + b ==> s.id in Ids(a + b)
  {
    assert Ids(a + [t] + b) == Ids(a) + [t.id] + Ids(b) && Ids(a + b) == Ids(a) + Ids(b);
    IncreasingWithout(Ids(a), t.id, Ids(b));
    forall s | s in a + b ensures s.id in Ids(a + b) {
      var i :| 0 <= i < |a + b| && (a + b)[i] == s;
      assert Ids(a + b)[i] == s.id;
    }
  }

  lemma DeprecatedTable(a: seq<SsTable>, t: SsTable, b: seq<SsTable>, disk: Disk)
    requires TablesOnDisk(a + [t] + b, disk) && Increasing(Ids(a + [t] + b))
    ensures TablesOnDisk(a + b, DeprecateTable(disk, t.id))
  {
    hide Ids;
    IdsOfThree(a, t, b);
    assert forall s :: s in a + b ==> s in a + [t] + b;
  }

  lemma {:induction false} DeprecatedTables(a: seq<SsTable>, w: seq<SsTable>, b: seq<SsTable>, disk: Disk)
    requires TablesOnDisk(a + w + b, disk) && Increasing(Ids(a + w + b))
    ensures TablesOnDisk(a + b, DeprecateTables(disk, w))
    ensures forall kind :: kind != Sst && kind != DeprecatedSst ==> SameKind(disk, DeprecateTables(disk, w), kind)
    decreases |w|
  {
    if w == [] {
      assert a + w + b == a + b;
    } else {
      var rest, disk1 := w[1..] + b, DeprecateTable(disk, w[0].id);
      assert a + w + b == a + [w[0]] + rest && a + rest == a + w[1..] + b;
      IdsOfThree(a, w[0], rest);
      DeprecatedTable(a, w[0], rest, disk);
      DeprecatedTables(a, w[1..], b, disk1);
      forall kind | kind != Sst && kind != DeprecatedSst ensures SameKind(disk, DeprecateTables(disk, w), kind) {
        assert SameKind(disk, disk1, kind);
        SameKindTransitive(disk, disk1, DeprecateTables(disk, w), kind);
      }
    }
  }

  lemma RenamedMerged(a: seq<SsTable>, t: SsTable, b: seq<SsTable>, disk: Disk)
    requires TablesOnDisk(a + b, disk) && MergedOnDisk([t], disk) && Increasing(Ids(a + [t] + b))
    ensures TablesOnDisk(a + [t] + b, RenameMerged(disk, t.id))
  {
    hide Ids;
    IdsOfThree(a, t, b);
    assert [t][0] == t;
    assert forall s :: s in a + [t] + b ==> s == t || s in a + b;
  }

  lemma {:induction false} RenamedAllMerged(a: seq<SsTable>, merged: seq<SsTable>, b: seq<SsTable>, disk: Disk)
    requires TablesOnDisk(a + b, disk) && MergedOnDisk(merged, disk) && Increasing(Ids(a + merged + b))
    ensures TablesOnDisk(a + merged + b, RenameAllMerged(disk, merged))
    ensures forall kind :: kind != Sst && kind != MergedSst ==> SameKind(disk, RenameAllMerged(disk, merged), kind)
    decreases |merged|
  {
    if merged == [] {
      assert a + merged + b == a + b;
    } else {
      var t, rest, disk1 := merged[0], merged[1..], RenameMerged(disk, merged[0].id);
      assert a + merged + b == (a + [t]) + rest + b;
      IncreasingSubsequence(a + [t], rest, b);
      MergedTail(merged, a, b, disk);
      RenamedMerged(a, t, b, disk);
      RenamedAllMerged(a + [t], rest, b, disk1);
      forall kind | kind != Sst && kind != MergedSst ensures SameKind(disk, RenameAllMerged(disk, merged), kind) {
        assert SameKind(disk, disk1, kind);
        SameKindTransitive(disk, disk1, RenameAllMerged(disk, merged), kind);
      }
    }
  }

  lemma IncreasingSubsequence(a: seq<SsTable>, w: seq<SsTable>, b: seq<SsTable>)
    requires Increasing(Ids(a + w + b))
    ensures Increasing(Ids(a + b))
  {
    var q := a + w + b;
    IncreasingIds(q);
    assert forall i :: 0 <= i < |a| ==> q[i] == a[i];
    assert forall i :: 0 <= i < |b| ==> q[|a| + |w| + i] == b[i];
    IncreasingIds(a + b);
  }

  lemma MergedTail(merged: seq<SsTable>, a: seq<SsTable>, b: seq<SsTable>, disk: Disk)
    requires merged != [] && MergedOnDisk(merged, disk) && Increasing(Ids(a + merged + b))
    ensures MergedOnDisk([merged[0]], disk)
    ensures MergedOnDisk(merged[1..], RenameMerged(disk, merged[0].id))
  {
    var q := a + merged + b;
    IncreasingIds(q);
    assert forall i :: 0 <= i < |merged| ==> q[|a| + i] == merged[i];
    assert forall i :: 0 <= i < |merged[1..]| ==> merged[1..][i] == merged[i + 1];
  }

  /** The parts of the queue before and after a compaction is applied, with flushed behind it. */
  lemma WindowParts(cfg: Config, db: Db, flushed: seq<SsTable>) returns (a: seq<SsTable>, b: seq<SsTable>)
    requires Valid(cfg, db) && CompactionReady(db)
    ensures db.start + cfg.tablesToCompact + 1 <= |db.queue| && CheckCompaction(cfg, db).Success?
    ensures db.queue + flushed == a + Window(cfg, db) + b
    ensures CheckCompaction(cfg, db).value.queue + flushed == a + MergedBy(db.job) + b
    ensures flushed == [] ==> db.queue == a + Window(cfg, db) + b
                              && CheckCompaction(cfg, db).value.queue == a + MergedBy(db.job) + b
  {
    hide Numbered, LogsMatch, FlushProtocol, MergeWindow;
    CheckCompactionValid(cfg, db);
    var end := db.start + cfg.tablesToCompact + 1;
    a, b := db.queue[..db.start], db.queue[end..] + flushed;
    SpliceAppend(db.queue, db.start, end, MergedBy(db.job), flushed);
  }

  /** Replacing a window and appending behind it. */
  lemma SpliceAppend<T>(q: seq<T>, start: nat, end: nat, merged: seq<T>, flushed: seq<T>)
    requires start <= end <= |q|
    ensures q + flushed == q[..start] + q[start..end] + (q[end..] + flushed)
    ensures q[..start] + merged + q[end..] + flushed == q[..start] + merged + (q[end..] + flushed)
    ensures flushed == [] ==> q + flushed == q && q[end..] + flushed == q[end..]
  {
  }

  /** Applying a compaction leaves a directory that holds the new queue. */
  lemma AppliedOnDisk(cfg: Config, db: Db, disk: Disk)
    requires Valid(cfg, db) && OnDisk(db, disk)
    ensures CheckCompaction(cfg, db).Success? && OnDisk(CheckCompaction(cfg, db).value, AppliedDisk(cfg, db, disk))
  {
    CheckCompactionValid(cfg, db);
    if CompactionReady(db) {
      var after := CheckCompaction(cfg, db).value;
      var a, b := WindowParts(cfg, db, []);
      ValidCounters(cfg, db);
      ValidCounters(cfg, after);
      AppliedJobs(cfg, db);
      assert after.job == None;
      assert AppliedDisk(cfg, db, disk) == RenameAllMerged(DeprecateTables(disk, Window(cfg, db)), MergedBy(db.job));
      hide *;
      OnDiskParts(db, disk);
      WindowReplaced(a, Window(cfg, db), MergedBy(db.job), b, disk);
      KeptOnDisk(db, after, disk, AppliedDisk(cfg, db, disk));
    }
  }

  lemma OnDiskParts(db: Db, disk: Disk)
    requires OnDisk(db, disk)
    ensures TablesOnDisk(db.queue, disk) && LogsOnDisk(db.mems, disk) && MergedOnDisk(MergedBy(db.job), disk)
  {
  }

  lemma WindowReplaced(a: seq<SsTable>, w: seq<SsTable>, merged: seq<SsTable>, b: seq<SsTable>, disk: Disk)
    requires TablesOnDisk(a + w + b, disk) && MergedOnDisk(merged, disk)
    requires Increasing(Ids(a + w + b)) && Increasing(Ids(a + merged + b))
    ensures var after := RenameAllMerged(DeprecateTables(disk, w), merged);
            TablesOnDisk(a + merged + b, after) && SameKind(disk, after, Txl) && SameKind(disk, after, InProgress)
  {
    DeprecatedTables(a, w, b, disk);
    var mid := DeprecateTables(disk, w);
    assert SameKind(disk, mid, MergedSst) && SameKind(disk, mid, Txl) && SameKind(disk, mid, InProgress);
    RenamedAllMerged(a, merged, b, mid);
    var after := RenameAllMerged(mid, merged);
    SameKindTransitive(disk, mid, after, Txl);
    SameKindTransitive(disk, mid, after, InProgress);
  }

  lemma KeptOnDisk(db: Db, after: Db, disk: Disk, disk': Disk)
    requires OnDisk(db, disk) && SameKind(disk, disk', Txl) && SameKind(disk, disk', InProgress)
    requires TablesOnDisk(after.queue, disk')
    requires after.mems == db.mems && after.flushes == db.flushes && after.job == None
    ensures OnDisk(after, disk')
  {
  }

  // ----- steps with their directory -----

  function AddMerged(disk: Disk, merged: seq<SsTable>): Disk {
    if merged == [] then disk
    else AddMerged(disk, merged[..|merged|-1])[Name(merged[|merged|-1].id, MergedSst) := TableFile(merged[|merged|-1].table)]
  }

  function CheckedDisk(cfg: Config, db: Db, disk: Disk): Disk {
    var applied := CheckCompaction(cfg, db);
    if applied.Success? && applied.value.job == None then HarvestedDisk(applied.value, AppliedDisk(cfg, db, disk))
    else AppliedDisk(cfg, db, disk)
  }

  function StepDisk(cfg: Config, db: Db, disk: Disk, e: Event): Disk {
    match e
    case Call(op) =>
      var checked := CheckFutures(cfg, db);
      if checked.Success? then WrittenDisk(cfg, checked.value, CheckedDisk(cfg, db, disk), op) else disk
    case Get(_) => CheckedDisk(cfg, db, disk)
    case FlushDone(i) =>
      if i < |db.flushes| then disk[Name(db.flushes[i].id, InProgress) := TableFile(db.flushes[i].table)] else disk
    case CompactionDone =>
      var done := FinishCompaction(cfg, db);
      if done.Success? then AddMerged(disk, MergedBy(done.value.job)) else disk
  }

  lemma CheckedOnDisk(cfg: Config, db: Db, disk: Disk)
    requires Valid(cfg, db) && OnDisk(db, disk)
    ensures CheckFutures(cfg, db).Success? && OnDisk(CheckFutures(cfg, db).value, CheckedDisk(cfg, db, disk))
  {
    hide Valid, TablesOnDisk, LogsOnDisk, JobsOnDisk, MergedOnDisk, Harvest;
    CheckCompactionValid(cfg, db);
    CheckFuturesValid(cfg, db);
    AppliedOnDisk(cfg, db, disk);
    var applied := CheckCompaction(cfg, db).value;
    if applied.job == None {
      HarvestLeavesOnDisk(cfg, applied, AppliedDisk(cfg, db, disk));
      HarvestValid(cfg, applied);
    }
  }

  lemma {:induction false} AddedMerged(disk: Disk, merged: seq<SsTable>)
    requires Increasing(Ids(merged))
    ensures MergedOnDisk(merged, AddMerged(disk, merged))
    ensures forall kind :: kind != MergedSst ==> SameKind(disk, AddMerged(disk, merged), kind)
  {
    if merged != [] {
      var init := merged[..|merged|-1];
      IncreasingIds(merged);
      IncreasingIds(init);
      AddedMerged(disk, init);
      forall kind | kind != MergedSst ensures SameKind(disk, AddMerged(disk, merged), kind) {
        assert SameKind(AddMerged(disk, init), AddMerged(disk, merged), kind);
        SameKindTransitive(disk, AddMerged(disk, init), AddMerged(disk, merged), kind);
      }
    }
  }

  lemma FinishedOnDisk(cfg: Config, db: Db, disk: Disk)
    requires Valid(cfg, db) && OnDisk(db, disk)
    ensures FinishCompaction(cfg, db).Success?
    ensures OnDisk(FinishCompaction(cfg, db).value, StepDisk(cfg, db, disk, CompactionDone))
  {
    StepValid(cfg, db, CompactionDone);
    var after := FinishCompaction(cfg, db).value;
    var merged := MergedBy(after.job);
    if merged != [] {
      MergedIncreasing(cfg, after);
      AddedMerged(disk, merged);
      hide Valid, OnDisk, SameKind;
      MergedFilesAdded(db, after, disk, AddMerged(disk, merged));
    }
  }

  lemma MergedFilesAdded(db: Db, after: Db, disk: Disk, disk': Disk)
    requires OnDisk(db, disk) && after == db.(job := after.job) && MergedOnDisk(MergedBy(after.job), disk')
    requires SameKind(disk, disk', Sst) && SameKind(disk, disk', Txl) && SameKind(disk, disk', InProgress)
    ensures OnDisk(after, disk')
  {
    hide Ids, LogIds;
  }

  lemma MergedIncreasing(cfg: Config, db: Db)
    requires Valid(cfg, db) && CompactionReady(db)
    ensures Increasing(Ids(MergedBy(db.job)))
  {
    ValidCounters(cfg, db);
    var w := Window(cfg, db);
    IncreasingIds(db.queue);
    assert forall i :: 0 <= i < |w| ==> w[i] == db.queue[db.start + i];
    IncreasingIds(w);
    MergeWindowIds(cfg.ssTableLimit, w);
  }

  lemma FlushedOnDisk(cfg: Config, db: Db, disk: Disk, i: nat)
    requires Valid(cfg, db) && OnDisk(db, disk)
    ensures OnDisk(FinishFlush(db, i), StepDisk(cfg, db, disk, FlushDone(i)))
  {
    if i < |db.flushes| {
      JobIdsApart(cfg, db);
      hide Valid, Ids, LogIds;
      var job, after := db.flushes[i], FinishFlush(db, i);
      JobFileAdded(db.flushes, i, disk);
      assert after.flushes == db.flushes[i := job.(done := true)];
    }
  }

  lemma JobIdsApart(cfg: Config, db: Db)
    requires Valid(cfg, db)
    ensures forall i, j :: 0 <= i < j < |db.flushes| ==> db.flushes[i].id != db.flushes[j].id
  {
    var files := Ids(db.queue) + JobIds(db.flushes);
    assert forall j :: 0 <= j < |db.flushes| ==> files[|db.queue| + j] == db.flushes[j].id;
  }

  lemma JobFileAdded(jobs: seq<FlushJob>, i: nat, disk: Disk)
    requires JobsOnDisk(jobs, disk) && i < |jobs|
    requires forall i, j :: 0 <= i < j < |jobs| ==> jobs[i].id != jobs[j].id
    ensures JobsOnDisk(jobs[i := jobs[i].(done := true)], disk[Name(jobs[i].id, InProgress) := TableFile(jobs[i].table)])
  {
  }

  /** After every step the directory holds the state. */
  lemma StepOnDisk(cfg: Config, db: Db, disk: Disk, e: Event)
    requires Valid(cfg, db) && OnDisk(db, disk)
    ensures Step(cfg, db, e).Success? && OnDisk(Step(cfg, db, e).value, StepDisk(cfg, db, disk, e))
  {
    hide Valid, OnDisk, Write, WrittenDisk;
    match e
    case Call(op) =>
      CheckedOnDisk(cfg, db, disk);
      CheckFuturesValid(cfg, db);
      WrittenOnDisk(cfg, CheckFutures(cfg, db).value, CheckedDisk(cfg, db, disk), op);
    case Get(_) =>
      CheckedOnDisk(cfg, db, disk);
    case FlushDone(i) =>
      FlushedOnDisk(cfg, db, disk, i);
    case CompactionDone =>
      FinishedOnDisk(cfg, db, disk);
  }

  /** The directory after a run that starts with disk. */
  function RunDisk(cfg: Config, db: Db, disk: Disk, es: seq<Event>): Disk {
    if es == [] then disk
    else
      var before := Run(cfg, db, es[..|es|-1]);
      if before.Success? then StepDisk(cfg, before.value, RunDisk(cfg, db, disk, es[..|es|-1]), es[|es|-1]) else disk
  }

  lemma {:induction false} RunOnDisk(cfg: Config, db: Db, disk: Disk, es: seq<Event>)
    requires Valid(cfg, db) && OnDisk(db, disk)
    ensures Run(cfg, db, es).Success? && Valid(cfg, Run(cfg, db, es).value)
    ensures OnDisk(Run(cfg, db, es).value, RunDisk(cfg, db, disk, es))
  {
    hide OnDisk, Valid, Step, StepDisk;
    RunValid(cfg, db, es);
    if es != [] {
      var init := es[..|es|-1];
      RunOnDisk(cfg, db, disk, init);
      StepOnDisk(cfg, Run(cfg, db, init).value, RunDisk(cfg, db, disk, init), es[|es|-1]);
    }
  }

  lemma EmptyOnDisk()
    ensures OnDisk(EMPTY, map[])
  {
  }

  // ----- a crash during a call -----

  /**
   * The directories that a call goes through from the moment on when a finished compaction,
   * if there is one, has been applied: the harvest's, then the write's.
   */
  function CallDisks(cfg: Config, db: Db, disk: Disk, op: Op): (disks: seq<Disk>)
    requires CheckCompaction(cfg, db).Success? && CheckFutures(cfg, db).Success?
    ensures |disks| >= 4
  {
    var applied := CheckCompaction(cfg, db).value;
    [AppliedDisk(cfg, db, disk)]
    + (if applied.job == None then HarvestDisks(applied, AppliedDisk(cfg, db, disk)) else [])
    + WriteDisks(cfg, CheckFutures(cfg, db).value, CheckedDisk(cfg, db, disk), op)
  }

  /** The operation is in the log in the last two of these directories. */
  lemma CallRecovers(cfg: Config, db: Db, disk: Disk, op: Op, i: nat)
    requires Valid(cfg, db) && OnDisk(db, disk)
    ensures CheckCompaction(cfg, db).Success? && CheckFutures(cfg, db).Success?
    ensures var n := |CallDisks(cfg, db, disk, op)|;
            i < n ==> Recovers(cfg, CallDisks(cfg, db, disk, op)[i],
                               if i < n - 2 then CheckFutures(cfg, db).value
                               else Write(cfg, CheckFutures(cfg, db).value, op))
  {
    hide Valid, OnDisk, Recovers, Write, WithLog, LoggedDisk, WrittenDisk, Harvest, GetValue, AppliedDisk;
    CheckCompactionValid(cfg, db);
    CheckFuturesValid(cfg, db);
    AppliedOnDisk(cfg, db, disk);
    CheckedOnDisk(cfg, db, disk);
    var applied, checked := CheckCompaction(cfg, db).value, CheckFutures(cfg, db).value;
    var disk1 := AppliedDisk(cfg, db, disk);
    var harvest := if applied.job == None then HarvestDisks(applied, disk1) else [];
    SameChronicleRecovers(cfg, applied, checked);
    if i == 0 {
      RecoversBetweenCalls(cfg, applied, disk1);
      RecoversAlike(cfg, disk1, applied, checked);
    } else if i <= |harvest| {
      HarvestRecovers(cfg, applied, disk1, i - 1);
      RecoversAlike(cfg, harvest[i - 1], applied, checked);
    } else if i < |harvest| + 4 {
      WriteRecovers(cfg, checked, CheckedDisk(cfg, db, disk), op, i - 1 - |harvest|);
    }
  }

  /**
   * Crash recovery, from an empty database on: whatever the run, whenever the crash comes in
   * the next call, a modest key reads after the restart as last written, the interrupted call
   * included as soon as its log record is complete.
   */
  lemma CrashReadsLastWrite(cfg: Config, es: seq<Event>, op: Op, i: nat, k: Key)
    requires Modest(es + [Call(op)], k)
    ensures Run(cfg, EMPTY, es).Success?
    ensures var db := Run(cfg, EMPTY, es).value;
            && CheckCompaction(cfg, db).Success? && CheckFutures(cfg, db).Success?
            && var disks := CallDisks(cfg, db, RunDisk(cfg, EMPTY, map[], es), op);
               i < |disks| ==>
                 && Init(disks[i]).Success? && Valid(cfg, Init(disks[i]).value)
                 && GetValue(Init(disks[i]).value, k) ==
                    Lookup(ModelRun(map[], if i < |disks| - 2 then es else es + [Call(op)]), k)
  {
    hide Valid, OnDisk, Write, CallDisks, Init;
    var all := es + [Call(op)];
    EmptyValid(cfg);
    EmptyOnDisk();
    RunOnDisk(cfg, EMPTY, map[], es);
    var db := Run(cfg, EMPTY, es).value;
    CallRecovers(cfg, db, RunDisk(cfg, EMPTY, map[], es), op, i);
    assert all[..|es|] == es;
    CallsPrefix(all, |es|, k, true);
    CallsPrefix(all, |es|, k, false);
    ModestKeysReadLastWrite(cfg, es, k);
    ModestKeysReadLastWrite(cfg, all, k);
    EmptyCounts(k, false);
    EmptyCounts(k, true);
    ModestNeverStale(cfg, EMPTY, es, k);
    CheckReads(cfg, db, k);
  }

  // ----- closing -----

  /**
   * The files when the database is closed, all background jobs having ended: the flushed
   * tables are renamed and their logs deprecated, then the compaction is applied.
   */
  function ClosedDisk(cfg: Config, db: Db, disk: Disk): Disk {
    AppliedDisk(cfg, db, HarvestedDisk(db.(job := None), disk))
  }

  lemma {:induction false} HarvestAll(db: Db)
    requires FlushProtocol(db) && forall i :: 0 <= i < |db.flushes| ==> db.flushes[i].done
    ensures Harvest(db).flushes == []
    ensures Harvest(db).queue == db.queue + Flushed(db, |db.flushes|) && Harvest(db).mems == db.mems[|db.flushes|..]
    decreases |db.flushes|
  {
    HarvestTakesFront(db);
    if db.flushes != [] {
      HarvestOneProtocol(db);
      HarvestAll(HarvestOne(db));
    }
  }

  lemma {:induction false} HarvestKeepsMerged(db: Db, disk: Disk)
    ensures SameKind(disk, HarvestedDisk(db, disk), MergedSst)
    decreases |db.flushes|
  {
    if db.flushes != [] && db.mems != [] && db.flushes[0].done {
      var renamed := RenameFlushed(disk, db.flushes[0].id);
      var deprecated := DeprecateLog(renamed, db.mems[0].logId);
      assert SameKind(disk, deprecated, MergedSst);
      HarvestKeepsMerged(HarvestOne(db), deprecated);
      SameKindTransitive(disk, deprecated, HarvestedDisk(db, disk), MergedSst);
    }
  }

  /**
   * Reopening a closed database finds the queue as the compaction has left it, the flushed
   * tables behind it in the order of their memtables, and the memtable that was not full.
   */
  lemma CloseAndReopen(cfg: Config, db: Db, disk: Disk)
    requires Valid(cfg, db) && OnDisk(db, disk)
    requires forall i :: 0 <= i < |db.flushes| ==> db.flushes[i].done
    requires db.job.Some? ==> db.job.value.result.Some?
    ensures CheckCompaction(cfg, db).Success? && Init(ClosedDisk(cfg, db, disk)).Success?
    ensures var applied, reopened := CheckCompaction(cfg, db).value, Init(ClosedDisk(cfg, db, disk)).value;
            && Valid(cfg, reopened)
            && reopened.queue == applied.queue + Flushed(db, |db.flushes|)
            && reopened.mems == db.mems[|db.flushes|..]
            && Chronicle(reopened) == Chronicle(applied)
  {
    hide OnDisk, Harvest, HarvestedDisk, AppliedDisk, Init;
    CheckCompactionValid(cfg, db);
    var applied := CheckCompaction(cfg, db).value;
    ClosedTables(cfg, db, disk);
    HarvestAll(applied);
    HarvestValid(cfg, applied);
    var closed := Harvest(applied);
    ValidCounters(cfg, closed);
    OpensAs(closed.queue, closed.mems, ClosedDisk(cfg, db, disk));
    OpenedValid(cfg, closed.queue, closed.mems);
    assert Flushed(applied, |db.flushes|) == Flushed(db, |db.flushes|);
  }

  lemma ClosedTables(cfg: Config, db: Db, disk: Disk)
    requires Valid(cfg, db) && OnDisk(db, disk)
    requires forall i :: 0 <= i < |db.flushes| ==> db.flushes[i].done
    requires db.job.Some? ==> db.job.value.result.Some?
    ensures CheckCompaction(cfg, db).Success?
    ensures var closed := Harvest(CheckCompaction(cfg, db).value);
            TablesOnDisk(closed.queue, ClosedDisk(cfg, db, disk)) && LogsOnDisk(closed.mems, ClosedDisk(cfg, db, disk))
  {
    assert MergedOnDisk(MergedBy(db.job), disk);
    hide Harvest, HarvestedDisk, OnDisk, Valid, Increasing, LogsMatch, Flushed, ClosedDisk, MergedOnDisk;
    CheckCompactionValid(cfg, db);
    var applied, idle := CheckCompaction(cfg, db).value, db.(job := None);
    IdleOnDisk(cfg, db, disk);
    HarvestLeavesOnDisk(cfg, idle, disk);
    HarvestKeepsMerged(idle, disk);
    HarvestValid(cfg, applied);
    ValidCounters(cfg, Harvest(applied));
    HarvestValid(cfg, idle);
    ValidCounters(cfg, Harvest(idle));
    ClosedQueues(cfg, db);
    if CompactionReady(db) {
      ClosedWindow(cfg, db, disk);
    } else {
      ClosedUnmerged(cfg, db, disk);
    }
  }

  /** What the harvest of the destructor leaves, with the compaction and without. */
  lemma ClosedQueues(cfg: Config, db: Db)
    requires Valid(cfg, db) && forall i :: 0 <= i < |db.flushes| ==> db.flushes[i].done
    ensures CheckCompaction(cfg, db).Success? && |db.flushes| <= |db.mems|
    ensures var applied, flushed := CheckCompaction(cfg, db).value, Flushed(db, |db.flushes|);
            && Harvest(db.(job := None)).queue == db.queue + flushed
            && Harvest(applied).queue == applied.queue + flushed
            && Harvest(applied).mems == Harvest(db.(job := None)).mems
  {
    AppliedJobs(cfg, db);
    hide Harvest, Valid, FlushProtocol, CheckCompaction;
    var applied, idle := CheckCompaction(cfg, db).value, db.(job := None);
    HarvestAll(idle);
    HarvestAll(applied);
    assert Flushed(idle, |db.flushes|) == Flushed(db, |db.flushes|) == Flushed(applied, |db.flushes|);
  }

  lemma AppliedJobs(cfg: Config, db: Db)
    requires Valid(cfg, db)
    ensures CheckCompaction(cfg, db).Success? && |db.flushes| <= |db.mems| && FlushProtocol(db.(job := None))
    ensures var applied := CheckCompaction(cfg, db).value;
            applied.mems == db.mems && applied.flushes == db.flushes && FlushProtocol(applied)
  {
    hide Numbered, LogsMatch, MergeWindow;
    CheckCompactionValid(cfg, db);
  }

  lemma ClosedUnmerged(cfg: Config, db: Db, disk: Disk)
    requires CheckCompaction(cfg, db).Success? && !CompactionReady(db)
    requires Harvest(CheckCompaction(cfg, db).value).queue == Harvest(db.(job := None)).queue
    requires Harvest(CheckCompaction(cfg, db).value).mems == Harvest(db.(job := None)).mems
    requires OnDisk(Harvest(db.(job := None)), HarvestedDisk(db.(job := None), disk))
    ensures var closed := Harvest(CheckCompaction(cfg, db).value);
            TablesOnDisk(closed.queue, ClosedDisk(cfg, db, disk)) && LogsOnDisk(closed.mems, ClosedDisk(cfg, db, disk))
  {
    hide Harvest, HarvestedDisk, TablesOnDisk, LogsOnDisk;
  }

  /** The window is replaced with the flushed tables behind it. */
  lemma ClosedWindow(cfg: Config, db: Db, disk: Disk)
    requires Valid(cfg, db) && CompactionReady(db) && MergedOnDisk(MergedBy(db.job), disk)
    requires CheckCompaction(cfg, db).Success? && |db.flushes| <= |db.mems|
    requires var applied, idle, flushed := CheckCompaction(cfg, db).value, db.(job := None), Flushed(db, |db.flushes|);
             && Harvest(idle).queue == db.queue + flushed && Harvest(applied).queue == applied.queue + flushed
             && Harvest(applied).mems == Harvest(idle).mems
             && Increasing(Ids(Harvest(idle).queue)) && Increasing(Ids(Harvest(applied).queue))
             && OnDisk(Harvest(idle), HarvestedDisk(idle, disk))
             && SameKind(disk, HarvestedDisk(idle, disk), MergedSst)
    ensures var closed := Harvest(CheckCompaction(cfg, db).value);
            TablesOnDisk(closed.queue, ClosedDisk(cfg, db, disk)) && LogsOnDisk(closed.mems, ClosedDisk(cfg, db, disk))
  {
    var idle, disk1 := db.(job := None), HarvestedDisk(db.(job := None), disk);
    var a, b := WindowParts(cfg, db, Flushed(db, |db.flushes|));
    assert ClosedDisk(cfg, db, disk) == RenameAllMerged(DeprecateTables(disk1, Window(cfg, db)), MergedBy(db.job));
    hide *;
    OnDiskParts(Harvest(idle), disk1);
    MergedStays(MergedBy(db.job), disk, disk1);
    WindowReplaced(a, Window(cfg, db), MergedBy(db.job), b, disk1);
    LogsKept(Harvest(idle).mems, disk1, ClosedDisk(cfg, db, disk));
  }

  lemma MergedStays(merged: seq<SsTable>, disk: Disk, after: Disk)
    requires MergedOnDisk(merged, disk) && SameKind(disk, after, MergedSst)
    ensures MergedOnDisk(merged, after)
  {
  }

  lemma IdleOnDisk(cfg: Config, db: Db, disk: Disk)
    requires Valid(cfg, db) && OnDisk(db, disk)
    ensures Valid(cfg, db.(job := None)) && OnDisk(db.(job := None), disk)
  {
  }

  lemma LogsKept(mems: seq<Mem>, disk: Disk, after: Disk)
    requires LogsOnDisk(mems, disk) && SameKind(disk, after, Txl)
    ensures LogsOnDisk(mems, after)
  {
  }
}
