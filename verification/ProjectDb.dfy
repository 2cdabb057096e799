/**
 * The database object: both queues and the outstanding jobs, updated by the interface calls
 * and by the ends of background jobs. Every method is one step of the engine.
 */
module ProjectDb {
  import opened Bytes
  import opened Tables
  import opened Compaction
  import opened Grouping
  import opened Errors
  import opened Engine
  import opened SSTableOps
  import opened TransactionLog
  import opened MemTables
  import opened IndexQueue
  import opened Recovery

  /** The outstanding compaction: the ends of its window, and its result once it is done. */
  datatype CompactionFuture = CompactionFuture(begin: nat, end: nat, result: Option<seq<SsTable>>)

  class ProjectDbImpl {
    const cfg: Config
    const memTableQueue: MemTableQueue
    const ssTableIndexQueue: SSTableIndexQueue
    var flushToDiskFutures: seq<FlushFuture>
    var ssTableCompactionFuture: Option<CompactionFuture>
    ghost var launchQueue: seq<SsTable>
    ghost var launchStart: nat

    ghost var jobs: seq<FlushJob>  // what the flush jobs are about to write, or have written

    ghost function Objects(): set<object>
      reads this, memTableQueue
    {
      {this, memTableQueue, ssTableIndexQueue} + memTableQueue.Repr
    }

    ghost function State(): Db
      reads this, memTableQueue, ssTableIndexQueue
    {
      Db(memTableQueue.mems, jobs, ssTableIndexQueue.queue, ssTableIndexQueue.compactionStartIndex,
         if ssTableCompactionFuture == None then None
         else Some(CompactionJob(launchQueue, launchStart, ssTableCompactionFuture.value.result)),
         memTableQueue.ssTableCounter, memTableQueue.logCounter)
    }

    /** The job is to write t, or has written it. */
    predicate Works(f: FlushFuture, job: FlushJob, t: Table) {
      job == FlushJob(f.id, t, f.result.Some?) && (f.result.Some? ==> f.result.value == t)
    }

    /** Job i shares memtable i with the queue; nothing else is shared. */
    ghost predicate JobsShareTables()
      reads this, memTableQueue
    {
      && this !in memTableQueue.Repr && ssTableIndexQueue !in memTableQueue.Repr
      && |flushToDiskFutures| == |jobs| <= |memTableQueue.queue| == |memTableQueue.mems|
      && forall i :: 0 <= i < |jobs| ==>
           && flushToDiskFutures[i].memTable == memTableQueue.queue[i].memTable
           && Works(flushToDiskFutures[i], jobs[i], memTableQueue.mems[i].table)
    }

    predicate WindowInPlace()
      reads this, ssTableIndexQueue
    {
      ssTableCompactionFuture.Some? ==>
        ssTableCompactionFuture.value.begin == ssTableIndexQueue.compactionStartIndex
        && ssTableCompactionFuture.value.end == ssTableIndexQueue.compactionStartIndex + cfg.tablesToCompact + 1
    }

    ghost predicate Valid()
      reads Objects()
    {
      memTableQueue.Valid() && JobsShareTables() && WindowInPlace() && Engine.Valid(cfg, State())
    }

    constructor (cfg: Config)
      ensures this.cfg == cfg && Valid() && State() == EMPTY
      ensures fresh(Objects() - {this})
    {
      hide Engine.Valid;
      EmptyValid(cfg);
      this.cfg := cfg;
      memTableQueue := new MemTableQueue();
      ssTableIndexQueue := new SSTableIndexQueue();
      flushToDiskFutures, jobs, ssTableCompactionFuture := [], [], None;
      launchQueue, launchStart := [], 0;
      new;
      assert State() == EMPTY;
      assert JobsShareTables() && WindowInPlace();
    }

    // ----- opening -----

    /** Queue the table files in the order of their counters; new files are numbered from base on. */
    method ReloadTables(disk: Disk) returns (r: Result<nat>)
      requires ssTableIndexQueue.queue == []
      modifies ssTableIndexQueue`queue
      ensures match LoadTables(disk, SortedIds(IdsOf(disk, Sst)))
              case Failure(error) => r == Failure(error)
              case Success(q) => ssTableIndexQueue.queue == q && r == Success(if q == [] then 0 else q[|q|-1].id + 1)
    {
      hide LoadTables;
      var ids := SortedIds(IdsOf(disk, Sst));
      var i := 0;
      LoadNoTables(disk);
      assert ids[..|ids|] == ids;
      while i < |ids|
        invariant 0 <= i <= |ids|
        invariant LoadTables(disk, ids[..i]) == Success(ssTableIndexQueue.queue) && |ssTableIndexQueue.queue| == i
        invariant i > 0 ==> ssTableIndexQueue.queue[i-1].id == ids[i-1]
      {
        assert ids[i] in ids;
        LoadOneMoreTable(disk, ids, i);
        var file := disk[Name(ids[i], Sst)];
        if !file.TableFile? {
          LoadTablesFails(disk, ids, i + 1);
          return Failure(EndOfFile);
        }
        ssTableIndexQueue.Insert(SsTable(ids[i], file.table));
        i := i + 1;
      }
      r := Success(if ids == [] then 0 else 1 + ids[|ids|-1]);
    }

    /** Queue the logs in the order of their counters as memtables, and flush all but the last. */
    method ReloadLogs(disk: Disk, base: nat) returns (r: Result<()>)
      requires memTableQueue.Valid() && JobsShareTables() && memTableQueue.mems == [] && jobs == []
      modifies this`flushToDiskFutures, this`jobs, memTableQueue
      ensures match LoadLogs(disk, SortedIds(IdsOf(disk, Txl)))
              case Failure(error) => r == Failure(error)
              case Success(mems) =>
                && r == Success(()) && memTableQueue.Valid() && JobsShareTables() && memTableQueue.mems == mems
                && jobs == Relaunched(mems, base) && memTableQueue.ssTableCounter == base + |jobs|
                && memTableQueue.logCounter == if mems == [] then 0 else mems[|mems|-1].logId + 1
    {
      hide LoadLogs, Reloaded, Relaunched, Replay, SortedIds, JobsShareTables;
      SetCounters(base, 0);
      var ids := SortedIds(IdsOf(disk, Txl));
      assert forall i :: 0 <= i < |ids| ==> ids[i] in ids;
      var ok := PushLogs(disk, ids, base);
      if !ok {
        return Failure(UnknownTransaction);
      }
      ReloadedAll(disk, ids, base, memTableQueue.mems, jobs);
      if ids != [] {
        SetCounters(memTableQueue.ssTableCounter, 1 + ids[|ids|-1]);
      }
      r := Success(());
    }

    method PushLogs(disk: Disk, ids: seq<nat>, base: nat) returns (ok: bool)
      requires forall i :: 0 <= i < |ids| ==> Name(ids[i], Txl) in disk
      requires memTableQueue.Valid() && JobsShareTables() && memTableQueue.mems == [] && jobs == []
      requires memTableQueue.logCounter == 0 && memTableQueue.ssTableCounter == base
      modifies this`flushToDiskFutures, this`jobs, memTableQueue
      ensures !ok ==> LoadLogs(disk, ids) == Failure(UnknownTransaction)
      ensures ok ==>
                && memTableQueue.Valid() && JobsShareTables() && memTableQueue.logCounter == 0
                && Reloaded(disk, ids, |ids|, base, memTableQueue.mems, jobs)
                && memTableQueue.ssTableCounter == base + |jobs|
    {
      hide LoadLogs, Reloaded, Replay;
      var i := 0;
      ReloadedNothing(disk, ids, base);
      while i < |ids|
        invariant 0 <= i <= |ids| && memTableQueue.Valid() && JobsShareTables() && memTableQueue.logCounter == 0
        invariant Reloaded(disk, ids, i, base, memTableQueue.mems, jobs)
        invariant |jobs| <= i == |memTableQueue.mems| && (i < |ids| ==> |jobs| == i)
        invariant memTableQueue.ssTableCounter == base + |jobs|
      {
        var file := disk[Name(ids[i], Txl)];
        ReloadedStep(disk, ids, i, base, memTableQueue.mems, jobs);
        if !file.LogFile? {
          return false;
        }
        PushLog(ids[i], file.ops, i == |ids| - 1);
        i := i + 1;
      }
      ok := true;
    }

    method SetCounters(ssTableCounter: nat, logCounter: nat)
      requires memTableQueue.Valid() && JobsShareTables()
      modifies memTableQueue`ssTableCounter, memTableQueue`logCounter
      ensures memTableQueue.Valid() && JobsShareTables()
      ensures memTableQueue.ssTableCounter == ssTableCounter && memTableQueue.logCounter == logCounter
    {
      memTableQueue.ssTableCounter, memTableQueue.logCounter := ssTableCounter, logCounter;
    }

    method PushLog(logId: nat, records: seq<Op>, isLast: bool)
      requires memTableQueue.Valid() && JobsShareTables() && |jobs| == |memTableQueue.queue|
      modifies this`flushToDiskFutures, this`jobs, memTableQueue
      ensures memTableQueue.Valid() && JobsShareTables() && memTableQueue.logCounter == old(memTableQueue.logCounter)
      ensures memTableQueue.mems == old(memTableQueue.mems) + [Mem(logId, records, Replay(records))]
      ensures jobs == old(jobs) + if isLast then [] else [FlushJob(memTableQueue.ssTableCounter, Replay(records), false)]
      ensures memTableQueue.ssTableCounter == old(memTableQueue.ssTableCounter) + if isLast then 0 else 1
    {
      var ft := memTableQueue.PushFromTransactionLog(logId, records, isLast);
      ghost var n := |memTableQueue.queue|;
      assert memTableQueue.Holds(memTableQueue.queue[n-1], memTableQueue.mems[n-1]);
      if ft.Some? {
        flushToDiskFutures := flushToDiskFutures + [ft.value];
        jobs := jobs + [FlushJob(ft.value.id, ft.value.memTable.table, false)];
      }
      assert forall i :: 0 <= i < n - 1 ==> memTableQueue.queue[i] == memTableQueue.queue[..n-1][i];
    }

    /** Open the database on a directory: first the tables, then the logs, which are younger. */
    method Init(disk: Disk) returns (r: Result<()>)
      requires Valid() && State() == EMPTY
      modifies this, memTableQueue, ssTableIndexQueue
      ensures match Recovery.Init(disk)
              case Failure(error) => r == Failure(error)
              case Success(db) => r == Success(()) && Valid() && State() == db
    {
      InitValid(cfg, disk);
      hide Engine.Valid, LoadTables, LoadLogs, Relaunched, MemTableQueue.Holds, MemTableQueue.Apart;
      var base := ReloadTables(disk);
      if base.Failure? {
        return Failure(base.error);
      }
      var logs := ReloadLogs(disk, base.value);
      if logs.Failure? {
        return Failure(logs.error);
      }
      r := Success(());
    }

    /**
     * The file of every log holds the records of the log's operations: what it held when it was
     * opened, followed by what has been written through its stream.
     */
    lemma LogFilesHoldLogs(i: nat)
      requires Valid() && i < |State().mems|
      ensures i < |memTableQueue.queue|
      ensures var m, log := State().mems[i], memTableQueue.queue[i].log;
              && log.fileId == m.logId && log.inherited <= |m.log|
              && WriterLog(m.log[..log.inherited]) + log.ofs == WriterLog(m.log)
    {
      hide Engine.Valid, WriterLog;
      memTableQueue.StreamsHoldLogs(i);
    }

    // ----- background jobs end -----

    /** Job i reads the memtable it shares with the queue and writes its file. */
    method FlushJobEnds(i: nat)
      requires Valid() && i < |flushToDiskFutures|
      modifies this`flushToDiskFutures, this`jobs
      ensures Valid() && State() == FinishFlush(old(State()), i)
    {
      StepValid(cfg, State(), FlushDone(i));
      var f := flushToDiskFutures[i];
      assert memTableQueue.Holds(memTableQueue.queue[i], memTableQueue.mems[i]);
      flushToDiskFutures := flushToDiskFutures[i := f.(result := Some(f.memTable.table))];
      jobs := jobs[i := jobs[i].(done := true)];
      assert State() == FinishFlush(old(State()), i);
    }

    /** The compaction job reads its window off the live queue and merges it. */
    method CompactionJobEnds()
      requires Valid() && ssTableCompactionFuture.Some? && ssTableCompactionFuture.value.result == None
      modifies this`ssTableCompactionFuture
      ensures Valid() && FinishCompaction(cfg, old(State())) == Success(State())
    {
      StepValid(cfg, State(), CompactionDone);
      var ft := ssTableCompactionFuture.value;
      var merged := MergeSSTables(cfg.ssTableLimit, ssTableIndexQueue.queue[ft.begin..ft.end]);
      ssTableCompactionFuture := Some(ft.(result := Some(merged.value)));
      assert FinishCompaction(cfg, old(State())) == Success(State());
    }

    // ----- checking on background jobs -----

    /** Apply the compaction if it is done; tell whether one is still running. */
    method CheckSSTableCompactionFuture() returns (running: bool)
      requires Valid()
      modifies this`ssTableCompactionFuture, ssTableIndexQueue
      ensures Valid() && CheckCompaction(cfg, old(State())) == Success(State())
      ensures running == ssTableCompactionFuture.Some?
    {
      CheckCompactionValid(cfg, State());
      if ssTableCompactionFuture == None {
        return false;
      }
      if ssTableCompactionFuture.value.result == None {
        return true;
      }
      var r := ssTableIndexQueue.Update(cfg.tablesToCompact, ssTableCompactionFuture.value.result.value);
      ssTableCompactionFuture := None;
      assert CheckCompaction(cfg, old(State())) == Success(State());
      running := false;
    }

    /** The front memtable and its job go together. */
    method PopFront()
      requires memTableQueue.Valid() && JobsShareTables() && jobs != []
      modifies this`flushToDiskFutures, this`jobs, memTableQueue`queue, memTableQueue`mems
      ensures memTableQueue.Valid() && JobsShareTables()
      ensures flushToDiskFutures == old(flushToDiskFutures)[1..] && jobs == old(jobs)[1..]
      ensures memTableQueue.mems == old(memTableQueue.mems)[1..]
      ensures memTableQueue.Repr == old(memTableQueue.Repr)
    {
      var _ := memTableQueue.Pop();
      flushToDiskFutures, jobs := flushToDiskFutures[1..], jobs[1..];
    }

    /** Take the front flush job: its table joins the index queue, its memtable goes. */
    method HarvestFront()
      requires Valid() && ssTableCompactionFuture == None
      requires flushToDiskFutures != [] && flushToDiskFutures[0].result.Some?
      modifies this`flushToDiskFutures, this`jobs, ssTableIndexQueue, memTableQueue`queue, memTableQueue`mems
      ensures Valid() && State() == HarvestOne(old(State())) && ssTableCompactionFuture == None
      ensures flushToDiskFutures == old(flushToDiskFutures)[1..] && old(jobs)[0].done
      ensures memTableQueue.Repr == old(memTableQueue.Repr)
    {
      HarvestOneValid(cfg, State());
      var ft := flushToDiskFutures[0];
      hide Engine.Valid;
      ghost var after := HarvestOne(State());
      ssTableIndexQueue.Insert(SsTable(ft.id, ft.result.value));
      PopFront();
      assert State() == after;
    }

    /** Harvest the finished jobs from the front, up to the first unfinished one. */
    method HarvestFinished()
      requires Valid() && ssTableCompactionFuture == None
      modifies this`flushToDiskFutures, this`jobs, ssTableIndexQueue, memTableQueue`queue, memTableQueue`mems
      ensures Valid() && State() == Harvest(old(State())) && ssTableCompactionFuture == None
      ensures memTableQueue.Repr == old(memTableQueue.Repr)
    {
      hide HarvestOne, Engine.Valid;
      while flushToDiskFutures != [] && flushToDiskFutures[0].result.Some?
        invariant Valid() && ssTableCompactionFuture == None
        invariant Harvest(State()) == Harvest(old(State()))
        invariant memTableQueue.Repr == old(memTableQueue.Repr)
        decreases |flushToDiskFutures|
      {
        HarvestFront();
      }
    }

    method TryLaunchCompaction()
      requires Valid() && ssTableCompactionFuture == None
      modifies this`ssTableCompactionFuture, this`launchQueue, this`launchStart
      ensures Valid() && State() == TryLaunch(cfg, old(State()))
    {
      var window := ssTableIndexQueue.TryLaunchCompaction(cfg.tablesToCompact);
      if window.Some? {
        launchQueue, launchStart := ssTableIndexQueue.queue, ssTableIndexQueue.compactionStartIndex;
        ssTableCompactionFuture := Some(CompactionFuture(window.value.0, window.value.1, None));
      }
      assert State() == TryLaunch(cfg, old(State()));
    }

    /** Harvest, then try to launch a compaction. */
    method CheckFlushToDiskFutures()
      requires Valid() && ssTableCompactionFuture == None
      modifies this, ssTableIndexQueue, memTableQueue`queue, memTableQueue`mems
      ensures Valid() && State() == TryLaunch(cfg, Harvest(old(State())))
      ensures memTableQueue.Repr == old(memTableQueue.Repr)
    {
      hide *;
      HarvestFinished();
      TryLaunchCompaction();
    }

    method CheckFutures()
      requires Valid()
      modifies this, ssTableIndexQueue, memTableQueue`queue, memTableQueue`mems
      ensures Valid() && Engine.CheckFutures(cfg, old(State())) == Success(State())
      ensures memTableQueue.Repr == old(memTableQueue.Repr)
    {
      var hasCompactionRunning := CheckSSTableCompactionFuture();
      if !hasCompactionRunning {
        CheckFlushToDiskFutures();
      }
    }

    // ----- the interface -----

    /** The memtables first, then the tables; a tombstone in the memtables ends the search. */
    method Read(key: Key) returns (r: Option<Text>)
      requires Valid()
      ensures r == GetValue(State(), key)
    {
      hide Engine.Valid, Find;
      var memTableRtn := memTableQueue.Get(key);
      if memTableRtn.Some? {
        return memTableRtn.value.Underlying();
      }
      var ssTableRtn := ssTableIndexQueue.Get(key);
      if ssTableRtn.Some? {
        return ssTableRtn.value.Underlying();
      }
      r := None;
    }

    method Get(key: Key) returns (r: Option<Text>)
      requires Valid()
      modifies this, ssTableIndexQueue, memTableQueue`queue, memTableQueue`mems
      ensures Valid() && Step(cfg, old(State()), Event.Get(key)) == Success(State())
      ensures r == GetValue(State(), key)
    {
      hide Engine.Valid, Engine.CheckFutures, GetValue;
      CheckFutures();
      r := Read(key);
    }

    /** A launched job joins the others at the back; that completes the new state. */
    method AddJob(ft: Option<FlushFuture>, ghost after: Db)
      requires memTableQueue.Valid() && JobsShareTables() && WindowInPlace() && Engine.Valid(cfg, after)
      requires after == State().(flushes := jobs + JobOf(ft))
      requires ft.Some? ==>
                 && ft.value.result == None && |jobs| < |memTableQueue.queue|
                 && ft.value.memTable == memTableQueue.queue[|jobs|].memTable
      modifies this`flushToDiskFutures, this`jobs
      ensures Valid() && State() == after && Objects() == old(Objects())
    {
      hide Engine.Valid;
      if ft == None {
        assert jobs + JobOf(ft) == jobs;
        return;
      }
      assert memTableQueue.Holds(memTableQueue.queue[|jobs|], memTableQueue.mems[|jobs|]);
      flushToDiskFutures := flushToDiskFutures + [ft.value];
      jobs := jobs + [FlushJob(ft.value.id, ft.value.memTable.table, false)];
    }

    /** The write itself leaves the tables of the outstanding jobs alone. */
    method WriteTables(op: Op) returns (ft: Option<FlushFuture>)
      requires Valid()
      modifies memTableQueue, memTableQueue.Repr
      ensures memTableQueue.Valid() && JobsShareTables()
      ensures fresh(Objects() - old(Objects()))
      ensures var w := Engine.Write(cfg, MemPart(old(memTableQueue.mems), old(memTableQueue.ssTableCounter),
                                                 old(memTableQueue.logCounter)), op);
              var queue := memTableQueue.queue;
              && memTableQueue.mems == w.mems && |queue| == |w.mems|
              && memTableQueue.ssTableCounter == w.ssTableCounter && memTableQueue.logCounter == w.logCounter
              && w.flushes == JobOf(ft)
              && (ft.Some? ==> |queue| >= 2 && ft.value.memTable == queue[|queue|-2].memTable && ft.value.result == None)
    {
      OneMoreMemTable(cfg, State());
      ghost var queue, mems := memTableQueue.queue, memTableQueue.mems;
      assert jobs == [] || |jobs| == |mems| - 1;
      WriteKeepsFront(cfg, MemPart(mems, memTableQueue.ssTableCounter, memTableQueue.logCounter), op);
      hide Engine.Valid, Engine.Write, JobOf;
      ft := memTableQueue.Write(op, cfg);
      assert forall i :: 0 <= i < |queue| ==> memTableQueue.queue[i] == memTableQueue.queue[..|queue|][i];
    }

    /** With the launched job, if any, the state will be that after the write. */
    method WriteState(op: Op, ghost after: Db) returns (ft: Option<FlushFuture>)
      requires Valid() && after == Engine.Write(cfg, State(), op)
      modifies memTableQueue, memTableQueue.Repr
      ensures memTableQueue.Valid() && JobsShareTables() && WindowInPlace() && Engine.Valid(cfg, after)
      ensures fresh(Objects() - old(Objects()))
      ensures after == State().(flushes := jobs + JobOf(ft))
      ensures ft.Some? ==>
                && ft.value.result == None && |jobs| < |memTableQueue.queue|
                && ft.value.memTable == memTableQueue.queue[|jobs|].memTable
    {
      WriteValid(cfg, State(), op);
      OneMoreMemTable(cfg, after);
      WriteIsLocal(cfg, State(), op);
      hide Engine.Valid, Engine.Write, MemPart;
      ft := WriteTables(op);
    }

    /** set and remove, once the background jobs have been checked on. */
    method WriteChecked(op: Op)
      requires Valid()
      modifies this`flushToDiskFutures, this`jobs, memTableQueue, memTableQueue.Repr
      ensures Valid() && State() == Engine.Write(cfg, old(State()), op)
      ensures fresh(Objects() - old(Objects()))
    {
      hide *;
      ghost var after := Engine.Write(cfg, State(), op);
      var ft := WriteState(op, after);
      AddJob(ft, after);
    }

    method Write(op: Op)
      requires Valid()
      modifies this, ssTableIndexQueue, memTableQueue, memTableQueue.Repr
      ensures Valid() && Step(cfg, old(State()), Call(op)) == Success(State())
      ensures fresh(Objects() - old(Objects()))
    {
      hide Engine.Valid, Engine.CheckFutures, Engine.Write, Valid, State;
      CheckFutures();
      WriteChecked(op);
    }

    method Set(key: Key, text: Text)
      requires Valid()
      modifies this, ssTableIndexQueue, memTableQueue, memTableQueue.Repr
      ensures Valid() && Step(cfg, old(State()), Call(Op.Set(key, text))) == Success(State())
      ensures fresh(Objects() - old(Objects()))
    {
      Write(Op.Set(key, text));
    }

    method Remove(key: Key)
      requires Valid()
      modifies this, ssTableIndexQueue, memTableQueue, memTableQueue.Repr
      ensures Valid() && Step(cfg, old(State()), Call(Op.Remove(key))) == Success(State())
      ensures fresh(Objects() - old(Objects()))
    {
      Write(Op.Remove(key));
    }
  }
}
