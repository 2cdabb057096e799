/** What the background jobs may rely on while the interface goes on working. */
module Protocol {
  import opened Bytes
  import opened Tables
  import opened Sizes
  import opened Grouping
  import opened Errors
  import opened Engine
  import opened Refinement

  // ----- compaction -----

  /**
   * While a compaction is running, no step changes the queue or the start index, and no
   * second compaction is launched; flush jobs may still be launched and may end.
   */
  lemma RunningCompactionFreezesQueue(cfg: Config, db: Db, e: Event)
    requires Valid(cfg, db) && db.job.Some? && db.job.value.result == None
    ensures Step(cfg, db, e).Success?
    ensures var after := Step(cfg, db, e).value;
            && after.queue == db.queue && after.start == db.start
            && after.job.Some?
            && after.job.value.launchQueue == db.job.value.launchQueue
            && (db.flushes <= after.flushes || (e.FlushDone? && after.flushes == FinishFlush(db, e.i).flushes))
    ensures Step(cfg, db, e).value.job != db.job ==> e.CompactionDone?
  {
    StepValid(cfg, db, e);
  }

  /**
   * However long it takes: until the compaction job ends, a run finds and leaves the queue as
   * it was at launch and the same job outstanding, while flush jobs pile up.
   */
  lemma {:induction false} RunsDuringCompaction(cfg: Config, db: Db, es: seq<Event>)
    requires Valid(cfg, db) && db.job.Some? && db.job.value.result == None
    requires forall i :: 0 <= i < |es| ==> !es[i].CompactionDone?
    ensures Run(cfg, db, es).Success? && Valid(cfg, Run(cfg, db, es).value)
    ensures var after := Run(cfg, db, es).value;
            && after.queue == db.queue == db.job.value.launchQueue
            && after.start == db.start == db.job.value.launchStart
            && after.job == db.job && |db.flushes| <= |after.flushes|
  {
    if es != [] {
      var init := es[..|es|-1];
      RunsDuringCompaction(cfg, db, init);
      StepValid(cfg, Run(cfg, db, init).value, es[|es|-1]);
      RunningCompactionFreezesQueue(cfg, Run(cfg, db, init).value, es[|es|-1]);
    }
  }

  // ----- nothing is forgotten -----

  /** A compaction is outstanding, or too few tables stand behind the start index. */
  predicate CompactionLaunched(cfg: Config, db: Db) {
    db.job.Some? || cfg.tablesToCompact == 0 || |db.queue| - db.start - 1 < cfg.tablesToCompact
  }

  /** After every call a compaction is outstanding if one is due; a new one has just been launched. */
  lemma CallLaunches(cfg: Config, db: Db, e: Event)
    requires Valid(cfg, db) && (e.Call? || e.Get?)
    ensures Step(cfg, db, e).Success? && CompactionLaunched(cfg, Step(cfg, db, e).value)
    ensures var after := Step(cfg, db, e).value;
            after.job.Some? ==> after.job == db.job || after.job.value == CompactionJob(after.queue, after.start, None)
  {
    hide Harvest;
    StepValid(cfg, db, e);
    CheckCompactionValid(cfg, db);
    if CheckCompaction(cfg, db).value.job == None {
      HarvestValid(cfg, CheckCompaction(cfg, db).value);
    }
  }

  /** So no run gets stuck with a backlog of tables. */
  lemma RunLaunches(cfg: Config, db: Db, es: seq<Event>)
    requires Valid(cfg, db) && es != [] && (es[|es|-1].Call? || es[|es|-1].Get?)
    ensures Run(cfg, db, es).Success? && CompactionLaunched(cfg, Run(cfg, db, es).value)
  {
    hide Valid, Step, CompactionLaunched;
    RunValid(cfg, db, es[..|es|-1]);
    CallLaunches(cfg, Run(cfg, db, es[..|es|-1]).value, es[|es|-1]);
  }

  /** The state once the outstanding compaction has ended and been applied. */
  lemma EndedIsApplied(cfg: Config, db: Db)
    requires Valid(cfg, db) && db.job.Some?
    ensures FinishCompaction(cfg, db).Success? && Valid(cfg, FinishCompaction(cfg, db).value)
    ensures CheckCompaction(cfg, FinishCompaction(cfg, db).value).Success?
    ensures var end := db.start + cfg.tablesToCompact + 1;
            var applied := CheckCompaction(cfg, FinishCompaction(cfg, db).value).value;
            && end <= |db.queue| && applied.job == None && Valid(cfg, applied)
            && applied.queue == db.queue[..db.start] + MergeWindow(cfg.ssTableLimit, db.queue[db.start..end]) + db.queue[end..]
            && applied.start == db.start + |MergeWindow(cfg.ssTableLimit, db.queue[db.start..end])| - 1
  {
    hide MergeWindow, Numbered, LogsMatch, FlushProtocol;
    StepValid(cfg, db, CompactionDone);
    CheckCompactionValid(cfg, FinishCompaction(cfg, db).value);
  }

  lemma CallAfterApplied(cfg: Config, db: Db, applied: Db, e: Event)
    requires CheckCompaction(cfg, db) == Success(applied) && applied.job == None && Valid(cfg, applied)
    requires e.Call? || e.Get?
    ensures Step(cfg, db, e).Success?
    ensures var after := Step(cfg, db, e).value;
            && applied.queue <= after.queue && after.start == applied.start
            && (after.job.Some? ==> after.job.value == CompactionJob(after.queue, after.start, None))
  {
    HarvestStart(applied);
    HarvestValid(cfg, applied);
    hide Harvest, Valid, CheckCompaction, NeedsFlush;
  }

  /**
   * A compaction whose job has ended is applied by the next call: the merged tables stand in
   * place of the window, with what was behind it, and the start index is at the last of them.
   */
  lemma CompactionApplied(cfg: Config, db: Db, e: Event)
    requires Valid(cfg, db) && db.job.Some? && (e.Call? || e.Get?)
    ensures FinishCompaction(cfg, db).Success? && Step(cfg, FinishCompaction(cfg, db).value, e).Success?
    ensures var end := db.start + cfg.tablesToCompact + 1;
            var after := Step(cfg, FinishCompaction(cfg, db).value, e).value;
            && end <= |db.queue|
            && db.queue[..db.start] + MergeWindow(cfg.ssTableLimit, db.queue[db.start..end]) + db.queue[end..] <= after.queue
            && after.start == db.start + |MergeWindow(cfg.ssTableLimit, db.queue[db.start..end])| - 1
            && (after.job.Some? ==> after.job.value == CompactionJob(after.queue, after.start, None))
  {
    EndedIsApplied(cfg, db);
    hide MergeWindow, Valid, FinishCompaction, CheckCompaction, Step;
    var done := FinishCompaction(cfg, db).value;
    CallAfterApplied(cfg, done, CheckCompaction(cfg, done).value, e);
  }

  /** Job j has ended by the end of the events, or had ended before. */
  predicate Ended(db: Db, es: seq<Event>, j: nat)
    requires j < |db.flushes|
  {
    db.flushes[j].done || FlushDone(j) in es
  }

  /** What ends of jobs alone make of a state: they set the flags of the jobs that end. */
  lemma {:induction false} EndsSetFlags(cfg: Config, db: Db, es: seq<Event>)
    requires db.job == None && forall i :: 0 <= i < |es| ==> es[i].FlushDone? || es[i].CompactionDone?
    ensures Run(cfg, db, es).Success?
    ensures var after := Run(cfg, db, es).value;
            && after == db.(flushes := after.flushes) && |after.flushes| == |db.flushes|
            && forall j :: 0 <= j < |db.flushes| ==> after.flushes[j] == db.flushes[j].(done := Ended(db, es, j))
  {
    if es != [] {
      var init, e := es[..|es|-1], es[|es|-1];
      EndsSetFlags(cfg, db, init);
      assert forall j :: 0 <= j < |db.flushes| ==> (Ended(db, es, j) <==> Ended(db, init, j) || e == FlushDone(j));
    }
  }

  /**
   * If the first n outstanding jobs have ended, in whatever order and whatever other jobs have
   * ended in between, the next call takes at least their n memtables into the queue, in order
   * and under the counters of the jobs; exactly n if job n has not ended.
   */
  lemma EndedJobsAreHarvested(cfg: Config, db: Db, es: seq<Event>, e: Event, n: nat)
    requires Valid(cfg, db) && db.job == None && n <= |db.flushes| && (e.Call? || e.Get?)
    requires forall i :: 0 <= i < |es| ==> es[i].FlushDone? || es[i].CompactionDone?
    requires forall j :: 0 <= j < n ==> Ended(db, es, j)
    ensures |db.flushes| <= |db.mems| && Run(cfg, db, es + [e]).Success?
    ensures var after := Run(cfg, db, es + [e]).value;
            exists h :: n <= h <= |db.flushes|
              && after.queue == db.queue + Flushed(db, h) && (e.Get? ==> after.mems == db.mems[h..])
              && (n < |db.flushes| && !Ended(db, es, n) ==> h == n)
  {
    hide Harvest, Flushed, Numbered, LogsMatch, Write;
    EndsSetFlags(cfg, db, es);
    RunValid(cfg, db, es);
    var mid := Run(cfg, db, es).value;
    StepValid(cfg, mid, e);
    HarvestTakesFront(mid);
    HarvestValid(cfg, mid);
    var h := |mid.flushes| - |Harvest(mid).flushes|;
    assert h < |mid.flushes| ==> Harvest(mid).flushes[0] == mid.flushes[h];
    SameFlushed(db, mid, h);
    assert (es + [e])[..|es|] == es;
    CallQueue(cfg, mid, e);
    assert Run(cfg, db, es + [e]) == Step(cfg, mid, e);
  }

  lemma CallQueue(cfg: Config, db: Db, e: Event)
    requires Valid(cfg, db) && db.job == None && (e.Call? || e.Get?)
    ensures Step(cfg, db, e).Success?
    ensures var after := Step(cfg, db, e).value;
            after.queue == Harvest(db).queue && (e.Get? ==> after.mems == Harvest(db).mems)
  {
    hide Harvest, Valid, NeedsFlush;
  }

  lemma SameFlushed(db: Db, mid: Db, h: nat)
    requires h <= |db.flushes| == |mid.flushes| && h <= |db.mems| && mid.mems == db.mems
    requires forall j :: 0 <= j < |db.flushes| ==> mid.flushes[j].id == db.flushes[j].id
    ensures Flushed(mid, h) == Flushed(db, h)
  {
  }

  // ----- settled tables -----

  /** db's settled tables, those before its start index, are all still there in after. */
  predicate Settled(db: Db, after: Db) {
    db.start <= after.start && db.start <= |db.queue| && db.start <= |after.queue|
    && after.queue[..db.start] == db.queue[..db.start]
  }

  lemma SettledTransitive(a: Db, b: Db, c: Db)
    requires Settled(a, b) && Settled(b, c)
    ensures Settled(a, c)
  {
    assert c.queue[..a.start] == c.queue[..b.start][..a.start];
    assert b.queue[..a.start] == b.queue[..b.start][..a.start];
  }

  lemma CheckKeepsSettledTables(cfg: Config, db: Db)
    requires Valid(cfg, db)
    ensures CheckFutures(cfg, db).Success? && Settled(db, CheckFutures(cfg, db).value)
  {
    hide Numbered, LogsMatch, CompactionUndisturbed, Chronicle;
    CheckFuturesValid(cfg, db);
    CheckCompactionValid(cfg, db);
    var applied := CheckCompaction(cfg, db).value;
    if applied != db {
      assert applied.queue[..db.start] == db.queue[..db.start];
    }
    assert Settled(db, applied);
    if applied.job == None {
      HarvestStart(applied);
      HarvestValid(cfg, applied);
      assert Harvest(applied).queue[..applied.start] == applied.queue[..applied.start];
      SettledTransitive(db, applied, Harvest(applied));
    }
  }

  lemma StepKeepsSettledTables(cfg: Config, db: Db, e: Event)
    requires Valid(cfg, db)
    ensures Step(cfg, db, e).Success? && Settled(db, Step(cfg, db, e).value)
  {
    StepValid(cfg, db, e);
    CheckKeepsSettledTables(cfg, db);
  }

  /** Along every run the start index never falls and the tables before it never change. */
  lemma {:induction false} RunKeepsSettledTables(cfg: Config, db: Db, es: seq<Event>)
    requires Valid(cfg, db)
    ensures Run(cfg, db, es).Success? && Settled(db, Run(cfg, db, es).value)
  {
    if es != [] {
      var init := es[..|es|-1];
      RunValid(cfg, db, init);
      RunKeepsSettledTables(cfg, db, init);
      var mid := Run(cfg, db, init).value;
      StepKeepsSettledTables(cfg, mid, es[|es|-1]);
      SettledTransitive(db, mid, Step(cfg, mid, es[|es|-1]).value);
    }
  }

  // ----- flushing -----

  function Flushed(db: Db, h: nat): seq<SsTable>
    requires h <= |db.flushes| && h <= |db.mems|
  {
    seq(h, i requires 0 <= i < h => SsTable(db.flushes[i].id, db.mems[i].table))
  }

  lemma HarvestOneProtocol(db: Db)
    requires FlushProtocol(db) && db.flushes != []
    ensures FlushProtocol(HarvestOne(db))
  {
  }

  /** A harvest moves the front memtables, whose jobs are done, to the back of the queue. */
  lemma {:induction false} HarvestTakesFront(db: Db)
    requires FlushProtocol(db)
    ensures var h := |db.flushes| - |Harvest(db).flushes|;
            && 0 <= h <= |db.mems|
            && Harvest(db).flushes == db.flushes[h..] && Harvest(db).mems == db.mems[h..]
            && Harvest(db).queue == db.queue + Flushed(db, h)
            && forall i :: 0 <= i < h ==> db.flushes[i].done
    decreases |db.flushes|
  {
    hide Harvest, Flushed;
    HarvestUnroll(db);
    if db.flushes == [] || !db.flushes[0].done {
      FlushedNone(db);
    } else {
      var one := HarvestOne(db);
      HarvestOneProtocol(db);
      HarvestTakesFront(one);
      var h := |one.flushes| - |Harvest(one).flushes|;
      assert one.flushes[h..] == db.flushes[h+1..] && one.mems[h..] == db.mems[h+1..];
      FlushedCons(db, h);
      assert forall i :: 0 < i <= h ==> db.flushes[i] == one.flushes[i-1];
    }
  }

  lemma HarvestUnroll(db: Db)
    requires FlushProtocol(db)
    ensures Harvest(db) == if db.flushes == [] || !db.flushes[0].done then db else Harvest(HarvestOne(db))
  {
  }

  lemma FlushedNone(db: Db)
    ensures db.queue + Flushed(db, 0) == db.queue
  {
  }

  lemma FlushedCons(db: Db, h: nat)
    requires FlushProtocol(db) && h < |db.flushes|
    ensures db.queue + Flushed(db, h + 1) == HarvestOne(db).queue + Flushed(HarvestOne(db), h)
  {
    var one := HarvestOne(db);
    assert forall i :: 0 <= i < h ==> one.flushes[i] == db.flushes[i+1] && one.mems[i] == db.mems[i+1];
    assert Flushed(db, h + 1) == [SsTable(db.flushes[0].id, db.mems[0].table)] + Flushed(one, h);
  }

  /** The flush job with counter id still owns the memtable m. */
  predicate Frozen(db: Db, id: nat, m: Mem) {
    exists j :: 0 <= j < |db.flushes| && db.flushes[j].id == id && j < |db.mems| && db.mems[j] == m
  }

  lemma HarvestKeepsFrozen(db: Db, i: nat)
    requires FlushProtocol(db) && i < |db.flushes|
    ensures Frozen(Harvest(db), db.flushes[i].id, db.mems[i])
            || SsTable(db.flushes[i].id, db.mems[i].table) in Harvest(db).queue
  {
    hide Harvest;
    HarvestTakesFront(db);
    var after := Harvest(db);
    var h := |db.flushes| - |after.flushes|;
    if h <= i {
      assert after.flushes[i - h] == db.flushes[i] && after.mems[i - h] == db.mems[i];
    } else {
      assert Flushed(db, h)[i] == SsTable(db.flushes[i].id, db.mems[i].table);
      assert after.queue[|db.queue| + i] == Flushed(db, h)[i];
    }
  }

  lemma CheckKeepsFrozen(cfg: Config, db: Db, i: nat)
    requires Valid(cfg, db) && i < |db.flushes|
    ensures CheckFutures(cfg, db).Success?
    ensures var after := CheckFutures(cfg, db).value;
            Frozen(after, db.flushes[i].id, db.mems[i]) || SsTable(db.flushes[i].id, db.mems[i].table) in after.queue
  {
    hide LogsMatch, Numbered, CompactionUndisturbed, StartInQueue, Harvest, MergeWindow;
    CheckFuturesValid(cfg, db);
    CheckCompactionValid(cfg, db);
    var applied := CheckCompaction(cfg, db).value;
    if applied.job.Some? {
      assert applied.flushes[i] == db.flushes[i] && applied.mems[i] == db.mems[i];
    } else {
      HarvestKeepsFrozen(applied, i);
    }
  }

  lemma WriteKeepsFrozen(cfg: Config, db: Db, op: Op, id: nat, m: Mem)
    requires FlushProtocol(db) && Frozen(db, id, m)
    ensures Frozen(Write(cfg, db, op), id, m)
  {
    var j :| 0 <= j < |db.flushes| && db.flushes[j].id == id && j < |db.mems| && db.mems[j] == m;
    var after := Write(cfg, db, op);
    assert after.flushes[j] == db.flushes[j] && after.mems[j] == m;
  }

  /**
   * A memtable whose flush has been launched is never written again: after any step its
   * job still owns it unchanged, or its table stands in the queue under the job's counter.
   */
  lemma FrozenTablesStay(cfg: Config, db: Db, e: Event, i: nat)
    requires Valid(cfg, db) && i < |db.flushes|
    ensures Step(cfg, db, e).Success?
    ensures var after := Step(cfg, db, e).value;
            Frozen(after, db.flushes[i].id, db.mems[i]) || SsTable(db.flushes[i].id, db.mems[i].table) in after.queue
  {
    StepValid(cfg, db, e);
    CheckKeepsFrozen(cfg, db, i);
    match e
    case Call(op) =>
      var checked := CheckFutures(cfg, db).value;
      CheckFuturesValid(cfg, db);
      if Frozen(checked, db.flushes[i].id, db.mems[i]) {
        WriteKeepsFrozen(cfg, checked, op, db.flushes[i].id, db.mems[i]);
      }
    case Get(_) =>
    case FlushDone(n) =>
      assert FinishFlush(db, n).flushes[i].id == db.flushes[i].id;
    case CompactionDone =>
      assert Step(cfg, db, e).value.flushes[i] == db.flushes[i];
  }

  /** After the first n events the job still owns the memtable unchanged. */
  predicate FrozenAfter(cfg: Config, db: Db, es: seq<Event>, n: nat, id: nat, m: Mem)
    requires n <= |es|
  {
    var after := Run(cfg, db, es[..n]);
    after.Success? && Frozen(after.value, id, m)
  }

  predicate QueuedAfter(cfg: Config, db: Db, es: seq<Event>, n: nat, t: SsTable)
    requires n <= |es|
  {
    var after := Run(cfg, db, es[..n]);
    after.Success? && t in after.value.queue
  }

  /**
   * Along every run the job owns its memtable unchanged, either to the end of the run or to
   * the event after which the table stands in the queue under the job's counter.
   */
  lemma {:induction false} FrozenUntilQueued(cfg: Config, db: Db, es: seq<Event>, i: nat)
    requires Valid(cfg, db) && i < |db.flushes|
    ensures var id, m := db.flushes[i].id, db.mems[i];
            exists n :: 0 <= n <= |es|
              && (forall j :: 0 <= j < n ==> FrozenAfter(cfg, db, es, j, id, m))
              && ((n == |es| && FrozenAfter(cfg, db, es, n, id, m)) || QueuedAfter(cfg, db, es, n, SsTable(id, m.table)))
  {
    hide Step, Valid, Frozen;
    OwnsAtStart(cfg, db, i);
    var id, m := db.flushes[i].id, db.mems[i];
    if es == [] {
      assert es[..0] == [];
      assert FrozenAfter(cfg, db, es, 0, id, m);
    } else {
      var init := es[..|es|-1];
      FrozenUntilQueued(cfg, db, init, i);
      var n :| 0 <= n <= |init|
        && (forall j :: 0 <= j < n ==> FrozenAfter(cfg, db, init, j, id, m))
        && ((n == |init| && FrozenAfter(cfg, db, init, n, id, m)) || QueuedAfter(cfg, db, init, n, SsTable(id, m.table)));
      assert forall j :: 0 <= j <= |init| ==> init[..j] == es[..j];
      assert forall j :: 0 <= j < n ==> FrozenAfter(cfg, db, init, j, id, m) ==> FrozenAfter(cfg, db, es, j, id, m);
      if QueuedAfter(cfg, db, init, n, SsTable(id, m.table)) {
        assert QueuedAfter(cfg, db, es, n, SsTable(id, m.table));
      } else {
        assert init[..n] == init && es[..|es|] == es;
        assert FrozenAfter(cfg, db, es, n, id, m);
        RunValid(cfg, db, init);
        var mid := Run(cfg, db, init).value;
        StepFrozen(cfg, mid, es[|es|-1], id, m);
        assert QueuedAfter(cfg, db, es, |es|, SsTable(id, m.table)) || FrozenAfter(cfg, db, es, |es|, id, m);
      }
    }
  }

  lemma OwnsAtStart(cfg: Config, db: Db, i: nat)
    requires Valid(cfg, db) && i < |db.flushes|
    ensures i < |db.mems| && Frozen(db, db.flushes[i].id, db.mems[i])
  {
  }

  lemma StepFrozen(cfg: Config, db: Db, e: Event, id: nat, m: Mem)
    requires Valid(cfg, db) && Frozen(db, id, m)
    ensures Step(cfg, db, e).Success?
    ensures Frozen(Step(cfg, db, e).value, id, m) || SsTable(id, m.table) in Step(cfg, db, e).value.queue
  {
    hide Step, Valid;
    var j :| 0 <= j < |db.flushes| && db.flushes[j].id == id && j < |db.mems| && db.mems[j] == m;
    FrozenTablesStay(cfg, db, e, j);
  }

  // ----- the size of a memtable -----

  /** The memtable that takes writes has not reached the limit. */
  ghost predicate ActiveSmall(cfg: Config, db: Db) {
    db.mems != [] ==> Total(APPROXIMATE_OVERHEAD, db.mems[|db.mems|-1].table) < cfg.memTableLimit
  }

  function OpWeight(op: Op): nat {
    Weight(APPROXIMATE_OVERHEAD, Entry(op.key, op.Stored()))
  }

  /**
   * As long as the 32-bit sum does not wrap: a table is frozen as soon as it has reached the
   * limit, so it exceeds the limit by less than the entry written last.
   */
  lemma FrozenSize(cfg: Config, db: Db, op: Op)
    requires cfg.memTableLimit > 0 && ActiveSmall(cfg, db)
    requires cfg.memTableLimit + OpWeight(op) <= 0x1_0000_0000
    ensures var after := Write(cfg, db, op);
            && ActiveSmall(cfg, after)
            && (after.flushes != db.flushes ==>
                  var size := Total(APPROXIMATE_OVERHEAD, after.flushes[|after.flushes|-1].table);
                  cfg.memTableLimit <= size < cfg.memTableLimit + OpWeight(op))
  {
    assert Total(APPROXIMATE_OVERHEAD, map[]) == 0;
    hide Total, Write, NeedsFlush, Apply, OpWeight;
    WriteFreezes(cfg, db, op);
    SizeAfter(cfg.memTableLimit, ActiveTable(db), op);
  }

  lemma SizeAfter(limit: nat, t: Table, op: Op)
    requires Total(APPROXIMATE_OVERHEAD, t) < limit && limit + OpWeight(op) <= 0x1_0000_0000
    ensures Total(APPROXIMATE_OVERHEAD, Apply(t, op)) < limit + OpWeight(op)
    ensures NeedsFlush(limit, Apply(t, op)) <==> Total(APPROXIMATE_OVERHEAD, Apply(t, op)) >= limit
  {
    hide Total;
    TotalUpdate(APPROXIMATE_OVERHEAD, t, op.key, op.Stored());
  }

  /** The table that the next write goes to. */
  function ActiveTable(db: Db): Table {
    if db.mems == [] then map[] else db.mems[|db.mems|-1].table
  }

  lemma WriteFreezes(cfg: Config, db: Db, op: Op)
    ensures var t, after := Apply(ActiveTable(db), op), Write(cfg, db, op);
            && after.mems != []
            && if NeedsFlush(cfg.memTableLimit, t)
               then after.flushes == db.flushes + [FlushJob(after.ssTableCounter, t, false)] && ActiveTable(after) == map[]
               else after.flushes == db.flushes && ActiveTable(after) == t
  {
    hide NeedsFlush, Apply;
  }

  /** From a state whose newest memtable is below the limit, be it empty, every run leads to such states. */
  lemma {:induction false} RunActiveSmall(cfg: Config, db: Db, es: seq<Event>)
    requires cfg.memTableLimit > 0 && Valid(cfg, db) && ActiveSmall(cfg, db)
    requires forall i :: 0 <= i < |es| && es[i].Call? ==> cfg.memTableLimit + OpWeight(es[i].op) <= 0x1_0000_0000
    ensures Run(cfg, db, es).Success? && Valid(cfg, Run(cfg, db, es).value)
    ensures ActiveSmall(cfg, Run(cfg, db, es).value)
  {
    hide Total, Valid, CheckFutures, Write;
    RunValid(cfg, db, es);
    if es != [] {
      var init, e := es[..|es|-1], es[|es|-1];
      RunActiveSmall(cfg, db, init);
      var mid := Run(cfg, db, init).value;
      StepValid(cfg, mid, e);
      CheckActive(cfg, mid);
      if e.Call? {
        FrozenSize(cfg, CheckFutures(cfg, mid).value, e.op);
      }
    }
  }

  lemma HarvestActive(cfg: Config, db: Db)
    requires FlushProtocol(db) && ActiveSmall(cfg, db)
    ensures ActiveSmall(cfg, Harvest(db))
  {
    hide Total, Harvest;
    HarvestTakesFront(db);
    var after := Harvest(db).mems;
    assert after != [] ==> after[|after|-1] == db.mems[|db.mems|-1];
  }

  lemma CheckActive(cfg: Config, db: Db)
    requires Valid(cfg, db) && ActiveSmall(cfg, db)
    ensures CheckFutures(cfg, db).Success? && ActiveSmall(cfg, CheckFutures(cfg, db).value)
  {
    hide Total, LogsMatch, Numbered, CompactionUndisturbed, StartInQueue, Harvest, MergeWindow;
    CheckFuturesValid(cfg, db);
    CheckCompactionValid(cfg, db);
    var applied := CheckCompaction(cfg, db).value;
    if applied.job == None {
      HarvestActive(cfg, applied);
    }
  }
}
