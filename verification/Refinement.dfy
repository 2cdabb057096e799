/**
 * Runs of the engine against the simplest database there is, a map of last writes.
 * A read is exact as long as no applied compaction lets an overwritten value resurface,
 * and the runs where that happens are characterised step by step.
 */
module Refinement {
  import opened Bytes
  import opened Tables
  import opened Compaction
  import opened Grouping
  import opened Engine

  type Model = map<Key, Text>

  function ModelWrite(m: Model, op: Op): Model {
    if op.Set? then m[op.key := op.text] else m - {op.key}
  }

  function ModelRun(m: Model, es: seq<Event>): Model {
    if es == [] then m
    else
      var before := ModelRun(m, es[..|es|-1]);
      if es[|es|-1].Call? then ModelWrite(before, es[|es|-1].op) else before
  }

  // ----- what each part of a step does to a read -----

  /** A write changes the newest table, or a new one, and may open an empty table behind it. */
  lemma WriteChronicle(cfg: Config, db: Db, op: Op) returns (older: seq<Table>, t: Table)
    ensures Chronicle(db) == older + [t] || (t == map[] && Chronicle(db) == older)
    ensures var written := Chronicle(Write(cfg, db, op));
            written == older + [Apply(t, op)] || written == older + [Apply(t, op)] + [map[]]
  {
    hide NeedsFlush;
    var db1 := WithMem(db);
    var init, m := db1.mems[..|db1.mems|-1], db1.mems[|db1.mems|-1];
    older, t := TablesOf(db.queue) + MemTables(init), m.table;
    assert MemTables(db1.mems) == MemTables(init) + [t];
    if db.mems == [] {
      assert Chronicle(db) == older;
    } else {
      assert Chronicle(db) == older + [t];
    }
    var after := MemTables(Write(cfg, db, op).mems);
    assert after == MemTables(init) + [Apply(t, op)] || after == MemTables(init) + [Apply(t, op)] + [map[]];
  }

  lemma WriteReads(cfg: Config, db: Db, op: Op, k: Key)
    ensures GetValue(Write(cfg, db, op), k) ==
            if k == op.key then op.Stored().Underlying() else GetValue(db, k)
  {
    var older, t := WriteChronicle(cfg, db, op);
    GetReadsChronicle(db, k);
    GetReadsChronicle(Write(cfg, db, op), k);
    FindNewest(older, t, k);
    FindNewest(older, Apply(t, op), k);
    FindEmptyTable(older + [Apply(t, op)], k);
  }

  lemma FindNewest(ts: seq<Table>, t: Table, k: Key)
    ensures Find(ts + [t], k) == if k in t then Some(t[k]) else Find(ts, k)
  {
    assert (ts + [t])[..|ts|] == ts;
  }

  lemma FindEmptyTable(ts: seq<Table>, k: Key)
    ensures Find(ts + [map[]], k) == Find(ts, k)
  {
    FindNewest(ts, map[], k);
  }

  predicate CompactionReady(db: Db) {
    db.job.Some? && db.job.value.result.Some?
  }

  /**
   * Applying the finished compaction lets a value of k resurface: no table behind the
   * window holds k, the window hides k behind a tombstone, and the tombstones cancel.
   */
  predicate AppliesStale(cfg: Config, db: Db, k: Key) {
    && CompactionReady(db)
    && db.start + cfg.tablesToCompact + 1 <= |db.queue|
    && Find(TablesOf(db.queue[db.start + cfg.tablesToCompact + 1..]) + MemTables(db.mems), k) == None
    && Resurfaces(TablesOf(db.queue[..db.start]), WindowGroups(cfg, db), k)
  }

  function WindowGroups(cfg: Config, db: Db): seq<seq<Table>>
    requires db.start + cfg.tablesToCompact + 1 <= |db.queue|
  {
    GroupTables(Groups(cfg.ssTableLimit, Window(cfg, db)))
  }

  /** Before and after a compaction is applied, in terms of its groups. */
  lemma ApplyChronicle(cfg: Config, db: Db)
    requires Valid(cfg, db) && CompactionReady(db)
    ensures var end := db.start + cfg.tablesToCompact + 1;
            var older := TablesOf(db.queue[..db.start]);
            var newer := TablesOf(db.queue[end..]) + MemTables(db.mems);
            && end <= |db.queue|
            && Flatten(WindowGroups(cfg, db)) == TablesOf(Window(cfg, db))
            && Chronicle(db) == older + Flatten(WindowGroups(cfg, db)) + newer
            && CheckCompaction(cfg, db).Success?
            && Chronicle(CheckCompaction(cfg, db).value) == older + Folds(WindowGroups(cfg, db)) + newer
  {
    hide Folds, MergeWindow;
    CheckCompactionValid(cfg, db);
    var w, end := Window(cfg, db), db.start + cfg.tablesToCompact + 1;
    MergeWindowTables(cfg.ssTableLimit, w);
    assert db.queue == db.queue[..db.start] + w + db.queue[end..];
    TablesOfThree(db.queue[..db.start], w, db.queue[end..]);
    var after := CheckCompaction(cfg, db).value;
    TablesOfThree(db.queue[..db.start], MergeWindow(cfg.ssTableLimit, w), db.queue[end..]);
  }

  lemma TablesOfThree(a: seq<SsTable>, b: seq<SsTable>, c: seq<SsTable>)
    ensures TablesOf(a + b + c) == TablesOf(a) + TablesOf(b) + TablesOf(c)
  {
  }

  /** Checking the background jobs changes the answer for k exactly when a value resurfaces. */
  lemma CheckReads(cfg: Config, db: Db, k: Key)
    requires Valid(cfg, db)
    ensures CheckFutures(cfg, db).Success?
    ensures GetValue(CheckFutures(cfg, db).value, k) != GetValue(db, k) <==> AppliesStale(cfg, db, k)
  {
    hide Resurfaces, Folds, Find, Flatten, Harvest, MergeWindow;
    CheckFuturesValid(cfg, db);
    var applied, after := CheckCompaction(cfg, db).value, CheckFutures(cfg, db).value;
    GetReadsChronicle(db, k);
    GetReadsChronicle(after, k);
    assert Chronicle(after) == Chronicle(applied);
    if CompactionReady(db) {
      ApplyChronicle(cfg, db);
      var end := db.start + cfg.tablesToCompact + 1;
      CompactionChangesExactly(TablesOf(db.queue[..db.start]), WindowGroups(cfg, db),
                               TablesOf(db.queue[end..]) + MemTables(db.mems), k);
    }
  }

  /** The step lets a value of k resurface and does not write k itself right after. */
  predicate StepStale(cfg: Config, db: Db, e: Event, k: Key) {
    match e
    case Call(op) => op.key != k && AppliesStale(cfg, db, k)
    case Get(_) => AppliesStale(cfg, db, k)
    case FlushDone(_) => false
    case CompactionDone => false
  }

  /** What one step does to a read of k, whatever the state of the background jobs. */
  lemma StepReads(cfg: Config, db: Db, e: Event, k: Key)
    requires Valid(cfg, db)
    ensures Step(cfg, db, e).Success?
    ensures var after := GetValue(Step(cfg, db, e).value, k);
            && (e.Call? && e.op.key == k ==> after == e.op.Stored().Underlying())
            && (!(e.Call? && e.op.key == k) ==> (after != GetValue(db, k) <==> StepStale(cfg, db, e, k)))
  {
    StepValid(cfg, db, e);
    match e
    case Call(op) =>
      CheckReads(cfg, db, k);
      WriteReads(cfg, CheckFutures(cfg, db).value, op, k);
    case Get(_) =>
      CheckReads(cfg, db, k);
    case FlushDone(_) =>
    case CompactionDone =>
  }

  // ----- runs -----

  /** No step of the run lets a value of k resurface. */
  ghost predicate SafeRun(cfg: Config, db: Db, es: seq<Event>, k: Key)
    requires Valid(cfg, db)
  {
    es == [] ||
    (SafeRun(cfg, db, es[..|es|-1], k) &&
     (RunValid(cfg, db, es[..|es|-1]);
      !StepStale(cfg, Run(cfg, db, es[..|es|-1]).value, es[|es|-1], k)))
  }

  predicate Reads(cfg: Config, db: Db, m: Model, es: seq<Event>, k: Key) {
    Run(cfg, db, es).Success? && GetValue(Run(cfg, db, es).value, k) == Lookup(ModelRun(m, es), k)
  }

  /**
   * Every read of k along the run gives the last write exactly when no step lets a value
   * of k resurface, whatever the interleaving of calls and background jobs.
   */
  lemma {:induction false} ReadsLastWriteExactly(cfg: Config, db: Db, m: Model, es: seq<Event>, k: Key)
    requires Valid(cfg, db) && GetValue(db, k) == Lookup(m, k)
    ensures (forall n :: 0 <= n <= |es| ==> Reads(cfg, db, m, es[..n], k)) <==> SafeRun(cfg, db, es, k)
  {
    hide Step, AppliesStale, GetValue, Valid;
    if es == [] {
      assert es[..0] == es;
      assert Reads(cfg, db, m, es, k);
    } else {
      var init := es[..|es|-1];
      ReadsLastWriteExactly(cfg, db, m, init, k);
      assert forall n :: 0 <= n < |es| ==> es[..n] == init[..n];
      assert es[..|es|] == es && init[..|init|] == init;
      RunValid(cfg, db, init);
      RunValid(cfg, db, es);
      StepReads(cfg, Run(cfg, db, init).value, es[|es|-1], k);
      if forall n :: 0 <= n <= |init| ==> Reads(cfg, db, m, init[..n], k) {
        assert Reads(cfg, db, m, init[..|init|], k);
        assert Reads(cfg, db, m, es, k) <==> !StepStale(cfg, Run(cfg, db, init).value, es[|es|-1], k);
        if SafeRun(cfg, db, es, k) {
          forall n | 0 <= n <= |es| ensures Reads(cfg, db, m, es[..n], k) {
            assert n < |es| ==> Reads(cfg, db, m, init[..n], k);
          }
        }
      } else {
        var n :| 0 <= n <= |init| && !Reads(cfg, db, m, init[..n], k);
        assert !Reads(cfg, db, m, es[..n], k);
      }
    }
  }

  /** The reading direction, at the end of a run. */
  lemma SafeRunReadsLastWrite(cfg: Config, db: Db, m: Model, es: seq<Event>, k: Key)
    requires Valid(cfg, db) && GetValue(db, k) == Lookup(m, k)
    requires SafeRun(cfg, db, es, k)
    ensures Reads(cfg, db, m, es, k)
  {
    ReadsLastWriteExactly(cfg, db, m, es, k);
    assert es[..|es|] == es;
  }

  // ----- configurations in which every run is safe -----

  /** With one table per compaction, started at the front of the queue, nothing resurfaces. */
  lemma FewTablesNeverStale(cfg: Config, db: Db, k: Key)
    requires cfg.tablesToCompact <= 1 && Valid(cfg, db) && db.start == 0
    ensures !AppliesStale(cfg, db, k)
    ensures CheckCompaction(cfg, db).Success? && CheckCompaction(cfg, db).value.start == 0
  {
    CheckCompactionValid(cfg, db);
    if CompactionReady(db) {
      GroupsBound(cfg.ssTableLimit, Window(cfg, db));
      SingleOutput(cfg, db, k);
      MergeWindowLength(cfg.ssTableLimit, Window(cfg, db));
    }
  }

  /** With compaction disabled, and with one table per compaction, every read is exact. */
  lemma {:induction false} FewTablesAlwaysSafe(cfg: Config, db: Db, es: seq<Event>, k: Key)
    requires cfg.tablesToCompact <= 1 && Valid(cfg, db) && db.start == 0
    ensures SafeRun(cfg, db, es, k)
    ensures Run(cfg, db, es).Success? && Run(cfg, db, es).value.start == 0
  {
    if es != [] {
      var init, e := es[..|es|-1], es[|es|-1];
      FewTablesAlwaysSafe(cfg, db, init, k);
      RunValid(cfg, db, init);
      var mid := Run(cfg, db, init).value;
      StepValid(cfg, mid, e);
      FewTablesNeverStale(cfg, mid, k);
      StepStart(cfg, mid, e);
    }
  }

  lemma {:induction false} HarvestStart(db: Db)
    ensures Harvest(db).start == db.start
    decreases |db.flushes|
  {
    if db.flushes != [] && db.mems != [] && db.flushes[0].done {
      HarvestStart(HarvestOne(db));
    }
  }

  lemma StepStart(cfg: Config, db: Db, e: Event)
    requires Step(cfg, db, e).Success? && CheckCompaction(cfg, db).Success?
    ensures Step(cfg, db, e).value.start == if e.Call? || e.Get? then CheckCompaction(cfg, db).value.start else db.start
  {
    HarvestStart(CheckCompaction(cfg, db).value);
  }

  /** From the front of the queue into a single table nothing resurfaces. */
  lemma SingleOutput(cfg: Config, db: Db, k: Key)
    requires Valid(cfg, db) && CompactionReady(db)
    requires db.start == 0 && |Groups(cfg.ssTableLimit, Window(cfg, db))| == 1
    ensures !AppliesStale(cfg, db, k)
  {
    var gs := Groups(cfg.ssTableLimit, Window(cfg, db));
    assert GroupTables(gs) == [TablesOf(gs[0])];
    assert TablesOf(db.queue[..db.start]) == [];
    WholeQueueNeverResurfaces(TablesOf(gs[0]), k);
  }
}
