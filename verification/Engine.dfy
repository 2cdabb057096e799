/**
 * The database as a state machine on values: the memtables and their logs, the flush
 * jobs, the queue of tables, the compaction job, and the steps that change them. A call
 * of the interface is one step, and so is the end of a background job, in any order.
 */
module Engine {
  import opened Bytes
  import opened Tables
  import opened Compaction
  import opened Sizes
  import opened Grouping
  import opened Errors

  datatype Config = Config(memTableLimit: nat, ssTableLimit: nat, tablesToCompact: nat)

  /** A memtable with its transaction log. */
  datatype Mem = Mem(logId: nat, log: seq<Op>, table: Table)

  /** A job that writes a frozen memtable to the file with counter id. */
  datatype FlushJob = FlushJob(id: nat, table: Table, done: bool)

  /**
   * The outstanding compaction: what the queue was at launch, and the merged tables once
   * the job is done.
   */
  datatype CompactionJob = CompactionJob(launchQueue: seq<SsTable>, launchStart: nat, result: Option<seq<SsTable>>)

  datatype Db = Db(
    mems: seq<Mem>,
    flushes: seq<FlushJob>,
    queue: seq<SsTable>,
    start: nat,
    job: Option<CompactionJob>,
    ssTableCounter: nat,
    logCounter: nat)

  const EMPTY := Db([], [], [], 0, None, 0, 0)

  // ----- reading -----

  function MemTables(mems: seq<Mem>): seq<Table> {
    seq(|mems|, i requires 0 <= i < |mems| => mems[i].table)
  }

  /** First the memtables, newest first, then the queue, newest first; a tombstone ends the search. */
  function GetValue(db: Db, k: Key): Option<Text> {
    var inMem := Find(MemTables(db.mems), k);
    if inMem.Some? then inMem.value.Underlying() else Answer(Find(TablesOf(db.queue), k))
  }

  /** Every table of the database, oldest first. */
  function Chronicle(db: Db): seq<Table> {
    TablesOf(db.queue) + MemTables(db.mems)
  }

  lemma GetReadsChronicle(db: Db, k: Key)
    ensures GetValue(db, k) == View(Chronicle(db), k)
  {
    FindAppend(TablesOf(db.queue), MemTables(db.mems), k);
  }

  // ----- writing -----

  /** Sizes are summed in a 32-bit unsigned. */
  predicate NeedsFlush(limit: nat, t: Table) {
    Total(APPROXIMATE_OVERHEAD, t) % 0x1_0000_0000 >= limit
  }

  function PushMem(db: Db): Db {
    db.(mems := db.mems + [Mem(db.logCounter, [], map[])], logCounter := db.logCounter + 1)
  }

  function LaunchFlush(db: Db, t: Table): Db {
    db.(ssTableCounter := db.ssTableCounter + 1,
        flushes := db.flushes + [FlushJob(db.ssTableCounter + 1, t, false)])
  }

  function WithMem(db: Db): Db {
    if db.mems == [] then PushMem(db) else db
  }

  function Logged(m: Mem, op: Op): Mem {
    Mem(m.logId, m.log + [op], Apply(m.table, op))
  }

  /** set and remove: log, apply to the newest memtable, and freeze it when it is full. */
  function Write(cfg: Config, db0: Db, op: Op): Db {
    var db := WithMem(db0);
    var last := |db.mems| - 1;
    var m := Logged(db.mems[last], op);
    var written := db.(mems := db.mems[last := m]);
    if NeedsFlush(cfg.memTableLimit, m.table) then LaunchFlush(PushMem(written), m.table) else written
  }

  /** The part of the state that a write looks at, on its own. */
  function MemPart(mems: seq<Mem>, ssTableCounter: nat, logCounter: nat): Db {
    Db(mems, [], [], 0, None, ssTableCounter, logCounter)
  }

  lemma WriteIsLocal(cfg: Config, db: Db, op: Op)
    ensures var w := Write(cfg, MemPart(db.mems, db.ssTableCounter, db.logCounter), op);
            Write(cfg, db, op) == db.(mems := w.mems, flushes := db.flushes + w.flushes,
                                      ssTableCounter := w.ssTableCounter, logCounter := w.logCounter)
  {
  }

  /** The memtables once the operation has been applied to the newest one. */
  function WrittenMems(mems: seq<Mem>, logCounter: nat, op: Op): (written: seq<Mem>)
    ensures written != []
  {
    var extended := if mems == [] then [Mem(logCounter, [], map[])] else mems;
    extended[|extended|-1 := Logged(extended[|extended|-1], op)]
  }

  /** If the newest memtable is full, a new one behind it, and a job for it. */
  function FreezeFull(limit: nat, mems: seq<Mem>, ssTableCounter: nat, logCounter: nat): Db
    requires mems != []
  {
    var t := mems[|mems|-1].table;
    if NeedsFlush(limit, t)
    then Db(mems + [Mem(logCounter, [], map[])], [FlushJob(ssTableCounter + 1, t, false)], [], 0, None,
            ssTableCounter + 1, logCounter + 1)
    else Db(mems, [], [], 0, None, ssTableCounter, logCounter)
  }

  /** A write in two stages. */
  lemma WriteFields(cfg: Config, mems: seq<Mem>, ssTableCounter: nat, logCounter: nat, op: Op)
    ensures Write(cfg, MemPart(mems, ssTableCounter, logCounter), op) ==
            FreezeFull(cfg.memTableLimit, WrittenMems(mems, logCounter, op), ssTableCounter,
                       if mems == [] then logCounter + 1 else logCounter)
  {
    hide NeedsFlush, Apply;
  }

  /** Only the newest memtable is written. */
  lemma WriteKeepsFront(cfg: Config, db: Db, op: Op)
    ensures |db.mems| <= |Write(cfg, db, op).mems|
    ensures forall i :: 0 <= i < |db.mems| - 1 ==> Write(cfg, db, op).mems[i] == db.mems[i]
  {
  }

  // ----- background jobs -----

  /** The oldest flushed table moves from the memtables to the queue. */
  function HarvestOne(db: Db): Db
    requires db.flushes != [] && db.mems != []
  {
    db.(queue := db.queue + [SsTable(db.flushes[0].id, db.flushes[0].table)],
        mems := db.mems[1..],
        flushes := db.flushes[1..])
  }

  /** Finished flush jobs are taken from the front, up to the first unfinished one. */
  function Harvest(db: Db): Db
    decreases |db.flushes|
  {
    if db.flushes == [] || db.mems == [] || !db.flushes[0].done then db else Harvest(HarvestOne(db))
  }

  function TryLaunch(cfg: Config, db: Db): Db {
    if cfg.tablesToCompact == 0 || |db.queue| - db.start - 1 < cfg.tablesToCompact then db
    else db.(job := Some(CompactionJob(db.queue, db.start, None)))
  }

  function Update(n: nat, q: seq<SsTable>, start: nat, merged: seq<SsTable>): Result<(seq<SsTable>, nat)> {
    if n == 0 then Failure(CompactionDisabled)
    else if |q| - (start + 1) < n then Failure(QueueTooShort)
    else if merged == [] then Failure(NoMergedTables)
    else Success((q[..start] + merged + q[start + 1 + n..], start + |merged| - 1))
  }

  /** Apply the outstanding compaction if it is done. */
  function CheckCompaction(cfg: Config, db: Db): Result<Db> {
    if db.job == None || db.job.value.result == None then Success(db)
    else
      var (queue, start) :- Update(cfg.tablesToCompact, db.queue, db.start, db.job.value.result.value);
      Success(db.(queue := queue, start := start, job := None))
  }

  /** Finished flush jobs wait while a compaction is outstanding. */
  function CheckFutures(cfg: Config, db0: Db): Result<Db> {
    var db :- CheckCompaction(cfg, db0);
    if db.job.Some? then Success(db) else Success(TryLaunch(cfg, Harvest(db)))
  }

  // ----- steps -----

  datatype Event =
    | Call(op: Op)          // set or remove
    | Get(key: Key)
    | FlushDone(i: nat)     // the i-th outstanding flush job ends
    | CompactionDone        // the outstanding compaction job ends

  function FinishFlush(db: Db, i: nat): Db {
    if i < |db.flushes| then db.(flushes := db.flushes[i := db.flushes[i].(done := true)]) else db
  }

  /** The job reads the live queue: the tables from the start index on. */
  function FinishCompaction(cfg: Config, db: Db): Result<Db> {
    if db.job == None || db.job.value.result.Some? then Success(db)
    else if db.start + cfg.tablesToCompact + 1 > |db.queue| then Failure(QueueTooShort)
    else
      var w := db.queue[db.start..db.start + cfg.tablesToCompact + 1];
      if |w| == 1 then Failure(NothingToMerge)
      else Success(db.(job := Some(db.job.value.(result := Some(MergeWindow(cfg.ssTableLimit, w))))))
  }

  function Step(cfg: Config, db: Db, e: Event): Result<Db> {
    match e
    case Call(op) => var checked :- CheckFutures(cfg, db); Success(Write(cfg, checked, op))
    case Get(_) => CheckFutures(cfg, db)
    case FlushDone(i) => Success(FinishFlush(db, i))
    case CompactionDone => FinishCompaction(cfg, db)
  }

  function Run(cfg: Config, db: Db, es: seq<Event>): Result<Db> {
    if es == [] then Success(db)
    else var before :- Run(cfg, db, es[..|es|-1]); Step(cfg, before, es[|es|-1])
  }

  // ----- the invariant -----

  function JobIds(fs: seq<FlushJob>): seq<nat> {
    seq(|fs|, i requires 0 <= i < |fs| => fs[i].id)
  }

  function LogIds(mems: seq<Mem>): seq<nat> {
    seq(|mems|, i requires 0 <= i < |mems| => mems[i].logId)
  }

  ghost predicate Below(ids: seq<nat>, bound: nat) {
    forall i :: 0 <= i < |ids| ==> ids[i] < bound
  }

  /** One memtable more than flush jobs, job i holding the table of memtable i. */
  ghost predicate FlushProtocol(db: Db) {
    && (|db.mems| == |db.flushes| + 1 || (db.mems == [] && db.flushes == []))
    && forall i :: 0 <= i < |db.flushes| ==> db.flushes[i].table == db.mems[i].table
  }

  ghost predicate LogsMatch(mems: seq<Mem>) {
    forall i :: 0 <= i < |mems| ==> mems[i].table == Replay(mems[i].log)
  }

  /** Counters grow along the queue and the flush jobs, and along the logs. */
  ghost predicate Numbered(db: Db) {
    && Increasing(Ids(db.queue) + JobIds(db.flushes))
    && Below(Ids(db.queue) + JobIds(db.flushes), db.ssTableCounter + 1)
    && Increasing(LogIds(db.mems)) && Below(LogIds(db.mems), db.logCounter)
  }

  predicate StartInQueue(db: Db) {
    db.start < |db.queue| || (db.start == 0 && db.queue == [])
  }

  /** An outstanding compaction sees the queue it was launched on. */
  predicate CompactionUndisturbed(cfg: Config, db: Db) {
    db.job.Some? ==>
      && cfg.tablesToCompact > 0
      && db.job.value.launchQueue == db.queue
      && db.job.value.launchStart == db.start
      && db.start + cfg.tablesToCompact + 1 <= |db.queue|
      && (db.job.value.result.Some? ==>
            db.job.value.result.value ==
            MergeWindow(cfg.ssTableLimit, db.queue[db.start..db.start + cfg.tablesToCompact + 1]))
  }

  ghost predicate Valid(cfg: Config, db: Db) {
    FlushProtocol(db) && LogsMatch(db.mems) && Numbered(db) && StartInQueue(db) && CompactionUndisturbed(cfg, db)
  }

  lemma EmptyValid(cfg: Config)
    ensures Valid(cfg, EMPTY)
  {
  }

  lemma OneMoreMemTable(cfg: Config, db: Db)
    requires Valid(cfg, db)
    ensures |db.mems| == |db.flushes| + 1 || (db.mems == [] && db.flushes == [])
  {
  }

  // ----- every step keeps the invariant and never fails -----

  lemma ReplayExtend(log: seq<Op>, op: Op)
    ensures Replay(log + [op]) == Apply(Replay(log), op)
  {
    assert (log + [op])[..|log|] == log;
  }

  lemma WriteProtocol(cfg: Config, db: Db, op: Op)
    requires FlushProtocol(db)
    ensures FlushProtocol(Write(cfg, db, op))
  {
  }

  lemma WriteLogs(cfg: Config, db: Db, op: Op)
    requires LogsMatch(db.mems)
    ensures LogsMatch(Write(cfg, db, op).mems)
  {
    var db1 := WithMem(db);
    assert db1.mems[|db1.mems|-1].table == Replay(db1.mems[|db1.mems|-1].log);
    ReplayExtend(db1.mems[|db1.mems|-1].log, op);
  }

  lemma WriteNumbered(cfg: Config, db: Db, op: Op)
    requires Numbered(db)
    ensures Numbered(Write(cfg, db, op))
  {
    var after := Write(cfg, db, op);
    var files, filesAfter := Ids(db.queue) + JobIds(db.flushes), Ids(after.queue) + JobIds(after.flushes);
    assert filesAfter == files || filesAfter == files + [db.ssTableCounter + 1];
    IncreasingAppend(files, db.ssTableCounter + 1);
    var db1 := WithMem(db);
    assert LogIds(db1.mems) == LogIds(db.mems) || LogIds(db1.mems) == LogIds(db.mems) + [db.logCounter];
    IncreasingAppend(LogIds(db.mems), db.logCounter);
    assert LogIds(after.mems) == LogIds(db1.mems) || LogIds(after.mems) == LogIds(db1.mems) + [db1.logCounter];
    IncreasingAppend(LogIds(db1.mems), db1.logCounter);
  }

  lemma IncreasingAppend(ids: seq<nat>, next: nat)
    requires Increasing(ids) && Below(ids, next)
    ensures Increasing(ids + [next]) && Below(ids + [next], next + 1) && Below(ids, next + 1)
  {
  }

  lemma WriteValid(cfg: Config, db: Db, op: Op)
    requires Valid(cfg, db)
    ensures Valid(cfg, Write(cfg, db, op))
  {
    WriteProtocol(cfg, db, op);
    WriteLogs(cfg, db, op);
    WriteNumbered(cfg, db, op);
  }

  lemma HarvestOneValid(cfg: Config, db: Db)
    requires Valid(cfg, db) && db.flushes != [] && db.job == None
    ensures Valid(cfg, HarvestOne(db))
    ensures Chronicle(HarvestOne(db)) == Chronicle(db)
  {
    var after := HarvestOne(db);
    assert Ids(after.queue) + JobIds(after.flushes) == Ids(db.queue) + JobIds(db.flushes);
    assert LogIds(after.mems) == LogIds(db.mems)[1..];
    assert MemTables(after.mems) == MemTables(db.mems)[1..];
    assert TablesOf(after.queue) == TablesOf(db.queue) + [MemTables(db.mems)[0]];
  }

  /** However the jobs finish, the chronological sequence of tables stays what it was. */
  lemma {:induction false} HarvestValid(cfg: Config, db: Db)
    requires Valid(cfg, db) && db.job == None
    ensures Valid(cfg, Harvest(db)) && Harvest(db).job == None
    ensures Chronicle(Harvest(db)) == Chronicle(db)
    ensures Harvest(db).flushes != [] ==> !Harvest(db).flushes[0].done
    ensures db.queue <= Harvest(db).queue
    decreases |db.flushes|
  {
    if db.flushes != [] && db.flushes[0].done {
      HarvestOneValid(cfg, db);
      HarvestValid(cfg, HarvestOne(db));
    }
  }

  /** The window that the outstanding compaction was launched on. */
  function Window(cfg: Config, db: Db): seq<SsTable>
    requires db.start + cfg.tablesToCompact + 1 <= |db.queue|
  {
    db.queue[db.start..db.start + cfg.tablesToCompact + 1]
  }

  lemma IncreasingSplice(older: seq<nat>, w: seq<nat>, newer: seq<nat>, out: seq<nat>)
    requires Increasing(older + w + newer) && w != [] && Increasing(out)
    requires forall i :: 0 <= i < |out| ==> w[0] <= out[i] <= w[|w|-1]
    ensures Increasing(older + out + newer)
  {
    var all := older + w + newer;
    assert forall i :: 0 <= i < |older| ==> all[i] == older[i];
    assert all[|older|] == w[0] && all[|older| + |w| - 1] == w[|w|-1];
    assert forall i :: 0 <= i < |newer| ==> all[|older| + |w| + i] == newer[i];
  }

  /**
   * Applying a compaction never fails. It replaces exactly the window it was launched on:
   * the tables before the window and behind it stay, the start index does not fall and
   * stays in the queue, and the queue gets shorter.
   */
  lemma CheckCompactionValid(cfg: Config, db: Db)
    requires Valid(cfg, db)
    ensures CheckCompaction(cfg, db).Success?
    ensures var after := CheckCompaction(cfg, db).value;
            && Valid(cfg, after)
            && (after.job.Some? ==> after == db)
            && (after != db ==>
                  && db.job.Some? && db.job.value.result.Some?
                  && db.start + cfg.tablesToCompact + 1 <= |db.queue|
                  && after.queue == db.queue[..db.start] + MergeWindow(cfg.ssTableLimit, Window(cfg, db))
                                    + db.queue[db.start + cfg.tablesToCompact + 1..]
                  && db.start <= after.start < |after.queue| < |db.queue|
                  && after.start == db.start + |MergeWindow(cfg.ssTableLimit, Window(cfg, db))| - 1
                  && after.mems == db.mems && after.flushes == db.flushes)
  {
    if db.job.Some? && db.job.value.result.Some? {
      var w := Window(cfg, db);
      var out := MergeWindow(cfg.ssTableLimit, w);
      MergeWindowLength(cfg.ssTableLimit, w);
      var after := CheckCompaction(cfg, db).value;
      CompactionNumbered(cfg, db, after);
    }
  }

  lemma CompactionNumbered(cfg: Config, db: Db, after: Db)
    requires Numbered(db) && db.start + cfg.tablesToCompact + 1 <= |db.queue|
    requires after == db.(queue := after.queue, start := after.start, job := None)
    requires after.queue == db.queue[..db.start] + MergeWindow(cfg.ssTableLimit, Window(cfg, db))
                            + db.queue[db.start + cfg.tablesToCompact + 1..]
    ensures Numbered(after)
  {
    hide MergeWindow;
    var w, n := Window(cfg, db), db.start + cfg.tablesToCompact + 1;
    var older, newer := Ids(db.queue[..db.start]), Ids(db.queue[n..]) + JobIds(db.flushes);
    var out := Ids(MergeWindow(cfg.ssTableLimit, w));
    var files := Ids(db.queue) + JobIds(db.flushes);
    assert files == older + Ids(w) + newer;
    IncreasingParts(older, Ids(w), newer, db.ssTableCounter + 1);
    MergeWindowIds(cfg.ssTableLimit, w);
    IncreasingSplice(older, Ids(w), newer, out);
    BelowParts(older, out, newer, db.ssTableCounter + 1);
    assert Ids(after.queue) + JobIds(after.flushes) == older + out + newer;
  }

  lemma IncreasingParts(a: seq<nat>, b: seq<nat>, c: seq<nat>, bound: nat)
    requires Increasing(a + b + c) && Below(a + b + c, bound)
    ensures Increasing(b) && Below(a, bound) && Below(b, bound) && Below(c, bound)
  {
    var all := a + b + c;
    assert forall i :: 0 <= i < |a| ==> all[i] == a[i];
    assert forall i :: 0 <= i < |b| ==> all[|a| + i] == b[i];
    assert forall i :: 0 <= i < |c| ==> all[|a| + |b| + i] == c[i];
  }

  lemma BelowParts(a: seq<nat>, b: seq<nat>, c: seq<nat>, bound: nat)
    requires Below(a, bound) && Below(b, bound) && Below(c, bound)
    ensures Below(a + b + c, bound)
  {
  }

  lemma CheckFuturesValid(cfg: Config, db: Db)
    requires Valid(cfg, db)
    ensures CheckFutures(cfg, db).Success? && Valid(cfg, CheckFutures(cfg, db).value)
    ensures Chronicle(CheckFutures(cfg, db).value) == Chronicle(CheckCompaction(cfg, db).value)
  {
    CheckCompactionValid(cfg, db);
    var db1 := CheckCompaction(cfg, db).value;
    if db1.job == None {
      HarvestValid(cfg, db1);
    }
  }

  /** No step fails, and every step keeps the invariant. */
  lemma StepValid(cfg: Config, db: Db, e: Event)
    requires Valid(cfg, db)
    ensures Step(cfg, db, e).Success? && Valid(cfg, Step(cfg, db, e).value)
  {
    match e
    case Call(op) =>
      CheckFuturesValid(cfg, db);
      WriteValid(cfg, CheckFutures(cfg, db).value, op);
    case Get(_) =>
      CheckFuturesValid(cfg, db);
    case FlushDone(i) =>
      assert JobIds(FinishFlush(db, i).flushes) == JobIds(db.flushes);
    case CompactionDone =>
  }

  lemma {:induction false} RunValid(cfg: Config, db: Db, es: seq<Event>)
    requires Valid(cfg, db)
    ensures Run(cfg, db, es).Success? && Valid(cfg, Run(cfg, db, es).value)
  {
    if es != [] {
      RunValid(cfg, db, es[..|es|-1]);
      StepValid(cfg, Run(cfg, db, es[..|es|-1]).value, es[|es|-1]);
    }
  }
}
