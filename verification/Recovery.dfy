/**
 * The database directory as a map from file names to contents, what opening a database
 * makes of it, and what a crash leaves behind. Between calls the directory determines the
 * state; at every moment of a call it determines a state that reads the same.
 */
module Recovery {
  import opened Bytes
  import opened Tables
  import opened Compaction
  import opened Grouping
  import opened Errors
  import opened Engine
  import opened Refinement

  /** The extension of a file name; a file with another extension is ignored or removed at opening. */
  datatype Kind = Sst | InProgress | MergedSst | Txl | DeprecatedSst | DeprecatedTxl

  datatype Name = Name(id: nat, kind: Kind)

  datatype File = TableFile(table: Table) | LogFile(ops: seq<Op>) | Torn

  type Disk = map<Name, File>

  // ----- counters in order -----

  ghost predicate ListsIds(ids: seq<nat>, s: set<nat>) {
    Increasing(ids) && forall n :: n in s <==> n in ids
  }

  lemma MinExists(s: set<nat>) returns (m: nat)
    requires s != {}
    ensures m in s && forall n :: n in s ==> m <= n
    decreases |s|
  {
    var k :| k in s;
    m := k;
    assert forall i :: i in s ==> i == k || i in s - {k};
    if s - {k} != {} {
      var n := MinExists(s - {k});
      m := if n < k then n else k;
    }
  }

  function Min(s: set<nat>): (m: nat)
    requires s != {}
    ensures m in s && forall n :: n in s ==> m <= n
  {
    assert exists m :: m in s && forall n :: n in s ==> m <= n by {
      var m := MinExists(s);
    }
    var m :| m in s && forall n :: n in s ==> m <= n;
    m
  }

  /** File names sorted by their counters. */
  function SortedIds(s: set<nat>): (ids: seq<nat>)
    ensures forall n :: n in ids <==> n in s
    decreases |s|
  {
    if s == {} then [] else [Min(s)] + SortedIds(s - {Min(s)})
  }

  lemma {:induction false} SortedIdsIncreasing(s: set<nat>)
    ensures Increasing(SortedIds(s))
    decreases |s|
  {
    if s != {} {
      var m := Min(s);
      SortedIdsIncreasing(s - {m});
      var rest := SortedIds(s - {m});
      forall i | 0 <= i < |rest| ensures m < rest[i] {
        assert rest[i] in s - {m};
      }
      IncreasingCons(m, rest);
    }
  }

  /** An increasing listing starts with the least counter, and goes on with the others. */
  lemma LeastListedFirst(ids: seq<nat>, s: set<nat>)
    requires ListsIds(ids, s) && s != {}
    ensures ids != [] && ids[0] == Min(s) && ListsIds(ids[1..], s - {Min(s)})
  {
    var m := Min(s);
    assert m in ids;
    assert ids[0] in ids && ids[0] == m;
    forall n ensures n in s - {m} <==> n in ids[1..] {
      if n in ids[1..] {
        var i :| 0 <= i < |ids[1..]| && ids[1..][i] == n;
        assert ids[i + 1] == n && ids[0] < ids[i + 1];
      }
    }
  }

  /** There is only one way to put counters in order. */
  lemma {:induction false} SortedIdsUnique(ids: seq<nat>, s: set<nat>)
    requires ListsIds(ids, s)
    ensures ids == SortedIds(s)
    decreases |s|
  {
    assert ids != [] ==> ids[0] in ids;
    if s != {} {
      hide ListsIds;
      var m := Min(s);
      LeastListedFirst(ids, s);
      SortedIdsUnique(ids[1..], s - {m});
      assert ids == [m] + ids[1..];
    }
  }

  // ----- opening a database -----

  function IdsOf(disk: Disk, kind: Kind): (ids: set<nat>)
    ensures forall id :: id in ids <==> Name(id, kind) in disk
  {
    set name | name in disk && name.kind == kind :: name.id
  }

  function LoadTables(disk: Disk, ids: seq<nat>): Result<seq<SsTable>>
    requires forall i :: 0 <= i < |ids| ==> Name(ids[i], Sst) in disk
  {
    if ids == [] then Success([])
    else
      var q :- LoadTables(disk, ids[..|ids|-1]);
      var id := ids[|ids|-1];
      match disk[Name(id, Sst)]
      case TableFile(t) => Success(q + [SsTable(id, t)])
      case _ => Failure(EndOfFile)
  }

  function LoadLogs(disk: Disk, ids: seq<nat>): Result<seq<Mem>>
    requires forall i :: 0 <= i < |ids| ==> Name(ids[i], Txl) in disk
  {
    if ids == [] then Success([])
    else
      var mems :- LoadLogs(disk, ids[..|ids|-1]);
      var id := ids[|ids|-1];
      match disk[Name(id, Txl)]
      case LogFile(ops) => Success(mems + [Mem(id, ops, Replay(ops))])
      case _ => Failure(UnknownTransaction)
  }

  /** The jobs of the first n memtables, numbered from base on. */
  function LaunchedJobs(mems: seq<Mem>, base: nat, n: nat): seq<FlushJob>
    requires n <= |mems|
  {
    seq(n, i requires 0 <= i < n => FlushJob(base + i + 1, mems[i].table, false))
  }

  /** Every loaded memtable but the last is flushed at once. */
  function Relaunched(mems: seq<Mem>, base: nat): seq<FlushJob> {
    LaunchedJobs(mems, base, if mems == [] then 0 else |mems| - 1)
  }

  /** The state of a database opened on these tables and logs. */
  function Opened(q: seq<SsTable>, mems: seq<Mem>): Db {
    var base := if q == [] then 0 else q[|q|-1].id + 1;
    var jobs := Relaunched(mems, base);
    Db(mems, jobs, q, 0, None, base + |jobs|, if mems == [] then 0 else mems[|mems|-1].logId + 1)
  }

  function Init(disk: Disk): Result<Db> {
    var q :- LoadTables(disk, SortedIds(IdsOf(disk, Sst)));
    var mems :- LoadLogs(disk, SortedIds(IdsOf(disk, Txl)));
    Success(Opened(q, mems))
  }

  // ----- a directory that holds a state -----

  ghost predicate TablesOnDisk(q: seq<SsTable>, disk: Disk) {
    && (forall id :: Name(id, Sst) in disk <==> id in Ids(q))
    && forall t :: t in q ==> Name(t.id, Sst) in disk && disk[Name(t.id, Sst)] == TableFile(t.table)
  }

  ghost predicate LogsOnDisk(mems: seq<Mem>, disk: Disk) {
    && (forall id :: Name(id, Txl) in disk <==> id in LogIds(mems))
    && forall i :: 0 <= i < |mems| ==>
         Name(mems[i].logId, Txl) in disk && disk[Name(mems[i].logId, Txl)] == LogFile(mems[i].log)
  }

  /** A finished job has left its file, still under its temporary name. */
  ghost predicate JobsOnDisk(jobs: seq<FlushJob>, disk: Disk) {
    forall i :: 0 <= i < |jobs| && jobs[i].done ==>
      Name(jobs[i].id, InProgress) in disk && disk[Name(jobs[i].id, InProgress)] == TableFile(jobs[i].table)
  }

  /** A finished compaction has left its files, still under their temporary names. */
  ghost predicate MergedOnDisk(merged: seq<SsTable>, disk: Disk) {
    forall i :: 0 <= i < |merged| ==>
      Name(merged[i].id, MergedSst) in disk && disk[Name(merged[i].id, MergedSst)] == TableFile(merged[i].table)
  }

  function MergedBy(job: Option<CompactionJob>): seq<SsTable> {
    if job.Some? && job.value.result.Some? then job.value.result.value else []
  }

  /** The directory between calls; there may be other scratch files and deprecated files. */
  ghost predicate OnDisk(db: Db, disk: Disk) {
    && TablesOnDisk(db.queue, disk) && LogsOnDisk(db.mems, disk)
    && JobsOnDisk(db.flushes, disk) && MergedOnDisk(MergedBy(db.job), disk)
  }

  lemma {:induction false} TablesLoad(q: seq<SsTable>, n: nat, disk: Disk)
    requires TablesOnDisk(q, disk) && n <= |q|
    ensures forall i :: 0 <= i < n ==> Name(Ids(q)[i], Sst) in disk
    ensures LoadTables(disk, Ids(q)[..n]) == Success(q[..n])
  {
    if n > 0 {
      TablesLoad(q, n - 1, disk);
      assert q[n-1] in q;
      assert Ids(q)[..n][..n-1] == Ids(q)[..n-1];
      assert q[..n] == q[..n-1] + [q[n-1]];
    }
  }

  lemma {:induction false} LogsLoad(mems: seq<Mem>, n: nat, disk: Disk)
    requires LogsOnDisk(mems, disk) && LogsMatch(mems) && n <= |mems|
    ensures forall i :: 0 <= i < n ==> Name(LogIds(mems)[i], Txl) in disk
    ensures LoadLogs(disk, LogIds(mems)[..n]) == Success(mems[..n])
  {
    if n > 0 {
      LogsLoad(mems, n - 1, disk);
      assert LogIds(mems)[..n][..n-1] == LogIds(mems)[..n-1];
      assert mems[..n] == mems[..n-1] + [mems[n-1]];
    }
  }

  /** The directory rebuilds the very sequences of tables and of memtables. */
  lemma OpensAs(q: seq<SsTable>, mems: seq<Mem>, disk: Disk)
    requires TablesOnDisk(q, disk) && LogsOnDisk(mems, disk) && LogsMatch(mems)
    requires Increasing(Ids(q)) && Increasing(LogIds(mems))
    ensures Init(disk) == Success(Opened(q, mems))
  {
    hide LoadTables, LoadLogs, SortedIds, Opened, Replay;
    SortedIdsUnique(Ids(q), IdsOf(disk, Sst));
    SortedIdsUnique(LogIds(mems), IdsOf(disk, Txl));
    TablesLoad(q, |q|, disk);
    LogsLoad(mems, |mems|, disk);
    assert Ids(q)[..|q|] == Ids(q) && q[..|q|] == q;
    assert LogIds(mems)[..|mems|] == LogIds(mems) && mems[..|mems|] == mems;
  }

  lemma LoadNoTables(disk: Disk)
    ensures LoadTables(disk, []) == Success([])
  {
  }

  lemma LoadOneMoreTable(disk: Disk, ids: seq<nat>, i: nat)
    requires i < |ids| && forall j :: 0 <= j < |ids| ==> Name(ids[j], Sst) in disk
    requires LoadTables(disk, ids[..i]).Success?
    ensures match disk[Name(ids[i], Sst)]
            case TableFile(t) =>
              LoadTables(disk, ids[..i+1]) == Success(LoadTables(disk, ids[..i]).value + [SsTable(ids[i], t)])
            case _ => LoadTables(disk, ids[..i+1]) == Failure(EndOfFile)
  {
    assert ids[..i+1][..i] == ids[..i];
  }

  /** The first i logs have been loaded as mems, and jobs launched for all but the last log. */
  ghost predicate Reloaded(disk: Disk, ids: seq<nat>, i: nat, base: nat, mems: seq<Mem>, jobs: seq<FlushJob>)
    requires forall j :: 0 <= j < |ids| ==> Name(ids[j], Txl) in disk
  {
    && i <= |ids| && LoadLogs(disk, ids[..i]) == Success(mems) && |mems| == i
    && (i > 0 ==> mems[i-1].logId == ids[i-1])
    && |jobs| == (if i == 0 || i < |ids| then i else i - 1)
    && jobs == LaunchedJobs(mems, base, |jobs|)
  }

  lemma ReloadedNothing(disk: Disk, ids: seq<nat>, base: nat)
    requires forall j :: 0 <= j < |ids| ==> Name(ids[j], Txl) in disk
    ensures Reloaded(disk, ids, 0, base, [], [])
  {
  }

  lemma ReloadedStep(disk: Disk, ids: seq<nat>, i: nat, base: nat, mems: seq<Mem>, jobs: seq<FlushJob>)
    requires i < |ids| && forall j :: 0 <= j < |ids| ==> Name(ids[j], Txl) in disk
    requires Reloaded(disk, ids, i, base, mems, jobs)
    ensures match disk[Name(ids[i], Txl)]
            case LogFile(ops) =>
              var launched := if i == |ids| - 1 then [] else [FlushJob(base + |jobs| + 1, Replay(ops), false)];
              Reloaded(disk, ids, i + 1, base, mems + [Mem(ids[i], ops, Replay(ops))], jobs + launched)
            case _ => LoadLogs(disk, ids) == Failure(UnknownTransaction)
  {
    hide Replay, LaunchedJobs;
    assert ids[..i+1][..i] == ids[..i];
    if LoadLogs(disk, ids[..i+1]).Failure? {
      LoadLogsFails(disk, ids, i + 1);
    } else {
      LaunchedOneMore(mems, LoadLogs(disk, ids[..i+1]).value[i], base, |jobs|);
    }
  }

  lemma LaunchedOneMore(mems: seq<Mem>, m: Mem, base: nat, n: nat)
    requires n <= |mems|
    ensures LaunchedJobs(mems + [m], base, n) == LaunchedJobs(mems, base, n)
    ensures n == |mems| ==>
              LaunchedJobs(mems + [m], base, n + 1) == LaunchedJobs(mems, base, n) + [FlushJob(base + n + 1, m.table, false)]
  {
  }

  lemma ReloadedAll(disk: Disk, ids: seq<nat>, base: nat, mems: seq<Mem>, jobs: seq<FlushJob>)
    requires forall j :: 0 <= j < |ids| ==> Name(ids[j], Txl) in disk
    requires Reloaded(disk, ids, |ids|, base, mems, jobs)
    ensures LoadLogs(disk, ids) == Success(mems) && jobs == Relaunched(mems, base)
    ensures |mems| == |ids| && (ids != [] ==> mems[|ids|-1].logId == ids[|ids|-1])
  {
    assert ids[..|ids|] == ids;
  }

  lemma {:induction false} LoadTablesFails(disk: Disk, ids: seq<nat>, n: nat)
    requires n <= |ids| && forall i :: 0 <= i < |ids| ==> Name(ids[i], Sst) in disk
    requires LoadTables(disk, ids[..n]).Failure?
    ensures LoadTables(disk, ids) == LoadTables(disk, ids[..n])
  {
    if n == |ids| {
      assert ids[..n] == ids;
    } else {
      assert ids[..|ids|-1][..n] == ids[..n];
      LoadTablesFails(disk, ids[..|ids|-1], n);
    }
  }

  lemma {:induction false} LoadLogsFails(disk: Disk, ids: seq<nat>, n: nat)
    requires n <= |ids| && forall i :: 0 <= i < |ids| ==> Name(ids[i], Txl) in disk
    requires LoadLogs(disk, ids[..n]).Failure?
    ensures LoadLogs(disk, ids) == LoadLogs(disk, ids[..n])
  {
    if n == |ids| {
      assert ids[..n] == ids;
    } else {
      assert ids[..|ids|-1][..n] == ids[..n];
      LoadLogsFails(disk, ids[..|ids|-1], n);
    }
  }

  lemma {:induction false} LoadedTables(disk: Disk, ids: seq<nat>)
    requires forall i :: 0 <= i < |ids| ==> Name(ids[i], Sst) in disk
    ensures LoadTables(disk, ids).Success? ==>
              var q := LoadTables(disk, ids).value;
              Ids(q) == ids && forall i :: 0 <= i < |ids| ==> disk[Name(ids[i], Sst)] == TableFile(q[i].table)
  {
    if ids != [] {
      LoadedTables(disk, ids[..|ids|-1]);
    }
  }

  lemma {:induction false} LoadedLogs(disk: Disk, ids: seq<nat>)
    requires forall i :: 0 <= i < |ids| ==> Name(ids[i], Txl) in disk
    ensures LoadLogs(disk, ids).Success? ==>
              var mems := LoadLogs(disk, ids).value;
              && LogIds(mems) == ids && LogsMatch(mems)
              && forall i :: 0 <= i < |ids| ==> disk[Name(ids[i], Txl)] == LogFile(mems[i].log)
  {
    if ids != [] {
      LoadedLogs(disk, ids[..|ids|-1]);
    }
  }

  /** Whatever the directory holds: if it opens at all, it opens as a database in order. */
  lemma InitValid(cfg: Config, disk: Disk)
    ensures Init(disk).Success? ==> Valid(cfg, Init(disk).value)
  {
    var tables, logs := SortedIds(IdsOf(disk, Sst)), SortedIds(IdsOf(disk, Txl));
    SortedIdsIncreasing(IdsOf(disk, Sst));
    SortedIdsIncreasing(IdsOf(disk, Txl));
    LoadedTables(disk, tables);
    LoadedLogs(disk, logs);
    if Init(disk).Success? {
      OpenedValid(cfg, LoadTables(disk, tables).value, LoadLogs(disk, logs).value);
    }
  }

  lemma LoadedTablesOnDisk(disk: Disk, ids: seq<nat>)
    requires ids == SortedIds(IdsOf(disk, Sst)) && LoadTables(disk, ids).Success?
    ensures TablesOnDisk(LoadTables(disk, ids).value, disk)
  {
    LoadedTables(disk, ids);
    hide LoadTables, SortedIds;
    var q := LoadTables(disk, ids).value;
    assert forall i :: 0 <= i < |q| ==> ids[i] == q[i].id && ids[i] in ids;
  }

  lemma LoadedLogsOnDisk(disk: Disk, ids: seq<nat>)
    requires ids == SortedIds(IdsOf(disk, Txl)) && LoadLogs(disk, ids).Success?
    ensures LogsOnDisk(LoadLogs(disk, ids).value, disk)
  {
    LoadedLogs(disk, ids);
    hide LoadLogs, SortedIds, Replay;
    var mems := LoadLogs(disk, ids).value;
    assert forall i :: 0 <= i < |mems| ==> ids[i] == mems[i].logId && ids[i] in ids;
  }

  /** The directory holds the state it has been opened as. */
  lemma InitOnDisk(disk: Disk)
    ensures Init(disk).Success? ==> OnDisk(Init(disk).value, disk)
  {
    hide LoadTables, LoadLogs, TablesOnDisk, LogsOnDisk;
    if Init(disk).Success? {
      LoadedTablesOnDisk(disk, SortedIds(IdsOf(disk, Sst)));
      LoadedLogsOnDisk(disk, SortedIds(IdsOf(disk, Txl)));
      assert MergedBy(Init(disk).value.job) == [];
    }
  }

  /** An opened database is in order, and its new counters are above all the old ones. */
  lemma OpenedValid(cfg: Config, q: seq<SsTable>, mems: seq<Mem>)
    requires Increasing(Ids(q)) && Increasing(LogIds(mems)) && LogsMatch(mems)
    ensures Valid(cfg, Opened(q, mems))
    ensures Chronicle(Opened(q, mems)) == TablesOf(q) + MemTables(mems)
    ensures forall i :: 0 <= i < |q| ==> q[i].id < Opened(q, mems).ssTableCounter
    ensures forall i :: 0 <= i < |mems| ==> mems[i].logId < Opened(q, mems).logCounter
  {
    OpenedCounters(q, mems);
    hide Numbered, Increasing;
  }

  lemma OpenedCounters(q: seq<SsTable>, mems: seq<Mem>)
    requires Increasing(Ids(q)) && Increasing(LogIds(mems))
    ensures Numbered(Opened(q, mems))
    ensures forall i :: 0 <= i < |q| ==> q[i].id < Opened(q, mems).ssTableCounter
    ensures forall i :: 0 <= i < |mems| ==> mems[i].logId < Opened(q, mems).logCounter
  {
    var db := Opened(q, mems);
    var base := if q == [] then 0 else q[|q|-1].id + 1;
    assert forall i :: 0 <= i < |q| ==> Ids(q)[i] == q[i].id;
    assert forall i :: 0 <= i < |mems| ==> LogIds(mems)[i] == mems[i].logId;
    IncreasingIds(q);
    OpenedNumbered(Ids(q), JobIds(db.flushes), base);
  }

  lemma OpenedNumbered(ids: seq<nat>, jobs: seq<nat>, base: nat)
    requires Increasing(ids) && Below(ids, base)
    requires forall i :: 0 <= i < |jobs| ==> jobs[i] == base + i + 1
    ensures Increasing(ids + jobs) && Below(ids + jobs, base + |jobs| + 1)
  {
  }

  /** What opening the directory must come to: a database in order that reads like db. */
  ghost predicate Recovers(cfg: Config, disk: Disk, db: Db) {
    Init(disk).Success? && Valid(cfg, Init(disk).value)
    && forall k :: GetValue(Init(disk).value, k) == GetValue(db, k)
  }

  lemma RecoversAs(cfg: Config, q: seq<SsTable>, mems: seq<Mem>, disk: Disk, db: Db)
    requires TablesOnDisk(q, disk) && LogsOnDisk(mems, disk) && LogsMatch(mems)
    requires Increasing(Ids(q)) && Increasing(LogIds(mems))
    requires forall k :: Find(TablesOf(q) + MemTables(mems), k) == Find(Chronicle(db), k)
    ensures Recovers(cfg, disk, db)
  {
    OpensAs(q, mems, disk);
    OpenedValid(cfg, q, mems);
    forall k ensures GetValue(Opened(q, mems), k) == GetValue(db, k) {
      GetReadsChronicle(Opened(q, mems), k);
      GetReadsChronicle(db, k);
    }
  }

  lemma ValidCounters(cfg: Config, db: Db)
    requires Valid(cfg, db)
    ensures Increasing(Ids(db.queue)) && Increasing(LogIds(db.mems)) && LogsMatch(db.mems)
    ensures db.flushes != [] ==> forall i :: 0 <= i < |db.queue| ==> db.queue[i].id < db.flushes[0].id
    ensures forall i :: 0 <= i < |db.mems| ==> db.mems[i].logId < db.logCounter
  {
    var files := Ids(db.queue) + JobIds(db.flushes);
    assert forall i :: 0 <= i < |db.queue| ==> files[i] == Ids(db.queue)[i] == db.queue[i].id;
    assert db.flushes != [] ==> files[|db.queue|] == db.flushes[0].id;
    assert forall i :: 0 <= i < |db.mems| ==> LogIds(db.mems)[i] == db.mems[i].logId;
  }

  /** A crash between calls, and a clean reopening, read as before. */
  lemma RecoversBetweenCalls(cfg: Config, db: Db, disk: Disk)
    requires Valid(cfg, db) && OnDisk(db, disk)
    ensures Recovers(cfg, disk, db)
    ensures Init(disk).value.queue == db.queue && Init(disk).value.mems == db.mems
  {
    ValidCounters(cfg, db);
    RecoversAs(cfg, db.queue, db.mems, disk, db);
    OpensAs(db.queue, db.mems, disk);
  }

  // ----- what a call does to the directory, one file operation at a time -----

  /** The finished file of a flush job loses its temporary extension. */
  function RenameFlushed(disk: Disk, id: nat): Disk {
    if Name(id, InProgress) in disk
    then (disk - {Name(id, InProgress)})[Name(id, Sst) := disk[Name(id, InProgress)]]
    else disk
  }

  function DeprecateLog(disk: Disk, id: nat): Disk {
    if Name(id, Txl) in disk
    then (disk - {Name(id, Txl)})[Name(id, DeprecatedTxl) := disk[Name(id, Txl)]]
    else disk
  }

  function CreateLog(disk: Disk, id: nat): Disk {
    disk[Name(id, Txl) := LogFile([])]
  }

  function AppendLog(disk: Disk, id: nat, op: Op): Disk {
    if Name(id, Txl) in disk && disk[Name(id, Txl)].LogFile?
    then disk[Name(id, Txl) := LogFile(disk[Name(id, Txl)].ops + [op])]
    else disk
  }

  /** The directories that a harvest goes through, in order: two for each flushed table. */
  function HarvestDisks(db: Db, disk: Disk): seq<Disk>
    decreases |db.flushes|
  {
    if db.flushes == [] || db.mems == [] || !db.flushes[0].done then []
    else
      var renamed := RenameFlushed(disk, db.flushes[0].id);
      var deprecated := DeprecateLog(renamed, db.mems[0].logId);
      [renamed, deprecated] + HarvestDisks(HarvestOne(db), deprecated)
  }

  /** The directory with a log to write to. */
  function WithLog(db: Db, disk: Disk): Disk {
    if db.mems == [] then CreateLog(disk, db.logCounter) else disk
  }

  function LoggedDisk(db: Db, disk: Disk, op: Op): Disk {
    var mems := WithMem(db).mems;
    AppendLog(WithLog(db, disk), mems[|mems|-1].logId, op)
  }

  function WrittenDisk(cfg: Config, db: Db, disk: Disk, op: Op): Disk {
    var after := Write(cfg, db, op);
    if |after.mems| == |WithMem(db).mems| then LoggedDisk(db, disk, op)
    else CreateLog(LoggedDisk(db, disk, op), after.logCounter - 1)
  }

  // ----- harvesting -----

  lemma RenamedTables(q: seq<SsTable>, t: SsTable, disk: Disk)
    requires TablesOnDisk(q, disk)
    requires Name(t.id, InProgress) in disk && disk[Name(t.id, InProgress)] == TableFile(t.table)
    requires forall i :: 0 <= i < |q| ==> q[i].id < t.id
    ensures TablesOnDisk(q + [t], RenameFlushed(disk, t.id))
  {
    var after := RenameFlushed(disk, t.id);
    assert Ids(q + [t]) == Ids(q) + [t.id];
  }

  lemma DeprecatedLogs(mems: seq<Mem>, disk: Disk)
    requires LogsOnDisk(mems, disk) && mems != [] && Increasing(LogIds(mems))
    ensures LogsOnDisk(mems[1..], DeprecateLog(disk, mems[0].logId))
  {
    var rest, first := LogIds(mems[1..]), mems[0].logId;
    LogsApart(mems);
    assert LogIds(mems) == [first] + rest;
    assert forall i :: 0 <= i < |rest| ==> rest[i] == mems[i + 1].logId != first;
    assert forall i :: 0 <= i < |mems[1..]| ==> mems[1..][i] == mems[i + 1];
  }

  lemma LogsApart(mems: seq<Mem>)
    requires Increasing(LogIds(mems))
    ensures forall i, j :: 0 <= i < j < |mems| ==> mems[i].logId != mems[j].logId
  {
    assert forall i :: 0 <= i < |mems| ==> LogIds(mems)[i] == mems[i].logId;
  }

  /** A table that stands in the queue and in the memtables as well is found as before. */
  lemma FindTwice(a: seq<Table>, t: Table, b: seq<Table>, k: Key)
    ensures Find((a + [t]) + ([t] + b), k) == Find(a + ([t] + b), k)
  {
    FindAppend(a + [t], [t] + b, k);
    FindAppend(a, [t] + b, k);
    FindAppend([t], b, k);
    FindNewest(a, t, k);
    FindNewest([], t, k);
    assert [] + [t] == [t];
  }

  /** After the rename the table is there twice, as a file and as a log; it reads the same. */
  lemma RenamedRecovers(cfg: Config, db: Db, disk: Disk)
    requires Valid(cfg, db) && OnDisk(db, disk) && db.flushes != [] && db.flushes[0].done
    ensures var renamed := RenameFlushed(disk, db.flushes[0].id);
            && Recovers(cfg, renamed, db)
            && TablesOnDisk(HarvestOne(db).queue, renamed) && LogsOnDisk(db.mems, renamed)
  {
    var t := SsTable(db.flushes[0].id, db.flushes[0].table);
    var renamed := RenameFlushed(disk, t.id);
    ValidCounters(cfg, db);
    RenamedTables(db.queue, t, disk);
    assert LogsOnDisk(db.mems, renamed);
    CountersAfterHarvest(cfg, db);
    var rest := MemTables(db.mems[1..]);
    assert MemTables(db.mems) == [t.table] + rest;
    assert TablesOf(db.queue + [t]) == TablesOf(db.queue) + [t.table];
    forall k ensures Find(TablesOf(db.queue + [t]) + MemTables(db.mems), k) == Find(Chronicle(db), k) {
      FindTwice(TablesOf(db.queue), t.table, rest, k);
    }
    RecoversAs(cfg, db.queue + [t], db.mems, renamed, db);
  }

  lemma CountersAfterHarvest(cfg: Config, db: Db)
    requires Valid(cfg, db) && db.flushes != []
    ensures Increasing(Ids(HarvestOne(db).queue))
  {
    var files := Ids(db.queue) + JobIds(db.flushes);
    assert Ids(HarvestOne(db).queue) == files[..|db.queue| + 1];
  }

  /** After the rename the directory opens with the table in the queue and in the memtables. */
  lemma RenamedOpens(cfg: Config, db: Db, disk: Disk)
    requires Valid(cfg, db) && OnDisk(db, disk) && db.flushes != [] && db.flushes[0].done
    ensures Init(RenameFlushed(disk, db.flushes[0].id)) == Success(Opened(HarvestOne(db).queue, db.mems))
  {
    hide Init, RenameFlushed, TablesOnDisk, LogsOnDisk, Opened;
    RenamedRecovers(cfg, db, disk);
    CountersAfterHarvest(cfg, db);
    ValidCounters(cfg, db);
    OpensAs(HarvestOne(db).queue, db.mems, RenameFlushed(disk, db.flushes[0].id));
  }

  lemma HarvestedOnDisk(cfg: Config, db: Db, disk: Disk)
    requires Valid(cfg, db) && OnDisk(db, disk) && db.flushes != [] && db.flushes[0].done
    ensures OnDisk(HarvestOne(db), DeprecateLog(RenameFlushed(disk, db.flushes[0].id), db.mems[0].logId))
  {
    hide Recovers, Numbered, LogsMatch, TablesOnDisk, LogsOnDisk, RenameFlushed, DeprecateLog, MergedOnDisk;
    RenamedRecovers(cfg, db, disk);
    ValidCounters(cfg, db);
    var renamed := RenameFlushed(disk, db.flushes[0].id);
    DeprecatedLogs(db.mems, renamed);
    LaterJobsKept(cfg, db, disk);
    DeprecationKeeps(HarvestOne(db), renamed, db.mems[0].logId);
    MergedKept(MergedBy(db.job), disk, db.flushes[0].id, db.mems[0].logId);
  }

  lemma MergedKept(merged: seq<SsTable>, disk: Disk, id: nat, logId: nat)
    requires MergedOnDisk(merged, disk)
    ensures MergedOnDisk(merged, DeprecateLog(RenameFlushed(disk, id), logId))
  {
  }

  /** The files of the later jobs stay. */
  lemma LaterJobsKept(cfg: Config, db: Db, disk: Disk)
    requires Valid(cfg, db) && JobsOnDisk(db.flushes, disk) && db.flushes != []
    ensures JobsOnDisk(db.flushes[1..], RenameFlushed(disk, db.flushes[0].id))
  {
    JobsApart(cfg, db);
    hide Valid;
    assert forall i :: 0 <= i < |db.flushes[1..]| ==> db.flushes[1..][i] == db.flushes[i + 1];
  }

  lemma DeprecationKeeps(db: Db, disk: Disk, id: nat)
    requires TablesOnDisk(db.queue, disk) && JobsOnDisk(db.flushes, disk)
    ensures TablesOnDisk(db.queue, DeprecateLog(disk, id)) && JobsOnDisk(db.flushes, DeprecateLog(disk, id))
  {
  }

  lemma JobsApart(cfg: Config, db: Db)
    requires Valid(cfg, db) && db.flushes != []
    ensures forall i :: 0 < i < |db.flushes| ==> db.flushes[i].id != db.flushes[0].id
  {
    var files := Ids(db.queue) + JobIds(db.flushes);
    assert forall i :: 0 <= i < |db.flushes| ==> files[|db.queue| + i] == db.flushes[i].id;
  }

  /** A crash at any moment of a harvest reads as before the call. */
  lemma {:induction false} HarvestRecovers(cfg: Config, db: Db, disk: Disk, i: nat)
    requires Valid(cfg, db) && OnDisk(db, disk) && db.job == None && i < |HarvestDisks(db, disk)|
    ensures Recovers(cfg, HarvestDisks(db, disk)[i], db)
    decreases |db.flushes|
  {
    hide Valid, OnDisk, Recovers, RenameFlushed, DeprecateLog, Init, Chronicle, GetValue;
    var renamed := RenameFlushed(disk, db.flushes[0].id);
    var deprecated := DeprecateLog(renamed, db.mems[0].logId);
    if i == 0 {
      RenamedRecovers(cfg, db, disk);
    } else {
      HarvestOneValid(cfg, db);
      HarvestedOnDisk(cfg, db, disk);
      SameChronicleRecovers(cfg, db, HarvestOne(db));
      if i == 1 {
        RecoversBetweenCalls(cfg, HarvestOne(db), deprecated);
      } else {
        HarvestRecovers(cfg, HarvestOne(db), deprecated, i - 2);
      }
      RecoversAlike(cfg, HarvestDisks(db, disk)[i], HarvestOne(db), db);
    }
  }

  lemma SameChronicleRecovers(cfg: Config, db: Db, after: Db)
    requires Chronicle(after) == Chronicle(db)
    ensures forall k :: GetValue(after, k) == GetValue(db, k)
  {
    forall k ensures GetValue(after, k) == GetValue(db, k) {
      GetReadsChronicle(after, k);
      GetReadsChronicle(db, k);
    }
  }

  lemma RecoversAlike(cfg: Config, disk: Disk, db: Db, other: Db)
    requires Recovers(cfg, disk, db) && forall k :: GetValue(other, k) == GetValue(db, k)
    ensures Recovers(cfg, disk, other)
  {
  }

  /** The directory when the harvest is over. */
  function HarvestedDisk(db: Db, disk: Disk): Disk {
    var disks := HarvestDisks(db, disk);
    if disks == [] then disk else disks[|disks|-1]
  }

  lemma {:induction false} HarvestLeavesOnDisk(cfg: Config, db: Db, disk: Disk)
    requires Valid(cfg, db) && OnDisk(db, disk) && db.job == None
    ensures OnDisk(Harvest(db), HarvestedDisk(db, disk))
    decreases |db.flushes|
  {
    if db.flushes != [] && db.flushes[0].done {
      var deprecated := DeprecateLog(RenameFlushed(disk, db.flushes[0].id), db.mems[0].logId);
      HarvestOneValid(cfg, db);
      HarvestedOnDisk(cfg, db, disk);
      HarvestLeavesOnDisk(cfg, HarvestOne(db), deprecated);
    }
  }

  // ----- writing -----

  lemma CreatedLog(mems: seq<Mem>, disk: Disk, id: nat)
    requires LogsOnDisk(mems, disk) && forall i :: 0 <= i < |mems| ==> mems[i].logId < id
    ensures LogsOnDisk(mems + [Mem(id, [], map[])], CreateLog(disk, id))
  {
    assert LogIds(mems + [Mem(id, [], map[])]) == LogIds(mems) + [id];
  }

  lemma AppendedLog(mems: seq<Mem>, disk: Disk, op: Op)
    requires LogsOnDisk(mems, disk) && mems != [] && Increasing(LogIds(mems))
    ensures LogsOnDisk(mems[|mems|-1 := Logged(mems[|mems|-1], op)], AppendLog(disk, mems[|mems|-1].logId, op))
  {
    var last := |mems| - 1;
    var after := mems[last := Logged(mems[last], op)];
    assert LogIds(after) == LogIds(mems);
    LogsApart(mems);
  }

  /** The state between logging an operation and freezing the memtable. */
  function LoggedDb(db: Db, op: Op): Db {
    var db1 := WithMem(db);
    var last := |db1.mems| - 1;
    db1.(mems := db1.mems[last := Logged(db1.mems[last], op)])
  }

  lemma WithMemValid(cfg: Config, db: Db)
    requires Valid(cfg, db)
    ensures Valid(cfg, WithMem(db))
    ensures forall k :: GetValue(WithMem(db), k) == GetValue(db, k)
  {
    if db.mems == [] {
      forall k ensures GetValue(WithMem(db), k) == GetValue(db, k) {
        assert Find(MemTables(WithMem(db).mems), k) == None;
      }
    }
  }

  lemma WithLogOnDisk(cfg: Config, db: Db, disk: Disk)
    requires Valid(cfg, db) && OnDisk(db, disk)
    ensures Valid(cfg, WithMem(db)) && OnDisk(WithMem(db), WithLog(db, disk))
    ensures forall k :: GetValue(WithMem(db), k) == GetValue(db, k)
  {
    WithMemValid(cfg, db);
    hide Valid, GetValue;
    if db.mems == [] {
      CreatedLog([], disk, db.logCounter);
      assert [] + [Mem(db.logCounter, [], map[])] == WithMem(db).mems;
      hide LogsOnDisk;
    }
  }

  lemma LoggedReads(cfg: Config, db: Db, op: Op, k: Key)
    ensures GetValue(LoggedDb(db, op), k) == GetValue(Write(cfg, db, op), k)
  {
    hide NeedsFlush;
    var after, written := MemTables(LoggedDb(db, op).mems), MemTables(Write(cfg, db, op).mems);
    assert written == after || written == after + [map[]];
    FindEmptyTable(after, k);
  }

  lemma LoggedValid(cfg: Config, db: Db, op: Op)
    requires Valid(cfg, WithMem(db))
    ensures Valid(cfg, LoggedDb(db, op))
  {
    hide Apply;
    var db1, after := WithMem(db), LoggedDb(db, op);
    assert LogIds(after.mems) == LogIds(db1.mems);
    ReplayExtend(db1.mems[|db1.mems|-1].log, op);
  }

  lemma LoggedOnDisk(cfg: Config, db: Db, disk: Disk, op: Op)
    requires Valid(cfg, db) && OnDisk(db, disk)
    ensures Valid(cfg, LoggedDb(db, op)) && OnDisk(LoggedDb(db, op), LoggedDisk(db, disk, op))
  {
    hide Valid, Apply, TablesOnDisk, LogsOnDisk;
    WithLogOnDisk(cfg, db, disk);
    LoggedValid(cfg, db, op);
    var db1, log := WithMem(db), WithLog(db, disk);
    ValidCounters(cfg, db1);
    AppendedLog(db1.mems, log, op);
    AppendKeepsTables(db1, log, db1.mems[|db1.mems|-1].logId, op);
  }

  lemma AppendKeepsTables(db: Db, disk: Disk, id: nat, op: Op)
    requires TablesOnDisk(db.queue, disk) && JobsOnDisk(db.flushes, disk)
    ensures TablesOnDisk(db.queue, AppendLog(disk, id, op)) && JobsOnDisk(db.flushes, AppendLog(disk, id, op))
  {
  }

  lemma WriteFromLogged(cfg: Config, db: Db, op: Op)
    ensures var logged, after := LoggedDb(db, op), Write(cfg, db, op);
            || (after == logged && |after.mems| == |WithMem(db).mems|)
            || (after == LaunchFlush(PushMem(logged), logged.mems[|logged.mems|-1].table)
                && |after.mems| == |WithMem(db).mems| + 1)
  {
    hide NeedsFlush, Apply;
  }

  /** A full memtable gets an empty log behind it, and a job that has not ended. */
  lemma FrozenOnDisk(cfg: Config, db: Db, disk: Disk, t: Table)
    requires Valid(cfg, db) && OnDisk(db, disk)
    ensures OnDisk(LaunchFlush(PushMem(db), t), CreateLog(disk, db.logCounter))
  {
    ValidCounters(cfg, db);
    CreatedLog(db.mems, disk, db.logCounter);
  }

  lemma WrittenOnDisk(cfg: Config, db: Db, disk: Disk, op: Op)
    requires Valid(cfg, db) && OnDisk(db, disk)
    ensures OnDisk(Write(cfg, db, op), WrittenDisk(cfg, db, disk, op))
  {
    hide Write, Valid, OnDisk;
    LoggedOnDisk(cfg, db, disk, op);
    WriteFromLogged(cfg, db, op);
    var logged := LoggedDb(db, op);
    FrozenOnDisk(cfg, logged, LoggedDisk(db, disk, op), logged.mems[|logged.mems|-1].table);
  }

  // ----- a whole call -----

  /** The directories that a write goes through once the background jobs have been checked on. */
  function WriteDisks(cfg: Config, db: Db, disk: Disk, op: Op): seq<Disk> {
    [WithLog(db, disk), LoggedDisk(db, disk, op), WrittenDisk(cfg, db, disk, op)]
  }

  /**
   * A crash at any moment of a write: until the log holds the operation the database reads
   * as before, and from then on as after the call.
   */
  lemma WriteRecovers(cfg: Config, db: Db, disk: Disk, op: Op, i: nat)
    requires Valid(cfg, db) && OnDisk(db, disk) && i < 3
    ensures Recovers(cfg, WriteDisks(cfg, db, disk, op)[i], if i == 0 then db else Write(cfg, db, op))
  {
    if i == 0 {
      WithLogOnDisk(cfg, db, disk);
      RecoversBetweenCalls(cfg, WithMem(db), WithLog(db, disk));
    } else if i == 1 {
      LoggedOnDisk(cfg, db, disk, op);
      RecoversBetweenCalls(cfg, LoggedDb(db, op), LoggedDisk(db, disk, op));
      forall k ensures GetValue(LoggedDb(db, op), k) == GetValue(Write(cfg, db, op), k) {
        LoggedReads(cfg, db, op, k);
      }
    } else {
      WrittenOnDisk(cfg, db, disk, op);
      WriteValid(cfg, db, op);
      RecoversBetweenCalls(cfg, Write(cfg, db, op), WrittenDisk(cfg, db, disk, op));
    }
  }
}
