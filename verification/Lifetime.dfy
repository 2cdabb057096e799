/**
 * A directory through many sessions: each opens the database on what the last one has left,
 * makes its calls, and ends by being closed or killed, be it in the middle of a call.
 */
module Lifetime {
  import opened Bytes
  import opened Tables
  import opened Errors
  import opened Engine
  import opened Refinement
  import opened Recovery
  import opened Crash

  /**
   * A get goes through the file operations of a set up to its harvest. The destructor goes
   * through its harvest, then applies the compaction; from then on a kill leaves what closing
   * leaves.
   */
  datatype End =
    | Kill                            // between two calls
    | KillDuring(op: Op, point: nat)  // at a file operation of a call
    | KillDuringClose(point: nat)     // at a file operation of the destructor's harvest
    | Close

  /** A killed session may also leave unfinished files under temporary names. */
  datatype Session = Session(events: seq<Event>, end: End, scratch: Disk)

  function WithScratch(disk: Disk, scratch: Disk): Disk {
    disk + map name | name in scratch && name.kind != Sst && name.kind != Txl :: scratch[name]
  }

  /** Opening looks at tables and logs alone. */
  lemma ScratchIgnored(disk: Disk, scratch: Disk)
    ensures Init(WithScratch(disk, scratch)) == Init(disk)
  {
    var after := WithScratch(disk, scratch);
    assert IdsOf(after, Sst) == IdsOf(disk, Sst) && IdsOf(after, Txl) == IdsOf(disk, Txl);
    LoadsAlike(disk, after, SortedIds(IdsOf(disk, Sst)), SortedIds(IdsOf(disk, Txl)));
  }

  lemma {:induction false} LoadsAlike(disk: Disk, after: Disk, tables: seq<nat>, logs: seq<nat>)
    requires forall i :: 0 <= i < |tables| ==> Name(tables[i], Sst) in disk && Name(tables[i], Sst) in after
    requires forall i :: 0 <= i < |logs| ==> Name(logs[i], Txl) in disk && Name(logs[i], Txl) in after
    requires SameKind(disk, after, Sst) && SameKind(disk, after, Txl)
    ensures LoadTables(after, tables) == LoadTables(disk, tables) && LoadLogs(after, logs) == LoadLogs(disk, logs)
    decreases |tables| + |logs|
  {
    if tables != [] {
      LoadsAlike(disk, after, tables[..|tables|-1], logs);
    }
    if logs != [] {
      LoadsAlike(disk, after, tables, logs[..|logs|-1]);
    }
  }

  /** Closing waits for the background jobs; their ends are the last events of the session. */
  predicate MayEnd(db: Db, end: End) {
    end.Close? ==>
      && (forall i :: 0 <= i < |db.flushes| ==> db.flushes[i].done)
      && (db.job.Some? ==> db.job.value.result.Some?)
  }

  /**
   * The directories that the destructor goes through while it renames flushed tables and
   * deprecates their logs, whether a compaction is outstanding or not.
   */
  function ClosingDisks(db: Db, disk: Disk): seq<Disk> {
    [disk] + HarvestDisks(db.(job := None), disk)
  }

  /** The moment of the kill, the last one if the point lies behind it. */
  function KillPoint(disks: seq<Disk>, point: nat): (i: nat)
    requires disks != []
    ensures i < |disks|
  {
    if point < |disks| then point else |disks| - 1
  }

  /** The directory that the end of a session leaves. */
  function EndDisk(cfg: Config, db: Db, disk: Disk, end: End): Disk
    requires CheckCompaction(cfg, db).Success? && CheckFutures(cfg, db).Success?
  {
    match end
    case Kill => disk
    case KillDuring(op, point) =>
      var disks := CallDisks(cfg, db, disk, op);
      disks[KillPoint(disks, point)]
    case KillDuringClose(point) =>
      var disks := ClosingDisks(db, disk);
      disks[KillPoint(disks, point)]
    case Close => ClosedDisk(cfg, db, disk)
  }

  /** A call that is killed has been made if the log holds its operation. */
  predicate Made(cfg: Config, db: Db, disk: Disk, end: End)
    requires CheckCompaction(cfg, db).Success? && CheckFutures(cfg, db).Success?
  {
    end.KillDuring? &&
    var disks := CallDisks(cfg, db, disk, end.op);
    KillPoint(disks, end.point) >= |disks| - 2
  }

  function EndModel(cfg: Config, db: Db, disk: Disk, m: Model, end: End): Model
    requires CheckCompaction(cfg, db).Success? && CheckFutures(cfg, db).Success?
  {
    if Made(cfg, db, disk, end) then ModelWrite(m, end.op) else m
  }

  /**
   * The end of the session applies a compaction that lets a value of k resurface, and no
   * write of k itself covers it.
   */
  predicate EndStale(cfg: Config, db: Db, disk: Disk, end: End, k: Key)
    requires CheckCompaction(cfg, db).Success? && CheckFutures(cfg, db).Success?
  {
    && AppliesStale(cfg, db, k)
    && (end.Close? || (end.KillDuring? && !(Made(cfg, db, disk, end) && end.op.key == k)))
  }

  lemma ClosingRecovers(cfg: Config, db: Db, disk: Disk, i: nat)
    requires Valid(cfg, db) && OnDisk(db, disk) && i < |ClosingDisks(db, disk)|
    ensures Recovers(cfg, ClosingDisks(db, disk)[i], db)
  {
    hide Valid, OnDisk, Init, Chronicle, GetValue, HarvestDisks;
    if i == 0 {
      RecoversBetweenCalls(cfg, db, disk);
    } else {
      IdleOnDisk(cfg, db, disk);
      HarvestRecovers(cfg, db.(job := None), disk, i - 1);
      IdleReads(db);
    }
  }

  lemma IdleReads(db: Db)
    ensures Chronicle(db.(job := None)) == Chronicle(db)
    ensures forall k :: GetValue(db.(job := None), k) == GetValue(db, k)
  {
  }

  /**
   * However a session ends, the directory opens, and a key reads as the calls demand exactly
   * when the end does not let a value of it resurface.
   */
  lemma EndReadsExactly(cfg: Config, db: Db, disk: Disk, m: Model, end: End, k: Key)
    requires Valid(cfg, db) && OnDisk(db, disk) && MayEnd(db, end)
    ensures CheckCompaction(cfg, db).Success? && CheckFutures(cfg, db).Success?
    ensures var left := EndDisk(cfg, db, disk, end);
            && Init(left).Success?
            && (GetValue(db, k) == Lookup(m, k) ==>
                  (GetValue(Init(left).value, k) == Lookup(EndModel(cfg, db, disk, m, end), k)
                   <==> !EndStale(cfg, db, disk, end, k)))
  {
    hide Valid, OnDisk, Write, CallDisks, ClosedDisk, HarvestDisks, Init, Chronicle, AppliesStale, GetValue, KillPoint;
    CheckCompactionValid(cfg, db);
    CheckReads(cfg, db, k);
    match end
    case Kill =>
      RecoversBetweenCalls(cfg, db, disk);
    case KillDuring(op, point) =>
      CallRecovers(cfg, db, disk, op, KillPoint(CallDisks(cfg, db, disk, op), point));
      WriteReads(cfg, CheckFutures(cfg, db).value, op, k);
    case KillDuringClose(point) =>
      ClosingRecovers(cfg, db, disk, KillPoint(ClosingDisks(db, disk), point));
    case Close =>
      CloseAndReopen(cfg, db, disk);
      CheckFuturesValid(cfg, db);
      SameChronicleReads(Init(ClosedDisk(cfg, db, disk)).value, CheckFutures(cfg, db).value, k);
  }

  lemma SameChronicleReads(a: Db, b: Db, k: Key)
    requires Chronicle(a) == Chronicle(b)
    ensures GetValue(a, k) == GetValue(b, k)
  {
    GetReadsChronicle(a, k);
    GetReadsChronicle(b, k);
  }

  // ----- one session -----

  /** The state and the directory before the session ends. */
  function SessionRun(cfg: Config, disk: Disk, es: seq<Event>): Result<(Db, Disk)> {
    var db :- Init(disk);
    var after :- Run(cfg, db, es);
    Success((after, RunDisk(cfg, db, disk, es)))
  }

  /** Opening and running succeed whenever the directory opens. */
  lemma SessionRuns(cfg: Config, disk: Disk, es: seq<Event>)
    requires Init(disk).Success?
    ensures Valid(cfg, Init(disk).value) && SessionRun(cfg, disk, es).Success?
    ensures var (db, left) := SessionRun(cfg, disk, es).value;
            && Run(cfg, Init(disk).value, es) == Success(db) && Valid(cfg, db) && OnDisk(db, left)
            && CheckCompaction(cfg, db).Success? && CheckFutures(cfg, db).Success?
  {
    hide Valid, OnDisk, Init, Run, RunDisk;
    InitValid(cfg, disk);
    InitOnDisk(disk);
    RunOnDisk(cfg, Init(disk).value, disk, es);
    var db := Run(cfg, Init(disk).value, es).value;
    CheckCompactionValid(cfg, db);
    CheckFuturesValid(cfg, db);
  }

  /** What a session makes of the directory; one that does not open stays as it is. */
  function SessionDisk(cfg: Config, disk: Disk, s: Session): Disk {
    if Init(disk).Success? then
      SessionRuns(cfg, disk, s.events);
      var (db, left) := SessionRun(cfg, disk, s.events).value;
      WithScratch(EndDisk(cfg, db, left, s.end), s.scratch)
    else disk
  }

  function SessionModel(cfg: Config, disk: Disk, m: Model, s: Session): Model {
    if Init(disk).Success? then
      SessionRuns(cfg, disk, s.events);
      var (db, left) := SessionRun(cfg, disk, s.events).value;
      EndModel(cfg, db, left, ModelRun(m, s.events), s.end)
    else m
  }

  /** The session may end as it does. */
  predicate SessionEnds(cfg: Config, disk: Disk, s: Session) {
    Init(disk).Success? ==>
      (SessionRuns(cfg, disk, s.events);
       MayEnd(SessionRun(cfg, disk, s.events).value.0, s.end))
  }

  /** Neither a step of the session nor its end lets a value of k resurface. */
  ghost predicate SafeSession(cfg: Config, disk: Disk, s: Session, k: Key)
    requires Init(disk).Success?
  {
    SessionRuns(cfg, disk, s.events);
    var (db, left) := SessionRun(cfg, disk, s.events).value;
    SafeRun(cfg, Init(disk).value, s.events, k) && !EndStale(cfg, db, left, s.end, k)
  }

  /** After every event of the session k reads as last written, and so it does when reopened. */
  predicate ExactSession(cfg: Config, disk: Disk, m: Model, s: Session, k: Key)
    requires Init(disk).Success?
  {
    var left := SessionDisk(cfg, disk, s);
    && (forall n :: 0 <= n <= |s.events| ==> Reads(cfg, Init(disk).value, m, s.events[..n], k))
    && Init(left).Success? && GetValue(Init(left).value, k) == Lookup(SessionModel(cfg, disk, m, s), k)
  }

  lemma SessionOpens(cfg: Config, disk: Disk, s: Session)
    requires Init(disk).Success? && SessionEnds(cfg, disk, s)
    ensures Init(SessionDisk(cfg, disk, s)).Success?
  {
    hide Valid, OnDisk, Init, Run, RunDisk, GetValue, EndDisk, EndModel, MayEnd, WithScratch;
    SessionRuns(cfg, disk, s.events);
    var (db, left) := SessionRun(cfg, disk, s.events).value;
    EndReadsExactly(cfg, db, left, map[], s.end, []);
    ScratchIgnored(EndDisk(cfg, db, left, s.end), s.scratch);
  }

  lemma SessionReadsExactly(cfg: Config, disk: Disk, m: Model, s: Session, k: Key)
    requires Init(disk).Success? && SessionEnds(cfg, disk, s)
    requires GetValue(Init(disk).value, k) == Lookup(m, k)
    ensures ExactSession(cfg, disk, m, s, k) <==> SafeSession(cfg, disk, s, k)
  {
    hide Valid, OnDisk, Init, Run, RunDisk, GetValue, EndDisk, EndModel, EndStale, MayEnd, WithScratch, SafeRun;
    SessionRuns(cfg, disk, s.events);
    var (db, left) := SessionRun(cfg, disk, s.events).value;
    ReadsLastWriteExactly(cfg, Init(disk).value, m, s.events, k);
    assert s.events[..|s.events|] == s.events;
    EndReadsExactly(cfg, db, left, ModelRun(m, s.events), s.end, k);
    ScratchIgnored(EndDisk(cfg, db, left, s.end), s.scratch);
    if SafeRun(cfg, Init(disk).value, s.events, k) {
      assert Reads(cfg, Init(disk).value, m, s.events[..|s.events|], k);
    }
  }

  // ----- many sessions, from an empty directory on -----

  function LifeDisk(cfg: Config, ss: seq<Session>): Disk {
    if ss == [] then map[] else SessionDisk(cfg, LifeDisk(cfg, ss[..|ss|-1]), ss[|ss|-1])
  }

  function LifeModel(cfg: Config, ss: seq<Session>): Model {
    if ss == [] then map[]
    else SessionModel(cfg, LifeDisk(cfg, ss[..|ss|-1]), LifeModel(cfg, ss[..|ss|-1]), ss[|ss|-1])
  }

  /** Every session that closes the database waits for its jobs. */
  predicate Waits(cfg: Config, ss: seq<Session>) {
    ss == [] || (Waits(cfg, ss[..|ss|-1]) && SessionEnds(cfg, LifeDisk(cfg, ss[..|ss|-1]), ss[|ss|-1]))
  }

  lemma EmptyOpens()
    ensures Init(map[]) == Success(EMPTY)
  {
    assert IdsOf(map[], Sst) == {} && IdsOf(map[], Txl) == {};
  }

  /** After any number of sessions, however each has ended, the database opens. */
  lemma {:induction false} LifeOpens(cfg: Config, ss: seq<Session>)
    requires Waits(cfg, ss)
    ensures Init(LifeDisk(cfg, ss)).Success?
  {
    hide Init, SessionDisk, SessionEnds;
    if ss == [] {
      EmptyOpens();
    } else {
      LifeOpens(cfg, ss[..|ss|-1]);
      SessionOpens(cfg, LifeDisk(cfg, ss[..|ss|-1]), ss[|ss|-1]);
    }
  }

  /** No session lets a value of k resurface. */
  ghost predicate SafeLife(cfg: Config, ss: seq<Session>, k: Key)
    requires Waits(cfg, ss)
  {
    ss == [] ||
    (SafeLife(cfg, ss[..|ss|-1], k)
     && (LifeOpens(cfg, ss[..|ss|-1]);
         SafeSession(cfg, LifeDisk(cfg, ss[..|ss|-1]), ss[|ss|-1], k)))
  }

  /** After every event of every session, and at every opening, k reads as last written. */
  ghost predicate ExactLife(cfg: Config, ss: seq<Session>, k: Key)
    requires Waits(cfg, ss)
  {
    ss == [] ||
    (ExactLife(cfg, ss[..|ss|-1], k)
     && (LifeOpens(cfg, ss[..|ss|-1]);
         ExactSession(cfg, LifeDisk(cfg, ss[..|ss|-1]), LifeModel(cfg, ss[..|ss|-1]), ss[|ss|-1], k)))
  }

  lemma ExactLifeReads(cfg: Config, ss: seq<Session>, k: Key)
    requires Waits(cfg, ss) && ExactLife(cfg, ss, k)
    ensures Init(LifeDisk(cfg, ss)).Success?
    ensures GetValue(Init(LifeDisk(cfg, ss)).value, k) == Lookup(LifeModel(cfg, ss), k)
  {
    hide Init, SessionDisk, SessionModel;
    if ss == [] {
      EmptyOpens();
      assert GetValue(EMPTY, k) == None;
    }
  }

  /**
   * Through any number of sessions, each closed or killed at any point outside the replacement
   * of a compacted window: all reads of k give the last write exactly when no step and no end
   * of a session lets a value of k resurface.
   */
  lemma {:induction false} LifetimeReadsExactly(cfg: Config, ss: seq<Session>, k: Key)
    requires Waits(cfg, ss)
    ensures ExactLife(cfg, ss, k) <==> SafeLife(cfg, ss, k)
  {
    hide Init, SessionDisk, SessionModel, SafeSession, ExactSession, SessionEnds;
    if ss != [] {
      var front := ss[..|ss|-1];
      LifetimeReadsExactly(cfg, front, k);
      if SafeLife(cfg, front, k) {
        ExactLifeReads(cfg, front, k);
        SessionReadsExactly(cfg, LifeDisk(cfg, front), LifeModel(cfg, front), ss[|ss|-1], k);
      }
    }
  }

  /**
   * With compaction disabled, and with one table per compaction, that needs no proviso:
   * every key reads as last written through any number of kills and restarts.
   */
  lemma {:induction false} FewTablesLifetime(cfg: Config, ss: seq<Session>, k: Key)
    requires cfg.tablesToCompact <= 1 && Waits(cfg, ss)
    ensures SafeLife(cfg, ss, k) && ExactLife(cfg, ss, k)
  {
    hide Init, SessionDisk, Run, RunDisk, AppliesStale, Valid, OnDisk, Made;
    if ss != [] {
      var disk, s := LifeDisk(cfg, ss[..|ss|-1]), ss[|ss|-1];
      FewTablesLifetime(cfg, ss[..|ss|-1], k);
      LifeOpens(cfg, ss[..|ss|-1]);
      SessionRuns(cfg, disk, s.events);
      OpensAtFront(disk);
      FewTablesAlwaysSafe(cfg, Init(disk).value, s.events, k);
      FewTablesNeverStale(cfg, SessionRun(cfg, disk, s.events).value.0, k);
    }
    LifetimeReadsExactly(cfg, ss, k);
  }

  lemma OpensAtFront(disk: Disk)
    ensures Init(disk).Success? ==> Init(disk).value.start == 0
  {
  }
}
