/**
 * The moments at which a kill may find the directory: from one to the next at most one file
 * operation happens, each of them ends a session, and the last is the directory of a whole
 * call.
 */
module CrashPoints {
  import opened Bytes
  import opened Tables
  import opened Errors
  import opened Grouping
  import opened Engine
  import opened Recovery
  import opened Crash
  import opened Lifetime

  /** A file gets a new name, in place of the file that had it. */
  predicate Renames(a: Disk, b: Disk, from: Name, to: Name) {
    from in a && from != to && b == (a - {from})[to := a[from]]
  }

  /** An empty log appears. */
  predicate Creates(a: Disk, b: Disk, name: Name) {
    name !in a && name.kind == Txl && b == a[name := LogFile([])]
  }

  /** A log gets one more operation. */
  predicate Appends(a: Disk, b: Disk, name: Name, op: Op) {
    name in a && a[name].LogFile? && b == a[name := LogFile(a[name].ops + [op])]
  }

  ghost predicate OneOperation(a: Disk, b: Disk) {
    || a == b
    || (exists from, to :: Renames(a, b, from, to))
    || (exists name :: Creates(a, b, name))
    || (exists name, op :: Appends(a, b, name, op))
  }

  /** At most one file operation between neighbours. */
  ghost predicate OneByOne(disks: seq<Disk>) {
    forall i :: 0 < i < |disks| ==> OneOperation(disks[i-1], disks[i])
  }

  lemma OneByOneAppend(a: seq<Disk>, b: seq<Disk>)
    requires OneByOne(a) && OneByOne(b)
    requires a != [] && b != [] ==> OneOperation(a[|a|-1], b[0])
    ensures OneByOne(a + b)
  {
    hide OneOperation;
    var c := a + b;
    forall i | 0 < i < |c| ensures OneOperation(c[i-1], c[i]) {
      if i > |a| {
        assert c[i-1] == b[i-1-|a|] && c[i] == b[i-|a|];
      }
    }
  }

  lemma RenamesOrNot(disk: Disk, id: nat)
    ensures OneOperation(disk, RenameFlushed(disk, id)) && OneOperation(disk, DeprecateLog(disk, id))
  {
    if Name(id, InProgress) in disk {
      assert Renames(disk, RenameFlushed(disk, id), Name(id, InProgress), Name(id, Sst));
    }
    if Name(id, Txl) in disk {
      assert Renames(disk, DeprecateLog(disk, id), Name(id, Txl), Name(id, DeprecatedTxl));
    }
  }

  /** A harvest renames and deprecates one file after the other, starting with the given directory. */
  lemma {:induction false} HarvestOneByOne(db: Db, disk: Disk)
    ensures OneByOne([disk] + HarvestDisks(db, disk))
    decreases |db.flushes|
  {
    hide OneOperation, RenameFlushed, DeprecateLog;
    if db.flushes != [] && db.mems != [] && db.flushes[0].done {
      var renamed := RenameFlushed(disk, db.flushes[0].id);
      var deprecated := DeprecateLog(renamed, db.mems[0].logId);
      RenamesOrNot(disk, db.flushes[0].id);
      RenamesOrNot(renamed, db.mems[0].logId);
      var rest := [deprecated] + HarvestDisks(HarvestOne(db), deprecated);
      HarvestOneByOne(HarvestOne(db), deprecated);
      OneByOneAppend([disk, renamed], rest);
      assert [disk] + HarvestDisks(db, disk) == [disk, renamed] + rest;
    }
  }

  /** A write creates its log if there is none, appends to it, and creates the next one if it is full. */
  lemma WriteOneByOne(cfg: Config, db: Db, disk: Disk, op: Op)
    requires Valid(cfg, db) && OnDisk(db, disk)
    ensures OneByOne([disk] + WriteDisks(cfg, db, disk, op))
  {
    var log, logged, written := WithLog(db, disk), LoggedDisk(db, disk, op), WrittenDisk(cfg, db, disk, op);
    LogCreated(cfg, db, disk);
    LogAppended(cfg, db, disk, op);
    NextLogCreated(cfg, db, disk, op);
    hide OneOperation, WithLog, LoggedDisk, WrittenDisk;
    OneByOneAppend([disk], [log]);
    OneByOneAppend([disk, log], [logged]);
    OneByOneAppend([disk, log, logged], [written]);
    assert [disk] + WriteDisks(cfg, db, disk, op) == [disk, log, logged] + [written];
    assert [disk, log] + [logged] == [disk, log, logged];
    assert [disk] + [log] == [disk, log];
  }

  lemma FreshLog(cfg: Config, db: Db, disk: Disk)
    requires Valid(cfg, db) && OnDisk(db, disk)
    ensures Name(db.logCounter, Txl) !in disk
    ensures OneOperation(disk, CreateLog(disk, db.logCounter))
  {
    ValidCounters(cfg, db);
    assert forall i :: 0 <= i < |db.mems| ==> LogIds(db.mems)[i] == db.mems[i].logId;
    assert Creates(disk, CreateLog(disk, db.logCounter), Name(db.logCounter, Txl));
  }

  lemma LogCreated(cfg: Config, db: Db, disk: Disk)
    requires Valid(cfg, db) && OnDisk(db, disk)
    ensures OneOperation(disk, WithLog(db, disk))
  {
    hide Valid, OnDisk, OneOperation;
    if db.mems == [] {
      FreshLog(cfg, db, disk);
    } else {
      Unchanged(disk);
    }
  }

  lemma Unchanged(disk: Disk)
    ensures OneOperation(disk, disk)
  {
  }

  /** The operation goes to the end of the newest log. */
  lemma LogAppended(cfg: Config, db: Db, disk: Disk, op: Op)
    requires Valid(cfg, db) && OnDisk(db, disk)
    ensures var mems := WithMem(db).mems;
            Appends(WithLog(db, disk), LoggedDisk(db, disk, op), Name(mems[|mems|-1].logId, Txl), op)
    ensures OneOperation(WithLog(db, disk), LoggedDisk(db, disk, op))
  {
    WithLogOnDisk(cfg, db, disk);
    hide Valid, WithLog;
    var mems, log := WithMem(db).mems, WithLog(db, disk);
    assert Name(mems[|mems|-1].logId, Txl) in log;
  }

  lemma NextLogCreated(cfg: Config, db: Db, disk: Disk, op: Op)
    requires Valid(cfg, db) && OnDisk(db, disk)
    ensures OneOperation(LoggedDisk(db, disk, op), WrittenDisk(cfg, db, disk, op))
  {
    hide Valid, OnDisk, OneOperation, LoggedDisk, Write;
    LoggedOnDisk(cfg, db, disk, op);
    WriteFromLogged(cfg, db, op);
    FreshLog(cfg, LoggedDb(db, op), LoggedDisk(db, disk, op));
    Unchanged(LoggedDisk(db, disk, op));
  }

  /**
   * From the directory in which a compaction, if one has ended, is applied to the directory
   * after the call, no file operation is skipped.
   */
  lemma CallOneByOne(cfg: Config, db: Db, disk: Disk, op: Op)
    requires Valid(cfg, db) && OnDisk(db, disk)
    ensures CheckCompaction(cfg, db).Success? && CheckFutures(cfg, db).Success?
    ensures var disks := CallDisks(cfg, db, disk, op);
            && disks[0] == AppliedDisk(cfg, db, disk) && disks[|disks|-1] == StepDisk(cfg, db, disk, Call(op))
            && OneByOne(disks)
  {
    CheckCompactionValid(cfg, db);
    CheckFuturesValid(cfg, db);
    CheckedOnDisk(cfg, db, disk);
    var checked, last := CheckFutures(cfg, db).value, CheckedDisk(cfg, db, disk);
    var write := WriteDisks(cfg, checked, last, op);
    WriteOneByOne(cfg, checked, last, op);
    CheckOneByOne(cfg, db, disk);
    assert StepDisk(cfg, db, disk, Call(op)) == write[2];
    hide *;
    CallInTwo(cfg, db, disk, op);
    OneByOneJoin(CheckDisks(cfg, db, disk), last, write);
  }

  /** The directories that a call goes through before its write. */
  function CheckDisks(cfg: Config, db: Db, disk: Disk): (disks: seq<Disk>)
    requires CheckCompaction(cfg, db).Success?
    ensures disks != []
  {
    var applied := CheckCompaction(cfg, db).value;
    [AppliedDisk(cfg, db, disk)] + if applied.job == None then HarvestDisks(applied, AppliedDisk(cfg, db, disk)) else []
  }

  lemma CheckOneByOne(cfg: Config, db: Db, disk: Disk)
    requires CheckCompaction(cfg, db).Success?
    ensures var disks := CheckDisks(cfg, db, disk);
            disks[0] == AppliedDisk(cfg, db, disk) && disks[|disks|-1] == CheckedDisk(cfg, db, disk) && OneByOne(disks)
  {
    hide HarvestDisks, AppliedDisk, OneOperation;
    HarvestOneByOne(CheckCompaction(cfg, db).value, AppliedDisk(cfg, db, disk));
  }

  lemma CallInTwo(cfg: Config, db: Db, disk: Disk, op: Op)
    requires CheckCompaction(cfg, db).Success? && CheckFutures(cfg, db).Success?
    ensures CallDisks(cfg, db, disk, op) ==
            CheckDisks(cfg, db, disk) + WriteDisks(cfg, CheckFutures(cfg, db).value, CheckedDisk(cfg, db, disk), op)
  {
    hide AppliedDisk, HarvestDisks, WriteDisks, CheckedDisk, CheckFutures, CheckCompaction;
  }

  lemma OneByOneJoin(a: seq<Disk>, last: Disk, b: seq<Disk>)
    requires OneByOne(a) && a != [] && a[|a|-1] == last && OneByOne([last] + b) && b != []
    ensures OneByOne(a + b)
  {
    hide OneOperation;
    var c := [last] + b;
    assert c[1-1] == last && c[1] == b[0];
    forall i | 0 < i < |b| ensures OneOperation(b[i-1], b[i]) {
      assert c[i] == b[i-1] && c[i+1] == b[i];
      assert OneOperation(c[i+1-1], c[i+1]);
    }
    OneByOneAppend(a, b);
  }

  /** The destructor's harvest likewise, from the directory that it finds. */
  lemma ClosingOneByOne(db: Db, disk: Disk)
    ensures ClosingDisks(db, disk)[0] == disk && OneByOne(ClosingDisks(db, disk))
  {
    HarvestOneByOne(db.(job := None), disk);
  }

  /** Each directory of a call is what some kill leaves, and a kill leaves no others. */
  lemma EveryCallPointEnds(cfg: Config, db: Db, disk: Disk, op: Op, left: Disk)
    requires CheckCompaction(cfg, db).Success? && CheckFutures(cfg, db).Success?
    ensures (exists n: nat :: EndDisk(cfg, db, disk, KillDuring(op, n)) == left) <==> left in CallDisks(cfg, db, disk, op)
  {
    hide CallDisks, CheckCompaction, CheckFutures;
    var disks := CallDisks(cfg, db, disk, op);
    if left in disks {
      var n :| 0 <= n < |disks| && disks[n] == left;
      assert EndDisk(cfg, db, disk, KillDuring(op, n)) == left;
    }
  }

  /** And so for the destructor. */
  lemma EveryClosingPointEnds(cfg: Config, db: Db, disk: Disk, left: Disk)
    requires CheckCompaction(cfg, db).Success? && CheckFutures(cfg, db).Success?
    ensures (exists n: nat :: EndDisk(cfg, db, disk, KillDuringClose(n)) == left) <==> left in ClosingDisks(db, disk)
  {
    hide ClosingDisks, CheckCompaction, CheckFutures;
    var disks := ClosingDisks(db, disk);
    if left in disks {
      var n :| 0 <= n < |disks| && disks[n] == left;
      assert EndDisk(cfg, db, disk, KillDuringClose(n)) == left;
    }
  }
}
