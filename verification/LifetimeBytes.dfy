/**
 * Many sessions on the bytes of the files. As long as the logs lose nothing at any opening,
 * each session starts where the last one has ended; then the results about lives hold of the
 * bytes. One set can make a directory that never opens again.
 */
module LifetimeBytes {
  import opened Bytes
  import opened Tables
  import opened Errors
  import opened Engine
  import opened TransactionLog
  import opened Serializer
  import opened Recovery
  import opened ByteRecovery
  import opened Crash
  import opened Lifetime
  import opened LifetimeWorkload

  /** The logs of the directory load as the memtables they belong to. */
  predicate LosesNothing(disk: Disk) {
    OrdinaryLogs(disk) && LogsSuffice(disk)
  }

  /** No session has opened on logs that lose something; what the last one leaves is open. */
  predicate LifeLosesNothing(cfg: Config, ss: seq<Session>) {
    forall n :: 0 <= n < |ss| ==> LosesNothing(LifeDisk(cfg, ss[..n]))
  }

  lemma {:induction false} WaitsBefore(cfg: Config, ss: seq<Session>, n: nat)
    requires Waits(cfg, ss) && n <= |ss|
    ensures Waits(cfg, ss[..n])
  {
    hide SessionEnds, LifeDisk;
    if n == |ss| {
      assert ss[..n] == ss;
    } else {
      WaitsBefore(cfg, ss[..|ss|-1], n);
      assert ss[..|ss|-1][..n] == ss[..n];
    }
  }

  /** The bytes of the directory give the queue and the memtables that the session starts from. */
  ghost predicate OpensAlike(disk: Disk) {
    Init(disk).Success? &&
    forall raw :: StoresAll(raw, disk) ==>
      OpenBytes(raw) == Success(Opening(Init(disk).value.queue, MemTables(Init(disk).value.mems)))
  }

  lemma LosslessOpens(cfg: Config, ss: seq<Session>)
    requires Waits(cfg, ss) && LosesNothing(LifeDisk(cfg, ss))
    ensures OpensAlike(LifeDisk(cfg, ss))
  {
    hide Init, OpenBytes, StoresAll, OrdinaryLogs, LogsSuffice, LifeDisk, Waits;
    LifeOpens(cfg, ss);
    var disk := LifeDisk(cfg, ss);
    forall raw | StoresAll(raw, disk)
      ensures OpenBytes(raw) == Success(Opening(Init(disk).value.queue, MemTables(Init(disk).value.mems)))
    {
      BytesSufficeExactly(raw, disk);
    }
  }

  /** Every session of such a life starts on the bytes as it does on the operations. */
  lemma SessionsStartAlike(cfg: Config, ss: seq<Session>)
    requires Waits(cfg, ss) && LifeLosesNothing(cfg, ss)
    ensures forall n :: 0 <= n < |ss| ==> OpensAlike(LifeDisk(cfg, ss[..n]))
  {
    hide OpensAlike, LosesNothing, Waits, LifeDisk;
    forall n | 0 <= n < |ss| ensures OpensAlike(LifeDisk(cfg, ss[..n])) {
      WaitsBefore(cfg, ss, n);
      LosslessOpens(cfg, ss[..n]);
    }
  }

  /** Then the bytes open exactly when every log loads. */
  lemma BytesOpenExactly(cfg: Config, ss: seq<Session>, raw: RawDisk)
    requires Waits(cfg, ss) && LifeLosesNothing(cfg, ss) && StoresAll(raw, LifeDisk(cfg, ss))
    ensures forall n :: 0 <= n < |ss| ==> OpensAlike(LifeDisk(cfg, ss[..n]))
    ensures OpenBytes(raw).Success? <==> AllLogsLoad(raw)
    ensures OrdinaryLogs(LifeDisk(cfg, ss)) ==> OpenBytes(raw).Success?
  {
    hide Init, OpenBytes, StoresAll, OpensAlike, LifeLosesNothing, LifeDisk, Waits, AllLogsLoad, OrdinaryLogs;
    SessionsStartAlike(cfg, ss);
    LifeOpens(cfg, ss);
    OpensExactly(raw, LifeDisk(cfg, ss));
    if OrdinaryLogs(LifeDisk(cfg, ss)) {
      OpensBytes(raw, LifeDisk(cfg, ss));
    }
  }

  /**
   * And a key that no session resurfaces, and about which the last logs lose nothing, reads
   * from the bytes as last written, whatever those logs lose of other keys.
   */
  lemma BytesReadExactly(cfg: Config, ss: seq<Session>, k: Key, raw: RawDisk)
    requires Waits(cfg, ss) && SafeLife(cfg, ss, k) && LifeLosesNothing(cfg, ss)
    requires StoresAll(raw, LifeDisk(cfg, ss))
    requires OrdinaryLogs(LifeDisk(cfg, ss)) && KeySuffices(LifeDisk(cfg, ss), k)
    ensures forall n :: 0 <= n < |ss| ==> OpensAlike(LifeDisk(cfg, ss[..n]))
    ensures ExactLife(cfg, ss, k)
    ensures OpenBytes(raw).Success? && OpenBytes(raw).value.Read(k) == Lookup(LifeModel(cfg, ss), k)
  {
    hide Init, OpenBytes, StoresAll, OpensAlike, LifeLosesNothing, LifeDisk, LifeModel, Waits, OrdinaryLogs, KeySuffices,
         SafeLife, ExactLife;
    SessionsStartAlike(cfg, ss);
    LifetimeReadsExactly(cfg, ss, k);
    ExactLifeReads(cfg, ss, k);
    KeyReadsBack(raw, LifeDisk(cfg, ss), k);
  }

  /** So do modest keys. */
  lemma ModestKeysReadFromBytes(cfg: Config, ss: seq<Session>, k: Key, raw: RawDisk)
    requires Waits(cfg, ss) && ModestLife(cfg, ss, k) && LifeLosesNothing(cfg, ss)
    requires StoresAll(raw, LifeDisk(cfg, ss))
    requires OrdinaryLogs(LifeDisk(cfg, ss)) && KeySuffices(LifeDisk(cfg, ss), k)
    ensures OpenBytes(raw).Success? && OpenBytes(raw).value.Read(k) == Lookup(LifeModel(cfg, ss), k)
  {
    hide OpenBytes, StoresAll, OpensAlike, LifeLosesNothing, LifeDisk, LifeModel, Waits, OrdinaryLogs, KeySuffices,
         SafeLife, ExactLife, ModestLife;
    ModestKeysReadExactly(cfg, ss, k);
    BytesReadExactly(cfg, ss, k, raw);
  }

  // ----- a set after which the database does not open -----

  /** Four zeros, and what the loader takes for the type of a record. */
  const POISON: Text := [0, 0, 0, 0, 9, 0, 0, 0]

  lemma UnknownType(t: Table)
    ensures LoadOnto([9, 0, 0, 0], t) == Failure(UnknownTransaction)
  {
    var s: seq<byte> := [9, 0, 0, 0];
    assert s[..4] == s && s[1..] == [0, 0, 0] && [0, 0, 0][1..] == [0, 0] && [0, 0][1..] == [0] && [0][1..] == [];
    assert FromBytes([0]) == 0;
    assert FromBytes([0, 0]) == 0;
    assert FromBytes([0, 0, 0]) == 0;
    assert FromBytes(s) == 9;
  }

  lemma PoisonedLog(k: Key)
    requires IsSize(|k|)
    ensures Load(WriterLog([Op.Set(k, POISON)])) == Failure(UnknownTransaction)
    ensures !StartsNonzero(POISON)
  {
    hide LoadOnto, WriterRecord;
    var op := Op.Set(k, POISON);
    assert POISON[..4] == [0, 0, 0, 0] && POISON[4..] + [] == [9, 0, 0, 0];
    ZeroBytes();
    ZeroSetReadsOn([], op, []);
    assert [op][1..] == [];
    assert WriterLog([op]) == WriterLog([]) + WriterRecord(op) + [];
    UnknownType(Replay([])[k := Value(8, [])]);
  }

  /** Killed after the call, or closed while the memtable is not full. */
  predicate LeavesLog(cfg: Config, op: Op, end: End) {
    end == Kill || (end == Close && !NeedsFlush(cfg.memTableLimit, Apply(map[], op)))
  }

  lemma FirstCall(cfg: Config, op: Op)
    ensures Run(cfg, EMPTY, [Call(op)]) == Success(Write(cfg, EMPTY, op))
    ensures var db := Write(cfg, EMPTY, op);
            && db.mems != [] && db.mems[0].log == [op] && db.mems[0].logId == 0 && db.job == None
            && (!NeedsFlush(cfg.memTableLimit, Apply(map[], op)) ==> db.flushes == [])
  {
    hide NeedsFlush;
    assert [Call(op)][..0] == [];
    assert CheckFutures(cfg, EMPTY) == Success(EMPTY);
  }

  lemma ClosedIdle(cfg: Config, db: Db, disk: Disk)
    requires db.flushes == [] && db.job == None
    ensures ClosedDisk(cfg, db, disk) == disk
  {
  }

  lemma PoisonedDisk(cfg: Config, op: Op, end: End)
    requires LeavesLog(cfg, op, end)
    ensures var ss := [Session([Call(op)], end, map[])];
            && Waits(cfg, ss)
            && Name(0, Txl) in LifeDisk(cfg, ss) && LifeDisk(cfg, ss)[Name(0, Txl)] == LogFile([op])
  {
    hide NeedsFlush, Write, Run, RunDisk, Init, CheckFutures, CheckCompaction, ClosedDisk, Valid, TablesOnDisk, JobsOnDisk;
    var s := Session([Call(op)], end, map[]);
    assert [s][..0] == [];
    EmptyOpens();
    SessionRuns(cfg, map[], s.events);
    FirstCall(cfg, op);
    var (db, left) := SessionRun(cfg, map[], s.events).value;
    assert left[Name(db.mems[0].logId, Txl)] == LogFile([op]);
    if end.Close? {
      ClosedIdle(cfg, db, left);
    }
    assert EndDisk(cfg, db, left, end) == left;
    assert WithScratch(left, map[]) == left;
  }

  /**
   * From an empty database, in every configuration: after this one call the bytes of the
   * directory do not open, although the operations do.
   */
  lemma UnopenableRun(cfg: Config, k: Key, end: End, raw: RawDisk)
    requires LeavesLog(cfg, Op.Set(k, POISON), end)
    requires StoresAll(raw, LifeDisk(cfg, [Session([Call(Op.Set(k, POISON))], end, map[])]))
    ensures Init(LifeDisk(cfg, [Session([Call(Op.Set(k, POISON))], end, map[])])).Success?
    ensures !OpenBytes(raw).Success?
    ensures Name(0, Txl) in raw && Load(raw[Name(0, Txl)]) == Failure(UnknownTransaction)
  {
    hide LifeDisk, Init, OpenBytes, Load, WriterLog, Waits, StartsNonzero;
    var op, ss := Op.Set(k, POISON), [Session([Call(Op.Set(k, POISON))], end, map[])];
    PoisonedDisk(cfg, op, end);
    LifeOpens(cfg, ss);
    OpensExactly(raw, LifeDisk(cfg, ss));
    var bytes := raw[Name(0, Txl)];
    assert Stores(bytes, LogFile([op]));
    assert OpFits([op][0]);
    PoisonedLog(k);
    if bytes != WriterLog([op]) {
      var next, n :| CutOff(bytes, [op], next, n);
      LeadOfPoison(op, next);
      assert false;
    }
  }

  lemma LeadOfPoison(op: Op, next: Op)
    requires op.Set?
    ensures LeadingRemovals([op] + [next]) == [] && ([op] + [next])[0] == op
  {
  }
}
