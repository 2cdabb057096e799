/**
 * Opening a database on the bytes of its files. Tables come back as they were. The loader
 * reads the logs as the writer has left them, so that a memtable comes back as the removals
 * before its first set; recovery is exact when the logs hold removals alone.
 */
module ByteRecovery {
  import opened Bytes
  import opened Tables
  import opened Compaction
  import opened Grouping
  import opened Errors
  import opened Engine
  import opened Refinement
  import opened Workload
  import opened Serializer
  import opened TransactionLog
  import opened Streams
  import opened Recovery
  import opened Crash

  // ----- one log -----

  /** The removals at the front. */
  function LeadingRemovals(ops: seq<Op>): (lead: seq<Op>)
    ensures lead <= ops && (|lead| < |ops| ==> ops[|lead|].Set?)
    ensures forall i :: 0 <= i < |lead| ==> lead[i].Remove?
  {
    if ops == [] || ops[0].Set? then [] else [ops[0]] + LeadingRemovals(ops[1..])
  }

  predicate OpsFit(ops: seq<Op>) {
    forall i :: 0 <= i < |ops| ==> OpFits(ops[i])
  }

  /** The text of the first set, if there is one, does not start with four zeros, and less than 4 GB follow. */
  predicate Ordinary(ops: seq<Op>) {
    var n := |LeadingRemovals(ops)|;
    n < |ops| ==> StartsNonzero(ops[n].text) && |ops[n].text| + |WriterLog(ops[n+1..])| < 0x1_0000_0000
  }

  /** Behind a short text the next record starts with a type that is not zero. */
  lemma NonzeroInLog(text: Text, ops: seq<Op>)
    requires StartsNonzero(text)
    ensures StartsNonzero(text + WriterLog(ops))
  {
    var s := text + WriterLog(ops);
    if |text| >= 4 {
      assert s[..4] == text[..4];
    } else if ops == [] {
      assert s == text;
    } else {
      var kind := if ops[0].Set? then SET_TRANSACTION else REMOVE_TRANSACTION;
      assert WriterRecord(ops[0])[0] == ToBytes(kind, TAG_WIDTH)[0] == kind;
      assert s[..4][|text|] == kind;
      FromBytesPositive(s[..4], |text|);
    }
  }

  lemma {:induction false} SameFormat(ops: seq<Op>)
    requires forall i :: 0 <= i < |ops| ==> ops[i].Remove?
    ensures WriterLog(ops) == LoaderLog(ops)
  {
    if ops != [] {
      SameFormat(ops[1..]);
    }
  }

  lemma {:induction false} CompleteAll(ops: seq<Op>, n: nat)
    requires |LoaderLog(ops)| <= n
    ensures Complete(ops, n) == |ops|
  {
    hide LoaderRecord;
    if ops != [] {
      CompleteAll(ops[1..], n - |LoaderRecord(ops[0])|);
    }
  }

  lemma {:induction false} CompleteBetween(ops: seq<Op>, next: Op, n: nat)
    requires |LoaderLog(ops)| <= n < |LoaderLog(ops + [next])|
    ensures Complete(ops + [next], n) == |ops|
  {
    hide LoaderRecord;
    var all := ops + [next];
    if ops == [] {
      assert all[1..] == [];
    } else {
      assert all[1..] == ops[1..] + [next];
      CompleteBetween(ops[1..], next, n - |LoaderRecord(ops[0])|);
    }
  }

  /** Cut off among the removals at its front. */
  lemma LoadsWithinLead(lead: seq<Op>, more: seq<byte>, n: nat)
    requires OpsFit(lead) && (forall i :: 0 <= i < |lead| ==> lead[i].Remove?) && n <= |WriterLog(lead)|
    ensures Load((WriterLog(lead) + more)[..n]) == Success(Replay(lead[..Complete(lead, n)]))
  {
    hide WriterLog, LoaderLog, Load, Replay, Complete, OpFits;
    SameFormat(lead);
    assert (WriterLog(lead) + more)[..n] == LoaderLog(lead)[..n];
    TornLog(lead, n);
  }

  lemma SliceBehind<T>(a: seq<T>, b: seq<T>, n: nat)
    requires |a| <= n <= |a + b|
    ensures n - |a| <= |b| && (a + b)[..n] == a + b[..n - |a|]
  {
  }

  /** Cut off in the set behind them or later. */
  lemma LoadsBeyondLead(lead: seq<Op>, op: Op, rest: seq<Op>, n: nat)
    requires OpsFit(lead) && forall i :: 0 <= i < |lead| ==> lead[i].Remove?
    requires OpFits(op) && op.Set? && StartsNonzero(op.text) && |op.text| + |WriterLog(rest)| < 0x1_0000_0000
    requires |WriterLog(lead)| <= n <= |WriterLog(lead) + (WriterRecord(op) + WriterLog(rest))|
    ensures Load((WriterLog(lead) + (WriterRecord(op) + WriterLog(rest)))[..n])
            == Success(Replay(lead[..Complete(lead, n)]))
  {
    hide WriterLog, WriterRecord, Load, Replay, StartsNonzero, OpFits, Complete, LoaderLog;
    NonzeroInLog(op.text, rest);
    SliceBehind(WriterLog(lead), WriterRecord(op) + WriterLog(rest), n);
    FirstSetEndsReplay(lead, op, WriterLog(rest), n - |WriterLog(lead)|);
    SameFormat(lead);
    CompleteAll(lead, n);
    assert lead[..|lead|] == lead;
  }

  /** The log is that of the removals, and behind them that of the first set and the rest. */
  lemma LogAtFirstSet(ops: seq<Op>)
    ensures var lead := LeadingRemovals(ops);
            && (|lead| == |ops| ==> lead == ops)
            && (|lead| < |ops| ==>
                  WriterLog(ops) == WriterLog(lead) + (WriterRecord(ops[|lead|]) + WriterLog(ops[|lead|+1..])))
  {
    hide WriterRecord;
    var lead := LeadingRemovals(ops);
    if |lead| < |ops| {
      assert ops == lead + ops[|lead|..] && ops[|lead|..][1..] == ops[|lead|+1..];
      WriterLogAppend(lead, ops[|lead|..]);
    }
  }

  /**
   * Wherever a kill has cut the writer's log off, it loads as the complete removals before
   * its first set.
   */
  lemma LogLoads(ops: seq<Op>, n: nat)
    requires OpsFit(ops) && Ordinary(ops) && n <= |WriterLog(ops)|
    ensures var lead := LeadingRemovals(ops);
            Load(WriterLog(ops)[..n]) == Success(Replay(lead[..Complete(lead, n)]))
  {
    var lead := LeadingRemovals(ops);
    LogAtFirstSet(ops);
    assert forall i :: 0 <= i < |lead| ==> lead[i] == ops[i];
    assert OpsFit(lead);
    hide WriterRecord, WriterLog, LoaderLog, Load, Replay, StartsNonzero, LeadingRemovals, OpFits, Complete;
    if |lead| == |ops| {
      assert WriterLog(ops) == WriterLog(lead) + [];
      LoadsWithinLead(lead, [], n);
    } else if n <= |WriterLog(lead)| {
      LoadsWithinLead(lead, WriterRecord(ops[|lead|]) + WriterLog(ops[|lead|+1..]), n);
    } else {
      LoadsBeyondLead(lead, ops[|lead|], ops[|lead|+1..], n);
    }
  }

  lemma WholeLogLoads(ops: seq<Op>)
    requires OpsFit(ops) && Ordinary(ops)
    ensures Load(WriterLog(ops)) == Success(Replay(LeadingRemovals(ops)))
  {
    hide Load, Replay, LeadingRemovals, Ordinary, OpsFit;
    var lead, n := LeadingRemovals(ops), |WriterLog(ops)|;
    LogLoads(ops, n);
    assert WriterLog(ops)[..n] == WriterLog(ops);
    LeadIsShorter(ops);
    CompleteAll(lead, n);
    assert lead[..|lead|] == lead;
  }

  lemma LeadIsShorter(ops: seq<Op>)
    ensures var lead := LeadingRemovals(ops);
            |LoaderLog(lead)| == |WriterLog(lead)| <= |WriterLog(ops)|
  {
    hide WriterRecord, LoaderRecord;
    var lead := LeadingRemovals(ops);
    SameFormat(lead);
    assert ops == lead + ops[|lead|..];
    WriterLogAppend(lead, ops[|lead|..]);
  }

  // ----- what the loader loses -----

  /** If k is called for from the first set on, it has been removed before, and is removed last. */
  predicate KeyCancels(ops: seq<Op>, k: Key) {
    var lead := LeadingRemovals(ops);
    (exists i :: |lead| <= i < |ops| && ops[i].key == k) ==>
      k in Replay(lead) && Lookup(Replay(ops), k) == Some(TOMBSTONE)
  }

  predicate LaterCallsCancel(ops: seq<Op>) {
    forall i :: |LeadingRemovals(ops)| <= i < |ops| ==> KeyCancels(ops, ops[i].key)
  }

  lemma {:induction false} RemovalsReplay(ops: seq<Op>, k: Key)
    requires forall i :: 0 <= i < |ops| ==> ops[i].Remove?
    ensures k in Replay(ops) ==> Replay(ops)[k] == TOMBSTONE
  {
    if ops != [] {
      RemovalsReplay(ops[..|ops|-1], k);
    }
  }

  /** Operations change the bindings of their own keys alone. */
  lemma {:induction false} ReplayTouches(ops: seq<Op>, n: nat, k: Key)
    requires n <= |ops|
    ensures (exists i :: n <= i < |ops| && ops[i].key == k) ==> k in Replay(ops)
    ensures !(exists i :: n <= i < |ops| && ops[i].key == k) ==> Lookup(Replay(ops), k) == Lookup(Replay(ops[..n]), k)
  {
    if n == |ops| {
      assert ops[..n] == ops;
    } else {
      var init := ops[..|ops|-1];
      assert init[..n] == ops[..n];
      ReplayTouches(init, n, k);
      if exists i :: n <= i < |init| && init[i].key == k {
        var i :| n <= i < |init| && init[i].key == k;
        assert ops[i].key == k;
      }
      assert forall i :: 0 <= i < |init| ==> init[i] == ops[i];
    }
  }

  /** The binding of k survives exactly when the later calls on k cancel. */
  lemma KeyLoadsExactly(ops: seq<Op>, k: Key)
    ensures Lookup(Replay(LeadingRemovals(ops)), k) == Lookup(Replay(ops), k) <==> KeyCancels(ops, k)
  {
    hide Replay, LeadingRemovals;
    var lead := LeadingRemovals(ops);
    RemovalsReplay(lead, k);
    assert ops[..|lead|] == lead;
    ReplayTouches(ops, |lead|, k);
  }

  /** The memtable survives exactly when the calls from the first set on change nothing. */
  lemma TableLoadsExactly(ops: seq<Op>)
    ensures Replay(LeadingRemovals(ops)) == Replay(ops) <==> LaterCallsCancel(ops)
  {
    hide Replay, LeadingRemovals, KeyCancels;
    forall k
      ensures Lookup(Replay(LeadingRemovals(ops)), k) == Lookup(Replay(ops), k) <==> KeyCancels(ops, k)
      ensures (forall i :: |LeadingRemovals(ops)| <= i < |ops| ==> ops[i].key != k) ==> KeyCancels(ops, k)
    {
      KeyLoadsExactly(ops, k);
      UncalledCancels(ops, k);
    }
    if LaterCallsCancel(ops) {
      SameLookups(Replay(LeadingRemovals(ops)), Replay(ops));
    }
  }

  lemma UncalledCancels(ops: seq<Op>, k: Key)
    ensures (forall i :: |LeadingRemovals(ops)| <= i < |ops| ==> ops[i].key != k) ==> KeyCancels(ops, k)
  {
  }

  lemma LogLoadsExactly(ops: seq<Op>)
    requires OpsFit(ops) && Ordinary(ops)
    ensures Load(WriterLog(ops)) == Success(Replay(ops)) <==> LaterCallsCancel(ops)
  {
    hide Load, WriterLog, Replay, LeadingRemovals, OpsFit, Ordinary, LaterCallsCancel;
    WholeLogLoads(ops);
    TableLoadsExactly(ops);
  }

  lemma SameLookups(a: Table, b: Table)
    requires forall k :: Lookup(a, k) == Lookup(b, k)
    ensures a == b
  {
    forall k | k in a ensures k in b && b[k] == a[k] {
      assert Lookup(a, k) == Lookup(b, k);
    }
    forall k | k in b ensures k in a {
      assert Lookup(a, k) == Lookup(b, k);
    }
  }

  // ----- a directory of bytes -----

  type RawDisk = map<Name, seq<byte>>

  /** A kill inside the append of next leaves the log cut off in the new record. */
  predicate CutOff(bytes: seq<byte>, ops: seq<Op>, next: Op, n: nat) {
    && OpFits(next) && Ordinary(ops + [next])
    && |WriterLog(ops)| <= n < |WriterLog(ops + [next])| && bytes == WriterLog(ops + [next])[..n]
  }

  /** The bytes of a file; a table file holds some creation time. */
  ghost predicate Stores(bytes: seq<byte>, file: File) {
    match file
    case TableFile(t) => exists time :: IsFileOf(bytes, time, t)
    case LogFile(ops) => OpsFit(ops) && (bytes == WriterLog(ops) || exists next, n :: CutOff(bytes, ops, next, n))
    case Torn => true
  }

  lemma StoredLogLoads(bytes: seq<byte>, ops: seq<Op>)
    requires Stores(bytes, LogFile(ops)) && Ordinary(ops)
    ensures Load(bytes) == Success(Replay(LeadingRemovals(ops)))
  {
    hide Load, Replay, WriterLog, Ordinary;
    if bytes == WriterLog(ops) {
      WholeLogLoads(ops);
    } else {
      var next, n :| CutOff(bytes, ops, next, n);
      LogLoads(ops + [next], n);
      CutOffLead(ops, next, n);
    }
  }

  lemma {:induction false} LeadOfAppend(ops: seq<Op>, next: Op)
    ensures LeadingRemovals(ops + [next]) ==
            if |LeadingRemovals(ops)| == |ops| && next.Remove? then ops + [next] else LeadingRemovals(ops)
  {
    var all := ops + [next];
    if ops == [] {
      assert all[1..] == [];
    } else {
      assert all[1..] == ops[1..] + [next];
      LeadOfAppend(ops[1..], next);
      assert [ops[0]] + ops[1..] == ops;
    }
  }

  /** The record that is cut off is no complete removal. */
  lemma CutOffLead(ops: seq<Op>, next: Op, n: nat)
    requires |WriterLog(ops)| <= n < |WriterLog(ops + [next])|
    ensures var lead := LeadingRemovals(ops + [next]); lead[..Complete(lead, n)] == LeadingRemovals(ops)
  {
    hide WriterLog, LoaderLog, LeadingRemovals, Complete;
    var lead := LeadingRemovals(ops + [next]);
    LeadOfAppend(ops, next);
    LeadIsShorter(ops);
    if lead == LeadingRemovals(ops) {
      CompleteAll(lead, n);
      assert lead[..|lead|] == lead;
    } else {
      assert LeadingRemovals(ops) == ops;
      SameFormat(lead);
      CompleteBetween(ops, next, n);
    }
  }

  ghost predicate StoresAll(raw: RawDisk, disk: Disk) {
    raw.Keys == disk.Keys && forall name :: name in disk ==> Stores(raw[name], disk[name])
  }

  function RawIds(raw: RawDisk, kind: Kind): (ids: set<nat>)
    ensures forall id :: id in ids <==> Name(id, kind) in raw
  {
    set name | name in raw && name.kind == kind :: name.id
  }

  function OpenTables(raw: RawDisk, ids: seq<nat>): Result<seq<SsTable>>
    requires forall i :: 0 <= i < |ids| ==> Name(ids[i], Sst) in raw
  {
    if ids == [] then Success([])
    else
      var q :- OpenTables(raw, ids[..|ids|-1]);
      var (t, _) :- DecodeFile(raw[Name(ids[|ids|-1], Sst)]);
      Success(q + [SsTable(ids[|ids|-1], t)])
  }

  function OpenLogs(raw: RawDisk, ids: seq<nat>): Result<seq<Table>>
    requires forall i :: 0 <= i < |ids| ==> Name(ids[i], Txl) in raw
  {
    if ids == [] then Success([])
    else
      var ts :- OpenLogs(raw, ids[..|ids|-1]);
      var t :- Load(raw[Name(ids[|ids|-1], Txl)]);
      Success(ts + [t])
  }

  datatype Opening = Opening(queue: seq<SsTable>, memTables: seq<Table>) {
    function Read(k: Key): Option<Text> {
      View(TablesOf(queue) + memTables, k)
    }
  }

  function OpenBytes(raw: RawDisk): Result<Opening> {
    var q :- OpenTables(raw, SortedIds(RawIds(raw, Sst)));
    var ts :- OpenLogs(raw, SortedIds(RawIds(raw, Txl)));
    Success(Opening(q, ts))
  }

  /** Every log is as the loader stops at its first set. */
  predicate OrdinaryLogs(disk: Disk) {
    forall name :: name in disk && name.kind == Txl && disk[name].LogFile? ==> Ordinary(disk[name].ops)
  }

  /** What the loader makes of the logs. */
  function Reloadable(mems: seq<Mem>): seq<Table> {
    seq(|mems|, i requires 0 <= i < |mems| => Replay(LeadingRemovals(mems[i].log)))
  }

  lemma {:induction false} TablesOpen(raw: RawDisk, disk: Disk, ids: seq<nat>)
    requires StoresAll(raw, disk) && forall i :: 0 <= i < |ids| ==> Name(ids[i], Sst) in disk
    requires LoadTables(disk, ids).Success?
    ensures OpenTables(raw, ids) == LoadTables(disk, ids)
  {
    if ids != [] {
      TablesOpen(raw, disk, ids[..|ids|-1]);
      var name := Name(ids[|ids|-1], Sst);
      var time :| IsFileOf(raw[name], time, disk[name].table);
      FileRoundTrip(time, disk[name].table);
    }
  }

  lemma {:induction false} LogsOpen(raw: RawDisk, disk: Disk, ids: seq<nat>)
    requires StoresAll(raw, disk) && OrdinaryLogs(disk) && forall i :: 0 <= i < |ids| ==> Name(ids[i], Txl) in disk
    requires LoadLogs(disk, ids).Success?
    ensures OpenLogs(raw, ids) == Success(Reloadable(LoadLogs(disk, ids).value))
  {
    hide Load, WriterLog, Replay, Ordinary, LeadingRemovals, Stores;
    if ids != [] {
      LogsOpen(raw, disk, ids[..|ids|-1]);
      var name := Name(ids[|ids|-1], Txl);
      StoredLogLoads(raw[name], disk[name].ops);
      ReloadableExtend(LoadLogs(disk, ids[..|ids|-1]).value, Mem(ids[|ids|-1], disk[name].ops, Replay(disk[name].ops)));
    }
  }

  lemma ReloadableExtend(mems: seq<Mem>, m: Mem)
    ensures Reloadable(mems + [m]) == Reloadable(mems) + [Replay(LeadingRemovals(m.log))]
  {
  }

  lemma SameIds(raw: RawDisk, disk: Disk)
    requires StoresAll(raw, disk)
    ensures RawIds(raw, Sst) == IdsOf(disk, Sst) && RawIds(raw, Txl) == IdsOf(disk, Txl)
  {
  }

  /** The bytes give the tables back, and of each memtable the removals before its first set. */
  lemma OpensBytes(raw: RawDisk, disk: Disk)
    requires StoresAll(raw, disk) && OrdinaryLogs(disk) && Init(disk).Success?
    ensures OpenBytes(raw) == Success(Opening(Init(disk).value.queue, Reloadable(Init(disk).value.mems)))
  {
    hide StoresAll, OrdinaryLogs, LoadTables, LoadLogs, OpenTables, OpenLogs, SortedIds, Reloadable, Relaunched;
    SameIds(raw, disk);
    TablesOpen(raw, disk, SortedIds(IdsOf(disk, Sst)));
    LogsOpen(raw, disk, SortedIds(IdsOf(disk, Txl)));
  }

  // ----- when the bytes open at all -----

  lemma {:induction false} LogsOpenExactly(raw: RawDisk, ids: seq<nat>)
    requires forall i :: 0 <= i < |ids| ==> Name(ids[i], Txl) in raw
    ensures OpenLogs(raw, ids).Success? <==> forall i :: 0 <= i < |ids| ==> Load(raw[Name(ids[i], Txl)]).Success?
  {
    hide Load;
    if ids != [] {
      var init := ids[..|ids|-1];
      LogsOpenExactly(raw, init);
      assert forall i :: 0 <= i < |init| ==> init[i] == ids[i];
      assert OpenLogs(raw, ids).Success? <==> OpenLogs(raw, init).Success? && Load(raw[Name(ids[|ids|-1], Txl)]).Success?;
    }
  }

  predicate AllLogsLoad(raw: RawDisk) {
    forall name :: name in raw && name.kind == Txl ==> Load(raw[name]).Success?
  }

  /** The directory opens exactly when every log loads. */
  lemma OpensExactly(raw: RawDisk, disk: Disk)
    requires StoresAll(raw, disk) && Init(disk).Success?
    ensures OpenBytes(raw).Success? <==> AllLogsLoad(raw)
  {
    hide StoresAll, Load, OpenTables, OpenLogs, LoadTables, LoadLogs, SortedIds;
    SameIds(raw, disk);
    var ids := SortedIds(RawIds(raw, Txl));
    TablesOpen(raw, disk, SortedIds(IdsOf(disk, Sst)));
    LogsOpenExactly(raw, ids);
    if forall i :: 0 <= i < |ids| ==> Load(raw[Name(ids[i], Txl)]).Success? {
      forall name | name in raw && name.kind == Txl ensures Load(raw[name]).Success? {
        assert name == Name(name.id, Txl) && name.id in ids;
      }
    } else {
      var i :| 0 <= i < |ids| && !Load(raw[Name(ids[i], Txl)]).Success?;
      assert ids[i] in ids;
    }
  }

  // ----- when the bytes lose nothing -----

  /** Whatever a log holds from its first set on, it changes nothing. */
  predicate LogsSuffice(disk: Disk) {
    forall name :: name in disk && name.kind == Txl && disk[name].LogFile? ==> LaterCallsCancel(disk[name].ops)
  }

  /** It changes nothing about k. */
  predicate KeySuffices(disk: Disk, k: Key) {
    forall name :: name in disk && name.kind == Txl && disk[name].LogFile? ==> KeyCancels(disk[name].ops, k)
  }

  /** A log of the directory is that of a memtable, which it replays to. */
  lemma LogsAreMems(disk: Disk)
    requires Init(disk).Success?
    ensures var mems := Init(disk).value.mems;
            && (forall i :: 0 <= i < |mems| ==>
                  && Name(mems[i].logId, Txl) in disk && disk[Name(mems[i].logId, Txl)] == LogFile(mems[i].log)
                  && mems[i].table == Replay(mems[i].log))
            && forall name :: name in disk && name.kind == Txl ==>
                 exists i :: 0 <= i < |mems| && disk[name] == LogFile(mems[i].log)
  {
    hide Init, Replay;
    InitOnDisk(disk);
    InitValid(Config(0, 0, 0), disk);
    var mems := Init(disk).value.mems;
    forall name | name in disk && name.kind == Txl
      ensures exists i :: 0 <= i < |mems| && disk[name] == LogFile(mems[i].log)
    {
      assert name == Name(name.id, Txl) && name.id in LogIds(mems);
      var i :| 0 <= i < |mems| && LogIds(mems)[i] == name.id;
      assert disk[name] == LogFile(mems[i].log);
    }
  }

  /** The bytes rebuild the very tables and memtables exactly when the logs lose nothing. */
  lemma BytesSufficeExactly(raw: RawDisk, disk: Disk)
    requires StoresAll(raw, disk) && OrdinaryLogs(disk) && Init(disk).Success?
    ensures OpenBytes(raw) == Success(Opening(Init(disk).value.queue, MemTables(Init(disk).value.mems)))
            <==> LogsSuffice(disk)
  {
    hide Init, OpenBytes, StoresAll, OrdinaryLogs, LaterCallsCancel, Replay, LeadingRemovals;
    OpensBytes(raw, disk);
    LogsAreMems(disk);
    var mems := Init(disk).value.mems;
    forall i | 0 <= i < |mems|
      ensures Reloadable(mems)[i] == MemTables(mems)[i] <==> LaterCallsCancel(mems[i].log)
    {
      TableLoadsExactly(mems[i].log);
    }
    if Reloadable(mems) == MemTables(mems) {
      assert forall i :: 0 <= i < |mems| ==> LaterCallsCancel(mems[i].log);
    } else {
      var i :| 0 <= i < |mems| && Reloadable(mems)[i] != MemTables(mems)[i];
      assert disk[Name(mems[i].logId, Txl)].LogFile?;
    }
  }

  lemma {:induction false} FindAlike(a: seq<Table>, b: seq<Table>, k: Key)
    requires |a| == |b| && forall i :: 0 <= i < |a| ==> Lookup(a[i], k) == Lookup(b[i], k)
    ensures Find(a, k) == Find(b, k)
  {
    if a != [] {
      FindAlike(a[..|a|-1], b[..|b|-1], k);
      assert Lookup(a[|a|-1], k) == Lookup(b[|b|-1], k);
    }
  }

  /** A key that no log loses reads from the bytes as from the memtables, whatever else is lost. */
  lemma KeyReadsBack(raw: RawDisk, disk: Disk, k: Key)
    requires StoresAll(raw, disk) && OrdinaryLogs(disk) && Init(disk).Success? && KeySuffices(disk, k)
    ensures OpenBytes(raw).Success? && OpenBytes(raw).value.Read(k) == GetValue(Init(disk).value, k)
  {
    hide Init, OpenBytes, StoresAll, OrdinaryLogs, KeyCancels, Replay, LeadingRemovals;
    OpensBytes(raw, disk);
    LogsAreMems(disk);
    var db := Init(disk).value;
    forall i | 0 <= i < |db.mems| ensures Lookup(Reloadable(db.mems)[i], k) == Lookup(MemTables(db.mems)[i], k) {
      assert KeyCancels(db.mems[i].log, k);
      KeyLoadsExactly(db.mems[i].log, k);
    }
    FindAlike(Reloadable(db.mems), MemTables(db.mems), k);
    FindAppend(TablesOf(db.queue), Reloadable(db.mems), k);
    FindAppend(TablesOf(db.queue), MemTables(db.mems), k);
    GetReadsChronicle(db, k);
  }

  /** A log removes k before its first set. */
  predicate LedByRemoval(mems: seq<Mem>, k: Key) {
    exists i :: 0 <= i < |mems| && k in Replay(LeadingRemovals(mems[i].log))
  }

  /**
   * What any key reads after opening: nothing if a log removes it before its first set, and
   * else what the tables hold.
   */
  lemma BytesRead(raw: RawDisk, disk: Disk, k: Key)
    requires StoresAll(raw, disk) && OrdinaryLogs(disk) && Init(disk).Success?
    ensures OpenBytes(raw).Success?
    ensures OpenBytes(raw).value.Read(k) ==
            if LedByRemoval(Init(disk).value.mems, k) then None else View(TablesOf(Init(disk).value.queue), k)
  {
    hide Init, OpenBytes, StoresAll, OrdinaryLogs, Replay, LeadingRemovals;
    OpensBytes(raw, disk);
    var db := Init(disk).value;
    FindAppend(TablesOf(db.queue), Reloadable(db.mems), k);
    RemovalsFound(db.mems, k);
  }

  lemma {:induction false} RemovalsFound(mems: seq<Mem>, k: Key)
    ensures Find(Reloadable(mems), k) == if LedByRemoval(mems, k) then Some(TOMBSTONE) else None
  {
    hide Replay, LeadingRemovals;
    if mems != [] {
      var init, last := mems[..|mems|-1], mems[|mems|-1];
      RemovalsFound(init, k);
      RemovalsReplay(LeadingRemovals(last.log), k);
      assert Reloadable(mems)[..|mems|-1] == Reloadable(init);
      if LedByRemoval(init, k) {
        var i :| 0 <= i < |init| && k in Replay(LeadingRemovals(init[i].log));
        assert mems[i] == init[i];
      }
    }
  }

  lemma RemovalLogsSuffice(disk: Disk)
    requires forall name :: name in disk && name.kind == Txl && disk[name].LogFile? ==>
               forall i :: 0 <= i < |disk[name].ops| ==> disk[name].ops[i].Remove?
    ensures OrdinaryLogs(disk) && LogsSuffice(disk)
  {
  }

  /**
   * Crash recovery on bytes, a kill inside the append of a log record included: modest keys
   * about which the logs lose nothing read after the restart as last written.
   */
  lemma CrashBytesReadLastWrite(cfg: Config, es: seq<Event>, op: Op, i: nat, k: Key, raw: RawDisk)
    requires Modest(es + [Call(op)], k)
    ensures Run(cfg, EMPTY, es).Success?
    ensures var db := Run(cfg, EMPTY, es).value;
            && CheckCompaction(cfg, db).Success? && CheckFutures(cfg, db).Success?
            && var disks := CallDisks(cfg, db, RunDisk(cfg, EMPTY, map[], es), op);
               i < |disks| && StoresAll(raw, disks[i]) && OrdinaryLogs(disks[i]) && KeySuffices(disks[i], k) ==>
                 && OpenBytes(raw).Success?
                 && OpenBytes(raw).value.Read(k) ==
                    Lookup(ModelRun(map[], if i < |disks| - 2 then es else es + [Call(op)]), k)
  {
    hide Valid, OnDisk, CallDisks, Init, RunDisk, Run, ModelRun, OpenBytes, StoresAll, OrdinaryLogs, KeySuffices, Modest;
    CrashReadsLastWrite(cfg, es, op, i, k);
    var disks := CallDisks(cfg, Run(cfg, EMPTY, es).value, RunDisk(cfg, EMPTY, map[], es), op);
    if i < |disks| && StoresAll(raw, disks[i]) && OrdinaryLogs(disks[i]) && KeySuffices(disks[i], k) {
      KeyReadsBack(raw, disks[i], k);
    }
  }
}
