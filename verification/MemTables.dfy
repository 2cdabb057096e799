/** The memtables and their transaction logs, updated in place. */
module MemTables {
  import opened Bytes
  import opened Tables
  import opened Compaction
  import opened Sizes
  import opened Engine
  import opened Serializer
  import opened TransactionLog

  class MemTable {
    var table: Table

    constructor ()
      ensures table == map[]
    {
      table := map[];
    }

    method GetValue(key: Key) returns (r: Option<Value>)
      ensures r == Lookup(table, key)
    {
      r := Lookup(table, key);
    }

    method Set(key: Key, value: Value)
      modifies this
      ensures table == old(table)[key := value]
    {
      table := table[key := value];
    }

    method Remove(key: Key)
      modifies this
      ensures table == old(table)[key := TOMBSTONE]
    {
      Set(key, TOMBSTONE);
    }

    /** Add up the sizes of the entries in an unsigned of 32 bits. */
    method NeedsFlushToDisk(limit: nat) returns (rtn: bool)
      ensures rtn == NeedsFlush(limit, table)
    {
      var entries := Entries(table);
      var currSizeInBytes := 0;
      var i := 0;
      while i < |entries|
        invariant 0 <= i <= |entries|
        invariant currSizeInBytes == SeqTotal(APPROXIMATE_OVERHEAD, entries[..i]) % 0x1_0000_0000
      {
        assert entries[..i+1][..i] == entries[..i];
        currSizeInBytes := (currSizeInBytes + Weight(APPROXIMATE_OVERHEAD, entries[i])) % 0x1_0000_0000;
        i := i + 1;
      }
      assert entries[..i] == entries;
      TotalOfEntries(APPROXIMATE_OVERHEAD, table);
      rtn := currSizeInBytes >= limit;
    }
  }

  class TransactionLogWriter {
    const fileId: nat
    var ofs: seq<byte>           // what has been written through this stream
    ghost var records: seq<Op>   // all the operations in the file
    ghost const inherited: nat   // how many of them the file held when it was opened

    /** The stream has written the records of the operations since the file was opened. */
    ghost predicate Valid()
      reads this
    {
      inherited <= |records| && ofs == WriterLog(records[inherited..])
    }

    constructor (fileId: nat)
      ensures Valid() && this.fileId == fileId && ofs == [] && records == [] && inherited == 0
    {
      this.fileId, ofs, records, inherited := fileId, [], [], 0;
    }

    /** Open an existing log, which holds ops, for appending. */
    constructor Append(fileId: nat, ghost ops: seq<Op>)
      ensures Valid() && this.fileId == fileId && ofs == [] && records == ops && inherited == |ops|
    {
      this.fileId, ofs, records, inherited := fileId, [], ops, |ops|;
    }

    method WriteType(kind: nat)
      modifies this`ofs
      ensures ofs == old(ofs) + ToBytes(kind, TAG_WIDTH)
    {
      ofs := ofs + ToBytes(kind, TAG_WIDTH);
    }

    method WriteText(t: Text)
      modifies this`ofs
      ensures ofs == old(ofs) + EncodeText(t)
    {
      ofs := ofs + EncodeText(t);
    }

    /** The type, the key, and for a set the text, one after the other. */
    method WriteFields(op: Op)
      modifies this`ofs
      ensures ofs == old(ofs) + WriterRecord(op)
    {
      hide ToBytes, EncodeText, WriterLog;
      match op {
        case Set(key, text) =>
          WriteType(SET_TRANSACTION);
          WriteText(key);
          WriteText(text);
        case Remove(key) =>
          WriteType(REMOVE_TRANSACTION);
          WriteText(key);
      }
    }

    method Write(op: Op)
      requires Valid()
      modifies this
      ensures Valid() && records == old(records) + [op] && ofs == old(ofs) + WriterRecord(op)
    {
      hide WriterRecord, WriterLog;
      WriteFields(op);
      records := records + [op];
      OneMoreRecord(old(records), inherited, op);
    }
  }

  lemma OneMoreRecord(records: seq<Op>, inherited: nat, op: Op)
    requires inherited <= |records|
    ensures WriterLog((records + [op])[inherited..]) == WriterLog(records[inherited..]) + WriterRecord(op)
  {
    hide WriterRecord;
    assert (records + [op])[inherited..] == records[inherited..] + [op];
    WriterLogAppend(records[inherited..], [op]);
    assert [op][1..] == [];
  }

  /** Apply the operations of a log to a new memtable, in order. */
  method ReplayLog(records: seq<Op>) returns (memTable: MemTable)
    ensures fresh(memTable) && memTable.table == Replay(records)
  {
    memTable := new MemTable();
    var i := 0;
    while i < |records|
      invariant 0 <= i <= |records| && fresh(memTable)
      invariant memTable.table == Replay(records[..i])
    {
      assert records[..i+1] == records[..i] + [records[i]];
      ReplayExtend(records[..i], records[i]);
      if records[i].Set? {
        memTable.Set(records[i].key, Live(records[i].text));
      } else {
        memTable.Remove(records[i].key);
      }
      i := i + 1;
    }
    assert records[..i] == records;
  }

  datatype MemEntry = MemEntry(memTable: MemTable, log: TransactionLogWriter)

  /** A flush job holds a reference to its memtable; the result is what it read from it. */
  datatype FlushFuture = FlushFuture(id: nat, memTable: MemTable, result: Option<Table>)

  /** What a launched job is about to write. */
  function JobOf(ft: Option<FlushFuture>): seq<FlushJob>
    reads if ft.Some? then {ft.value.memTable} else {}
  {
    if ft.Some? then [FlushJob(ft.value.id, ft.value.memTable.table, false)] else []
  }

  class MemTableQueue {
    var queue: seq<MemEntry>
    var ssTableCounter: nat
    var logCounter: nat
    ghost var mems: seq<Mem>  // what the entries of the queue hold
    ghost var Repr: set<object>  // memtables and logs, those of former entries included

    ghost predicate Apart()
      reads this
    {
      forall i, j :: 0 <= i < j < |queue| ==> queue[i].memTable != queue[j].memTable && queue[i].log != queue[j].log
    }

    ghost predicate Holds(e: MemEntry, m: Mem)
      reads e.memTable, e.log
    {
      m == Mem(e.log.fileId, e.log.records, e.memTable.table) && e.log.Valid()
    }

    ghost predicate Valid()
      reads this, Repr
    {
      && this !in Repr && Apart() && |mems| == |queue|
      && forall i :: 0 <= i < |queue| ==>
           queue[i].memTable in Repr && queue[i].log in Repr && Holds(queue[i], mems[i])
    }

    constructor ()
      ensures Valid() && queue == [] && mems == [] && Repr == {} && ssTableCounter == 0 && logCounter == 0
    {
      queue, mems, Repr, ssTableCounter, logCounter := [], [], {}, 0, 0;
    }

    /** The newest memtable that has the key answers, with a tombstone if need be. */
    method Get(key: Key) returns (r: Option<Value>)
      requires Valid()
      ensures r == Find(Engine.MemTables(mems), key)
    {
      var i := |queue|;
      ghost var ts := Engine.MemTables(mems);
      assert ts[..|queue|] == ts;
      while i > 0
        invariant 0 <= i <= |queue|
        invariant Find(ts, key) == Find(ts[..i], key)
      {
        assert Holds(queue[i-1], mems[i-1]);
        assert ts[..i][..i-1] == ts[..i-1] && ts[..i][i-1] == queue[i-1].memTable.table;
        var value := queue[i-1].memTable.GetValue(key);
        if value.Some? {
          return value;
        }
        i := i - 1;
      }
      r := None;
    }

    /** A new entry, which holds m, at the back. */
    method PushEntry(memTable: MemTable, log: TransactionLogWriter, ghost m: Mem)
      requires Valid() && Holds(MemEntry(memTable, log), m)
      requires memTable !in Repr && log !in Repr
      modifies this`queue, this`mems, this`Repr
      ensures Valid() && queue == old(queue) + [MemEntry(memTable, log)] && mems == old(mems) + [m]
      ensures Repr == old(Repr) + {memTable, log}
    {
      queue := queue + [MemEntry(memTable, log)];
      Repr := Repr + {memTable, log};
      mems := mems + [m];
      forall i | 0 <= i < old(|queue|) ensures queue[i] == old(queue)[i] && Holds(queue[i], mems[i]) {
        assert old(Holds(queue[i], mems[i]));
      }
      assert Holds(queue[|queue|-1], mems[|queue|-1]);
    }

    /** A new memtable with a new log at the back. */
    method PushBack()
      requires Valid()
      modifies this
      ensures Valid() && |mems| == |queue| == old(|queue|) + 1 && queue[..old(|queue|)] == old(queue)
      ensures fresh(Repr - old(Repr))
      ensures mems == old(mems) + [Mem(old(logCounter), [], map[])]
      ensures ssTableCounter == old(ssTableCounter) && logCounter == old(logCounter) + 1
    {
      var memTable := new MemTable();
      var log := new TransactionLogWriter(logCounter);
      PushEntry(memTable, log, Mem(logCounter, [], map[]));
      logCounter := logCounter + 1;
    }

    method PushBackIfEmpty()
      requires Valid()
      modifies this
      ensures Valid() && |mems| == |queue| >= 1 && |queue| >= old(|queue|) && queue[..old(|queue|)] == old(queue)
      ensures fresh(Repr - old(Repr)) && queue[|queue|-1].memTable in Repr && queue[|queue|-1].log in Repr
      ensures mems == if old(mems) == [] then [Mem(old(logCounter), [], map[])] else old(mems)
      ensures logCounter == if old(mems) == [] then old(logCounter) + 1 else old(logCounter)
      ensures ssTableCounter == old(ssTableCounter)
    {
      if queue == [] {
        PushBack();
      }
    }

    /** Number the file of the job, and let the job hold on to the memtable. */
    method LaunchFlushToDisk(memTable: MemTable) returns (ft: FlushFuture)
      modifies this`ssTableCounter
      ensures ssTableCounter == old(ssTableCounter) + 1
      ensures ft == FlushFuture(old(ssTableCounter) + 1, memTable, None)
    {
      ssTableCounter := ssTableCounter + 1;
      ft := FlushFuture(ssTableCounter, memTable, None);
    }

    /** Log an operation, then apply it to the newest memtable. */
    method WriteBack(op: Op)
      requires Valid() && queue != []
      modifies this`mems, queue[|queue|-1].memTable, queue[|queue|-1].log
      ensures Valid() && mems == old(mems)[|queue|-1 := Logged(old(mems)[|queue|-1], op)]
      ensures queue[|queue|-1].log.ofs == old(queue[|queue|-1].log.ofs) + WriterRecord(op)
    {
      hide WriterRecord, WriterLog;
      var back := queue[|queue|-1];
      assert Holds(back, mems[|queue|-1]);
      back.log.Write(op);
      if op.Set? {
        back.memTable.Set(op.key, Live(op.text));
      } else {
        back.memTable.Remove(op.key);
      }
      assert Holds(back, Logged(mems[|queue|-1], op));
      mems := mems[|queue|-1 := Logged(mems[|queue|-1], op)];
      forall i | 0 <= i < |queue| - 1 ensures Holds(queue[i], mems[i]) {
        assert old(Holds(queue[i], mems[i]));
      }
    }

    /** Freeze the newest memtable if it is full: a new one behind it, and a job for it. */
    method TryLaunchFlushToDisk(limit: nat) returns (ft: Option<FlushFuture>)
      requires Valid() && queue != []
      modifies this
      ensures Valid() && |queue| >= old(|queue|) && queue[..old(|queue|)] == old(queue)
      ensures fresh(Repr - old(Repr))
      ensures |queue| == |mems| && old(mems) != []
      ensures var w := FreezeFull(limit, old(mems), old(ssTableCounter), old(logCounter));
              && mems == w.mems && ssTableCounter == w.ssTableCounter && logCounter == w.logCounter
              && w.flushes == JobOf(ft)
              && (ft.Some? ==> |queue| >= 2 && ft.value.memTable == queue[|queue|-2].memTable && ft.value.result == None)
    {
      hide Total;
      var active := queue[|queue|-1].memTable;
      assert Holds(queue[|queue|-1], mems[|queue|-1]);
      var full := active.NeedsFlushToDisk(limit);
      if !full {
        return None;
      }
      PushBack();
      var future := LaunchFlushToDisk(active);
      ft := Some(future);
    }

    /** Log and apply the operation, to a first memtable if there is none. */
    method WriteLogged(op: Op)
      requires Valid()
      modifies this, Repr
      ensures Valid() && |queue| == |mems| >= old(|queue|) && queue[..old(|queue|)] == old(queue)
      ensures queue != [] && fresh(Repr - old(Repr))
      ensures mems == WrittenMems(old(mems), old(logCounter), op) && ssTableCounter == old(ssTableCounter)
      ensures logCounter == if old(mems) == [] then old(logCounter) + 1 else old(logCounter)
    {
      hide Logged, WriterRecord, Valid, Holds, Apart;
      PushBackIfEmpty();
      WriteBack(op);
    }

    /** set and remove, as far as the memtables go. */
    method Write(op: Op, cfg: Config) returns (ft: Option<FlushFuture>)
      requires Valid()
      modifies this, Repr
      ensures Valid() && fresh(Repr - old(Repr))
      ensures |mems| == |queue| >= old(|queue|) == old(|mems|) && queue[..old(|queue|)] == old(queue)
      ensures var w := Engine.Write(cfg, MemPart(old(mems), old(ssTableCounter), old(logCounter)), op);
              && mems == w.mems && ssTableCounter == w.ssTableCounter && logCounter == w.logCounter
              && w.flushes == JobOf(ft)
              && (ft.Some? ==> |queue| >= 2 && ft.value.memTable == queue[|queue|-2].memTable && ft.value.result == None)
    {
      assert |mems| == |queue|;
      WriteFields(cfg, mems, ssTableCounter, logCounter, op);
      hide Engine.Write, MemPart, WrittenMems, FreezeFull, JobOf, Valid, Holds, Apart;
      WriteLogged(op);
      ghost var written := queue;
      ft := TryLaunchFlushToDisk(cfg.memTableLimit);
      assert queue[..old(|queue|)] == queue[..|written|][..old(|queue|)];
    }

    /** A memtable read back from its log; all but the last log are flushed at once. */
    method PushFromTransactionLog(logId: nat, records: seq<Op>, isLastTransactionLog: bool) returns (ft: Option<FlushFuture>)
      requires Valid()
      modifies this
      ensures Valid() && |queue| == old(|queue|) + 1 && queue[..old(|queue|)] == old(queue)
      ensures fresh(Repr - old(Repr))
      ensures mems == old(mems) + [Mem(logId, records, Replay(records))] && logCounter == old(logCounter)
      ensures isLastTransactionLog ==> ft == None && ssTableCounter == old(ssTableCounter)
      ensures !isLastTransactionLog ==>
                ssTableCounter == old(ssTableCounter) + 1
                && ft == Some(FlushFuture(ssTableCounter, queue[|queue|-1].memTable, None))
    {
      var memTable := ReplayLog(records);
      var log := new TransactionLogWriter.Append(logId, records);
      PushEntry(memTable, log, Mem(logId, records, memTable.table));
      if isLastTransactionLog {
        return None;
      }
      var future := LaunchFlushToDisk(memTable);
      ft := Some(future);
    }

    /** What a log file held when it was opened, and what its stream has written, is the log of its memtable. */
    lemma StreamsHoldLogs(i: nat)
      requires Valid() && i < |queue|
      ensures var log := queue[i].log;
              && log.fileId == mems[i].logId && log.inherited <= |mems[i].log|
              && WriterLog(mems[i].log[..log.inherited]) + log.ofs == WriterLog(mems[i].log)
    {
      hide WriterLog;
      assert Holds(queue[i], mems[i]);
      var ops, n := mems[i].log, queue[i].log.inherited;
      WriterLogAppend(ops[..n], ops[n..]);
      assert ops[..n] + ops[n..] == ops;
    }

    /** The front memtable goes; its log is deprecated by the caller's file bookkeeping. */
    method Pop() returns (logId: nat)
      requires Valid() && queue != []
      modifies this`queue, this`mems
      ensures Valid() && queue == old(queue)[1..] && mems == old(mems)[1..]
      ensures logId == old(mems)[0].logId
    {
      assert Holds(queue[0], mems[0]);
      logId := queue[0].log.fileId;
      queue, mems := queue[1..], mems[1..];
      forall i | 0 <= i < |queue| ensures queue[i].memTable in Repr && queue[i].log in Repr && Holds(queue[i], mems[i]) {
        assert queue[i] == old(queue)[i + 1] && mems[i] == old(mems)[i + 1];
        assert old(Holds(queue[i + 1], mems[i + 1]));
      }
    }
  }
}
