/**
 * The queue of tables as the program keeps it, files with their sparse indexes: searching it
 * newest first by seeking equals searching the tables themselves.
 */
module TableFiles {
  import opened Bytes
  import opened Tables
  import opened Compaction
  import opened Sizes
  import opened Grouping
  import opened SSTableOps
  import opened Errors
  import opened Serializer
  import opened SparseIndex
  import opened Streams

  /** The file holds t, and the index with the end position fits the file. */
  ghost predicate Indexes(file: seq<byte>, index: map<Key, nat>, eofPos: nat, t: Table) {
    && (exists time :: IsFileOf(file, time, t))
    && Sparse(Entries(t), index) && eofPos == |file|
  }

  /** A seek then answers for the table. */
  lemma IndexedSeek(file: seq<byte>, index: map<Key, nat>, eofPos: nat, t: Table, k: Key)
    requires Indexes(file, index, eofPos, t)
    ensures SeekIn(file, index, eofPos, k) == Success(Lookup(t, k))
  {
    hide SeekIn, Sparse, EncodeFile;
    var time :| IsFileOf(file, time, t);
    SeekWithSparseIndex(time, t, index, k);
  }

  /** What flushing a table writes and returns. */
  lemma FlushedIndexes(time: nat, t: Table, blockSize: nat)
    requires IsSize(time) && TableFits(t)
    ensures var file := EncodeFile(time, t);
            Indexes(file, WriterScan(Entries(t), |t|, blockSize).index, |file|, t)
  {
    assert IsFileOf(EncodeFile(time, t), time, t);
    WriterPoints(Entries(t), |t|, blockSize);
  }

  /** What loading a table file returns. */
  lemma LoadedIndexes(file: seq<byte>, time: nat, t: Table, blockSize: nat, index: map<Key, nat>, eofPos: nat)
    requires IsFileOf(file, time, t) && ReaderIndexed(file, blockSize, index, eofPos)
    ensures Indexes(file, index, eofPos, t)
  {
    ReaderPoints(Entries(t), |t|, blockSize);
  }

  /** A table in the queue: the name stands for the bytes of its file. */
  datatype Handle = Handle(file: seq<byte>, index: SSTableIndex)

  ghost predicate Holds(q: seq<Handle>, ts: seq<Table>)
    reads set h | h in q :: h.index
  {
    |q| == |ts| && forall i :: 0 <= i < |q| ==> q[i] in q && Indexes(q[i].file, q[i].index.index, q[i].index.eofPos, ts[i])
  }

  /** Seek in the newest table first; what is found, a tombstone included, ends the search. */
  method Get(q: seq<Handle>, key: Key, ghost ts: seq<Table>) returns (r: Result<Option<Value>>)
    requires Holds(q, ts)
    ensures r == Success(Find(ts, key))
  {
    hide Indexes, SeekIn;
    var i := |q|;
    assert ts[..|q|] == ts;
    while i > 0
      invariant 0 <= i <= |q|
      invariant Find(ts, key) == Find(ts[..i], key)
    {
      assert q[i-1] in q;
      IndexedSeek(q[i-1].file, q[i-1].index.index, q[i-1].index.eofPos, ts[i-1], key);
      assert ts[..i][..i-1] == ts[..i-1] && ts[..i][i-1] == ts[i-1];
      var seekRtn := q[i-1].index.Seek(q[i-1].file, key);
      if seekRtn.Failure? || seekRtn.value.Some? {
        return seekRtn;
      }
      i := i - 1;
    }
    r := Success(None);
  }

  lemma HoldsOneMore(q: seq<Handle>, ts: seq<Table>, h: Handle, t: Table)
    requires Holds(q, ts) && Indexes(h.file, h.index.index, h.index.eofPos, t)
    ensures Holds(q + [h], ts + [t])
  {
    hide Indexes;
    var r := q + [h];
    forall i | 0 <= i < |r| ensures r[i] in r && Indexes(r[i].file, r[i].index.index, r[i].index.eofPos, (ts + [t])[i]) {
      assert i < |q| ==> r[i] == q[i] && q[i] in q;
    }
  }

  /** The file of t with the index that its writer has built. */
  ghost predicate Flushed(h: Handle, time: nat, t: Table, blockSize: nat)
    reads h.index
  {
    && h.file == EncodeFile(time, t)
    && h.index.index == WriterScan(Entries(t), |t|, blockSize).index && h.index.eofPos == |h.file|
  }

  /** The given file of t with the index that its reader has built. */
  ghost predicate Loaded(h: Handle, file: seq<byte>, t: Table, blockSize: nat)
    reads h.index
  {
    && h.file == file
    && h.index.index == ReaderScan(Entries(t), |t|, blockSize).index && h.index.eofPos == |file|
  }

  /** Flush a table and take it into the queue. */
  method FlushInto(q: seq<Handle>, time: nat, t: Table, blockSize: nat, ghost ts: seq<Table>) returns (r: seq<Handle>)
    requires Holds(q, ts) && IsSize(time) && TableFits(t)
    ensures |r| == |q| + 1 && r[..|q|] == q && Holds(r, ts + [t])
    ensures fresh(r[|q|].index) && Flushed(r[|q|], time, t, blockSize)
  {
    FlushedIndexes(time, t, blockSize);
    hide Indexes, EncodeFile, TableFits, WriterScan, Entries;
    var file, index := FlushSSTable(time, t, blockSize);
    HoldsOneMore(q, ts, Handle(file, index), t);
    r := q + [Handle(file, index)];
  }

  /** Load a table file, as at opening. */
  method LoadIndexed(file: seq<byte>, blockSize: nat, ghost time: nat, ghost t: Table) returns (h: Handle)
    requires IsFileOf(file, time, t)
    ensures fresh(h.index) && Loaded(h, file, t, blockSize) && Indexes(h.file, h.index.index, h.index.eofPos, t)
  {
    FileRoundTrip(time, t);
    hide EncodeFile, DecodeFile, Entries, Indexes, ReaderScan, TableFits;
    var index := new SSTableIndex();
    var loaded := LoadSSTable(file, blockSize, index);
    LoadedIndexes(file, time, t, blockSize, index.index, index.eofPos);
    h := Handle(file, index);
  }

  /** Load a table file and take it into the queue. */
  method LoadInto(q: seq<Handle>, file: seq<byte>, blockSize: nat, ghost ts: seq<Table>, ghost time: nat, ghost t: Table)
    returns (r: seq<Handle>)
    requires Holds(q, ts) && IsFileOf(file, time, t)
    ensures |r| == |q| + 1 && r[..|q|] == q && Holds(r, ts + [t])
    ensures fresh(r[|q|].index) && Loaded(r[|q|], file, t, blockSize)
  {
    hide IsFileOf, Indexes;
    var h := LoadIndexed(file, blockSize, time, t);
    HoldsOneMore(q, ts, h, t);
    r := q + [h];
  }

  // ----- compaction of files -----

  /** The files of the window are together shorter than 2^64 bytes. */
  predicate WindowFits(w: seq<SsTable>) {
    IsSize(Sum(FileSizes(w), |w|))
  }

  /** Files below 2^64 bytes hold tables whose sizes all fit. */
  lemma SmallTableFits(t: Table)
    requires IsSize(FileSize(t))
    ensures TableFits(t)
  {
    hide Total;
    CountBelowSize(t);
    forall k | k in t ensures IsSize(|k|) && IsSize(|t[k].text|) {
      TotalWithout(SERIALIZED_OVERHEAD, t, k);
    }
  }

  lemma {:induction false} CountBelowSize(t: Table)
    ensures |t| <= Total(SERIALIZED_OVERHEAD, t)
    decreases |t|
  {
    if t != map[] {
      var k := Least(t.Keys);
      RemoveShrinks(t, k);
      CountBelowSize(t - {k});
    } else {
      assert |t| == 0;
    }
  }

  lemma {:induction false} SumOfTail(w: seq<SsTable>, curr: nat, n: nat)
    requires curr + n <= |w|
    ensures Sum(FileSizes(w), curr + n) == Sum(FileSizes(w), curr) + Sum(FileSizes(w[curr..]), n)
  {
    hide FileSize;
    if n > 0 {
      SumOfTail(w, curr, n - 1);
    }
  }

  lemma {:induction false} SumGrows(sizes: seq<nat>, m: nat, n: nat)
    requires m <= n <= |sizes|
    ensures Sum(sizes, m) <= Sum(sizes, n)
  {
    if m < n {
      SumGrows(sizes, m, n - 1);
    }
  }

  lemma GroupSize(limit: nat, w: seq<SsTable>, rtn: seq<SsTable>, curr: nat, next: nat, t: Table, size: nat)
    requires InGroup(limit, w, rtn, curr, next, t, size)
    ensures curr < next <= |w| == |FileSizes(w)| && next - curr <= |FileSizes(w[curr..])|
    ensures FileSize(t) <= Sum(FileSizes(w[curr..]), next - curr)
  {
    hide MergeWindow, Fold, Passes, FileSize;
  }

  /** What a group has become can be written, if the files of the window can be added up. */
  lemma GroupFits(limit: nat, w: seq<SsTable>, rtn: seq<SsTable>, curr: nat, next: nat, t: Table, size: nat)
    requires InGroup(limit, w, rtn, curr, next, t, size) && WindowFits(w)
    ensures TableFits(t)
  {
    hide InGroup, FileSize, FileSizes, Sum, TableFits;
    GroupSize(limit, w, rtn, curr, next, t, size);
    SumOfTail(w, curr, next - curr);
    SumGrows(FileSizes(w), next, |w|);
    SmallTableFits(t);
  }

  /** The file of a table is as long as the compaction takes the table to be. */
  lemma HandleSize(h: Handle, t: Table)
    requires Indexes(h.file, h.index.index, h.index.eofPos, t)
    ensures |h.file| == FileSize(t)
  {
    hide EncodeFile;
    var time :| IsFileOf(h.file, time, t);
    FileLength(time, t);
  }

  /** Read the table back, without building an index. */
  method ReadTable(h: Handle, ghost t: Table) returns (r: Table)
    requires Indexes(h.file, h.index.index, h.index.eofPos, t)
    ensures r == t && |h.file| == FileSize(t)
  {
    HandleSize(h, t);
    ghost var time :| IsFileOf(h.file, time, t);
    FileRoundTrip(time, t);
    hide EncodeFile, DecodeFile, Indexes, FileSize;
    var loaded := LoadSSTable(h.file, 0, null);
    r := loaded.value;
  }

  /** A file with the writer's index for each of the tables, in order. */
  ghost predicate AllFlushed(q: seq<Handle>, time: nat, ts: seq<Table>, blockSize: nat)
    reads set h | h in q :: h.index
  {
    |q| == |ts| && forall i :: 0 <= i < |q| ==> q[i] in q && Flushed(q[i], time, ts[i], blockSize)
  }

  /** Write the merged table of a group. */
  method FlushGroup(rtn: seq<Handle>, time: nat, t: Table, blockSize: nat, ghost id: nat, ghost done: seq<SsTable>)
    returns (r: seq<Handle>)
    requires Holds(rtn, TablesOf(done)) && IsSize(time) && TableFits(t)
    requires AllFlushed(rtn, time, TablesOf(done), blockSize)
    ensures Holds(r, TablesOf(done + [SsTable(id, t)]))
    ensures AllFlushed(r, time, TablesOf(done + [SsTable(id, t)]), blockSize)
  {
    hide Holds, TableFits, TablesOf, Flushed;
    TablesOfOneMore(done, id, t);
    r := FlushInto(rtn, time, t, blockSize, TablesOf(done));
    forall i | 0 <= i < |rtn| ensures r[i] == rtn[i] && rtn[i] in rtn {
      assert r[..|rtn|][i] == r[i];
    }
  }

  lemma TablesOfOneMore(done: seq<SsTable>, id: nat, t: Table)
    ensures TablesOf(done + [SsTable(id, t)]) == TablesOf(done) + [t]
  {
  }

  /**
   * The compaction as it runs, on files: it adds up the lengths of the files, reads one table
   * after the other, and writes a file with its index for every group. The result holds what
   * the window w becomes.
   */
  method MergeFiles(limit: nat, q: seq<Handle>, time: nat, blockSize: nat, ghost w: seq<SsTable>)
    returns (r: Result<seq<Handle>>)
    requires w != [] && Holds(q, TablesOf(w)) && IsSize(time) && WindowFits(w)
    ensures |w| == 1 ==> r == Failure(NothingToMerge)
    ensures |w| > 1 ==> r.Success? && Holds(r.value, TablesOf(MergeWindow(limit, w)))
    ensures |w| > 1 ==> AllFlushed(r.value, time, TablesOf(MergeWindow(limit, w)), blockSize)
  {
    hide Flushed, Indexes, InGroup, MergeWindow, FileSize, FileSizes, Passes, Merged, TableFits, Sum;
    if |q| == 1 {
      return Failure(NothingToMerge);
    }
    var rtn: seq<Handle> := [];
    ghost var done: seq<SsTable> := [];
    ghost var curr := 0;
    var next := 1;
    var currTable := ReadTable(q[0], w[0].table);
    var currTableSize: nat := |q[0].file|;
    assert w[0..] == w && [] + MergeWindow(limit, w) == MergeWindow(limit, w);
    StartGroup(limit, w, done, curr);
    while true
      invariant curr < next < |w| == |q| && Holds(q, TablesOf(w)) && Holds(rtn, TablesOf(done))
      invariant AllFlushed(rtn, time, TablesOf(done), blockSize)
      invariant InGroup(limit, w, done, curr, next, currTable, currTableSize)
      invariant !Passes(limit, FileSizes(w[curr..]), next - curr)
      decreases |w| - next
    {
      var nextTable := ReadTable(q[next], w[next].table);
      ExtendGroup(limit, w, done, curr, next, currTable, currTableSize);
      currTableSize := currTableSize + |q[next].file|;
      currTable := MergeSSTable(currTable, nextTable);
      next := next + 1;
      GroupFits(limit, w, done, curr, next, currTable, currTableSize);
      if next == |q| {
        CloseGroup(limit, w, done, curr, next, currTable, currTableSize);
        rtn := FlushGroup(rtn, time, currTable, blockSize, w[curr].id, done);
        done := done + [SsTable(w[curr].id, currTable)];
        break;
      }
      if currTableSize > limit {
        CloseGroup(limit, w, done, curr, next, currTable, currTableSize);
        rtn := FlushGroup(rtn, time, currTable, blockSize, w[curr].id, done);
        done := done + [SsTable(w[curr].id, currTable)];
        curr := next;
        currTable := ReadTable(q[next], w[next].table);
        currTableSize := |q[next].file|;
        next := next + 1;
        StartGroup(limit, w, done, curr);
        if next == |q| {
          GroupFits(limit, w, done, curr, next, currTable, currTableSize);
          CloseGroup(limit, w, done, curr, next, currTable, currTableSize);
          rtn := FlushGroup(rtn, time, currTable, blockSize, w[curr].id, done);
          done := done + [SsTable(w[curr].id, currTable)];
          break;
        }
      }
    }
    MergeWindowEmpty(limit, w);
    assert done + [] == done;
    r := Success(rtn);
  }
}
