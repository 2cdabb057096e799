/** The queue of table indexes, spliced in place by compactions. */
module IndexQueue {
  import opened Bytes
  import opened Tables
  import opened Compaction
  import opened Grouping
  import opened Errors
  import opened Engine

  class SSTableIndexQueue {
    var queue: seq<SsTable>
    var compactionStartIndex: nat

    constructor ()
      ensures queue == [] && compactionStartIndex == 0
    {
      queue, compactionStartIndex := [], 0;
    }

    /** The newest table that has the key answers, with a tombstone if need be. */
    method Get(key: Key) returns (r: Option<Value>)
      ensures r == Find(TablesOf(queue), key)
    {
      var i := |queue|;
      ghost var ts := TablesOf(queue);
      assert ts[..|queue|] == ts;
      while i > 0
        invariant 0 <= i <= |queue|
        invariant Find(ts, key) == Find(ts[..i], key)
      {
        assert ts[..i][..i-1] == ts[..i-1] && ts[..i][i-1] == queue[i-1].table;
        var seekRtn := Lookup(queue[i-1].table, key);
        if seekRtn.Some? {
          return seekRtn;
        }
        i := i - 1;
      }
      r := None;
    }

    method Insert(t: SsTable)
      modifies this`queue
      ensures queue == old(queue) + [t]
    {
      queue := queue + [t];
    }

    /** Erase the compacted window and insert the merged tables in its place. */
    method Update(n: nat, merged: seq<SsTable>) returns (r: Result<()>)
      modifies this
      ensures match Engine.Update(n, old(queue), old(compactionStartIndex), merged)
              case Success((q, start)) => r == Success(()) && queue == q && compactionStartIndex == start
              case Failure(error) => r == Failure(error) && queue == old(queue)
                                     && compactionStartIndex == old(compactionStartIndex)
    {
      if n == 0 {
        return Failure(CompactionDisabled);
      }
      if |queue| - (compactionStartIndex + 1) < n {
        return Failure(QueueTooShort);
      }
      if merged == [] {
        return Failure(NoMergedTables);
      }
      queue := queue[..compactionStartIndex] + queue[compactionStartIndex + 1 + n..];
      var updatedCompactionStartIndex := compactionStartIndex + |merged| - 1;
      queue := queue[..compactionStartIndex] + merged + queue[compactionStartIndex..];
      compactionStartIndex := updatedCompactionStartIndex;
      assert queue == old(queue)[..old(compactionStartIndex)] + merged
                      + old(queue)[old(compactionStartIndex) + 1 + n..];
      r := Success(());
    }

    /** The window of the next compaction, once enough new tables stand behind the start index. */
    method TryLaunchCompaction(n: nat) returns (window: Option<(nat, nat)>)
      ensures window.Some? <==> n > 0 && |queue| - compactionStartIndex - 1 >= n
      ensures window.Some? ==> window.value == (compactionStartIndex, compactionStartIndex + n + 1)
    {
      if n == 0 {
        return None;
      }
      var newlyAddedSSTablesCnt := |queue| - compactionStartIndex - 1;
      if newlyAddedSSTablesCnt < n {
        return None;
      }
      window := Some((compactionStartIndex, compactionStartIndex + n + 1));
    }
  }
}
