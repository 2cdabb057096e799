/**
 * Two runs from an empty database in which a removed key comes back: one sets the key
 * twice and removes it once, the other sets it once and removes it twice. The bounds of
 * the workload theorem can therefore not be relaxed.
 */
module StaleRead {
  import opened Bytes
  import opened Tables
  import opened Compaction
  import opened Sizes
  import opened Grouping
  import opened Errors
  import opened Engine
  import opened Refinement
  import opened Workload

  /** Every write fills a memtable, every merge passes the limit, three tables to a window. */
  const TINY := Config(1, 1, 2)

  const K: Key := [1]
  const X: Key := [2]
  const Z: Key := [3]
  const OLD_TEXT: Text := [7]
  const NEW_TEXT: Text := [8]

  /** One write that is flushed and harvested at once. */
  function Shelved(op: Op): seq<Event> {
    [Call(op), FlushDone(0), Get(op.key)]
  }

  predicate Idle(db: Db) {
    db.flushes == [] && db.job == None && (db.mems == [] || (|db.mems| == 1 && db.mems[0].table == map[]))
  }

  lemma {:induction false} RunAppend(cfg: Config, db: Db, a: seq<Event>, b: seq<Event>)
    requires Run(cfg, db, a).Success?
    ensures Run(cfg, db, a + b) == Run(cfg, Run(cfg, db, a).value, b)
  {
    if b == [] {
      assert a + b == a;
    } else {
      assert (a + b)[..|a + b|-1] == a + b[..|b|-1];
      RunAppend(cfg, db, a, b[..|b|-1]);
    }
  }

  lemma RunOne(cfg: Config, db: Db, e: Event)
    ensures Run(cfg, db, [e]) == Step(cfg, db, e)
  {
    assert [e][..|[e]|-1] == [];
  }

  lemma SingleFills(op: Op)
    requires |op.key| == 1 && |op.Stored().text| <= 1
    ensures NeedsFlush(1, Apply(map[], op))
  {
    var t := Apply(map[], op);
    TotalWithout(APPROXIMATE_OVERHEAD, t, op.key);
    assert t - {op.key} == map[];
  }

  /** The state after the write has been called, flushed and harvested. */
  lemma WriteAndHarvest(cfg: Config, db: Db, op: Op)
    requires Idle(db) && cfg.memTableLimit == 1 && |db.queue| - db.start - 1 < cfg.tablesToCompact
    requires |op.key| == 1 && |op.Stored().text| <= 1
    ensures Step(cfg, db, Call(op)) == Success(Write(cfg, db, op))
    ensures var flushed := FinishFlush(Write(cfg, db, op), 0);
            Harvest(flushed) == HarvestedWrite(db, op)
            && Step(cfg, flushed, Get(op.key)) == Success(TryLaunch(cfg, HarvestedWrite(db, op)))
  {
    hide Total;
    SingleFills(op);
    assert CheckFutures(cfg, db) == Success(db);
    var flushed := FinishFlush(Write(cfg, db, op), 0);
    assert flushed.flushes == [FlushJob(db.ssTableCounter + 1, Apply(map[], op), true)];
    assert HarvestOne(flushed) == HarvestedWrite(db, op);
    assert Harvest(HarvestOne(flushed)) == HarvestOne(flushed);
  }

  function HarvestedWrite(db: Db, op: Op): Db {
    var logCounter := WithMem(db).logCounter;
    db.(queue := db.queue + [SsTable(db.ssTableCounter + 1, Apply(map[], op))],
        mems := [Mem(logCounter, [], map[])],
        ssTableCounter := db.ssTableCounter + 1,
        logCounter := logCounter + 1)
  }

  lemma ShelveOne(cfg: Config, db: Db, op: Op)
    requires Idle(db) && cfg.memTableLimit == 1 && |db.queue| - db.start - 1 < cfg.tablesToCompact
    requires |op.key| == 1 && |op.Stored().text| <= 1
    ensures Run(cfg, db, Shelved(op)).Success?
    ensures var after := Run(cfg, db, Shelved(op)).value;
            && after.queue == db.queue + [SsTable(db.ssTableCounter + 1, Apply(map[], op))]
            && after.start == db.start && after.ssTableCounter == db.ssTableCounter + 1
            && Idle(after.(job := None))
            && after == TryLaunch(cfg, after.(job := None))
  {
    hide Run, Write;
    WriteAndHarvest(cfg, db, op);
    var called := Write(cfg, db, op);
    RunOne(cfg, db, Call(op));
    RunOne(cfg, called, FlushDone(0));
    RunOne(cfg, FinishFlush(called, 0), Get(op.key));
    RunAppend(cfg, db, [Call(op)], [FlushDone(0)]);
    RunAppend(cfg, db, [Call(op)] + [FlushDone(0)], [Get(op.key)]);
    assert [Call(op)] + [FlushDone(0)] + [Get(op.key)] == Shelved(op);
  }

  lemma ThreeTables(a: SsTable, b: SsTable, c: SsTable)
    ensures MergeWindow(1, [a, b, c]) == [SsTable(a.id, Merged(a.table, b.table)), c]
  {
    var w := [a, b, c];
    var sizes := FileSizes(w);
    assert Sum(sizes, 2) == Sum(sizes, 1) + sizes[1] && Passes(1, sizes, 2);
    assert GroupEnd(1, sizes, 2) == 2 && GroupEnd(1, sizes, 1) == 2;
    MergeWindowPeel(1, w);
    assert w[2..] == [c] && GroupEnd(1, FileSizes([c]), 1) == 1;
    MergeWindowPeel(1, [c]);
    MergeWindowEmpty(1, [c]);
    FoldSingle(a.table);
    FoldSingle(c.table);
    FoldExtend([a.table], b.table);
    assert TablesOf(w[..2]) == [a.table] + [b.table];
    assert TablesOf([c][..1]) == [c.table];
  }

  /** A launched compaction of three tables ends and is applied by the next read. */
  lemma CompactThree(db: Db, older: seq<SsTable>, a: SsTable, b: SsTable, c: SsTable)
    requires Idle(db.(job := None)) && db == TryLaunch(TINY, db.(job := None))
    requires db.queue == older + [a, b, c] && db.start == |older|
    ensures Run(TINY, db, [CompactionDone, Get(K)]).Success?
    ensures var after := Run(TINY, db, [CompactionDone, Get(K)]).value;
            && after == db.(queue := older + [SsTable(a.id, Merged(a.table, b.table)), c], start := |older| + 1, job := None)
  {
    ThreeTables(a, b, c);
    assert db.queue[db.start..db.start + 3] == [a, b, c];
    var done := FinishCompaction(TINY, db).value;
    RunOne(TINY, db, CompactionDone);
    RunOne(TINY, done, Get(K));
    RunAppend(TINY, db, [CompactionDone], [Get(K)]);
    assert [CompactionDone] + [Get(K)] == [CompactionDone, Get(K)];
    assert db.queue[..db.start] == older && db.queue[db.start + 3..] == [];
  }

  /** The third write covers the old value once more, with a value or with a tombstone. */
  function StaleEvents(third: Op): seq<Event> {
    Shelved(Set(K, OLD_TEXT)) + Shelved(Set(X, [])) + Shelved(third) + [CompactionDone, Get(K)]
    + Shelved(Remove(K)) + Shelved(Set(Z, [])) + [CompactionDone, Get(K)]
  }

  lemma RemovedKeyComesBack(third: Op)
    requires third == Set(K, NEW_TEXT) || third == Remove(K)
    ensures Run(TINY, EMPTY, StaleEvents(third)).Success?
    ensures GetValue(Run(TINY, EMPTY, StaleEvents(third)).value, K) == Some(OLD_TEXT)
  {
    hide Run, Total, MergeWindow;
    var o1, o2, o4, o5 := Set(K, OLD_TEXT), Set(X, []), Remove(K), Set(Z, []);
    var a, b, c := SsTable(1, Apply(map[], o1)), SsTable(2, Apply(map[], o2)), SsTable(3, Apply(map[], third));
    var d, e := SsTable(4, Apply(map[], o4)), SsTable(5, Apply(map[], o5));

    ShelveOne(TINY, EMPTY, o1);
    var s1 := Run(TINY, EMPTY, Shelved(o1)).value;
    ShelveOne(TINY, s1, o2);
    var s2 := Run(TINY, s1, Shelved(o2)).value;
    ShelveOne(TINY, s2, third);
    var s3 := Run(TINY, s2, Shelved(third)).value;
    assert s3.queue == [] + [a, b, c];
    CompactThree(s3, [], a, b, c);
    var s4 := Run(TINY, s3, [CompactionDone, Get(K)]).value;
    var ab := SsTable(1, Merged(a.table, b.table));
    ShelveOne(TINY, s4, o4);
    var s5 := Run(TINY, s4, Shelved(o4)).value;
    ShelveOne(TINY, s5, o5);
    var s6 := Run(TINY, s5, Shelved(o5)).value;
    assert s6.queue == [ab] + [c, d, e];
    CompactThree(s6, [ab], c, d, e);
    var s7 := Run(TINY, s6, [CompactionDone, Get(K)]).value;

    var es := Shelved(o1);
    RunAppend(TINY, EMPTY, es, Shelved(o2));
    es := es + Shelved(o2);
    RunAppend(TINY, EMPTY, es, Shelved(third));
    es := es + Shelved(third);
    RunAppend(TINY, EMPTY, es, [CompactionDone, Get(K)]);
    es := es + [CompactionDone, Get(K)];
    RunAppend(TINY, EMPTY, es, Shelved(o4));
    es := es + Shelved(o4);
    RunAppend(TINY, EMPTY, es, Shelved(o5));
    es := es + Shelved(o5);
    RunAppend(TINY, EMPTY, es, [CompactionDone, Get(K)]);
    assert es + [CompactionDone, Get(K)] == StaleEvents(third);

    var cd := SsTable(3, Merged(c.table, d.table));
    assert s7.queue == [ab, cd, e];
    StaleLookup(s7, ab, cd, e);
  }

  lemma StaleLookup(db: Db, ab: SsTable, cd: SsTable, e: SsTable)
    requires Idle(db) && db.queue == [ab, cd, e]
    requires K in ab.table && ab.table[K] == Live(OLD_TEXT) && K !in cd.table && K !in e.table
    ensures GetValue(db, K) == Some(OLD_TEXT)
  {
    var ts := TablesOf(db.queue);
    assert ts == [ab.table] + [cd.table] + [e.table];
    FindNewest([ab.table] + [cd.table], e.table, K);
    FindNewest([ab.table], cd.table, K);
    FindNewest([], ab.table, K);
    assert [] + [ab.table] == [ab.table];
    assert Find(MemTables(db.mems), K) == None;
  }

  /** The last call on the key in that run removed it, so the model has no value for it. */
  lemma RemovedKeyIsGoneInModel(third: Op)
    requires third == Set(K, NEW_TEXT) || third == Remove(K)
    ensures K !in ModelRun(map[], StaleEvents(third))
  {
    var before := Shelved(Set(K, OLD_TEXT)) + Shelved(Set(X, [])) + Shelved(third) + [CompactionDone, Get(K)];
    var tail := [FlushDone(0), Get(K)] + Shelved(Set(Z, [])) + [CompactionDone, Get(K)];
    assert StaleEvents(third) == (before + [Call(Remove(K))]) + tail;
    assert (before + [Call(Remove(K))])[..|before|] == before;
    UntouchedStaysGone(before + [Call(Remove(K))], tail);
  }

  lemma {:induction false} UntouchedStaysGone(es: seq<Event>, tail: seq<Event>)
    requires K !in ModelRun(map[], es)
    requires forall i :: 0 <= i < |tail| && tail[i].Call? ==> tail[i].op.key != K
    ensures K !in ModelRun(map[], es + tail)
  {
    if tail == [] {
      assert es + tail == es;
    } else {
      assert (es + tail)[..|es + tail|-1] == es + tail[..|tail|-1];
      UntouchedStaysGone(es, tail[..|tail|-1]);
    }
  }

  lemma {:induction false} CallsAppend(a: seq<Event>, b: seq<Event>, k: Key, removes: bool)
    ensures Calls(a + b, k, removes) == Calls(a, k, removes) + Calls(b, k, removes)
  {
    if b == [] {
      assert a + b == a;
    } else {
      assert (a + b)[..|a + b|-1] == a + b[..|b|-1];
      CallsAppend(a, b[..|b|-1], k, removes);
    }
  }

  lemma ShelvedCalls(op: Op, k: Key, removes: bool)
    ensures Calls(Shelved(op), k, removes) == if op.key == k && op.Remove? == removes then 1 else 0
  {
    assert Shelved(op) == [Call(op)] + [FlushDone(0)] + [Get(op.key)];
    CallsAppend([Call(op)] + [FlushDone(0)], [Get(op.key)], k, removes);
    CallsAppend([Call(op)], [FlushDone(0)], k, removes);
    assert [Call(op)][..0] == [] && [FlushDone(0)][..0] == [] && [Get(op.key)][..0] == [];
  }

  lemma NoCallsAtEnd(removes: bool)
    ensures Calls([CompactionDone, Get(K)], K, removes) == 0
  {
    var done: seq<Event>, get: seq<Event> := [CompactionDone], [Get(K)];
    assert [CompactionDone, Get(K)] == done + get;
    CallsAppend(done, get, K, removes);
    assert done[..0] == [] && get[..0] == [];
  }

  /** Either run is just one call outside the workload theorem. */
  lemma StaleRunCalls(third: Op)
    requires third == Set(K, NEW_TEXT) || third == Remove(K)
    ensures Calls(StaleEvents(third), K, false) == if third.Set? then 2 else 1
    ensures Calls(StaleEvents(third), K, true) == if third.Set? then 1 else 2
  {
    var ends: seq<Event> := [CompactionDone, Get(K)];
    forall removes: bool
      ensures Calls(StaleEvents(third), K, removes) ==
              (if third.Remove? == removes then 1 else 0) + 1
    {
      var o1, o2, o4, o5 := Set(K, OLD_TEXT), Set(X, []), Remove(K), Set(Z, []);
      ShelvedCalls(o1, K, removes);
      ShelvedCalls(o2, K, removes);
      ShelvedCalls(third, K, removes);
      ShelvedCalls(o4, K, removes);
      ShelvedCalls(o5, K, removes);
      NoCallsAtEnd(removes);
      var es := Shelved(o1);
      CallsAppend(es, Shelved(o2), K, removes);
      es := es + Shelved(o2);
      CallsAppend(es, Shelved(third), K, removes);
      es := es + Shelved(third);
      CallsAppend(es, ends, K, removes);
      es := es + ends;
      CallsAppend(es, Shelved(o4), K, removes);
      es := es + Shelved(o4);
      CallsAppend(es, Shelved(o5), K, removes);
      es := es + Shelved(o5);
      CallsAppend(es, ends, K, removes);
    }
  }
}
