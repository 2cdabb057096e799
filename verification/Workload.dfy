/**
 * Which workloads read exactly, judged by the calls alone: a key that is never removed,
 * or that is set at most once and removed at most once. Neither bound can be relaxed.
 */
module Workload {
  import opened Bytes
  import opened Tables
  import opened Compaction
  import opened Grouping
  import opened Engine
  import opened Refinement

  // ----- occurrences of a key in tables -----

  function One(t: Table, k: Key, tombstone: bool): nat {
    if k in t && t[k].IsTombstone() == tombstone then 1 else 0
  }

  /** How many tables hold k as a tombstone, or as a live value. */
  function Count(ts: seq<Table>, k: Key, tombstone: bool): nat {
    if ts == [] then 0 else Count(ts[..|ts|-1], k, tombstone) + One(ts[|ts|-1], k, tombstone)
  }

  lemma {:induction false} CountAppend(a: seq<Table>, b: seq<Table>, k: Key, tombstone: bool)
    ensures Count(a + b, k, tombstone) == Count(a, k, tombstone) + Count(b, k, tombstone)
  {
    if b == [] {
      assert a + b == a;
    } else {
      assert (a + b)[..|a + b|-1] == a + b[..|b|-1];
      CountAppend(a, b[..|b|-1], k, tombstone);
    }
  }

  lemma {:induction false} FoundIsCounted(ts: seq<Table>, k: Key)
    requires Find(ts, k).Some?
    ensures Count(ts, k, Find(ts, k).value.IsTombstone()) >= 1
  {
    if k !in ts[|ts|-1] {
      FoundIsCounted(ts[..|ts|-1], k);
    }
  }

  lemma {:induction false} LiveIsCounted(ts: seq<Table>, k: Key)
    ensures HasLive(ts, k) <==> Count(ts, k, false) >= 1
  {
    if ts != [] {
      LiveIsCounted(ts[..|ts|-1], k);
      HasLiveExtend(ts[..|ts|-1], ts[|ts|-1], k);
      assert ts == ts[..|ts|-1] + [ts[|ts|-1]];
    }
  }

  lemma {:induction false} TrailingCounted(ts: seq<Table>, k: Key)
    ensures TrailingTombstones(ts, k) <= Count(ts, k, true)
    ensures Find(ts, k).Some? && Find(ts, k).value.IsTombstone() ==> TrailingTombstones(ts, k) >= 1
  {
    if ts != [] {
      TrailingCounted(ts[..|ts|-1], k);
    }
  }

  /** A fold holds an entry of a kind only if its group does. */
  lemma {:induction false} FoldsCount(gs: seq<seq<Table>>, k: Key, tombstone: bool)
    ensures Count(Folds(gs), k, tombstone) <= Count(Flatten(gs), k, tombstone)
  {
    if gs != [] {
      var init, g := gs[..|gs|-1], gs[|gs|-1];
      FoldsCount(init, k, tombstone);
      FoldsExtend(gs);
      assert Folds(gs)[..|gs|-1] == Folds(init);
      CountAppend(Flatten(init), g, k, tombstone);
      FoldClosedForm(g, k);
      if k in Fold(g) {
        FoundIsCounted(g, k);
      }
    }
  }

  lemma {:induction false} GroupCounted(gs: seq<seq<Table>>, j: nat, k: Key, tombstone: bool)
    requires j < |gs|
    ensures Count(Flatten(gs[..j]), k, tombstone) + Count(gs[j], k, tombstone) <= Count(Flatten(gs), k, tombstone)
  {
    var init, g := gs[..|gs|-1], gs[|gs|-1];
    CountAppend(Flatten(init), g, k, tombstone);
    if j < |init| {
      assert init[..j] == gs[..j];
      GroupCounted(init, j, k, tombstone);
    }
  }

  /** With one live value and one tombstone of k at most, every drop is safe. */
  lemma FewOccurrencesDropSafely(older: seq<Table>, gs: seq<seq<Table>>, k: Key)
    requires Count(older + Flatten(gs), k, false) <= 1 && Count(Flatten(gs), k, true) <= 1
    ensures DropsAreSafe(older, gs, k)
  {
    forall j | 0 <= j < |gs| && Find(gs[j], k).Some? && Find(gs[j], k).value.IsTombstone() && !Survives(gs[j], k)
      ensures !HasLive(older + Flatten(gs[..j]), k)
    {
      GroupCounted(gs, j, k, true);
      GroupCounted(gs, j, k, false);
      TrailingCounted(gs[j], k);
      LiveIsCounted(gs[j], k);
      CountAppend(older, Flatten(gs), k, false);
      CountAppend(older, Flatten(gs[..j]), k, false);
      LiveIsCounted(older + Flatten(gs[..j]), k);
    }
  }

  // ----- occurrences never outnumber the calls -----

  /** How often the run removes k, or sets it. */
  function Calls(es: seq<Event>, k: Key, removes: bool): nat {
    if es == [] then 0
    else
      var e := es[|es|-1];
      Calls(es[..|es|-1], k, removes) + if Writes(e, k, removes) then 1 else 0
  }

  lemma {:induction false} CallsPrefix(es: seq<Event>, n: nat, k: Key, removes: bool)
    requires n <= |es|
    ensures Calls(es[..n], k, removes) <= Calls(es, k, removes)
  {
    if n == |es| {
      assert es[..n] == es;
    } else {
      assert es[..|es|-1][..n] == es[..n];
      CallsPrefix(es[..|es|-1], n, k, removes);
    }
  }

  lemma WriteCounts(cfg: Config, db: Db, op: Op, k: Key, tombstone: bool)
    ensures Count(Chronicle(Write(cfg, db, op)), k, tombstone) <=
            Count(Chronicle(db), k, tombstone) + if op.key == k && op.Remove? == tombstone then 1 else 0
  {
    var older, t := WriteChronicle(cfg, db, op);
    CountNewest(older, t, k, tombstone);
    CountNewest(older, Apply(t, op), k, tombstone);
    CountNewest(older + [Apply(t, op)], map[], k, tombstone);
  }

  lemma CountNewest(ts: seq<Table>, t: Table, k: Key, tombstone: bool)
    ensures Count(ts + [t], k, tombstone) == Count(ts, k, tombstone) + One(t, k, tombstone)
  {
    assert (ts + [t])[..|ts|] == ts;
  }

  lemma CheckCounts(cfg: Config, db: Db, k: Key, tombstone: bool)
    requires Valid(cfg, db)
    ensures CheckFutures(cfg, db).Success?
    ensures Count(Chronicle(CheckFutures(cfg, db).value), k, tombstone) <= Count(Chronicle(db), k, tombstone)
  {
    CheckFuturesValid(cfg, db);
    if CompactionReady(db) {
      ApplyChronicle(cfg, db);
      var older, gs := TablesOf(db.queue[..db.start]), WindowGroups(cfg, db);
      var newer := TablesOf(db.queue[db.start + cfg.tablesToCompact + 1..]) + MemTables(db.mems);
      FoldsCount(gs, k, tombstone);
      CountAppend(older + Folds(gs), newer, k, tombstone);
      CountAppend(older, Folds(gs), k, tombstone);
      CountAppend(older + Flatten(gs), newer, k, tombstone);
      CountAppend(older, Flatten(gs), k, tombstone);
    }
  }

  predicate Writes(e: Event, k: Key, removes: bool) {
    e.Call? && e.op.key == k && e.op.Remove? == removes
  }

  lemma StepCounts(cfg: Config, db: Db, e: Event, k: Key, tombstone: bool)
    requires Valid(cfg, db)
    ensures Step(cfg, db, e).Success?
    ensures Count(Chronicle(Step(cfg, db, e).value), k, tombstone) <=
            Count(Chronicle(db), k, tombstone) + if Writes(e, k, tombstone) then 1 else 0
  {
    StepValid(cfg, db, e);
    match e
    case Call(op) =>
      CheckCounts(cfg, db, k, tombstone);
      WriteCounts(cfg, CheckFutures(cfg, db).value, op, k, tombstone);
    case Get(_) =>
      CheckCounts(cfg, db, k, tombstone);
    case FlushDone(i) =>
      assert Chronicle(FinishFlush(db, i)) == Chronicle(db);
    case CompactionDone =>
      assert Chronicle(FinishCompaction(cfg, db).value) == Chronicle(db);
  }

  /** Along every run, tables come to hold k no more often than it is written, kind by kind. */
  lemma {:induction false} RunCounts(cfg: Config, db: Db, es: seq<Event>, k: Key, tombstone: bool)
    requires Valid(cfg, db)
    ensures Run(cfg, db, es).Success? && Valid(cfg, Run(cfg, db, es).value)
    ensures Count(Chronicle(Run(cfg, db, es).value), k, tombstone) <=
            Count(Chronicle(db), k, tombstone) + Calls(es, k, tombstone)
  {
    hide Valid, Step, Chronicle, Count;
    RunValid(cfg, db, es);
    if es != [] {
      var init := es[..|es|-1];
      RunCounts(cfg, db, init, k, tombstone);
      StepCounts(cfg, Run(cfg, db, init).value, es[|es|-1], k, tombstone);
    }
  }

  lemma EmptyCounts(k: Key, tombstone: bool)
    ensures Count(Chronicle(EMPTY), k, tombstone) == 0
  {
  }

  // ----- the workload theorem -----

  /** No tombstone, or one live value and one tombstone at most. */
  predicate Few(live: nat, tombstones: nat) {
    tombstones == 0 || (live <= 1 && tombstones <= 1)
  }

  /** As long as the tables hold k so rarely, no compaction lets a value of k resurface. */
  lemma FewEntriesNeverStale(cfg: Config, db: Db, k: Key)
    requires Valid(cfg, db) && Few(Count(Chronicle(db), k, false), Count(Chronicle(db), k, true))
    ensures !AppliesStale(cfg, db, k)
  {
    if CompactionReady(db) {
      ApplyChronicle(cfg, db);
      var older, gs := TablesOf(db.queue[..db.start]), WindowGroups(cfg, db);
      var newer := TablesOf(db.queue[db.start + cfg.tablesToCompact + 1..]) + MemTables(db.mems);
      forall tombstone: bool
        ensures Count(older + Flatten(gs), k, tombstone) <= Count(Chronicle(db), k, tombstone)
        ensures Count(Flatten(gs), k, tombstone) <= Count(Chronicle(db), k, tombstone)
      {
        CountAppend(older + Flatten(gs), newer, k, tombstone);
        CountAppend(older, Flatten(gs), k, tombstone);
      }
      if Count(Chronicle(db), k, true) == 0 {
        if Find(Flatten(gs), k).Some? {
          FoundIsCounted(Flatten(gs), k);
        }
      } else {
        FewOccurrencesDropSafely(older, gs, k);
        SafeDropsNeverResurface(older, gs, k);
      }
    }
  }

  /** The entries of k in db and the calls on it in es are few together. */
  predicate ModestFrom(db: Db, es: seq<Event>, k: Key) {
    Few(Count(Chronicle(db), k, false) + Calls(es, k, false), Count(Chronicle(db), k, true) + Calls(es, k, true))
  }

  lemma ModestNeverStale(cfg: Config, db: Db, es: seq<Event>, k: Key)
    requires Valid(cfg, db) && ModestFrom(db, es, k)
    ensures Run(cfg, db, es).Success? && !AppliesStale(cfg, Run(cfg, db, es).value, k)
  {
    hide Count, Calls, Chronicle, AppliesStale;
    RunCounts(cfg, db, es, k, true);
    RunCounts(cfg, db, es, k, false);
    FewEntriesNeverStale(cfg, Run(cfg, db, es).value, k);
  }

  lemma {:induction false} ModestRunsAreSafe(cfg: Config, db: Db, es: seq<Event>, k: Key)
    requires Valid(cfg, db) && ModestFrom(db, es, k)
    ensures SafeRun(cfg, db, es, k)
  {
    hide Valid, Step, AppliesStale, Calls, Count, Chronicle;
    if es != [] {
      var init := es[..|es|-1];
      RunValid(cfg, db, init);
      CallsPrefix(es, |init|, k, true);
      CallsPrefix(es, |init|, k, false);
      ModestRunsAreSafe(cfg, db, init, k);
      ModestNeverStale(cfg, db, init, k);
    }
  }

  /** A key that is never removed, or set at most once and removed at most once. */
  predicate Modest(es: seq<Event>, k: Key) {
    Few(Calls(es, k, false), Calls(es, k, true))
  }

  /**
   * From an empty database, in every interleaving, a modest key reads as last written,
   * whatever the other keys do.
   */
  lemma ModestKeysReadLastWrite(cfg: Config, es: seq<Event>, k: Key)
    requires Modest(es, k)
    ensures Reads(cfg, EMPTY, map[], es, k)
  {
    EmptyValid(cfg);
    EmptyCounts(k, false);
    EmptyCounts(k, true);
    ModestRunsAreSafe(cfg, EMPTY, es, k);
    SafeRunReadsLastWrite(cfg, EMPTY, map[], es, k);
  }
}
