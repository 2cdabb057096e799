/**
 * What a compaction does to the answers of the database, on values.
 *
 * Tables stand in sequences, oldest first. A lookup takes the newest table that holds
 * the key. Merging two tables drops a key that both hold when the newer one holds a
 * tombstone, so the merge of a group need not answer as the group did: an older table
 * may hold a value that the dropped tombstone was hiding.
 */
module Compaction {
  import opened Bytes
  import opened Tables

  // ----- lookups in a sequence of tables -----

  /** The newest entry for k, a tombstone included. */
  function Find(ts: seq<Table>, k: Key): Option<Value> {
    if ts == [] then None
    else if k in ts[|ts|-1] then Some(ts[|ts|-1][k])
    else Find(ts[..|ts|-1], k)
  }

  function Answer(found: Option<Value>): Option<Text> {
    if found.Some? then found.value.Underlying() else None
  }

  /** What a reader of the tables sees for k. */
  function View(ts: seq<Table>, k: Key): Option<Text> {
    Answer(Find(ts, k))
  }

  lemma {:induction false} FindAppend(a: seq<Table>, b: seq<Table>, k: Key)
    ensures Find(a + b, k) == if Find(b, k).Some? then Find(b, k) else Find(a, k)
  {
    if b == [] {
      assert a + b == a;
    } else {
      assert (a + b)[..|a + b|-1] == a + b[..|b|-1];
      FindAppend(a, b[..|b|-1], k);
    }
  }

  // ----- the merge of two tables -----

  /** A key is dropped when both tables hold it and the newer one holds a tombstone. */
  predicate Drops(older: Table, newer: Table, k: Key) {
    k in older && k in newer && newer[k].IsTombstone()
  }

  function Merged(older: Table, newer: Table): Table {
    map k | k in older.Keys + newer.Keys && !Drops(older, newer, k) ::
      if k in newer then newer[k] else older[k]
  }

  /** Folding the merge over a group, oldest table first. */
  function Fold(ts: seq<Table>): Table {
    if ts == [] then map[] else Merged(Fold(ts[..|ts|-1]), ts[|ts|-1])
  }

  lemma FoldSingle(t: Table)
    ensures Fold([t]) == t
  {
    assert [t][..0] == [];
    assert Merged(map[], t) == t;
  }

  lemma FoldExtend(ts: seq<Table>, t: Table)
    ensures Fold(ts + [t]) == Merged(Fold(ts), t)
  {
    assert (ts + [t])[..|ts|] == ts;
  }

  // ----- closed form of the fold -----

  /** How many tombstones for k follow its last live entry. */
  function TrailingTombstones(ts: seq<Table>, k: Key): nat {
    if ts == [] then 0
    else
      var newest := ts[|ts|-1];
      if k !in newest then TrailingTombstones(ts[..|ts|-1], k)
      else if newest[k].IsTombstone() then 1 + TrailingTombstones(ts[..|ts|-1], k)
      else 0
  }

  predicate HasLive(ts: seq<Table>, k: Key) {
    exists i :: 0 <= i < |ts| && k in ts[i] && !ts[i][k].IsTombstone()
  }

  /** The tombstones of k cancel in pairs, the last live entry taking part in the pairing. */
  predicate TombstoneSurvives(ts: seq<Table>, k: Key) {
    TrailingTombstones(ts, k) % 2 == if HasLive(ts, k) then 0 else 1
  }

  /** An entry survives the fold of a group exactly in these cases. */
  predicate Survives(ts: seq<Table>, k: Key) {
    Find(ts, k).Some? && (Find(ts, k).value.IsTombstone() ==> TombstoneSurvives(ts, k))
  }

  lemma {:induction false} FoldClosedForm(ts: seq<Table>, k: Key)
    ensures k in Fold(ts) <==> Survives(ts, k)
    ensures k in Fold(ts) ==> Find(ts, k) == Some(Fold(ts)[k])
    ensures Find(ts, k).Some? && !Find(ts, k).value.IsTombstone() ==> TrailingTombstones(ts, k) == 0
    ensures Find(ts, k) == None ==> TrailingTombstones(ts, k) == 0 && !HasLive(ts, k)
  {
    if ts != [] {
      var init, newest := ts[..|ts|-1], ts[|ts|-1];
      FoldClosedForm(init, k);
      HasLiveExtend(init, newest, k);
      assert ts == init + [newest];
      if Find(init, k).Some? && !Find(init, k).value.IsTombstone() {
        FoundLiveHasLive(init, k);
      }
    }
  }

  lemma HasLiveExtend(ts: seq<Table>, t: Table, k: Key)
    ensures HasLive(ts + [t], k) <==> HasLive(ts, k) || (k in t && !t[k].IsTombstone())
  {
    var all := ts + [t];
    assert all[|ts|] == t;
    if HasLive(ts, k) {
      var i :| 0 <= i < |ts| && k in ts[i] && !ts[i][k].IsTombstone();
      assert all[i] == ts[i];
    }
  }

  lemma {:induction false} FoundLiveHasLive(ts: seq<Table>, k: Key)
    requires Find(ts, k).Some? && !Find(ts, k).value.IsTombstone()
    ensures HasLive(ts, k)
  {
    if k !in ts[|ts|-1] {
      FoundLiveHasLive(ts[..|ts|-1], k);
    }
  }

  // ----- a compaction replaces each group of a window by its fold -----

  function Flatten<T>(gs: seq<seq<T>>): seq<T> {
    if gs == [] then [] else Flatten(gs[..|gs|-1]) + gs[|gs|-1]
  }

  function Folds(gs: seq<seq<Table>>): seq<Table> {
    seq(|gs|, i requires 0 <= i < |gs| => Fold(gs[i]))
  }

  lemma FoldsExtend(gs: seq<seq<Table>>)
    requires gs != []
    ensures Folds(gs) == Folds(gs[..|gs|-1]) + [Fold(gs[|gs|-1])]
  {
  }

  /**
   * Reading only the inputs: would a live value for k be the newest thing left, once
   * every group has cancelled its tombstones, the tables older than the window included?
   */
  predicate LiveRemains(older: seq<Table>, gs: seq<seq<Table>>, k: Key) {
    if gs == [] then View(older, k).Some?
    else
      var g := gs[|gs|-1];
      if Survives(g, k) then !Find(g, k).value.IsTombstone()
      else LiveRemains(older, gs[..|gs|-1], k)
  }

  /** The window hides k behind a tombstone, and yet a live value would be left. */
  predicate Resurfaces(older: seq<Table>, gs: seq<seq<Table>>, k: Key) {
    var inWindow := Find(Flatten(gs), k);
    inWindow.Some? && inWindow.value.IsTombstone() && LiveRemains(older, gs, k)
  }

  lemma {:induction false} FindAfter(older: seq<Table>, gs: seq<seq<Table>>, k: Key)
    ensures View(older + Folds(gs), k).Some? <==> LiveRemains(older, gs, k)
    ensures Find(Flatten(gs), k) == None ==> Find(Folds(gs), k) == None
    ensures Find(Flatten(gs), k).Some? && !Find(Flatten(gs), k).value.IsTombstone()
            ==> Find(Folds(gs), k) == Find(Flatten(gs), k)
  {
    if gs == [] {
      assert older + Folds(gs) == older;
    } else {
      var init, g := gs[..|gs|-1], gs[|gs|-1];
      FindAfter(older, init, k);
      FoldsExtend(gs);
      FoldClosedForm(g, k);
      FindAppend(Flatten(init), g, k);
      assert Folds(gs)[..|gs|-1] == Folds(init);
      var after := older + Folds(gs);
      assert after[..|after|-1] == older + Folds(init);
      assert after[|after|-1] == Fold(g);
    }
  }

  /** A live binding keeps its value, whatever lies before and behind the window. */
  lemma CompactionKeepsLive(older: seq<Table>, gs: seq<seq<Table>>, newer: seq<Table>, k: Key)
    requires View(older + Flatten(gs) + newer, k).Some?
    ensures View(older + Folds(gs) + newer, k) == View(older + Flatten(gs) + newer, k)
  {
    CompactionFinds(older, gs, newer, k);
    FindAfter(older, gs, k);
  }

  lemma CompactionFinds(older: seq<Table>, gs: seq<seq<Table>>, newer: seq<Table>, k: Key)
    ensures Find(older + Flatten(gs) + newer, k) ==
            if Find(newer, k).Some? then Find(newer, k)
            else if Find(Flatten(gs), k).Some? then Find(Flatten(gs), k)
            else Find(older, k)
    ensures Find(older + Folds(gs) + newer, k) ==
            if Find(newer, k).Some? then Find(newer, k)
            else if Find(Folds(gs), k).Some? then Find(Folds(gs), k)
            else Find(older, k)
  {
    FindAppend(older + Flatten(gs), newer, k);
    FindAppend(older, Flatten(gs), k);
    FindAppend(older + Folds(gs), newer, k);
    FindAppend(older, Folds(gs), k);
  }

  /** The answer for k changes exactly when no newer table holds k and a hidden value resurfaces. */
  lemma CompactionChangesExactly(older: seq<Table>, gs: seq<seq<Table>>, newer: seq<Table>, k: Key)
    ensures View(older + Folds(gs) + newer, k) != View(older + Flatten(gs) + newer, k)
            <==> Find(newer, k) == None && Resurfaces(older, gs, k)
  {
    CompactionFinds(older, gs, newer, k);
    FindAfter(older, gs, k);
    FindAppend(older, Folds(gs), k);
  }

  // ----- guards under which nothing resurfaces -----

  /** Every group that loses its tombstone for k has no live entry for k in an older table. */
  predicate DropsAreSafe(older: seq<Table>, gs: seq<seq<Table>>, k: Key) {
    forall j :: 0 <= j < |gs| && Find(gs[j], k).Some? && Find(gs[j], k).value.IsTombstone() && !Survives(gs[j], k)
      ==> !HasLive(older + Flatten(gs[..j]), k)
  }

  lemma SafeDropsNeverResurface(older: seq<Table>, gs: seq<seq<Table>>, k: Key)
    requires DropsAreSafe(older, gs, k)
    ensures !Resurfaces(older, gs, k)
  {
    if Resurfaces(older, gs, k) {
      SafeDropsLeaveNothing(older, gs, k);
    }
  }

  lemma {:induction false} SafeDropsLeaveNothing(older: seq<Table>, gs: seq<seq<Table>>, k: Key)
    requires DropsAreSafe(older, gs, k)
    requires Find(Flatten(gs), k).Some? && Find(Flatten(gs), k).value.IsTombstone()
    ensures !LiveRemains(older, gs, k)
  {
    var init, g := gs[..|gs|-1], gs[|gs|-1];
    FindAppend(Flatten(init), g, k);
    if Find(g, k) == None {
      forall j | 0 <= j < |init| && Find(init[j], k).Some? && Find(init[j], k).value.IsTombstone() && !Survives(init[j], k)
        ensures !HasLive(older + Flatten(init[..j]), k)
      {
        assert init[j] == gs[j] && init[..j] == gs[..j];
      }
      SafeDropsLeaveNothing(older, init, k);
    } else if !Survives(g, k) {
      assert gs[..|gs|-1] == init;
      assert !HasLive(older + Flatten(init), k);
      NoLiveNoneRemains(older, init, k);
    }
  }

  lemma {:induction false} NoLiveNoneRemains(older: seq<Table>, gs: seq<seq<Table>>, k: Key)
    requires !HasLive(older + Flatten(gs), k)
    ensures !LiveRemains(older, gs, k)
  {
    if gs == [] {
      assert older + Flatten(gs) == older;
      if View(older, k).Some? {
        FoundLiveHasLive(older, k);
      }
    } else {
      var init, g := gs[..|gs|-1], gs[|gs|-1];
      assert older + Flatten(gs) == (older + Flatten(init)) + g;
      HasLiveAppend(older + Flatten(init), g, k);
      NoLiveNoneRemains(older, init, k);
      if Find(g, k).Some? && !Find(g, k).value.IsTombstone() {
        FoundLiveHasLive(g, k);
      }
    }
  }

  lemma HasLiveAppend(a: seq<Table>, b: seq<Table>, k: Key)
    ensures HasLive(a + b, k) <==> HasLive(a, k) || HasLive(b, k)
  {
    var all := a + b;
    if HasLive(a, k) {
      var i :| 0 <= i < |a| && k in a[i] && !a[i][k].IsTombstone();
      assert all[i] == a[i];
    }
    if HasLive(b, k) {
      var i :| 0 <= i < |b| && k in b[i] && !b[i][k].IsTombstone();
      assert all[|a| + i] == b[i];
    }
    if HasLive(all, k) {
      var i :| 0 <= i < |all| && k in all[i] && !all[i][k].IsTombstone();
      assert i < |a| ==> all[i] == a[i];
      assert i >= |a| ==> all[i] == b[i - |a|];
    }
  }

  /** A compaction that covers every table and yields one table changes no answer. */
  lemma WholeQueueNeverResurfaces(g: seq<Table>, k: Key)
    ensures !Resurfaces([], [g], k)
  {
    var gs := [g];
    assert gs[..|gs|-1] == [] && gs[|gs|-1] == g;
    assert Flatten(gs) == g;
    assert !LiveRemains([], gs[..|gs|-1], k);
  }

  /** Without a tombstone for k in the window there is nothing to cancel. */
  lemma NoTombstoneNeverResurfaces(older: seq<Table>, gs: seq<seq<Table>>, k: Key)
    requires forall t: Table :: t in Flatten(gs) && k in t ==> !t[k].IsTombstone()
    ensures !Resurfaces(older, gs, k)
  {
    if Find(Flatten(gs), k).Some? {
      FoundInTable(Flatten(gs), k);
    }
  }

  lemma {:induction false} FoundInTable(ts: seq<Table>, k: Key)
    requires Find(ts, k).Some?
    ensures exists t: Table :: t in ts && k in t && Some(t[k]) == Find(ts, k)
  {
    if k !in ts[|ts|-1] {
      FoundInTable(ts[..|ts|-1], k);
      var t :| t in ts[..|ts|-1] && k in t && Some(t[k]) == Find(ts[..|ts|-1], k);
      assert t in ts;
    }
  }

  /** The smallest case where a removed key comes back. */
  lemma ResurfacingExample(k: Key, a: Text, b: Text, older: seq<Table>, g: seq<Table>)
    requires older == [map[k := Live(a)]]
    requires g == [map[k := Live(b)], map[k := TOMBSTONE]]
    ensures View(older + Flatten([g]), k) == None
    ensures View(older + Folds([g]), k) == Some(a)
  {
    var gs := [g];
    assert gs[..|gs|-1] == [] && gs[|gs|-1] == g;
    assert Flatten(gs) == g;
    assert (older + g)[|older + g|-1] == g[1];
    FoldSingle(g[0]);
    FoldExtend([g[0]], g[1]);
    assert [g[0]] + [g[1]] == g;
    assert Fold(g) == map[];
    FindAppend(older, Folds(gs), k);
    assert Folds(gs) == [map[]] && [map[]][..0] == Folds([]);
    assert Find(Folds(gs), k) == None;
  }
}
