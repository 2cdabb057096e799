/** How a compaction splits its window into groups, and what the groups become. */
module Grouping {
  import opened Tables
  import opened Compaction
  import opened Sizes

  /** A table in the queue, with the counter in its file name. */
  datatype SsTable = SsTable(id: nat, table: Table)

  function TablesOf(q: seq<SsTable>): seq<Table> {
    seq(|q|, i requires 0 <= i < |q| => q[i].table)
  }

  lemma TablesOfAppend(a: seq<SsTable>, b: seq<SsTable>)
    ensures TablesOf(a + b) == TablesOf(a) + TablesOf(b)
  {
  }

  function FileSizes(q: seq<SsTable>): seq<nat> {
    seq(|q|, i requires 0 <= i < |q| => FileSize(q[i].table))
  }

  /** The first n sizes together. */
  function Sum(sizes: seq<nat>, n: nat): nat
    requires n <= |sizes|
  {
    if n == 0 then 0 else Sum(sizes, n - 1) + sizes[n-1]
  }

  lemma {:induction false} SumPrefix(a: seq<nat>, b: seq<nat>, n: nat)
    requires n <= |a| && n <= |b| && a[..n] == b[..n]
    ensures Sum(a, n) == Sum(b, n)
  {
    if n > 0 {
      assert a[n-1] == a[..n][n-1] == b[..n][n-1] == b[n-1];
      assert a[..n-1] == a[..n][..n-1] == b[..n][..n-1] == b[..n-1];
      SumPrefix(a, b, n - 1);
    }
  }

  // ----- the partition, declaratively -----

  /** A group of n tables has been merged from at least two and passes the limit. */
  predicate Passes(limit: nat, sizes: seq<nat>, n: nat) {
    2 <= n <= |sizes| && Sum(sizes, n) > limit
  }

  /** The group at the front ends at the first merge that passes the limit, or with the window. */
  predicate IsFirstGroup(limit: nat, sizes: seq<nat>, n: nat) {
    && 1 <= n <= |sizes|
    && (n < |sizes| ==> Passes(limit, sizes, n))
    && forall m :: 1 <= m < n ==> !Passes(limit, sizes, m)
  }

  predicate IsGrouping(limit: nat, w: seq<SsTable>, gs: seq<seq<SsTable>>) {
    if w == [] then gs == []
    else gs != [] && IsFirstGroup(limit, FileSizes(w), |gs[0]|) && gs[0] == w[..|gs[0]|]
         && IsGrouping(limit, w[|gs[0]|..], gs[1..])
  }

  // ----- the partition, computed -----

  /** The end of the group that already reaches up to n. */
  function GroupEnd(limit: nat, sizes: seq<nat>, n: nat): (end: nat)
    requires n <= |sizes|
    ensures n <= end <= |sizes|
    decreases |sizes| - n
  {
    if n == |sizes| || Passes(limit, sizes, n) then n else GroupEnd(limit, sizes, n + 1)
  }

  function Groups(limit: nat, w: seq<SsTable>): seq<seq<SsTable>> {
    if w == [] then []
    else
      var n := GroupEnd(limit, FileSizes(w), 1);
      [w[..n]] + Groups(limit, w[n..])
  }

  lemma {:induction false} GroupEndIsFirst(limit: nat, sizes: seq<nat>, n: nat)
    requires 1 <= n <= |sizes|
    requires forall m :: 1 <= m < n ==> !Passes(limit, sizes, m)
    ensures IsFirstGroup(limit, sizes, GroupEnd(limit, sizes, n))
    decreases |sizes| - n
  {
    if n != |sizes| && !Passes(limit, sizes, n) {
      GroupEndIsFirst(limit, sizes, n + 1);
    }
  }

  lemma FirstGroupUnique(limit: nat, sizes: seq<nat>, m: nat, n: nat)
    requires IsFirstGroup(limit, sizes, m) && IsFirstGroup(limit, sizes, n)
    ensures m == n
  {
  }

  /** The computed partition is the only one that closes every group at the first passing merge. */
  lemma {:induction false} GroupingUnique(limit: nat, w: seq<SsTable>, gs: seq<seq<SsTable>>)
    ensures IsGrouping(limit, w, gs) <==> gs == Groups(limit, w)
    decreases |w|
  {
    if w != [] {
      var sizes := FileSizes(w);
      var n := GroupEnd(limit, sizes, 1);
      GroupEndIsFirst(limit, sizes, 1);
      var all := Groups(limit, w);
      assert all[0] == w[..n] && all[1..] == Groups(limit, w[n..]);
      if gs != [] && IsFirstGroup(limit, sizes, |gs[0]|) {
        FirstGroupUnique(limit, sizes, |gs[0]|, n);
        GroupingUnique(limit, w[n..], gs[1..]);
        assert gs == [gs[0]] + gs[1..];
      }
    }
  }

  lemma {:induction false} FlattenCons<T>(g: seq<T>, gs: seq<seq<T>>)
    ensures Flatten([g] + gs) == g + Flatten(gs)
  {
    var all := [g] + gs;
    if gs == [] {
      assert all == [g] && all[..|all|-1] == [];
      assert Flatten(all) == g;
    } else {
      assert all[..|all|-1] == [g] + gs[..|gs|-1];
      FlattenCons(g, gs[..|gs|-1]);
    }
  }

  /** The groups are consecutive, in order, and cover the window. */
  lemma {:induction false} GroupsCover(limit: nat, w: seq<SsTable>)
    ensures Flatten(Groups(limit, w)) == w
    decreases |w|
  {
    hide Flatten;
    if w == [] {
      FlattenNothing<SsTable>();
    } else {
      var n := GroupEnd(limit, FileSizes(w), 1);
      var rest := Groups(limit, w[n..]);
      GroupsCover(limit, w[n..]);
      FlattenCons(w[..n], rest);
      assert Groups(limit, w) == [w[..n]] + rest;
    }
  }

  lemma FlattenNothing<T>()
    ensures Flatten<T>([]) == []
  {
  }

  lemma {:induction false} GroupsNonempty(limit: nat, w: seq<SsTable>)
    ensures forall i :: 0 <= i < |Groups(limit, w)| ==> Groups(limit, w)[i] != []
    decreases |w|
  {
    if w != [] {
      GroupsNonempty(limit, w[GroupEnd(limit, FileSizes(w), 1)..]);
    }
  }

  /**
   * Every group but the last holds at least two tables, and their files are together longer
   * than the limit; no two or more tables at the front of a group are, short of all of them. So
   * there are at most half as many groups as tables, rounded up.
   */
  lemma {:induction false} GroupsBound(limit: nat, w: seq<SsTable>)
    ensures var gs := Groups(limit, w);
            && (w != [] ==> 1 <= |gs|)
            && |gs| <= (|w| + 1) / 2
            && (forall i :: 0 <= i < |gs| - 1 ==> |gs[i]| >= 2 && Sum(FileSizes(gs[i]), |gs[i]|) > limit)
            && (forall i, m :: 0 <= i < |gs| && 2 <= m < |gs[i]| ==> Sum(FileSizes(gs[i]), m) <= limit)
    decreases |w|
  {
    if w != [] {
      var n := GroupEnd(limit, FileSizes(w), 1);
      GroupEndIsFirst(limit, FileSizes(w), 1);
      GroupsBound(limit, w[n..]);
      var gs, rest := Groups(limit, w), Groups(limit, w[n..]);
      assert gs == [w[..n]] + rest;
      forall m | 1 <= m <= n ensures Sum(FileSizes(w[..n]), m) == Sum(FileSizes(w), m) {
        assert FileSizes(w[..n])[..m] == FileSizes(w)[..m];
        SumPrefix(FileSizes(w[..n]), FileSizes(w), m);
      }
      forall i | 0 <= i < |gs| - 1 ensures |gs[i]| >= 2 && Sum(FileSizes(gs[i]), |gs[i]|) > limit {
        assert i > 0 ==> gs[i] == rest[i - 1];
      }
      forall i, m | 0 <= i < |gs| && 2 <= m < |gs[i]| ensures Sum(FileSizes(gs[i]), m) <= limit {
        if i > 0 {
          assert gs[i] == rest[i - 1];
        } else {
          assert !Passes(limit, FileSizes(w), m) && gs[i] == w[..n];
        }
      }
    }
  }

  // ----- the output of a compaction -----

  /** A merged table keeps the counter of the first table of its group. */
  function MergeGroup(g: seq<SsTable>): SsTable
    requires g != []
  {
    SsTable(g[0].id, Fold(TablesOf(g)))
  }

  function MergeGroups(gs: seq<seq<SsTable>>): seq<SsTable>
    requires forall i :: 0 <= i < |gs| ==> gs[i] != []
  {
    seq(|gs|, i requires 0 <= i < |gs| => MergeGroup(gs[i]))
  }

  function MergeWindow(limit: nat, w: seq<SsTable>): seq<SsTable> {
    GroupsNonempty(limit, w);
    MergeGroups(Groups(limit, w))
  }

  function GroupTables(gs: seq<seq<SsTable>>): seq<seq<Table>> {
    seq(|gs|, i requires 0 <= i < |gs| => TablesOf(gs[i]))
  }

  lemma {:induction false} FlattenGroupTables(gs: seq<seq<SsTable>>)
    ensures Flatten(GroupTables(gs)) == TablesOf(Flatten(gs))
  {
    if gs != [] {
      var init, g := gs[..|gs|-1], gs[|gs|-1];
      FlattenGroupTables(init);
      assert GroupTables(gs)[..|gs|-1] == GroupTables(init);
      TablesOfAppend(Flatten(init), g);
    }
  }

  /** The tables of the output are the folds of the groups of the window. */
  lemma MergeWindowTables(limit: nat, w: seq<SsTable>)
    ensures TablesOf(MergeWindow(limit, w)) == Folds(GroupTables(Groups(limit, w)))
    ensures Flatten(GroupTables(Groups(limit, w))) == TablesOf(w)
  {
    GroupsCover(limit, w);
    FlattenGroupTables(Groups(limit, w));
  }

  lemma MergeWindowPeel(limit: nat, w: seq<SsTable>)
    requires w != []
    ensures var n := GroupEnd(limit, FileSizes(w), 1);
            MergeWindow(limit, w) == [MergeGroup(w[..n])] + MergeWindow(limit, w[n..])
  {
    var n := GroupEnd(limit, FileSizes(w), 1);
    GroupsNonempty(limit, w);
    GroupsNonempty(limit, w[n..]);
    assert Groups(limit, w) == [w[..n]] + Groups(limit, w[n..]);
  }

  lemma MergeWindowEmpty(limit: nat, w: seq<SsTable>)
    ensures MergeWindow(limit, w[|w|..]) == []
  {
  }

  // ----- counters -----

  ghost predicate Increasing(ids: seq<nat>) {
    forall i, j :: 0 <= i < j < |ids| ==> ids[i] < ids[j]
  }

  function Ids(q: seq<SsTable>): seq<nat> {
    seq(|q|, i requires 0 <= i < |q| => q[i].id)
  }

  lemma IncreasingIds(q: seq<SsTable>)
    ensures Increasing(Ids(q)) <==> forall i, j :: 0 <= i < j < |q| ==> q[i].id < q[j].id
  {
    assert forall i :: 0 <= i < |q| ==> Ids(q)[i] == q[i].id;
  }

  lemma IncreasingCons(x: nat, ids: seq<nat>)
    requires Increasing(ids) && forall i :: 0 <= i < |ids| ==> x < ids[i]
    ensures Increasing([x] + ids)
  {
  }

  /** The output stands in the order of the window and between the counters of its ends. */
  lemma {:induction false} MergeWindowIds(limit: nat, w: seq<SsTable>)
    requires w != [] && Increasing(Ids(w))
    ensures var out := Ids(MergeWindow(limit, w));
            && out != [] && Increasing(out) && out[0] == w[0].id
            && forall i :: 0 <= i < |out| ==> w[0].id <= out[i] <= w[|w|-1].id
    decreases |w|
  {
    hide MergeWindow, FileSize;
    var n := GroupEnd(limit, FileSizes(w), 1);
    var rest := MergeWindow(limit, w[n..]);
    MergeWindowPeel(limit, w);
    IncreasingIds(w);
    assert Ids(MergeWindow(limit, w)) == [w[0].id] + Ids(rest);
    if n == |w| {
      MergeWindowEmpty(limit, w);
    } else {
      IncreasingIds(w[n..]);
      MergeWindowIds(limit, w[n..]);
      IncreasingCons(w[0].id, Ids(rest));
    }
  }

  lemma MergeWindowLength(limit: nat, w: seq<SsTable>)
    requires w != []
    ensures 1 <= |MergeWindow(limit, w)| <= (|w| + 1) / 2
  {
    GroupsBound(limit, w);
  }
}
