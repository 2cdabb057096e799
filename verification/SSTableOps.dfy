/** The merge of two tables and the merge of a whole window, as loops. */
module SSTableOps {
  import opened Bytes
  import opened Tables
  import opened Compaction
  import opened Sizes
  import opened Grouping
  import opened Errors

  /** Every entry before position i of a stands before every entry from position j of b. */
  ghost predicate Precedes(a: seq<Entry<Value>>, i: nat, b: seq<Entry<Value>>, j: nat) {
    forall x, y :: 0 <= x < i && x < |a| && j <= y < |b| ==> Less(a[x].key, b[y].key)
  }

  lemma PrefixTable(es: seq<Entry<Value>>, i: nat)
    requires Sorted(es) && i < |es|
    ensures es[i].key !in FromEntries(es[..i])
    ensures FromEntries(es[..i+1]) == FromEntries(es[..i])[es[i].key := es[i].val]
  {
    NotPassed(es, i, es, i);
    assert es[..i+1][..i] == es[..i];
  }

  /** What has been merged when i old and j new entries are behind the iterators. */
  ghost function MergedUpTo(olds: seq<Entry<Value>>, i: nat, news: seq<Entry<Value>>, j: nat): Table
    requires i <= |olds| && j <= |news|
  {
    Merged(FromEntries(olds[..i]), FromEntries(news[..j]))
  }

  /** The next entry of es has a key that the other side has not passed. */
  lemma NotPassed(es: seq<Entry<Value>>, i: nat, others: seq<Entry<Value>>, j: nat)
    requires Sorted(es) && Sorted(others) && i < |es| && j <= |others|
    requires Precedes(others, j, es, i)
    ensures es[i].key !in FromEntries(others[..j])
  {
    FromSortedLists(others[..j]);
    LessIrreflexive(es[i].key);
  }

  lemma TakeOld(olds: seq<Entry<Value>>, i: nat, news: seq<Entry<Value>>, j: nat)
    requires Sorted(olds) && Sorted(news) && i < |olds| && j <= |news|
    requires Precedes(news, j, olds, i)
    ensures MergedUpTo(olds, i + 1, news, j) == Emplace(MergedUpTo(olds, i, news, j), olds[i])
  {
    hide Less, FromEntries;
    PrefixTable(olds, i);
    NotPassed(olds, i, news, j);
  }

  lemma TakeNew(olds: seq<Entry<Value>>, i: nat, news: seq<Entry<Value>>, j: nat)
    requires Sorted(olds) && Sorted(news) && i <= |olds| && j < |news|
    requires Precedes(olds, i, news, j)
    ensures MergedUpTo(olds, i, news, j + 1) == Emplace(MergedUpTo(olds, i, news, j), news[j])
  {
    hide Less, FromEntries;
    PrefixTable(news, j);
    NotPassed(news, j, olds, i);
  }

  lemma TakeBoth(olds: seq<Entry<Value>>, i: nat, news: seq<Entry<Value>>, j: nat)
    requires Sorted(olds) && Sorted(news) && i < |olds| && j < |news|
    requires Precedes(news, j, olds, i) && olds[i].key == news[j].key
    ensures MergedUpTo(olds, i + 1, news, j + 1) ==
            if news[j].val.IsTombstone() then MergedUpTo(olds, i, news, j)
            else Emplace(MergedUpTo(olds, i, news, j), news[j])
  {
    hide Less, FromEntries;
    PrefixTable(olds, i);
    PrefixTable(news, j);
    NotPassed(olds, i, news, j);
  }

  lemma AdvanceBoth(a: seq<Entry<Value>>, i: nat, b: seq<Entry<Value>>, j: nat)
    requires Sorted(a) && Sorted(b) && i < |a| && j < |b|
    requires Precedes(a, i, b, j) && a[i].key == b[j].key
    ensures Precedes(a, i + 1, b, j + 1)
  {
  }

  lemma AllMerged(oldTable: Table, newTable: Table)
    ensures MergedUpTo(Entries(oldTable), |Entries(oldTable)|, Entries(newTable), |Entries(newTable)|)
            == Merged(oldTable, newTable)
  {
    var olds, news := Entries(oldTable), Entries(newTable);
    assert olds[..|olds|] == olds && news[..|news|] == news;
    FromEntriesOfTable(oldTable);
    FromEntriesOfTable(newTable);
  }

  lemma NothingMerged(olds: seq<Entry<Value>>, news: seq<Entry<Value>>)
    ensures Precedes(olds, 0, news, 0) && MergedUpTo(olds, 0, news, 0) == map[]
  {
  }

  lemma LaterStill(a: seq<Entry<Value>>, i: nat, b: seq<Entry<Value>>, j: nat)
    requires Precedes(a, i, b, j)
    ensures Precedes(a, i, b, j + 1)
  {
  }

  lemma NothingLeft(a: seq<Entry<Value>>, i: nat, b: seq<Entry<Value>>)
    ensures Precedes(a, i, b, |b|)
  {
  }

  /** Both iterators advance through the tables in key order; the smaller key is taken. */
  method MergeSSTable(oldTable: Table, newTable: Table) returns (merged: Table)
    ensures merged == Merged(oldTable, newTable)
  {
    hide *;
    var olds, news := Entries(oldTable), Entries(newTable);
    EntriesSorted(oldTable);
    EntriesSorted(newTable);
    AllMerged(oldTable, newTable);
    NothingMerged(olds, news);
    NothingMerged(news, olds);
    var i, j := 0, 0;
    merged := map[];
    while i < |olds| && j < |news|
      invariant 0 <= i <= |olds| && 0 <= j <= |news|
      invariant Precedes(olds, i, news, j) && Precedes(news, j, olds, i)
      invariant merged == MergedUpTo(olds, i, news, j)
      decreases |olds| + |news| - i - j
    {
      if Less(olds[i].key, news[j].key) {
        TakeOld(olds, i, news, j);
        AdvancePrecedes(olds, i, news, j);
        merged := Emplace(merged, olds[i]);
        i := i + 1;
      } else if Less(news[j].key, olds[i].key) {
        TakeNew(olds, i, news, j);
        AdvancePrecedes(news, j, olds, i);
        merged := Emplace(merged, news[j]);
        j := j + 1;
      } else {
        LessTotal(olds[i].key, news[j].key);
        TakeBoth(olds, i, news, j);
        AdvanceBoth(olds, i, news, j);
        AdvanceBoth(news, j, olds, i);
        if !news[j].val.IsTombstone() {
          merged := Emplace(merged, news[j]);
        }
        i := i + 1;
        j := j + 1;
      }
    }
    while i < |olds|
      invariant 0 <= i <= |olds| && 0 <= j <= |news|
      invariant i < |olds| ==> j == |news|
      invariant Precedes(news, j, olds, i) && Precedes(olds, i, news, j)
      invariant merged == MergedUpTo(olds, i, news, j)
    {
      TakeOld(olds, i, news, j);
      merged := Emplace(merged, olds[i]);
      LaterStill(news, j, olds, i);
      i := i + 1;
      NothingLeft(olds, i, news);
    }
    while j < |news|
      invariant i == |olds| && 0 <= j <= |news|
      invariant Precedes(olds, i, news, j)
      invariant merged == MergedUpTo(olds, i, news, j)
    {
      TakeNew(olds, i, news, j);
      LaterStill(olds, i, news, j);
      merged := Emplace(merged, news[j]);
      j := j + 1;
    }
  }

  lemma AdvancePrecedes(a: seq<Entry<Value>>, i: nat, b: seq<Entry<Value>>, j: nat)
    requires Sorted(a) && Sorted(b) && i < |a| && j < |b|
    requires Precedes(a, i, b, j) && Precedes(b, j, a, i)
    requires Less(a[i].key, b[j].key)
    ensures Precedes(a, i + 1, b, j) && Precedes(b, j, a, i + 1)
  {
    forall y | j <= y < |b| ensures Less(a[i].key, b[y].key) {
      if y > j {
        LessTransitive(a[i].key, b[j].key, b[y].key);
      }
    }
  }

  /** The running size never falls below the size of the table merged so far. */
  lemma {:induction false} FoldFitsInputs(g: seq<SsTable>, n: nat)
    requires 1 <= n <= |g|
    ensures FileSize(Fold(TablesOf(g[..n]))) <= Sum(FileSizes(g), n)
  {
    hide FileSize, Merged, Fold;
    if n == 1 {
      assert TablesOf(g[..1]) == [g[0].table];
      FoldSingle(g[0].table);
    } else {
      FoldFitsInputs(g, n - 1);
      assert TablesOf(g[..n]) == TablesOf(g[..n-1]) + [g[n-1].table];
      FoldExtend(TablesOf(g[..n-1]), g[n-1].table);
      FileSizeMerged(Fold(TablesOf(g[..n-1])), g[n-1].table);
    }
  }

  /**
   * The state of the compaction loop: rtn holds the output up to the table curr, and
   * currTable is the fold of the tables from curr up to next, which are one unclosed group.
   */
  ghost predicate InGroup(limit: nat, w: seq<SsTable>, rtn: seq<SsTable>, curr: nat, next: nat, t: Table, size: nat) {
    && curr < next <= |w|
    && MergeWindow(limit, w) == rtn + MergeWindow(limit, w[curr..])
    && t == Fold(TablesOf(w[curr..next]))
    && size == Sum(FileSizes(w[curr..]), next - curr)
    && FileSize(t) <= size
    && forall m :: 1 <= m < next - curr ==> !Passes(limit, FileSizes(w[curr..]), m)
  }

  lemma StartGroup(limit: nat, w: seq<SsTable>, rtn: seq<SsTable>, curr: nat)
    requires curr < |w| && MergeWindow(limit, w) == rtn + MergeWindow(limit, w[curr..])
    ensures InGroup(limit, w, rtn, curr, curr + 1, w[curr].table, FileSize(w[curr].table))
    ensures !Passes(limit, FileSizes(w[curr..]), 1)
  {
    FoldSingle(w[curr].table);
    assert TablesOf(w[curr..curr+1]) == [w[curr].table];
    assert Sum(FileSizes(w[curr..]), 1) == FileSize(w[curr].table);
  }

  lemma ExtendGroup(limit: nat, w: seq<SsTable>, rtn: seq<SsTable>, curr: nat, next: nat, t: Table, size: nat)
    requires InGroup(limit, w, rtn, curr, next, t, size) && next < |w|
    requires !Passes(limit, FileSizes(w[curr..]), next - curr)
    ensures InGroup(limit, w, rtn, curr, next + 1, Merged(t, w[next].table), size + FileSize(w[next].table))
    ensures Passes(limit, FileSizes(w[curr..]), next + 1 - curr) <==> size + FileSize(w[next].table) > limit
  {
    FileSizeMerged(t, w[next].table);
    FoldExtend(TablesOf(w[curr..next]), w[next].table);
    assert TablesOf(w[curr..next+1]) == TablesOf(w[curr..next]) + [w[next].table];
  }

  lemma CloseGroup(limit: nat, w: seq<SsTable>, rtn: seq<SsTable>, curr: nat, next: nat, t: Table, size: nat)
    requires InGroup(limit, w, rtn, curr, next, t, size)
    requires next == |w| || Passes(limit, FileSizes(w[curr..]), next - curr)
    ensures MergeWindow(limit, w) == (rtn + [SsTable(w[curr].id, t)]) + MergeWindow(limit, w[next..])
  {
    var rest, n := w[curr..], next - curr;
    GroupEndIsFirst(limit, FileSizes(rest), 1);
    FirstGroupUnique(limit, FileSizes(rest), n, GroupEnd(limit, FileSizes(rest), 1));
    assert rest[..n] == w[curr..next] && rest[n..] == w[next..];
    MergeWindowPeel(limit, rest);
  }

  /**
   * The loop of a compaction: curr is the first table of the group in progress, next the
   * table to be merged into it, currTable and currTableSize what the group has become.
   */
  method MergeSSTables(limit: nat, w: seq<SsTable>) returns (r: Result<seq<SsTable>>)
    requires w != []
    ensures |w| == 1 ==> r == Failure(NothingToMerge)
    ensures |w| > 1 ==> r == Success(MergeWindow(limit, w))
  {
    hide *;
    if |w| == 1 {
      return Failure(NothingToMerge);
    }
    var rtn: seq<SsTable> := [];
    var curr, next := 0, 1;
    var currTable, currTableSize: nat := w[0].table, FileSize(w[0].table);
    assert w[0..] == w;
    StartGroup(limit, w, rtn, curr);
    while true
      invariant curr < next < |w|
      invariant InGroup(limit, w, rtn, curr, next, currTable, currTableSize)
      invariant !Passes(limit, FileSizes(w[curr..]), next - curr)
      decreases |w| - next
    {
      var nextTable := w[next].table;
      ExtendGroup(limit, w, rtn, curr, next, currTable, currTableSize);
      currTableSize := currTableSize + FileSize(nextTable);
      currTable := MergeSSTable(currTable, nextTable);
      next := next + 1;
      if next == |w| {
        CloseGroup(limit, w, rtn, curr, next, currTable, currTableSize);
        rtn := rtn + [SsTable(w[curr].id, currTable)];
        break;
      }
      if currTableSize > limit {
        CloseGroup(limit, w, rtn, curr, next, currTable, currTableSize);
        rtn := rtn + [SsTable(w[curr].id, currTable)];
        curr := next;
        next := next + 1;
        StartGroup(limit, w, rtn, curr);
        currTable, currTableSize := w[curr].table, FileSize(w[curr].table);
        if next == |w| {
          CloseGroup(limit, w, rtn, curr, next, currTable, currTableSize);
          rtn := rtn + [SsTable(w[curr].id, currTable)];
          break;
        }
      }
    }
    MergeWindowEmpty(limit, w);
    assert rtn + [] == rtn;
    r := Success(rtn);
  }
}
