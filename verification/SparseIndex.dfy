/**
 * The sparse index of a table file. Writing and reading a table choose different entries
 * for it, yet with either index a seek that decodes one block of the file answers as a
 * lookup in the whole table does.
 */
module SparseIndex {
  import opened Bytes
  import opened Tables
  import opened Sizes
  import opened Errors
  import opened Serializer

  function EntrySize(e: Entry<Value>): nat {
    Weight(SERIALIZED_OVERHEAD, e)
  }

  predicate FirstOrLast(n: nat, i: nat) {
    i == 0 || i == n - 1
  }

  /** An index in the making, with the bytes passed since the entry chosen last. */
  datatype Builder = Builder(index: map<Key, nat>, block: nat)

  /** Offer entry e of n, number i, at position pos, once block bytes have passed. */
  function Offer(b: Builder, e: Entry<Value>, i: nat, n: nat, pos: nat, blockSize: nat): Builder {
    if FirstOrLast(n, i) || b.block >= blockSize then Builder(b.index[e.key := pos], 0) else b
  }

  /** The writer offers an entry before it counts the entry's bytes. */
  function WriterScan(es: seq<Entry<Value>>, n: nat, blockSize: nat): Builder {
    if es == [] then Builder(map[], 0)
    else
      var i := |es| - 1;
      var offered := Offer(WriterScan(es[..i], n, blockSize), es[i], i, n, Offset(es, i), blockSize);
      Builder(offered.index, offered.block + EntrySize(es[i]))
  }

  /** The reader has counted the entry's bytes when it offers the entry. */
  function ReaderScan(es: seq<Entry<Value>>, n: nat, blockSize: nat): Builder {
    if es == [] then Builder(map[], 0)
    else
      var i := |es| - 1;
      var before := ReaderScan(es[..i], n, blockSize);
      Offer(Builder(before.index, before.block + EntrySize(es[i])), es[i], i, n, Offset(es, i), blockSize)
  }

  // ----- what the two indexes have in common -----

  ghost predicate PointsInto(es: seq<Entry<Value>>, index: map<Key, nat>) {
    forall k :: k in index ==> exists i :: 0 <= i < |es| && es[i].key == k && index[k] == Offset(es, i)
  }

  /** Every index entry points at its table entry; the first and the last table entry are in. */
  ghost predicate Sparse(es: seq<Entry<Value>>, index: map<Key, nat>) {
    && PointsInto(es, index)
    && (es != [] ==> es[0].key in index && es[|es|-1].key in index)
  }

  lemma PointsExtend(es: seq<Entry<Value>>, index: map<Key, nat>)
    requires es != [] && PointsInto(es[..|es|-1], index)
    ensures PointsInto(es, index)
    ensures PointsInto(es, index[es[|es|-1].key := Offset(es, |es|-1)])
  {
    var last := |es| - 1;
    forall k | k in index ensures exists i :: 0 <= i < |es| && es[i].key == k && index[k] == Offset(es, i) {
      var i :| 0 <= i < last && es[..last][i].key == k && index[k] == Offset(es[..last], i);
      assert es[..last][..i] == es[..i];
      assert es[i].key == k && index[k] == Offset(es, i);
    }
    var index' := index[es[last].key := Offset(es, last)];
    forall k | k in index' ensures exists i :: 0 <= i < |es| && es[i].key == k && index'[k] == Offset(es, i) {
      if k == es[last].key {
        assert es[last].key == k;
      } else {
        var i :| 0 <= i < |es| && es[i].key == k && index[k] == Offset(es, i);
        assert index'[k] == Offset(es, i);
      }
    }
  }

  lemma {:induction false} WriterPoints(es: seq<Entry<Value>>, n: nat, blockSize: nat)
    ensures PointsInto(es, WriterScan(es, n, blockSize).index)
    ensures es != [] ==> es[0].key in WriterScan(es, n, blockSize).index
    ensures es != [] && n == |es| ==> es[|es|-1].key in WriterScan(es, n, blockSize).index
  {
    if es != [] {
      WriterPoints(es[..|es|-1], n, blockSize);
      PointsExtend(es, WriterScan(es[..|es|-1], n, blockSize).index);
    }
  }

  lemma {:induction false} ReaderPoints(es: seq<Entry<Value>>, n: nat, blockSize: nat)
    ensures PointsInto(es, ReaderScan(es, n, blockSize).index)
    ensures es != [] ==> es[0].key in ReaderScan(es, n, blockSize).index
    ensures es != [] && n == |es| ==> es[|es|-1].key in ReaderScan(es, n, blockSize).index
  {
    if es != [] {
      ReaderPoints(es[..|es|-1], n, blockSize);
      PointsExtend(es, ReaderScan(es[..|es|-1], n, blockSize).index);
    }
  }

  // ----- the block that may hold a key -----

  /** Walk the index from entry i on to the entry that equals k, or to the first one above k. */
  function BlockFrom(index: seq<Entry<nat>>, eof: nat, k: Key, i: nat): Option<(nat, nat)>
    requires i <= |index|
    decreases |index| - i
  {
    if i == |index| then None
    else if k == index[i].key then
      Some((index[i].val, if i == |index| - 1 then eof else index[i+1].val))
    else if Less(k, index[i].key) then
      if i == 0 then None else Some((index[i-1].val, index[i].val))
    else BlockFrom(index, eof, k, i + 1)
  }

  /** The block from index entry a up to the next one holds k if any does. */
  ghost predicate BlockAt(index: seq<Entry<nat>>, eof: nat, k: Key, a: nat, block: (nat, nat)) {
    && a < |index| && block.0 == index[a].val && !Less(k, index[a].key)
    && if a + 1 < |index| then block.1 == index[a+1].val && Less(k, index[a+1].key)
       else block.1 == eof && k == index[a].key
  }

  /**
   * No block exactly for a key below the first or above the last index entry; otherwise the
   * block between the greatest entry not above the key and the next one.
   */
  lemma {:induction false} BlockFromFinds(index: seq<Entry<nat>>, eof: nat, k: Key, i: nat)
    requires Sorted(index) && i <= |index|
    requires forall j :: 0 <= j < i ==> Less(index[j].key, k)
    ensures BlockFrom(index, eof, k, i) == None <==>
            index == [] || Less(k, index[0].key) || Less(index[|index|-1].key, k)
    ensures BlockFrom(index, eof, k, i).Some? ==>
              exists a :: BlockAt(index, eof, k, a, BlockFrom(index, eof, k, i).value)
    decreases |index| - i
  {
    if i == |index| {
    } else if k == index[i].key {
      LessIrreflexive(k);
      assert i > 0 ==> Less(index[0].key, k);
      assert i < |index| - 1 ==> Less(k, index[|index|-1].key);
      if i > 0 { LessAsymmetric(index[0].key, k); }
      if i < |index| - 1 { LessAsymmetric(k, index[|index|-1].key); }
      assert BlockAt(index, eof, k, i, BlockFrom(index, eof, k, i).value);
    } else if Less(k, index[i].key) {
      if i < |index| - 1 { LessTransitive(k, index[i].key, index[|index|-1].key); }
      LessAsymmetric(k, index[|index|-1].key);
      if i > 0 {
        LessAsymmetric(index[0].key, k);
        LessAsymmetric(index[i-1].key, k);
        assert BlockAt(index, eof, k, i - 1, BlockFrom(index, eof, k, i).value);
      }
    } else {
      LessTotal(k, index[i].key);
      BlockFromFinds(index, eof, k, i + 1);
    }
  }

  function BlockRange(index: map<Key, nat>, eof: nat, k: Key): Option<(nat, nat)> {
    BlockFrom(Entries(index), eof, k, 0)
  }

  // ----- seeking -----

  /** Decode the block that may hold k, and look k up in it. */
  function SeekIn(file: seq<byte>, index: map<Key, nat>, eof: nat, k: Key): Result<Option<Value>> {
    match BlockRange(index, eof, k)
    case None => Success(None)
    case Some((start, end)) =>
      var es :- DecodeRange(file, start, end);
      Success(Lookup(FromEntries(es), k))
  }

  lemma KeyPosition(es: seq<Entry<Value>>, t: Table, k: Key) returns (x: nat)
    requires Lists(es, t) && k in t
    ensures x < |es| && es[x].key == k && es[x].val == t[k]
  {
    x :| 0 <= x < |es| && es[x].key == k;
  }

  /** A slice that covers every position where k may stand answers for the whole table. */
  lemma SliceLookup(es: seq<Entry<Value>>, t: Table, i: nat, j: nat, k: Key)
    requires Sorted(es) && Lists(es, t) && i <= j <= |es|
    requires forall x :: 0 <= x < |es| && es[x].key == k ==> i <= x < j
    ensures Lookup(FromEntries(es[i..j]), k) == Lookup(t, k)
  {
    var slice := es[i..j];
    FromSortedLists(slice);
    if k in t {
      var x := KeyPosition(es, t, k);
      assert slice[x - i] == es[x];
    }
    if k in FromEntries(slice) {
      var x := KeyPosition(slice, FromEntries(slice), k);
      assert es[i + x] == slice[x];
    }
  }

  lemma OrderOfKeys(es: seq<Entry<Value>>, x: nat, y: nat)
    requires Sorted(es) && x < |es| && y < |es|
    ensures Less(es[x].key, es[y].key) <==> x < y
  {
    LessIrreflexive(es[x].key);
    if y < x {
      LessAsymmetric(es[y].key, es[x].key);
    }
  }

  /** Below the first index entry the table holds nothing. */
  lemma BelowIsAbsent(es: seq<Entry<Value>>, t: Table, ies: seq<Entry<nat>>, a: nat, k: Key)
    requires Sorted(es) && Lists(es, t) && es != []
    requires Sorted(ies) && a < |ies| && ies[a].key == es[0].key
    requires Less(k, ies[0].key)
    ensures k !in t
  {
    if k in t {
      var x := KeyPosition(es, t, k);
      if a > 0 {
        LessTransitive(k, ies[0].key, es[0].key);
      }
      OrderOfKeys(es, x, 0);
    }
  }

  /** Nor above the last. */
  lemma AboveIsAbsent(es: seq<Entry<Value>>, t: Table, ies: seq<Entry<nat>>, b: nat, k: Key)
    requires Sorted(es) && Lists(es, t) && es != []
    requires Sorted(ies) && b < |ies| && ies[b].key == es[|es|-1].key
    requires Less(ies[|ies|-1].key, k)
    ensures k !in t
  {
    if k in t {
      var x := KeyPosition(es, t, k);
      if b < |ies| - 1 {
        LessTransitive(es[|es|-1].key, ies[|ies|-1].key, k);
      }
      OrderOfKeys(es, |es| - 1, x);
    }
  }

  lemma OutsideIsAbsent(es: seq<Entry<Value>>, t: Table, index: map<Key, nat>, k: Key)
    requires Sorted(es) && Lists(es, t) && Sparse(es, index)
    requires var ies := Entries(index); ies == [] || Less(k, ies[0].key) || Less(ies[|ies|-1].key, k)
    ensures k !in t
  {
    hide Less, Offset, Entries, PointsInto;
    var ies := Entries(index);
    EntriesSorted(index);
    if es != [] {
      var a :| 0 <= a < |ies| && ies[a].key == es[0].key;
      var b :| 0 <= b < |ies| && ies[b].key == es[|es|-1].key;
      if Less(k, ies[0].key) {
        BelowIsAbsent(es, t, ies, a, k);
      } else {
        AboveIsAbsent(es, t, ies, b, k);
      }
    }
  }

  /** The block between two index entries covers every position where k may stand. */
  lemma BlockCovers(es: seq<Entry<Value>>, i: nat, j: nat, k: Key, x: nat)
    requires Sorted(es) && i < |es| && j <= |es| && x < |es| && es[x].key == k
    requires !Less(k, es[i].key)
    requires if j < |es| then Less(k, es[j].key) else true
    ensures i <= x < j
  {
    OrderOfKeys(es, x, i);
    if j < |es| {
      OrderOfKeys(es, x, j);
    }
  }

  /** With any sparse index, a seek is a lookup in the whole table. */
  lemma SeekWithSparseIndex(time: nat, t: Table, index: map<Key, nat>, k: Key)
    requires TableFits(t) && Sparse(Entries(t), index)
    ensures var file := EncodeFile(time, t); SeekIn(file, index, |file|, k) == Success(Lookup(t, k))
  {
    hide EncodeFile, Offset, DecodeRange, Entries, FromEntries, Less;
    var file, es, ies := EncodeFile(time, t), Entries(t), Entries(index);
    EntriesSorted(t);
    EntriesSorted(index);
    BlockFromFinds(ies, |file|, k, 0);
    var block := BlockRange(index, |file|, k);
    if block == None {
      OutsideIsAbsent(es, t, index, k);
    } else {
      var a :| BlockAt(ies, |file|, k, a, block.value);
      var i, j := BlockEnds(time, t, index, k, a, block.value);
      RangeRoundTrip(time, t, i, j);
      forall x | 0 <= x < |es| && es[x].key == k ensures i <= x < j {
        BlockCovers(es, i, j, k, x);
      }
      SliceLookup(es, t, i, j, k);
    }
  }

  /** A block starts and ends at table entries around k. */
  lemma BlockEnds(time: nat, t: Table, index: map<Key, nat>, k: Key, a: nat, block: (nat, nat)) returns (i: nat, j: nat)
    requires Sparse(Entries(t), index) && Sorted(Entries(t))
    requires Sorted(Entries(index)) && Lists(Entries(index), index)
    requires BlockAt(Entries(index), |EncodeFile(time, t)|, k, a, block)
    ensures i < |Entries(t)| && i <= j <= |Entries(t)|
    ensures block == (Offset(Entries(t), i), Offset(Entries(t), j))
    ensures !Less(k, Entries(t)[i].key) && (j < |Entries(t)| ==> Less(k, Entries(t)[j].key))
  {
    hide EncodeFile, Offset;
    var es, ies := Entries(t), Entries(index);
    i :| 0 <= i < |es| && es[i].key == ies[a].key && index[ies[a].key] == Offset(es, i);
    if a + 1 < |ies| {
      j :| 0 <= j < |es| && es[j].key == ies[a+1].key && index[ies[a+1].key] == Offset(es, j);
      OrderOfKeys(es, i, j);
    } else {
      j := |es|;
      FileFromOffset(time, t, |es|);
    }
  }

  /** Seeking with the index that the writer of the file has built. */
  lemma SeekWithWriterIndex(time: nat, t: Table, blockSize: nat, k: Key)
    requires TableFits(t)
    ensures var file := EncodeFile(time, t);
            SeekIn(file, WriterScan(Entries(t), |t|, blockSize).index, |file|, k) == Success(Lookup(t, k))
  {
    WriterPoints(Entries(t), |t|, blockSize);
    SeekWithSparseIndex(time, t, WriterScan(Entries(t), |t|, blockSize).index, k);
  }

  /** Seeking with the index that a reader of the file has built. */
  lemma SeekWithReaderIndex(time: nat, t: Table, blockSize: nat, k: Key)
    requires TableFits(t)
    ensures var file := EncodeFile(time, t);
            SeekIn(file, ReaderScan(Entries(t), |t|, blockSize).index, |file|, k) == Success(Lookup(t, k))
  {
    ReaderPoints(Entries(t), |t|, blockSize);
    SeekWithSparseIndex(time, t, ReaderScan(Entries(t), |t|, blockSize).index, k);
  }

  // ----- the size of a block -----

  predicate WriterPicks(es: seq<Entry<Value>>, blockSize: nat, i: nat)
    requires i < |es|
  {
    FirstOrLast(|es|, i) || WriterScan(es[..i], |es|, blockSize).block >= blockSize
  }

  predicate ReaderPicks(es: seq<Entry<Value>>, blockSize: nat, i: nat)
    requires i < |es|
  {
    FirstOrLast(|es|, i) || ReaderScan(es[..i], |es|, blockSize).block + EntrySize(es[i]) >= blockSize
  }

  lemma WriterBlockStep(es: seq<Entry<Value>>, blockSize: nat, j: nat)
    requires 0 < j <= |es|
    ensures WriterScan(es[..j], |es|, blockSize).block ==
            EntrySize(es[j-1]) + if WriterPicks(es, blockSize, j - 1) then 0 else WriterScan(es[..j-1], |es|, blockSize).block
  {
    hide Offset, EntrySize;
    assert es[..j][..j-1] == es[..j-1] && es[..j][j-1] == es[j-1];
  }

  lemma {:induction false} WriterBlock(es: seq<Entry<Value>>, blockSize: nat, i: nat, j: nat)
    requires i < j <= |es| && WriterPicks(es, blockSize, i)
    requires forall x :: i < x < j ==> !WriterPicks(es, blockSize, x)
    ensures WriterScan(es[..j], |es|, blockSize).block == Offset(es, j) - Offset(es, i)
    decreases j
  {
    hide Offset, WriterScan, WriterPicks;
    WriterBlockStep(es, blockSize, j);
    OffsetStep(es, j - 1);
    if j - 1 > i {
      assert !WriterPicks(es, blockSize, j - 1);
      WriterBlock(es, blockSize, i, j - 1);
    }
  }

  lemma ReaderBlockStep(es: seq<Entry<Value>>, blockSize: nat, j: nat)
    requires 0 < j <= |es|
    ensures ReaderScan(es[..j], |es|, blockSize).block ==
            if ReaderPicks(es, blockSize, j - 1) then 0
            else ReaderScan(es[..j-1], |es|, blockSize).block + EntrySize(es[j-1])
  {
    hide Offset, EntrySize;
    assert es[..j][..j-1] == es[..j-1] && es[..j][j-1] == es[j-1];
  }

  lemma {:induction false} ReaderBlock(es: seq<Entry<Value>>, blockSize: nat, i: nat, j: nat)
    requires i < j <= |es| && ReaderPicks(es, blockSize, i)
    requires forall x :: i < x < j ==> !ReaderPicks(es, blockSize, x)
    ensures ReaderScan(es[..j], |es|, blockSize).block == Offset(es, j) - Offset(es, i + 1)
    decreases j
  {
    hide Offset, ReaderScan, ReaderPicks;
    ReaderBlockStep(es, blockSize, j);
    OffsetStep(es, j - 1);
    if j - 1 > i {
      assert !ReaderPicks(es, blockSize, j - 1);
      ReaderBlock(es, blockSize, i, j - 1);
    }
  }

  // ----- what stands in the index -----

  lemma SortedApart(es: seq<Entry<Value>>)
    requires Sorted(es)
    ensures forall i, j :: 0 <= i < |es| && 0 <= j < |es| && es[i].key == es[j].key ==> i == j
  {
    forall i, j | 0 <= i < |es| && 0 <= j < |es| && es[i].key == es[j].key ensures i == j {
      LessIrreflexive(es[i].key);
    }
  }

  lemma WriterIndexStep(es: seq<Entry<Value>>, blockSize: nat, m: nat)
    requires 0 < m <= |es|
    ensures var before := WriterScan(es[..m-1], |es|, blockSize).index;
            WriterScan(es[..m], |es|, blockSize).index ==
            if WriterPicks(es, blockSize, m - 1) then before[es[m-1].key := Offset(es[..m], m - 1)] else before
  {
    hide Offset, EntrySize;
    assert es[..m][..m-1] == es[..m-1] && es[..m][m-1] == es[m-1];
  }

  lemma ReaderIndexStep(es: seq<Entry<Value>>, blockSize: nat, m: nat)
    requires 0 < m <= |es|
    ensures var before := ReaderScan(es[..m-1], |es|, blockSize).index;
            ReaderScan(es[..m], |es|, blockSize).index ==
            if ReaderPicks(es, blockSize, m - 1) then before[es[m-1].key := Offset(es[..m], m - 1)] else before
  {
    hide Offset, EntrySize;
    assert es[..m][..m-1] == es[..m-1] && es[..m][m-1] == es[m-1];
  }

  /** Of the entries scanned so far the index holds just those picked. */
  lemma {:induction false} WriterHoldsPicks(es: seq<Entry<Value>>, blockSize: nat, m: nat, i: nat)
    requires Sorted(es) && m <= |es| && i < |es|
    ensures es[i].key in WriterScan(es[..m], |es|, blockSize).index <==> i < m && WriterPicks(es, blockSize, i)
  {
    hide Offset, WriterScan, WriterPicks, Less;
    SortedApart(es);
    if m == 0 {
      NothingScanned(es, blockSize);
    } else {
      WriterHoldsPicks(es, blockSize, m - 1, i);
      WriterIndexStep(es, blockSize, m);
    }
  }

  lemma {:induction false} ReaderHoldsPicks(es: seq<Entry<Value>>, blockSize: nat, m: nat, i: nat)
    requires Sorted(es) && m <= |es| && i < |es|
    ensures es[i].key in ReaderScan(es[..m], |es|, blockSize).index <==> i < m && ReaderPicks(es, blockSize, i)
  {
    hide Offset, ReaderScan, ReaderPicks, Less;
    SortedApart(es);
    if m == 0 {
      NothingScanned(es, blockSize);
    } else {
      ReaderHoldsPicks(es, blockSize, m - 1, i);
      ReaderIndexStep(es, blockSize, m);
    }
  }

  lemma NothingScanned(es: seq<Entry<Value>>, blockSize: nat)
    ensures WriterScan(es[..0], |es|, blockSize).index == map[] && ReaderScan(es[..0], |es|, blockSize).index == map[]
  {
  }

  /** Index entry e stands for entry i of the table. */
  predicate StandsFor(es: seq<Entry<Value>>, e: Entry<nat>, i: nat) {
    i < |es| && e.key == es[i].key && e.val == Offset(es, i)
  }

  /** Entry p is in the index, and none between p and i. */
  predicate IndexedLast(es: seq<Entry<Value>>, index: map<Key, nat>, p: nat, i: nat)
    requires p < i <= |es|
  {
    es[p].key in index && forall x :: p < x < i ==> es[x].key !in index
  }

  /**
   * The writer's index: behind an indexed entry the next one is the last entry of the table or
   * the first one that starts the block size or more behind it.
   */
  lemma WriterIndexExactly(es: seq<Entry<Value>>, blockSize: nat, p: nat, i: nat)
    requires Sorted(es) && p < i < |es|
    requires IndexedLast(es, WriterScan(es, |es|, blockSize).index, p, i)
    ensures es[i].key in WriterScan(es, |es|, blockSize).index <==>
            i == |es| - 1 || Offset(es, i) - Offset(es, p) >= blockSize
  {
    hide Offset, WriterScan, Less;
    assert es[..|es|] == es;
    forall x | p <= x <= i
      ensures es[x].key in WriterScan(es, |es|, blockSize).index <==> WriterPicks(es, blockSize, x)
    {
      WriterHoldsPicks(es, blockSize, |es|, x);
    }
    WriterBlock(es, blockSize, p, i);
  }

  /**
   * The reader's index: behind an indexed entry the next one is the last entry of the table or
   * the first one whose end lies the block size or more behind the end of the indexed entry.
   */
  lemma ReaderIndexExactly(es: seq<Entry<Value>>, blockSize: nat, p: nat, i: nat)
    requires Sorted(es) && p < i < |es|
    requires IndexedLast(es, ReaderScan(es, |es|, blockSize).index, p, i)
    ensures es[i].key in ReaderScan(es, |es|, blockSize).index <==>
            i == |es| - 1 || Offset(es, i + 1) - Offset(es, p + 1) >= blockSize
  {
    hide Offset, ReaderScan, Less;
    assert es[..|es|] == es;
    forall x | p <= x <= i
      ensures es[x].key in ReaderScan(es, |es|, blockSize).index <==> ReaderPicks(es, blockSize, x)
    {
      ReaderHoldsPicks(es, blockSize, |es|, x);
    }
    ReaderBlock(es, blockSize, p, i);
    OffsetStep(es, i);
  }

  /** Neighbours in the index are table entries with none of the index in between. */
  lemma Neighbours(es: seq<Entry<Value>>, index: map<Key, nat>, a: nat) returns (i: nat, j: nat)
    requires Sorted(es) && Sparse(es, index) && a + 1 < |Entries(index)|
    ensures i < j < |es| && IndexedLast(es, index, i, j) && es[j].key in index
    ensures StandsFor(es, Entries(index)[a], i) && StandsFor(es, Entries(index)[a+1], j)
  {
    hide Offset, Less, Entries;
    var ies := Entries(index);
    EntriesSorted(index);
    i :| 0 <= i < |es| && es[i].key == ies[a].key && index[ies[a].key] == Offset(es, i);
    j :| 0 <= j < |es| && es[j].key == ies[a+1].key && index[ies[a+1].key] == Offset(es, j);
    OrderOfKeys(es, i, j);
    forall x | i < x < j ensures es[x].key !in index {
      if es[x].key in index {
        BetweenNeighbours(es, index, a, i, j, x);
        assert false;
      }
    }
  }

  lemma BetweenNeighbours(es: seq<Entry<Value>>, index: map<Key, nat>, a: nat, i: nat, j: nat, x: nat)
    requires Sorted(es) && Sorted(Entries(index)) && Lists(Entries(index), index) && a + 1 < |Entries(index)|
    requires i < |es| && j < |es| && x < |es| && es[i].key == Entries(index)[a].key && es[j].key == Entries(index)[a+1].key
    requires es[x].key in index
    ensures !(i < x < j)
  {
    hide Less, Entries;
    var ies := Entries(index);
    var c :| 0 <= c < |ies| && ies[c].key == es[x].key;
    OrderOfKeys(es, i, x);
    OrderOfKeys(es, x, j);
    if c <= a {
      LessOrSame(ies, c, a);
    } else {
      LessOrSame(ies, a + 1, c);
    }
  }

  lemma LessOrSame(ies: seq<Entry<nat>>, c: nat, d: nat)
    requires Sorted(ies) && c <= d < |ies|
    ensures !Less(ies[d].key, ies[c].key)
  {
    LessIrreflexive(ies[c].key);
    if c < d {
      LessAsymmetric(ies[c].key, ies[d].key);
    }
  }

  /**
   * A block between neighbours of the writer's index is shorter than the block size plus its
   * last entry, and reaches the block size unless the last entry of the table cuts it off.
   */
  lemma WriterBlockBounds(es: seq<Entry<Value>>, blockSize: nat, a: nat) returns (i: nat, j: nat)
    requires Sorted(es) && blockSize > 0 && a + 1 < |Entries<nat>(WriterScan(es, |es|, blockSize).index)|
    ensures var ies := Entries<nat>(WriterScan(es, |es|, blockSize).index);
            && i < j && StandsFor(es, ies[a], i) && StandsFor(es, ies[a+1], j)
            && ies[a+1].val - ies[a].val < blockSize + EntrySize(es[j-1])
            && (j < |es| - 1 ==> ies[a+1].val - ies[a].val >= blockSize)
  {
    hide Offset, WriterScan, EntrySize, Sorted, Less, PointsInto, Entries;
    WriterPoints(es, |es|, blockSize);
    i, j := Neighbours(es, WriterScan(es, |es|, blockSize).index, a);
    WriterGap(es, blockSize, i, j);
  }

  lemma WriterGap(es: seq<Entry<Value>>, blockSize: nat, i: nat, j: nat)
    requires Sorted(es) && blockSize > 0 && i < j < |es|
    requires var index := WriterScan(es, |es|, blockSize).index; IndexedLast(es, index, i, j) && es[j].key in index
    ensures Offset(es, j) - Offset(es, i) < blockSize + EntrySize(es[j-1])
    ensures j < |es| - 1 ==> Offset(es, j) - Offset(es, i) >= blockSize
  {
    hide Offset, Less, WriterScan, Sorted;
    WriterIndexExactly(es, blockSize, i, j);
    OffsetStep(es, j - 1);
    if j - 1 > i {
      WriterIndexExactly(es, blockSize, i, j - 1);
    }
  }

  /**
   * A block between neighbours of the reader's index is shorter than the block size plus its
   * first entry.
   */
  lemma ReaderBlockBounds(es: seq<Entry<Value>>, blockSize: nat, a: nat) returns (i: nat, j: nat)
    requires Sorted(es) && blockSize > 0 && a + 1 < |Entries<nat>(ReaderScan(es, |es|, blockSize).index)|
    ensures var ies := Entries<nat>(ReaderScan(es, |es|, blockSize).index);
            && i < j && StandsFor(es, ies[a], i) && StandsFor(es, ies[a+1], j)
            && ies[a+1].val - ies[a].val < blockSize + EntrySize(es[i])
            && (j < |es| - 1 ==> ies[a+1].val + EntrySize(es[j]) - ies[a].val - EntrySize(es[i]) >= blockSize)
  {
    hide Offset, ReaderScan, EntrySize, Sorted, Less, PointsInto, Entries;
    ReaderPoints(es, |es|, blockSize);
    i, j := Neighbours(es, ReaderScan(es, |es|, blockSize).index, a);
    ReaderGap(es, blockSize, i, j);
  }

  lemma ReaderGap(es: seq<Entry<Value>>, blockSize: nat, i: nat, j: nat)
    requires Sorted(es) && blockSize > 0 && i < j < |es|
    requires var index := ReaderScan(es, |es|, blockSize).index; IndexedLast(es, index, i, j) && es[j].key in index
    ensures Offset(es, j) - Offset(es, i) < blockSize + EntrySize(es[i])
    ensures j < |es| - 1 ==> Offset(es, j) + EntrySize(es[j]) - Offset(es, i) - EntrySize(es[i]) >= blockSize
  {
    hide Offset, Less, ReaderScan, Sorted;
    ReaderIndexExactly(es, blockSize, i, j);
    OffsetStep(es, i);
    OffsetStep(es, j);
    if j - 1 > i {
      ReaderIndexExactly(es, blockSize, i, j - 1);
    }
  }
}
