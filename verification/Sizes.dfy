/** Sizes of tables: a fixed cost for each entry, plus the bytes of its key and value. */
module Sizes {
  import opened Tables
  import opened Compaction

  /** An entry costs 4 bytes (the type tag) beside its text in a memtable. */
  const APPROXIMATE_OVERHEAD: nat := 4

  /** On disk there is also a length of 8 bytes before the key and before the text. */
  const SERIALIZED_OVERHEAD: nat := 20

  /** A table file starts with 8 bytes of metadata and an 8-byte entry count. */
  const FILE_HEADER: nat := 16

  function Weight(overhead: nat, e: Entry<Value>): nat {
    overhead + |e.key| + |e.val.text|
  }

  function SeqTotal(overhead: nat, es: seq<Entry<Value>>): nat {
    if es == [] then 0 else SeqTotal(overhead, es[..|es|-1]) + Weight(overhead, es[|es|-1])
  }

  function Total(overhead: nat, t: Table): nat
    decreases |t|
  {
    if t == map[] then 0
    else
      var k := Least(t.Keys);
      RemoveShrinks(t, k);
      Weight(overhead, Entry(k, t[k])) + Total(overhead, t - {k})
  }

  function FileSize(t: Table): nat {
    FILE_HEADER + Total(SERIALIZED_OVERHEAD, t)
  }

  lemma {:induction false} SeqTotalAppend(o: nat, a: seq<Entry<Value>>, b: seq<Entry<Value>>)
    ensures SeqTotal(o, a + b) == SeqTotal(o, a) + SeqTotal(o, b)
  {
    if b == [] {
      assert a + b == a;
    } else {
      assert (a + b)[..|a + b|-1] == a + b[..|b|-1];
      SeqTotalAppend(o, a, b[..|b|-1]);
    }
  }

  /** The total is what a traversal of the table adds up. */
  lemma {:induction false} TotalOfEntries(o: nat, t: Table)
    ensures SeqTotal(o, Entries(t)) == Total(o, t)
    decreases |t|
  {
    if t != map[] {
      var k := Least(t.Keys);
      RemoveShrinks(t, k);
      TotalOfEntries(o, t - {k});
      var head := [Entry(k, t[k])];
      SeqTotalAppend(o, head, Entries(t - {k}));
      assert head[..|head|-1] == [];
    }
  }

  /** Every entry adds its own weight, wherever it stands. */
  lemma {:induction false} TotalWithout(o: nat, t: Table, k: Key)
    requires k in t
    ensures Total(o, t) == Weight(o, Entry(k, t[k])) + Total(o, t - {k})
    decreases |t|
  {
    var l := Least(t.Keys);
    if l != k {
      RemoveShrinks(t, l);
      TotalWithout(o, t - {l}, k);
      LeastWithout(t, k);
    }
  }

  lemma LeastWithout(t: Table, k: Key)
    requires k in t && Least(t.Keys) != k
    ensures t - {k} != map[] && Least((t - {k}).Keys) == Least(t.Keys)
    ensures (t - {k}) - {Least(t.Keys)} == (t - {Least(t.Keys)}) - {k}
  {
    var l, rest := Least(t.Keys), t - {k};
    assert l in rest;
    assert IsLeast(l, rest.Keys);
    LeastUnique(rest.Keys, l, Least(rest.Keys));
  }

  lemma TotalUpdate(o: nat, t: Table, k: Key, v: Value)
    ensures Total(o, t[k := v]) == Weight(o, Entry(k, v)) + Total(o, t - {k})
    ensures Total(o, t - {k}) <= Total(o, t)
  {
    TotalWithout(o, t[k := v], k);
    assert t[k := v] - {k} == t - {k};
    if k in t {
      TotalWithout(o, t, k);
    } else {
      assert t - {k} == t;
    }
  }

  /** A merge is never larger than its inputs together. */
  lemma {:induction false} TotalMerged(o: nat, older: Table, newer: Table)
    ensures Total(o, Merged(older, newer)) <= Total(o, older) + Total(o, newer)
    decreases |newer|
  {
    if newer == map[] {
      assert Merged(older, newer) == older;
    } else {
      var k := Least(newer.Keys);
      RemoveShrinks(newer, k);
      TotalMerged(o, older, newer - {k});
      TotalWithout(o, newer, k);
      TotalUpdate(o, Merged(older, newer - {k}), k, newer[k]);
      MergedStep(older, newer, k);
    }
  }

  lemma MergedStep(older: Table, newer: Table, k: Key)
    requires k in newer
    ensures var m := Merged(older, newer - {k});
            Merged(older, newer) == if Drops(older, newer, k) then m - {k} else m[k := newer[k]]
  {
  }

  lemma FileSizeMerged(older: Table, newer: Table)
    ensures FileSize(Merged(older, newer)) <= FileSize(older) + FileSize(newer)
  {
    TotalMerged(SERIALIZED_OVERHEAD, older, newer);
  }
}
