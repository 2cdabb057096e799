/** Keys, values, tables (std::map) and their traversal in key order. */
module Tables {
  import opened Bytes

  type Key = Text

  const STRING_VALUE := 0
  const TOMBSTONE_VALUE := 1

  /** A type tag is a 4-byte enumeration; a file may hold any 4 bytes there. */
  type Tag = t: int | 0 <= t < 0x1_0000_0000

  datatype Value = Value(tag: Tag, text: Text) {
    predicate IsTombstone() {
      tag == TOMBSTONE_VALUE
    }

    function Underlying(): Option<Text> {
      if IsTombstone() then None else Some(text)
    }
  }

  const TOMBSTONE := Value(TOMBSTONE_VALUE, [])

  function Live(text: Text): Value {
    Value(STRING_VALUE, text)
  }

  type Table = map<Key, Value>

  function Lookup<V>(m: map<Key, V>, k: Key): Option<V> {
    if k in m then Some(m[k]) else None
  }

  /** One operation of the interface that writes. */
  datatype Op = Set(key: Key, text: Text) | Remove(key: Key) {
    function Stored(): Value {
      if Set? then Live(text) else TOMBSTONE
    }
  }

  function Apply(t: Table, op: Op): Table {
    t[op.key := op.Stored()]
  }

  /** The memtable that a sequence of operations leaves behind. */
  function Replay(ops: seq<Op>): Table {
    if ops == [] then map[] else Apply(Replay(ops[..|ops|-1]), ops[|ops|-1])
  }

  // ----- traversal in key order -----

  datatype Entry<V> = Entry(key: Key, val: V)

  predicate IsLeast(k: Key, s: set<Key>) {
    k in s && forall j :: j in s ==> j == k || Less(k, j)
  }

  lemma LeastExists(s: set<Key>) returns (k: Key)
    requires s != {}
    ensures IsLeast(k, s)
    decreases |s|
  {
    k :| k in s;
    var rest := s - {k};
    if rest != {} {
      var j := LeastExists(rest);
      LessTotal(j, k);
      if Less(j, k) {
        k := j;
      } else {
        forall i | i in s ensures i == k || Less(k, i) {
          if i != k && i != j {
            LessTransitive(k, j, i);
          }
        }
      }
    }
  }

  lemma LeastUnique(s: set<Key>, a: Key, b: Key)
    requires IsLeast(a, s) && IsLeast(b, s)
    ensures a == b
  {
    if a != b {
      LessAsymmetric(a, b);
    }
  }

  function Least(s: set<Key>): (k: Key)
    requires s != {}
    ensures IsLeast(k, s)
  {
    assert exists k :: k in s && IsLeast(k, s) by {
      var k := LeastExists(s);
    }
    assert forall a, b :: IsLeast(a, s) && IsLeast(b, s) ==> a == b by {
      forall a, b | IsLeast(a, s) && IsLeast(b, s) ensures a == b {
        LeastUnique(s, a, b);
      }
    }
    var k :| k in s && IsLeast(k, s);
    k
  }

  /** What iterating a std::map from begin() to end() meets. */
  function Entries<V>(m: map<Key, V>): (es: seq<Entry<V>>)
    ensures |es| == |m|
    decreases |m|
  {
    if m == map[] then []
    else
      var k := Least(m.Keys);
      RemoveShrinks(m, k);
      [Entry(k, m[k])] + Entries(m - {k})
  }

  lemma RemoveShrinks<V>(m: map<Key, V>, k: Key)
    requires k in m
    ensures |m - {k}| == |m| - 1
  {
    assert (m - {k}).Keys == m.Keys - {k};
    assert |m.Keys - {k}| == |m.Keys| - 1;
  }

  ghost predicate Sorted<V>(es: seq<Entry<V>>) {
    forall i, j :: 0 <= i < j < |es| ==> Less(es[i].key, es[j].key)
  }

  /** Every entry of es sits in m, and every key of m has an entry in es. */
  ghost predicate Lists<V>(es: seq<Entry<V>>, m: map<Key, V>) {
    && (forall i :: 0 <= i < |es| ==> es[i].key in m && m[es[i].key] == es[i].val)
    && (forall k :: k in m ==> exists i :: 0 <= i < |es| && es[i].key == k)
  }

  lemma {:induction false} EntriesSorted<V>(m: map<Key, V>)
    ensures Sorted(Entries(m)) && Lists(Entries(m), m)
    decreases |m|
  {
    if m != map[] {
      var k := Least(m.Keys);
      RemoveShrinks(m, k);
      EntriesSorted(m - {k});
      PrependLeast(k, m, Entries(m - {k}));
    }
  }

  lemma PrependLeast<V>(k: Key, m: map<Key, V>, rest: seq<Entry<V>>)
    requires IsLeast(k, m.Keys)
    requires Sorted(rest) && Lists(rest, m - {k})
    ensures Sorted([Entry(k, m[k])] + rest) && Lists([Entry(k, m[k])] + rest, m)
  {
    var es := [Entry(k, m[k])] + rest;
    forall j | j in m ensures exists i :: 0 <= i < |es| && es[i].key == j {
      if j == k {
        assert es[0].key == j;
      } else {
        assert j in m - {k};
        var i :| 0 <= i < |rest| && rest[i].key == j;
        assert es[i + 1].key == j;
      }
    }
  }

  /** std::map::insert and emplace: a key that is present keeps its value. */
  function Emplace<V>(m: map<Key, V>, e: Entry<V>): map<Key, V> {
    if e.key in m then m else m[e.key := e.val]
  }

  function FromEntries<V>(es: seq<Entry<V>>): map<Key, V> {
    if es == [] then map[] else Emplace(FromEntries(es[..|es|-1]), es[|es|-1])
  }

  lemma {:induction false} FromSortedLists<V>(es: seq<Entry<V>>)
    requires Sorted(es)
    ensures Lists(es, FromEntries(es))
  {
    if es != [] {
      var init, last := es[..|es|-1], es[|es|-1];
      FromSortedLists(init);
      var m := FromEntries(init);
      if last.key in m {
        var i :| 0 <= i < |init| && init[i].key == last.key;
        assert es[i] == init[i];
        LessIrreflexive(last.key);
      }
      forall i | 0 <= i < |es| ensures es[i].key in FromEntries(es) && FromEntries(es)[es[i].key] == es[i].val {
        if i < |init| {
          assert init[i] == es[i];
        }
      }
      forall k | k in FromEntries(es) ensures exists i :: 0 <= i < |es| && es[i].key == k {
        if k == last.key {
          assert es[|es|-1].key == k;
        } else {
          var i :| 0 <= i < |init| && init[i].key == k;
          assert es[i].key == k;
        }
      }
    }
  }

  lemma ListsUnique<V>(es: seq<Entry<V>>, m: map<Key, V>, n: map<Key, V>)
    requires Lists(es, m) && Lists(es, n)
    ensures m == n
  {
    forall k | k in m ensures k in n && n[k] == m[k] {
      var i :| 0 <= i < |es| && es[i].key == k;
    }
    forall k | k in n ensures k in m {
      var i :| 0 <= i < |es| && es[i].key == k;
    }
  }

  /** Inserting a table's entries in order rebuilds the table. */
  lemma FromEntriesOfTable<V>(m: map<Key, V>)
    ensures FromEntries(Entries(m)) == m
  {
    EntriesSorted(m);
    FromSortedLists(Entries(m));
    ListsUnique(Entries(m), FromEntries(Entries(m)), m);
  }

  /** A sorted sequence is the only traversal of the map it lists. */
  lemma {:induction false} SortedListUnique<V>(a: seq<Entry<V>>, b: seq<Entry<V>>, m: map<Key, V>)
    requires Sorted(a) && Lists(a, m)
    requires Sorted(b) && Lists(b, m)
    ensures a == b
    decreases |a|
  {
    hide Less;
    assert b != [] ==> b[0].key in m;
    if a != [] {
      assert a[0].key in m;
      HeadIsLeast(a, m);
      HeadIsLeast(b, m);
      LeastUnique(m.Keys, a[0].key, b[0].key);
      ListsTail(a, m);
      ListsTail(b, m);
      SortedListUnique(a[1..], b[1..], m - {a[0].key});
      assert a == [a[0]] + a[1..];
      assert b == [b[0]] + b[1..];
    }
  }

  lemma HeadIsLeast<V>(s: seq<Entry<V>>, m: map<Key, V>)
    requires s != [] && Sorted(s) && Lists(s, m)
    ensures IsLeast(s[0].key, m.Keys)
  {
    forall k | k in m ensures k == s[0].key || Less(s[0].key, k) {
      var i :| 0 <= i < |s| && s[i].key == k;
    }
  }

  lemma ListsTail<V>(s: seq<Entry<V>>, m: map<Key, V>)
    requires s != [] && Sorted(s) && Lists(s, m)
    ensures Sorted(s[1..]) && Lists(s[1..], m - {s[0].key})
  {
    var rest := m - {s[0].key};
    LessIrreflexive(s[0].key);
    forall i | 0 <= i < |s[1..]| ensures s[1..][i].key in rest && rest[s[1..][i].key] == s[1..][i].val {
      assert s[1..][i] == s[i + 1];
      assert Less(s[0].key, s[i + 1].key);
    }
    forall k | k in rest ensures exists i :: 0 <= i < |s[1..]| && s[1..][i].key == k {
      var i :| 0 <= i < |s| && s[i].key == k;
      assert s[1..][i - 1].key == k;
    }
  }

  lemma PrefixSorted<V>(es: seq<Entry<V>>, n: nat)
    requires Sorted(es) && n <= |es|
    ensures Sorted(es[..n])
  {
  }

  /** Inserting sorted entries and traversing the map gives them back. */
  lemma EntriesOfSorted<V>(es: seq<Entry<V>>)
    requires Sorted(es)
    ensures Entries(FromEntries(es)) == es
  {
    hide Less, FromEntries, Entries;
    FromSortedLists(es);
    EntriesSorted(FromEntries(es));
    SortedListUnique(Entries(FromEntries(es)), es, FromEntries(es));
  }
}
