/**
 * The binary format: fixed-width integers, strings and containers behind their length,
 * and a value behind its type tag. Decoders return the unread rest of their input.
 */
module Serializer {
  import opened Bytes
  import opened Tables
  import opened Sizes
  import opened Errors

  const SIZE_WIDTH: nat := 8
  const TAG_WIDTH: nat := 4

  function Pow256(w: nat): (p: nat)
    ensures p >= 1
  {
    if w == 0 then 1 else 256 * Pow256(w - 1)
  }

  // ----- encoders -----

  function ToBytes(n: nat, w: nat): (s: seq<byte>)
    ensures |s| == w
  {
    if w == 0 then [] else [n % 256] + ToBytes(n / 256, w - 1)
  }

  function EncodeText(t: Text): seq<byte> {
    ToBytes(|t|, SIZE_WIDTH) + t
  }

  function EncodeValue(v: Value): seq<byte> {
    ToBytes(v.tag, TAG_WIDTH) + EncodeText(v.text)
  }

  function EncodeEntry(e: Entry<Value>): seq<byte> {
    EncodeText(e.key) + EncodeValue(e.val)
  }

  function EncodeEntries(es: seq<Entry<Value>>): seq<byte> {
    if es == [] then [] else EncodeEntries(es[..|es|-1]) + EncodeEntry(es[|es|-1])
  }

  function EncodeTable(t: Table): seq<byte> {
    ToBytes(|t|, SIZE_WIDTH) + EncodeEntries(Entries(t))
  }

  /** A table file: the creation time, then the table. */
  function EncodeFile(time: nat, t: Table): seq<byte> {
    ToBytes(time, SIZE_WIDTH) + EncodeTable(t)
  }

  // ----- decoders -----

  function FromBytes(s: seq<byte>): nat {
    if s == [] then 0 else s[0] + 256 * FromBytes(s[1..])
  }

  function DecodeRaw(s: seq<byte>, n: nat): Result<(seq<byte>, seq<byte>)> {
    if |s| < n then Failure(EndOfFile) else Success((s[..n], s[n..]))
  }

  function DecodeNat(s: seq<byte>, w: nat): Result<(nat, seq<byte>)> {
    var (raw, rest) :- DecodeRaw(s, w);
    Success((FromBytes(raw), rest))
  }

  function DecodeText(s: seq<byte>): Result<(Text, seq<byte>)> {
    var (size, rest) :- DecodeNat(s, SIZE_WIDTH);
    DecodeRaw(rest, size)
  }

  function DecodeValue(s: seq<byte>): Result<(Value, seq<byte>)> {
    var (tag, rest) :- DecodeNat(s, TAG_WIDTH);
    TagFits(s, TAG_WIDTH);
    var (text, rest') :- DecodeText(rest);
    Success((Value(tag, text), rest'))
  }

  function DecodeEntry(s: seq<byte>): Result<(Entry<Value>, seq<byte>)> {
    var (key, rest) :- DecodeText(s);
    var (val, rest') :- DecodeValue(rest);
    Success((Entry(key, val), rest'))
  }

  function DecodeEntries(s: seq<byte>, n: nat): Result<(seq<Entry<Value>>, seq<byte>)> {
    if n == 0 then Success(([], s))
    else
      var (es, rest) :- DecodeEntries(s, n - 1);
      var (e, rest') :- DecodeEntry(rest);
      Success((es + [e], rest'))
  }

  function DecodeTable(s: seq<byte>): Result<(Table, seq<byte>)> {
    var (size, rest) :- DecodeNat(s, SIZE_WIDTH);
    var (es, rest') :- DecodeEntries(rest, size);
    Success((FromEntries(es), rest'))
  }

  function DecodeFile(file: seq<byte>): Result<(Table, seq<byte>)> {
    var (_, rest) :- DecodeNat(file, SIZE_WIDTH);
    DecodeTable(rest)
  }

  /** Entries from position pos on, until the position reaches end. */
  function DecodeRange(file: seq<byte>, pos: nat, end: nat): Result<seq<Entry<Value>>>
    decreases |file| - pos
  {
    if pos >= end then Success([])
    else if pos > |file| then Failure(EndOfFile)
    else
      var (e, rest) :- DecodeEntry(file[pos..]);
      EntryConsumes(file[pos..]);
      var es :- DecodeRange(file, |file| - |rest|, end);
      Success([e] + es)
  }

  // ----- a decoder takes a prefix of its input -----

  lemma {:induction false} FromBytesBound(s: seq<byte>)
    ensures FromBytes(s) < Pow256(|s|)
  {
    if s != [] {
      FromBytesBound(s[1..]);
    }
  }

  lemma TagFits(s: seq<byte>, w: nat)
    requires w == TAG_WIDTH
    ensures DecodeNat(s, w).Success? ==> DecodeNat(s, w).value.0 < 0x1_0000_0000
  {
    if |s| >= w {
      FromBytesBound(s[..w]);
      assert Pow256(4) == 256 * (256 * (256 * (256 * Pow256(0))));
    }
  }

  lemma TextConsumes(s: seq<byte>)
    requires DecodeText(s).Success?
    ensures var (text, rest) := DecodeText(s).value;
            |s| == SIZE_WIDTH + |text| + |rest| && rest == s[SIZE_WIDTH + |text|..]
  {
  }

  lemma ValueConsumes(s: seq<byte>)
    requires DecodeValue(s).Success?
    ensures var (v, rest) := DecodeValue(s).value;
            |s| == TAG_WIDTH + SIZE_WIDTH + |v.text| + |rest| && rest == s[TAG_WIDTH + SIZE_WIDTH + |v.text|..]
  {
    TagFits(s, TAG_WIDTH);
    TextConsumes(DecodeNat(s, TAG_WIDTH).value.1);
  }

  lemma EntryConsumes(s: seq<byte>)
    ensures DecodeEntry(s).Success? ==>
              var (e, rest) := DecodeEntry(s).value;
              |s| == Weight(SERIALIZED_OVERHEAD, e) + |rest| && rest == s[|s| - |rest|..]
  {
    if DecodeEntry(s).Success? {
      TextConsumes(s);
      ValueConsumes(DecodeText(s).value.1);
    }
  }

  // ----- round trips, with any trailing bytes -----

  lemma {:induction false} FromToBytes(n: nat, w: nat)
    requires n < Pow256(w)
    ensures FromBytes(ToBytes(n, w)) == n
  {
    if w > 0 {
      assert ToBytes(n, w)[1..] == ToBytes(n / 256, w - 1);
      FromToBytes(n / 256, w - 1);
    }
  }

  /** A C++ size: every string and every table in memory has one. */
  predicate IsSize(n: nat) {
    n < 0x1_0000_0000_0000_0000
  }

  predicate EntryFits(e: Entry<Value>) {
    IsSize(|e.key|) && IsSize(|e.val.text|)
  }

  predicate EntriesFit(es: seq<Entry<Value>>) {
    forall i :: 0 <= i < |es| ==> EntryFits(es[i])
  }

  predicate TableFits(t: Table) {
    IsSize(|t|) && forall k :: k in t ==> IsSize(|k|) && IsSize(|t[k].text|)
  }

  lemma Pow256Of8()
    ensures Pow256(8) == 0x1_0000_0000_0000_0000 && Pow256(4) == 0x1_0000_0000
  {
    assert Pow256(2) == 65536 by { assert Pow256(1) == 256; }
    assert Pow256(4) == 0x1_0000_0000 by { assert Pow256(3) == 256 * Pow256(2); }
    assert Pow256(6) == 0x1_0000_0000_0000 by { assert Pow256(5) == 256 * Pow256(4); }
    assert Pow256(8) == 0x1_0000_0000_0000_0000 by { assert Pow256(7) == 256 * Pow256(6); }
  }

  lemma NatRoundTrip(n: nat, w: nat, rest: seq<byte>)
    requires n < Pow256(w)
    ensures DecodeNat(ToBytes(n, w) + rest, w) == Success((n, rest))
  {
    var s := ToBytes(n, w) + rest;
    assert s[..w] == ToBytes(n, w) && s[w..] == rest;
    FromToBytes(n, w);
  }

  lemma TextRoundTrip(t: Text, rest: seq<byte>)
    requires IsSize(|t|)
    ensures DecodeText(EncodeText(t) + rest) == Success((t, rest))
  {
    Pow256Of8();
    assert EncodeText(t) + rest == ToBytes(|t|, SIZE_WIDTH) + (t + rest);
    NatRoundTrip(|t|, SIZE_WIDTH, t + rest);
    assert (t + rest)[..|t|] == t && (t + rest)[|t|..] == rest;
  }

  lemma ValueRoundTrip(v: Value, rest: seq<byte>)
    requires IsSize(|v.text|)
    ensures DecodeValue(EncodeValue(v) + rest) == Success((v, rest))
  {
    Pow256Of8();
    assert EncodeValue(v) + rest == ToBytes(v.tag, TAG_WIDTH) + (EncodeText(v.text) + rest);
    NatRoundTrip(v.tag, TAG_WIDTH, EncodeText(v.text) + rest);
    TextRoundTrip(v.text, rest);
  }

  lemma EntryRoundTrip(e: Entry<Value>, rest: seq<byte>)
    requires EntryFits(e)
    ensures DecodeEntry(EncodeEntry(e) + rest) == Success((e, rest))
  {
    assert EncodeEntry(e) + rest == EncodeText(e.key) + (EncodeValue(e.val) + rest);
    TextRoundTrip(e.key, EncodeValue(e.val) + rest);
    ValueRoundTrip(e.val, rest);
  }

  lemma {:induction false} EntriesRoundTrip(es: seq<Entry<Value>>, rest: seq<byte>)
    requires EntriesFit(es)
    ensures DecodeEntries(EncodeEntries(es) + rest, |es|) == Success((es, rest))
  {
    hide EncodeEntry, DecodeEntry;
    if es == [] {
      assert EncodeEntries(es) + rest == rest;
    } else {
      var init, last := es[..|es|-1], es[|es|-1];
      assert EncodeEntries(es) + rest == EncodeEntries(init) + (EncodeEntry(last) + rest);
      EntriesRoundTrip(init, EncodeEntry(last) + rest);
      EntryRoundTrip(last, rest);
      assert init + [last] == es;
    }
  }

  lemma TableEntriesFit(t: Table)
    requires TableFits(t)
    ensures EntriesFit(Entries(t))
  {
    EntriesSorted(t);
  }

  lemma TableRoundTrip(t: Table, rest: seq<byte>)
    requires TableFits(t)
    ensures DecodeTable(EncodeTable(t) + rest) == Success((t, rest))
  {
    Pow256Of8();
    TableEntriesFit(t);
    assert EncodeTable(t) + rest == ToBytes(|t|, SIZE_WIDTH) + (EncodeEntries(Entries(t)) + rest);
    NatRoundTrip(|t|, SIZE_WIDTH, EncodeEntries(Entries(t)) + rest);
    EntriesRoundTrip(Entries(t), rest);
    FromEntriesOfTable(t);
  }

  lemma FileRoundTrip(time: nat, t: Table)
    requires IsSize(time) && TableFits(t)
    ensures DecodeFile(EncodeFile(time, t)) == Success((t, []))
  {
    Pow256Of8();
    NatRoundTrip(time, SIZE_WIDTH, EncodeTable(t));
    TableRoundTrip(t, []);
    assert EncodeTable(t) + [] == EncodeTable(t);
  }

  // ----- lengths and offsets -----

  lemma EntryLength(e: Entry<Value>)
    ensures |EncodeEntry(e)| == Weight(SERIALIZED_OVERHEAD, e)
  {
  }

  lemma {:induction false} EntriesLength(es: seq<Entry<Value>>)
    ensures |EncodeEntries(es)| == SeqTotal(SERIALIZED_OVERHEAD, es)
  {
    if es != [] {
      EntriesLength(es[..|es|-1]);
      EntryLength(es[|es|-1]);
    }
  }

  /** The size that a compaction adds up for a table is the length of its file. */
  lemma FileLength(time: nat, t: Table)
    ensures |EncodeFile(time, t)| == FileSize(t)
  {
    EntriesLength(Entries(t));
    TotalOfEntries(SERIALIZED_OVERHEAD, t);
  }

  lemma {:induction false} EncodeAppend(a: seq<Entry<Value>>, b: seq<Entry<Value>>)
    ensures EncodeEntries(a + b) == EncodeEntries(a) + EncodeEntries(b)
  {
    if b == [] {
      assert a + b == a;
    } else {
      assert (a + b)[..|a + b|-1] == a + b[..|b|-1];
      EncodeAppend(a, b[..|b|-1]);
    }
  }

  /** Where entry i starts in the file; at i == |es|, where the entries end. */
  function Offset(es: seq<Entry<Value>>, i: nat): nat
    requires i <= |es|
  {
    FILE_HEADER + |EncodeEntries(es[..i])|
  }

  lemma OffsetStep(es: seq<Entry<Value>>, i: nat)
    requires i < |es|
    ensures Offset(es, i + 1) == Offset(es, i) + Weight(SERIALIZED_OVERHEAD, es[i])
  {
    assert es[..i+1][..i] == es[..i];
    EntryLength(es[i]);
  }

  lemma {:induction false} OffsetMonotone(es: seq<Entry<Value>>, i: nat, j: nat)
    requires i <= j <= |es|
    ensures Offset(es, i) <= Offset(es, j)
    ensures i < j ==> Offset(es, i) < Offset(es, j)
    decreases j - i
  {
    if i < j {
      OffsetStep(es, i);
      OffsetMonotone(es, i + 1, j);
    }
  }

  /** From the start of entry i, the file holds the encodings of the entries from i on. */
  lemma FileFromOffset(time: nat, t: Table, i: nat)
    requires i <= |Entries(t)|
    ensures var file, es := EncodeFile(time, t), Entries(t);
            Offset(es, i) <= |file| && file[Offset(es, i)..] == EncodeEntries(es[i..])
    ensures Offset(Entries(t), |Entries(t)|) == |EncodeFile(time, t)|
  {
    hide EncodeEntries, ToBytes, Entries;
    var es := Entries(t);
    EncodeAppend(es[..i], es[i..]);
    assert es == es[..i] + es[i..] && es[..|es|] == es;
    var header := ToBytes(time, SIZE_WIDTH) + ToBytes(|t|, SIZE_WIDTH);
    SplitAfter(header, EncodeEntries(es[..i]), EncodeEntries(es[i..]));
    assert EncodeFile(time, t) == header + EncodeEntries(es);
  }

  lemma SplitAfter(a: seq<byte>, b: seq<byte>, c: seq<byte>)
    ensures (a + (b + c))[|a| + |b|..] == c && |a + (b + c)| == |a| + |b| + |c|
  {
  }

  lemma EncodeHead(es: seq<Entry<Value>>)
    requires es != []
    ensures EncodeEntries(es) == EncodeEntry(es[0]) + EncodeEntries(es[1..])
  {
    EncodeAppend([es[0]], es[1..]);
    assert [es[0]] + es[1..] == es;
    assert [es[0]][..0] == [];
    assert EncodeEntries([es[0]]) == EncodeEntry(es[0]);
  }

  /** Between two entry boundaries the range decoder finds exactly the entries lying there. */
  lemma {:induction false} RangeRoundTrip(time: nat, t: Table, i: nat, j: nat)
    requires TableFits(t) && i <= j <= |Entries(t)|
    ensures DecodeRange(EncodeFile(time, t), Offset(Entries(t), i), Offset(Entries(t), j))
            == Success(Entries(t)[i..j])
    decreases j - i
  {
    hide EncodeFile, EncodeEntries, EncodeEntry, DecodeEntry, Offset, Entries;
    var file, es := EncodeFile(time, t), Entries(t);
    OffsetMonotone(es, i, j);
    if i < j {
      EntryAtOffset(time, t, i);
      RangeRoundTrip(time, t, i + 1, j);
      assert es[i..j] == [es[i]] + es[i+1..j];
    } else {
      assert es[i..j] == [];
    }
  }

  lemma EntryAtOffset(time: nat, t: Table, i: nat)
    requires TableFits(t) && i < |Entries(t)|
    ensures var file, es := EncodeFile(time, t), Entries(t);
            && Offset(es, i) <= |file|
            && DecodeEntry(file[Offset(es, i)..]).Success?
            && DecodeEntry(file[Offset(es, i)..]).value.0 == es[i]
            && |file| - |DecodeEntry(file[Offset(es, i)..]).value.1| == Offset(es, i + 1)
  {
    hide EncodeFile, EncodeEntries, EncodeEntry, DecodeEntry, Offset, Entries;
    var file, es := EncodeFile(time, t), Entries(t);
    FileFromOffset(time, t, i);
    FileFromOffset(time, t, i + 1);
    EncodeHead(es[i..]);
    assert es[i..][0] == es[i] && es[i..][1..] == es[i+1..];
    TableEntriesFit(t);
    EntryRoundTrip(es[i], EncodeEntries(es[i+1..]));
  }
}
