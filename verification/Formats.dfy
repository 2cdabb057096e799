/**
 * The formats on literal bytes: what the encoders write, and what the decoders and the log
 * loader make of any bytes of that shape, whoever wrote them.
 */
module Formats {
  import opened Bytes
  import opened Tables
  import opened Sizes
  import opened Errors
  import opened Serializer
  import opened TransactionLog
  import opened Engine

  /** The 8 bytes of a number below 2^64, the lowest first. */
  function SizeBytes(n: nat): seq<byte> {
    [n % 0x100, n / 0x100 % 0x100, n / 0x1_0000 % 0x100, n / 0x100_0000 % 0x100,
     n / 0x1_0000_0000 % 0x100, n / 0x100_0000_0000 % 0x100,
     n / 0x1_0000_0000_0000 % 0x100, n / 0x100_0000_0000_0000 % 0x100]
  }

  lemma ToBytesUnfolds(n: nat, w: nat)
    requires w > 0
    ensures ToBytes(n, w) == [n % 256] + ToBytes(n / 256, w - 1)
  {
  }

  lemma LowBytes(n: nat, w: nat)
    requires w >= 4
    ensures ToBytes(n, w) ==
            [n % 0x100, n / 0x100 % 0x100, n / 0x1_0000 % 0x100, n / 0x100_0000 % 0x100] + ToBytes(n / 0x1_0000_0000, w - 4)
  {
    hide ToBytes;
    var n1 := n / 256;
    var n2 := n1 / 256;
    var n3 := n2 / 256;
    ToBytesUnfolds(n, w);
    ToBytesUnfolds(n1, w - 1);
    ToBytesUnfolds(n2, w - 2);
    ToBytesUnfolds(n3, w - 3);
    assert n2 == n / 0x1_0000 && n3 == n / 0x100_0000 && n3 / 256 == n / 0x1_0000_0000;
  }

  lemma SizeBytesAre(n: nat)
    ensures ToBytes(n, 8) == SizeBytes(n)
  {
    hide ToBytes;
    var high := n / 0x1_0000_0000;
    LowBytes(n, 8);
    LowBytes(high, 4);
    assert ToBytes(high / 0x1_0000_0000, 0) == [];
    assert high / 0x100 == n / 0x100_0000_0000;
    assert high / 0x1_0000 == n / 0x1_0000_0000_0000;
    assert high / 0x100_0000 == n / 0x100_0000_0000_0000;
  }

  /** The number whose four bytes these are, the lowest first. */
  function TagOf(a: byte, b: byte, c: byte, d: byte): Tag {
    a + 0x100 * b + 0x1_0000 * c + 0x100_0000 * d
  }

  lemma TagDecodes(a: byte, b: byte, c: byte, d: byte, rest: seq<byte>)
    ensures DecodeNat([a, b, c, d] + rest, 4) == Success((TagOf(a, b, c, d), rest))
  {
    var s := [a, b, c, d];
    assert (s + rest)[..4] == s && (s + rest)[4..] == rest;
    assert s[1..] == [b, c, d] && [b, c, d][1..] == [c, d] && [c, d][1..] == [d] && [d][1..] == [];
    assert FromBytes([d]) == d;
    assert FromBytes([c, d]) == c + 256 * d;
    assert FromBytes([b, c, d]) == b + 256 * FromBytes([c, d]);
    assert FromBytes(s) == a + 256 * FromBytes([b, c, d]);
  }

  lemma TagEncodes(n: nat)
    requires n < 0x100
    ensures ToBytes(n, 4) == [n, 0, 0, 0]
  {
    ToBytesUnfolds(n, 4);
    ToBytesUnfolds(0, 3);
    ToBytesUnfolds(0, 2);
    ToBytesUnfolds(0, 1);
    assert ToBytes(0, 0) == [];
  }

  // ----- what is written -----

  lemma TextBytes(t: Text)
    ensures EncodeText(t) == SizeBytes(|t|) + t
  {
    SizeBytesAre(|t|);
  }

  lemma ValueBytes(t: Text)
    ensures EncodeValue(Live(t)) == [0, 0, 0, 0] + SizeBytes(|t|) + t
    ensures EncodeValue(TOMBSTONE) == [1, 0, 0, 0] + SizeBytes(0)
  {
    hide SizeBytes;
    TagEncodes(0);
    TagEncodes(1);
    TextBytes(t);
    TextBytes([]);
  }

  /** The file of a table: two numbers, and then the entries one after the other. */
  lemma FileBytes(time: nat, t: Table)
    ensures EncodeFile(time, t) == SizeBytes(time) + SizeBytes(|t|) + EncodeEntries(Entries(t))
  {
    hide SizeBytes;
    SizeBytesAre(time);
    SizeBytesAre(|t|);
  }

  lemma EntryBytes(key: Key, t: Text)
    ensures EncodeEntry(Entry(key, Live(t))) == SizeBytes(|key|) + key + [0, 0, 0, 0] + SizeBytes(|t|) + t
    ensures EncodeEntry(Entry(key, TOMBSTONE)) == SizeBytes(|key|) + key + [1, 0, 0, 0] + SizeBytes(0)
  {
    hide SizeBytes, EncodeValue, EncodeText;
    TextBytes(key);
    ValueBytes(t);
  }

  /** The writer's records; the loader's differ in the four zeros before the text of a set. */
  lemma RecordBytes(key: Key, text: Text)
    ensures WriterRecord(Set(key, text)) == [1, 0, 0, 0] + SizeBytes(|key|) + key + SizeBytes(|text|) + text
    ensures LoaderRecord(Set(key, text)) ==
            [1, 0, 0, 0] + SizeBytes(|key|) + key + [0, 0, 0, 0] + SizeBytes(|text|) + text
    ensures WriterRecord(Remove(key)) == LoaderRecord(Remove(key)) == [2, 0, 0, 0] + SizeBytes(|key|) + key
  {
    hide SizeBytes, EncodeValue, EncodeText;
    TagEncodes(1);
    TagEncodes(2);
    TextBytes(key);
    TextBytes(text);
    ValueBytes(text);
  }

  // ----- what is read -----

  lemma TextReads(t: Text, rest: seq<byte>)
    requires IsSize(|t|)
    ensures DecodeText(SizeBytes(|t|) + t + rest) == Success((t, rest))
  {
    hide SizeBytes, EncodeText;
    TextBytes(t);
    TextRoundTrip(t, rest);
  }

  /** Whatever the four bytes of the tag, the text is what comes of it, save for a 1. */
  lemma ValueReads(a: byte, b: byte, c: byte, d: byte, t: Text, rest: seq<byte>)
    requires IsSize(|t|)
    ensures var decoded := DecodeValue([a, b, c, d] + SizeBytes(|t|) + t + rest);
            && decoded.Success? && decoded.value.1 == rest
            && decoded.value.0.Underlying() == if [a, b, c, d] == [1, 0, 0, 0] then None else Some(t)
  {
    hide SizeBytes, DecodeText, DecodeNat;
    var tail := SizeBytes(|t|) + t + rest;
    assert [a, b, c, d] + SizeBytes(|t|) + t + rest == [a, b, c, d] + tail;
    TagDecodes(a, b, c, d, tail);
    TextReads(t, rest);
  }

  /** Records of any other type than 1 and 2 are refused, and no others. */
  lemma UnknownReads(a: byte, b: byte, c: byte, d: byte, rest: seq<byte>)
    ensures NextRecord([a, b, c, d] + rest) == Failure(UnknownTransaction) <==>
            [a, b, c, d] != [1, 0, 0, 0] && [a, b, c, d] != [2, 0, 0, 0]
  {
    TagDecodes(a, b, c, d, rest);
  }

  /** A removal is loaded: the key is bound to nothing readable, and the rest is loaded. */
  lemma RemovalReads(key: Key, rest: seq<byte>, t: Table)
    requires IsSize(|key|)
    ensures exists v: Value :: v.Underlying() == None &&
              LoadOnto([2, 0, 0, 0] + SizeBytes(|key|) + key + rest, t) == LoadOnto(rest, t[key := v])
  {
    hide SizeBytes, DecodeText, DecodeNat, DecodeEntry;
    var tail := SizeBytes(|key|) + key + rest;
    assert [2, 0, 0, 0] + SizeBytes(|key|) + key + rest == [2, 0, 0, 0] + tail;
    TagDecodes(2, 0, 0, 0, tail);
    TextReads(key, rest);
    assert TOMBSTONE.Underlying() == None;
  }

  /** A set with a tag of zeros is loaded: the key is bound to the text, and the rest is loaded. */
  lemma SetReads(key: Key, text: Text, rest: seq<byte>, t: Table)
    requires IsSize(|key|) && IsSize(|text|)
    ensures exists v: Value :: v.Underlying() == Some(text) &&
              LoadOnto([1, 0, 0, 0] + SizeBytes(|key|) + key + [0, 0, 0, 0] + SizeBytes(|text|) + text + rest, t)
              == LoadOnto(rest, t[key := v])
  {
    hide SizeBytes, DecodeText, DecodeNat, DecodeValue;
    var value := [0, 0, 0, 0] + SizeBytes(|text|) + text + rest;
    var tail := SizeBytes(|key|) + key + value;
    assert [1, 0, 0, 0] + SizeBytes(|key|) + key + [0, 0, 0, 0] + SizeBytes(|text|) + text + rest
        == [1, 0, 0, 0] + tail;
    TagDecodes(1, 0, 0, 0, tail);
    TextReads(key, value);
    ValueReads(0, 0, 0, 0, text, rest);
    assert LoadOnto([1, 0, 0, 0] + tail, t) == LoadOnto(rest, t[key := DecodeValue(value).value.0]);
  }

  // ----- the size of a memtable -----

  /** An entry counts with the bytes of its key, its tag and its text: its two lengths are left out. */
  lemma WeightInBytes(e: Entry<Value>)
    ensures Weight(APPROXIMATE_OVERHEAD, e) == |EncodeEntry(e)| - 16 == |e.key| + 4 + |e.val.text|
  {
    EntryLength(e);
  }

  lemma {:induction false} TotalInBytes(es: seq<Entry<Value>>)
    ensures SeqTotal(APPROXIMATE_OVERHEAD, es) == |EncodeEntries(es)| - 16 * |es|
  {
    if es != [] {
      TotalInBytes(es[..|es|-1]);
      WeightInBytes(es[|es|-1]);
    }
  }

  /** A memtable is full by the size of its table's file, less 16 bytes for it and for each entry. */
  lemma FullByFileLength(limit: nat, time: nat, t: Table)
    ensures NeedsFlush(limit, t) <==> (|EncodeFile(time, t)| - 16 - 16 * |t|) % 0x1_0000_0000 >= limit
  {
    TotalInBytes(Entries(t));
    TotalOfEntries(APPROXIMATE_OVERHEAD, t);
  }
}
