/** Files read and written through streams, piece by piece, as the program does. */
module Streams {
  import opened Bytes
  import opened Tables
  import opened Sizes
  import opened Errors
  import opened Serializer
  import opened SparseIndex
  import opened TransactionLog

  /** r is what the decoder found, and after the input it has left. */
  ghost predicate Took<T>(decoded: Result<(T, seq<byte>)>, r: Result<T>, after: seq<byte>) {
    match decoded
    case Success((value, rest)) => r == Success(value) && after == rest
    case Failure(error) => r == Failure(error)
  }

  class InputStream {
    const data: seq<byte>
    var pos: nat
    var eof: bool

    ghost predicate Valid()
      reads this
    {
      pos <= |data|
    }

    ghost function Rest(): seq<byte>
      requires Valid()
      reads this
    {
      data[pos..]
    }

    constructor (data: seq<byte>)
      ensures this.data == data && pos == 0 && !eof && Valid() && Rest() == data
    {
      this.data, pos, eof := data, 0, false;
    }

    /** Read n bytes; a stream that is too short is at its end afterwards. */
    method Read(n: nat) returns (r: Result<seq<byte>>)
      requires Valid()
      modifies this
      ensures Valid() && Took(DecodeRaw(old(Rest()), n), r, Rest())
      ensures r.Success? ==> eof == old(eof) && pos == old(pos) + n
      ensures r.Failure? ==> eof && r.error == EndOfFile
    {
      if |data| - pos < n {
        eof, pos := true, |data|;
        return Failure(EndOfFile);
      }
      r := Success(data[pos..pos + n]);
      pos := pos + n;
      assert data[old(pos)..][..n] == data[old(pos)..pos] && data[old(pos)..][n..] == data[pos..];
    }

    method SeekTo(p: nat)
      requires Valid() && p <= |data|
      modifies this
      ensures Valid() && pos == p && eof == old(eof)
    {
      pos := p;
    }

    method ReadNat(w: nat) returns (r: Result<nat>)
      requires Valid()
      modifies this
      ensures Valid() && Took(DecodeNat(old(Rest()), w), r, Rest())
      ensures r.Success? ==> eof == old(eof)
      ensures r.Failure? ==> eof && r.error == EndOfFile
    {
      var raw := Read(w);
      if raw.Failure? {
        return Failure(raw.error);
      }
      r := Success(FromBytes(raw.value));
    }

    /** A string: its length, then its characters one by one. */
    method ReadText() returns (r: Result<Text>)
      requires Valid()
      modifies this
      ensures Valid() && Took(DecodeText(old(Rest())), r, Rest())
      ensures r.Success? ==> eof == old(eof)
      ensures r.Failure? ==> eof && r.error == EndOfFile
    {
      var size := ReadNat(SIZE_WIDTH);
      if size.Failure? {
        return Failure(size.error);
      }
      ghost var chars := Rest();
      var text: Text := [];
      var i: nat := 0;
      while i < size.value
        invariant Valid() && i <= size.value && i <= |chars|
        invariant text == chars[..i] && Rest() == chars[i..] && eof == old(eof)
      {
        var c := Read(1);
        if c.Failure? {
          return Failure(c.error);
        }
        assert chars[..i+1] == chars[..i] + chars[i..][..1];
        text := text + c.value;
        i := i + 1;
      }
      r := Success(text);
    }

    method ReadValue() returns (r: Result<Value>)
      requires Valid()
      modifies this
      ensures Valid() && Took(DecodeValue(old(Rest())), r, Rest())
      ensures r.Success? ==> eof == old(eof)
      ensures r.Failure? ==> eof && r.error == EndOfFile
    {
      TagFits(Rest(), TAG_WIDTH);
      var tag := ReadNat(TAG_WIDTH);
      if tag.Failure? {
        return Failure(tag.error);
      }
      var text := ReadText();
      if text.Failure? {
        return Failure(text.error);
      }
      r := Success(Value(tag.value, text.value));
    }

    /** A pair: its first part, then its second. */
    method ReadEntry() returns (r: Result<Entry<Value>>)
      requires Valid()
      modifies this
      ensures Valid() && Took(DecodeEntry(old(Rest())), r, Rest())
      ensures r.Success? ==> eof == old(eof) && pos == old(pos) + Weight(SERIALIZED_OVERHEAD, r.value)
      ensures r.Failure? ==> eof && r.error == EndOfFile
    {
      EntryConsumes(Rest());
      var key := ReadText();
      if key.Failure? {
        return Failure(key.error);
      }
      var val := ReadValue();
      if val.Failure? {
        return Failure(val.error);
      }
      r := Success(Entry(key.value, val.value));
      assert |Rest()| == |data| - pos;
    }
  }

  /** Replay a log until its end. */
  method LoadLog(file: seq<byte>) returns (r: Result<Table>)
    ensures r == Load(file)
  {
    var ifs := new InputStream(file);
    var rtn: Table := map[];
    while true
      invariant ifs.Valid() && !ifs.eof
      invariant Load(file) == LoadOnto(ifs.Rest(), rtn)
      decreases |ifs.Rest()|
    {
      RecordConsumes(ifs.Rest());
      var kind := ifs.ReadNat(TAG_WIDTH);
      if kind.Failure? {
        return Success(rtn);
      }
      if kind.value == SET_TRANSACTION {
        var e := ifs.ReadEntry();
        if e.Failure? {
          return Success(rtn);
        }
        rtn := rtn[e.value.key := e.value.val];
      } else if kind.value == REMOVE_TRANSACTION {
        var key := ifs.ReadText();
        if key.Failure? {
          return Success(rtn);
        }
        rtn := rtn[key.value := TOMBSTONE];
      } else {
        return Failure(UnknownTransaction);
      }
    }
  }

  // ----- table files -----

  class SSTableIndex {
    var index: map<Key, nat>
    var eofPos: nat

    constructor ()
      ensures index == map[]
    {
      index, eofPos := map[], 0;
    }

    method AddIndex(key: Key, pos: nat)
      modifies this
      ensures index == old(index)[key := pos] && eofPos == old(eofPos)
    {
      index := index[key := pos];
    }

    method SetEofPos(pos: nat)
      modifies this
      ensures eofPos == pos && index == old(index)
    {
      eofPos := pos;
    }

    /** Walk the index to the block that may hold the key. */
    method GetPotentialBlockPos(key: Key) returns (r: Option<(nat, nat)>)
      ensures r == BlockRange(index, eofPos, key)
    {
      if index == map[] {
        return None;
      }
      var entries := Entries(index);
      var i := 0;
      while i < |entries|
        invariant 0 <= i <= |entries|
        invariant BlockRange(index, eofPos, key) == BlockFrom(entries, eofPos, key, i)
      {
        if key == entries[i].key {
          return Some((entries[i].val, if i == |entries| - 1 then eofPos else entries[i+1].val));
        }
        if Less(key, entries[i].key) {
          if i == 0 {
            return None;
          }
          return Some((entries[i-1].val, entries[i].val));
        }
        i := i + 1;
      }
      r := None;
    }

    /** Decode the block that may hold the key, and look the key up in it. */
    method Seek(file: seq<byte>, key: Key) returns (r: Result<Option<Value>>)
      ensures r == SeekIn(file, index, eofPos, key)
    {
      var block := GetPotentialBlockPos(key);
      if block == None {
        return Success(None);
      }
      var es := ReadRange(file, block.value.0, block.value.1);
      if es.Failure? {
        return Failure(es.error);
      }
      r := Success(Lookup(es.value, key));
    }
  }

  /** What the range decoder finds is done followed by what it finds from pos on. */
  ghost predicate RangeSplit(file: seq<byte>, start: nat, end: nat, done: seq<Entry<Value>>, pos: nat) {
    match DecodeRange(file, pos, end)
    case Success(es) => DecodeRange(file, start, end) == Success(done + es)
    case Failure(error) => DecodeRange(file, start, end) == Failure(error)
  }

  lemma RangeStart(file: seq<byte>, start: nat, end: nat)
    ensures RangeSplit(file, start, end, [], start)
  {
    if DecodeRange(file, start, end).Success? {
      assert [] + DecodeRange(file, start, end).value == DecodeRange(file, start, end).value;
    }
  }

  lemma FromEntriesExtend(es: seq<Entry<Value>>, e: Entry<Value>)
    ensures FromEntries(es + [e]) == Emplace(FromEntries(es), e)
  {
    assert (es + [e])[..|es|] == es;
  }

  lemma RangeStep(file: seq<byte>, start: nat, end: nat, done: seq<Entry<Value>>, pos: nat)
    requires pos < end && pos <= |file| && RangeSplit(file, start, end, done, pos)
    ensures DecodeEntry(file[pos..]).Success? ==>
              var done', rest := done + [DecodeEntry(file[pos..]).value.0], DecodeEntry(file[pos..]).value.1;
              |rest| < |file[pos..]| && RangeSplit(file, start, end, done', |file| - |rest|)
              && FromEntries(done') == Emplace(FromEntries(done), DecodeEntry(file[pos..]).value.0)
    ensures DecodeEntry(file[pos..]).Failure? ==>
              DecodeRange(file, start, end) == Failure(DecodeEntry(file[pos..]).error)
  {
    hide DecodeEntry, FromEntries;
    EntryConsumes(file[pos..]);
    if DecodeEntry(file[pos..]).Success? {
      var (e, rest) := DecodeEntry(file[pos..]).value;
      FromEntriesExtend(done, e);
      var after := DecodeRange(file, |file| - |rest|, end);
      if after.Success? {
        assert done + ([e] + after.value) == (done + [e]) + after.value;
      }
    }
  }

  lemma RangeEnd(file: seq<byte>, start: nat, end: nat, done: seq<Entry<Value>>, pos: nat)
    requires pos >= end && RangeSplit(file, start, end, done, pos)
    ensures DecodeRange(file, start, end) == Success(done)
  {
    assert done + [] == done;
  }

  /** Decode one more entry of the range. */
  method TakeEntry(ifs: InputStream, ghost start: nat, ghost end: nat, ghost done: seq<Entry<Value>>)
    returns (r: Result<Entry<Value>>)
    requires ifs.Valid() && ifs.pos < end && !ifs.eof && RangeSplit(ifs.data, start, end, done, ifs.pos)
    modifies ifs
    ensures ifs.Valid()
    ensures match r
            case Success(e) =>
              && old(ifs.pos) < ifs.pos && !ifs.eof && RangeSplit(ifs.data, start, end, done + [e], ifs.pos)
              && FromEntries(done + [e]) == Emplace(FromEntries(done), e)
            case Failure(error) => DecodeRange(ifs.data, start, end) == Failure(error)
  {
    hide DecodeRange, DecodeEntry, FromEntries, RangeSplit, Emplace, Weight;
    RangeStep(ifs.data, start, end, done, ifs.pos);
    ghost var s := ifs.Rest();
    assert s == ifs.data[ifs.pos..];
    r := ifs.ReadEntry();
    assert r.Success? ==> DecodeEntry(s) == Success((r.value, ifs.Rest())) && |ifs.Rest()| == |ifs.data| - ifs.pos;
  }

  /** Decode entries from start on until the position reaches end. */
  method ReadRange(file: seq<byte>, start: nat, end: nat) returns (r: Result<Table>)
    ensures match DecodeRange(file, start, end)
            case Success(es) => r == Success(FromEntries(es))
            case Failure(error) => r == Failure(error)
  {
    if start >= end {
      return Success(map[]);
    }
    if start > |file| {
      return Failure(EndOfFile);
    }
    hide DecodeRange, FromEntries, RangeSplit, Emplace;
    var ifs := new InputStream(file);
    ifs.SeekTo(start);
    var rtn: Table := FromEntries([]);
    ghost var done: seq<Entry<Value>> := [];
    RangeStart(file, start, end);
    var currPos := start;
    while currPos < end
      invariant ifs.Valid() && ifs.data == file && currPos == ifs.pos && !ifs.eof
      invariant rtn == FromEntries(done) && RangeSplit(file, start, end, done, currPos)
      decreases |file| - currPos
    {
      var e := TakeEntry(ifs, start, end, done);
      if e.Failure? {
        return Failure(e.error);
      }
      rtn := Emplace(rtn, e.value);
      done := done + [e.value];
      currPos := ifs.pos;
    }
    RangeEnd(file, start, end, done, currPos);
    r := Success(rtn);
  }

  // ----- writing a table and its index -----

  class OutputStream {
    var data: seq<byte>

    constructor ()
      ensures data == []
    {
      data := [];
    }

    method WriteNat(n: nat, w: nat)
      modifies this
      ensures data == old(data) + ToBytes(n, w)
    {
      data := data + ToBytes(n, w);
    }

    /** A string: its length, then its characters one by one. */
    method WriteText(t: Text)
      modifies this
      ensures data == old(data) + EncodeText(t)
    {
      WriteNat(|t|, SIZE_WIDTH);
      var i := 0;
      while i < |t|
        invariant 0 <= i <= |t|
        invariant data == old(data) + ToBytes(|t|, SIZE_WIDTH) + t[..i]
      {
        data := data + [t[i]];
        i := i + 1;
      }
      assert t[..i] == t;
    }

    method WriteEntry(e: Entry<Value>)
      modifies this
      ensures data == old(data) + EncodeEntry(e)
    {
      WriteText(e.key);
      WriteNat(e.val.tag, TAG_WIDTH);
      WriteText(e.val.text);
    }
  }

  lemma PrefixEncoding(es: seq<Entry<Value>>, i: nat)
    requires i < |es|
    ensures EncodeEntries(es[..i+1]) == EncodeEntries(es[..i]) + EncodeEntry(es[i])
    ensures |EncodeEntry(es[i])| == EntrySize(es[i])
    ensures es[..i+1][..i] == es[..i] && Offset(es[..i+1], i) == Offset(es, i)
  {
    assert es[..i+1][..i] == es[..i];
    EntryLength(es[i]);
  }

  lemma WriterScanStep(es: seq<Entry<Value>>, i: nat, n: nat, blockSize: nat)
    requires i < |es|
    ensures var offered := Offer(WriterScan(es[..i], n, blockSize), es[i], i, n, Offset(es, i), blockSize);
            WriterScan(es[..i+1], n, blockSize) == Builder(offered.index, offered.block + EntrySize(es[i]))
  {
    PrefixEncoding(es, i);
  }

  lemma NothingWritten(time: nat, t: Table, blockSize: nat)
    ensures WriterScan(Entries(t)[..0], |t|, blockSize) == Builder(map[], 0)
    ensures EncodeEntries(Entries(t)[..0]) == [] && Offset(Entries(t), 0) == FILE_HEADER
    ensures EncodeFile(time, t) == ToBytes(time, SIZE_WIDTH) + ToBytes(|t|, SIZE_WIDTH) + EncodeEntries(Entries(t))
    ensures Entries(t)[..|t|] == Entries(t)
  {
  }

  /**
   * Write a table file. Before each entry goes out, it is offered to the index with the
   * position where it will start and the bytes written since the last index entry.
   */
  method FlushSSTable(time: nat, t: Table, blockSize: nat) returns (file: seq<byte>, rtn: SSTableIndex)
    ensures file == EncodeFile(time, t)
    ensures fresh(rtn) && rtn.eofPos == |file|
    ensures rtn.index == WriterScan(Entries(t), |t|, blockSize).index
  {
    hide WriterScan, EncodeEntries, EncodeEntry, EncodeFile, Offset, Entries, ToBytes;
    NothingWritten(time, t, blockSize);
    rtn := new SSTableIndex();
    var ofs := new OutputStream();
    ofs.WriteNat(time, SIZE_WIDTH);
    ofs.WriteNat(|t|, SIZE_WIDTH);
    ghost var header := ofs.data;
    var es := Entries(t);
    var currBlockSize: nat := 0;
    var currPos := |ofs.data|;
    var i := 0;
    while i < |es|
      invariant 0 <= i <= |es|
      invariant ofs.data == header + EncodeEntries(es[..i]) && currPos == |ofs.data| == Offset(es, i)
      invariant fresh(rtn) && fresh(ofs)
      invariant Builder(rtn.index, currBlockSize) == WriterScan(es[..i], |es|, blockSize)
    {
      PrefixEncoding(es, i);
      OffsetStep(es, i);
      WriterScanStep(es, i, |es|, blockSize);
      var isFirstOrLastEntry := i == 0 || |es| - i == 1;
      if isFirstOrLastEntry || currBlockSize >= blockSize {
        rtn.AddIndex(es[i].key, currPos);
        currBlockSize := 0;
      }
      ofs.WriteEntry(es[i]);
      var prevPos := currPos;
      currPos := |ofs.data|;
      currBlockSize := currBlockSize + (currPos - prevPos);
      i := i + 1;
    }
    rtn.SetEofPos(|ofs.data|);
    file := ofs.data;
  }

  // ----- reading a table and building its index -----

  lemma {:induction false} DecodeEntriesFails(s: seq<byte>, i: nat, n: nat)
    requires i <= n && DecodeEntries(s, i).Failure?
    ensures DecodeEntries(s, n) == DecodeEntries(s, i)
  {
    if i < n {
      DecodeEntriesFails(s, i, n - 1);
    }
  }

  /** The table whose file this is, if it is one. */
  ghost predicate IsFileOf(file: seq<byte>, time: nat, t: Table) {
    IsSize(time) && TableFits(t) && file == EncodeFile(time, t)
  }

  lemma FileDeterminesTable(file: seq<byte>, time: nat, t: Table, time': nat, t': Table)
    requires IsFileOf(file, time, t) && IsFileOf(file, time', t')
    ensures t == t'
  {
    FileRoundTrip(time, t);
    FileRoundTrip(time', t');
  }

  /** The header of a table file: the creation time, the number of entries. */
  lemma FileHeader(file: seq<byte>, time: nat, t: Table)
    requires IsFileOf(file, time, t)
    ensures DecodeNat(file, SIZE_WIDTH) == Success((time, file[8..]))
    ensures DecodeNat(file[8..], SIZE_WIDTH) == Success((|t|, file[16..]))
    ensures Offset(Entries(t), 0) == 16 && |Entries(t)| == |t|
  {
    Pow256Of8();
    NatRoundTrip(time, SIZE_WIDTH, EncodeTable(t));
    NatRoundTrip(|t|, SIZE_WIDTH, EncodeEntries(Entries(t)));
    assert file[8..] == EncodeTable(t);
    assert file[16..] == EncodeEntries(Entries(t));
  }

  /** The greatest key in the map read so far is the key read last. */
  lemma LastReadIsGreatest(t: Table, i: nat)
    requires i < |Entries(t)|
    ensures Entries(FromEntries(Entries(t)[..i+1])) == Entries(t)[..i+1]
  {
    hide Less, FromEntries, Entries, Sorted;
    EntriesSorted(t);
    PrefixSorted(Entries(t), i + 1);
    EntriesOfSorted(Entries(t)[..i+1]);
  }

  lemma ReaderScanStep(es: seq<Entry<Value>>, i: nat, n: nat, blockSize: nat)
    requires i < |es|
    ensures var before := ReaderScan(es[..i], n, blockSize);
            ReaderScan(es[..i+1], n, blockSize)
            == Offer(Builder(before.index, before.block + EntrySize(es[i])), es[i], i, n, Offset(es, i), blockSize)
  {
    PrefixEncoding(es, i);
  }

  /**
   * The reader is at entry i of the file of t: it has read the entries before and built
   * their part of the index.
   */
  ghost predicate ReadUpTo(t: Table, i: nat, es: seq<Entry<Value>>, pos: nat,
                           index: map<Key, nat>, block: nat, blockSize: nat) {
    && i <= |Entries(t)| && es == Entries(t)[..i] && pos == Offset(Entries(t), i)
    && Builder(index, block) == ReaderScan(Entries(t)[..i], |t|, blockSize)
  }

  lemma ReadNothing(t: Table, blockSize: nat)
    ensures ReadUpTo(t, 0, [], Offset(Entries(t), 0), map[], 0, blockSize)
  {
  }

  lemma ReadOneMore(file: seq<byte>, time: nat, t: Table, i: nat, es: seq<Entry<Value>>, pos: nat,
                    index: map<Key, nat>, block: nat, blockSize: nat)
    requires IsFileOf(file, time, t) && i < |t|
    requires ReadUpTo(t, i, es, pos, index, block, blockSize)
    ensures pos <= |file| && DecodeEntry(file[pos..]).Success?
    ensures var (e, rest) := DecodeEntry(file[pos..]).value;
            var es' := es + [e];
            var b := Offer(Builder(index, block + EntrySize(e)), e, i, |t|, pos, blockSize);
            && ReadUpTo(t, i + 1, es', |file| - |rest|, b.index, b.block, blockSize)
            && Entries(FromEntries(es')) == es'
  {
    hide EncodeFile, DecodeEntry, Offset, ReaderScan, Entries, FromEntries, EncodeEntries;
    EntryAtOffset(time, t, i);
    ReaderScanStep(Entries(t), i, |t|, blockSize);
    LastReadIsGreatest(t, i);
    assert Entries(t)[..i+1] == es + [Entries(t)[i]];
  }

  /** What the finished index must be. */
  ghost predicate ReaderIndexed(file: seq<byte>, blockSize: nat, index: map<Key, nat>, eofPos: nat) {
    forall time, t :: IsFileOf(file, time, t) ==>
      index == ReaderScan(Entries(t), |t|, blockSize).index && eofPos == |file|
  }

  lemma ReadAll(file: seq<byte>, time: nat, t: Table, es: seq<Entry<Value>>, pos: nat,
                index: map<Key, nat>, block: nat, blockSize: nat)
    requires IsFileOf(file, time, t)
    requires ReadUpTo(t, |t|, es, pos, index, block, blockSize)
    ensures ReaderIndexed(file, blockSize, index, pos)
  {
    FileFromOffset(time, t, |t|);
    assert Entries(t)[..|t|] == Entries(t);
    forall time', t' | IsFileOf(file, time', t') ensures t' == t {
      FileDeterminesTable(file, time', t', time, t);
    }
  }

  /**
   * Read size entries, and offer each to the index, if one is asked for, with the position
   * where it started and the bytes read since the last index entry. The ghost parameters
   * say whose file this is, if known.
   */
  method ReadEntries(ifs: InputStream, size: nat, blockSize: nat, ssTableIndex: SSTableIndex?,
                     ghost known: bool, ghost time: nat, ghost t: Table) returns (r: Result<Table>)
    requires ifs.Valid() && (ssTableIndex != null ==> ssTableIndex.index == map[])
    requires known ==> IsFileOf(ifs.data, time, t) && size == |t| && ifs.pos == Offset(Entries(t), 0)
    modifies ifs, ssTableIndex
    ensures match DecodeEntries(old(ifs.Rest()), size)
            case Success((es, rest)) => r == Success(FromEntries(es))
            case Failure(error) => r == Failure(error)
    ensures ssTableIndex != null && known && r.Success? ==>
              ReaderIndexed(ifs.data, blockSize, ssTableIndex.index, ifs.pos)
  {
    hide DecodeEntries, DecodeEntry, IsFileOf, Offset, ReaderScan, Entries, FromEntries, ReadUpTo, ReaderIndexed;
    ghost var body := ifs.Rest();
    ghost var es: seq<Entry<Value>> := [];
    DecodeNothing(body);
    ReadNothing(t, blockSize);
    var rtn: Table := FromEntries([]);
    var currBlockSize: nat := 0;
    var currPos := ifs.pos;
    var i: nat := 0;
    while i < size
      invariant i <= size && ifs.Valid() && currPos == ifs.pos
      invariant DecodeEntries(body, i) == Success((es, ifs.Rest())) && rtn == FromEntries(es)
      invariant ssTableIndex != null && known ==>
                  ReadUpTo(t, i, es, currPos, ssTableIndex.index, currBlockSize, blockSize)
    {
      if ssTableIndex != null && known {
        ReadOneMore(ifs.data, time, t, i, es, currPos, ssTableIndex.index, currBlockSize, blockSize);
      }
      DecodeOneMore(body, i);
      var e := ifs.ReadEntry();
      if e.Failure? {
        DecodeEntriesFails(body, i + 1, size);
        return Failure(e.error);
      }
      FromEntriesExtend(es, e.value);
      assert |ifs.Rest()| == |ifs.data| - ifs.pos;
      rtn := Emplace(rtn, e.value);
      es := es + [e.value];
      var isFirstOrLastEntry := i == 0 || i == size - 1;
      var prevPos := currPos;
      currPos := ifs.pos;
      currBlockSize := currBlockSize + (currPos - prevPos);
      if ssTableIndex != null && (isFirstOrLastEntry || currBlockSize >= blockSize) {
        NotEmpty(rtn, e.value.key);
        var last := Entries(rtn)[|rtn| - 1];
        ssTableIndex.AddIndex(last.key, prevPos);
        currBlockSize := 0;
      }
      i := i + 1;
    }
    if ssTableIndex != null && known {
      ReadAll(ifs.data, time, t, es, currPos, ssTableIndex.index, currBlockSize, blockSize);
    }
    r := Success(rtn);
  }

  /** Read a table file, and build its index on the way if one is asked for. */
  method LoadSSTable(file: seq<byte>, blockSize: nat, ssTableIndex: SSTableIndex?) returns (r: Result<Table>)
    requires ssTableIndex != null ==> ssTableIndex.index == map[]
    modifies ssTableIndex
    ensures match DecodeFile(file)
            case Success((t, _)) => r == Success(t)
            case Failure(error) => r == Failure(error)
    ensures ssTableIndex != null && r.Success? ==>
              ReaderIndexed(file, blockSize, ssTableIndex.index, ssTableIndex.eofPos)
  {
    hide DecodeEntries, IsFileOf, Offset, Entries, FromEntries, ReaderIndexed;
    ghost var known := exists time, t :: IsFileOf(file, time, t);
    ghost var time0: nat, t0: Table := 0, map[];
    if known {
      time0, t0 :| IsFileOf(file, time0, t0);
      FileHeader(file, time0, t0);
    }
    var ifs := new InputStream(file);
    var time := ifs.ReadNat(SIZE_WIDTH);
    if time.Failure? {
      return Failure(time.error);
    }
    var size := ifs.ReadNat(SIZE_WIDTH);
    if size.Failure? {
      return Failure(size.error);
    }
    assert known ==> ifs.pos == 16 by { assert |ifs.Rest()| == |file| - ifs.pos; }
    r := ReadEntries(ifs, size.value, blockSize, ssTableIndex, known, time0, t0);
    if ssTableIndex != null && r.Success? {
      ssTableIndex.SetEofPos(ifs.pos);
      if !known {
        NothingToIndex(file, blockSize, ssTableIndex.index, ssTableIndex.eofPos);
      }
    }
  }

  lemma NothingToIndex(file: seq<byte>, blockSize: nat, index: map<Key, nat>, eofPos: nat)
    requires !exists time, t :: IsFileOf(file, time, t)
    ensures ReaderIndexed(file, blockSize, index, eofPos)
  {
  }

  lemma NotEmpty(t: Table, k: Key)
    requires k in t
    ensures |t| >= 1
  {
    RemoveShrinks(t, k);
  }

  lemma DecodeNothing(s: seq<byte>)
    ensures DecodeEntries(s, 0) == Success(([], s))
  {
  }

  lemma DecodeOneMore(s: seq<byte>, i: nat)
    requires DecodeEntries(s, i).Success?
    ensures var (es, rest) := DecodeEntries(s, i).value;
            match DecodeEntry(rest)
            case Success((e, rest')) => DecodeEntries(s, i + 1) == Success((es + [e], rest'))
            case Failure(error) => DecodeEntries(s, i + 1) == Failure(error)
  {
  }
}
