/**
 * The transaction log: the bytes the writer appends for a call, the bytes the loader
 * expects, and the loader's replay. The two formats agree on removals and differ on sets.
 */
module TransactionLog {
  import opened Bytes
  import opened Tables
  import opened Errors
  import opened Serializer

  const SET_TRANSACTION: nat := 1
  const REMOVE_TRANSACTION: nat := 2

  // ----- the two formats -----

  /** What the writer appends: the type, the key, and for a set the bare text. */
  function WriterRecord(op: Op): seq<byte> {
    match op
    case Set(key, text) => ToBytes(SET_TRANSACTION, TAG_WIDTH) + EncodeText(key) + EncodeText(text)
    case Remove(key) => ToBytes(REMOVE_TRANSACTION, TAG_WIDTH) + EncodeText(key)
  }

  function WriterLog(ops: seq<Op>): seq<byte> {
    if ops == [] then [] else WriterRecord(ops[0]) + WriterLog(ops[1..])
  }

  lemma {:induction false} WriterLogAppend(a: seq<Op>, b: seq<Op>)
    ensures WriterLog(a + b) == WriterLog(a) + WriterLog(b)
  {
    hide WriterRecord;
    if a == [] {
      assert a + b == b;
    } else {
      assert (a + b)[1..] == a[1..] + b;
      WriterLogAppend(a[1..], b);
    }
  }

  /** What the loader expects: for a set, a value with its type tag. */
  function LoaderRecord(op: Op): seq<byte> {
    match op
    case Set(key, text) => ToBytes(SET_TRANSACTION, TAG_WIDTH) + EncodeText(key) + EncodeValue(Live(text))
    case Remove(key) => ToBytes(REMOVE_TRANSACTION, TAG_WIDTH) + EncodeText(key)
  }

  function LoaderLog(ops: seq<Op>): seq<byte> {
    if ops == [] then [] else LoaderRecord(ops[0]) + LoaderLog(ops[1..])
  }

  // ----- the loader -----

  /** The assignment that the next record makes, and the unread rest. */
  function NextRecord(s: seq<byte>): Result<(Entry<Value>, seq<byte>)> {
    var (kind, rest) :- DecodeNat(s, TAG_WIDTH);
    if kind == SET_TRANSACTION then DecodeEntry(rest)
    else if kind == REMOVE_TRANSACTION then
      var (key, rest') :- DecodeText(rest);
      Success((Entry(key, TOMBSTONE), rest'))
    else Failure(UnknownTransaction)
  }

  lemma RecordConsumes(s: seq<byte>)
    ensures NextRecord(s).Success? ==>
              |NextRecord(s).value.1| < |s| && |NextRecord(s).value.0.val.text| <= |s|
  {
    if NextRecord(s).Success? {
      var rest := DecodeNat(s, TAG_WIDTH).value.1;
      EntryConsumes(rest);
    }
  }

  /** Replay records onto t until the file ends, be it inside a record. */
  function LoadOnto(s: seq<byte>, t: Table): Result<Table>
    decreases |s|
  {
    RecordConsumes(s);
    match NextRecord(s)
    case Success((e, rest)) => LoadOnto(rest, t[e.key := e.val])
    case Failure(EndOfFile) => Success(t)
    case Failure(error) => Failure(error)
  }

  function Load(s: seq<byte>): Result<Table> {
    LoadOnto(s, map[])
  }

  // ----- torn logs -----

  predicate OpFits(op: Op) {
    IsSize(|op.key|) && (op.Set? ==> IsSize(|op.text|))
  }

  function ReplayOnto(t: Table, ops: seq<Op>): Table
    decreases |ops|
  {
    if ops == [] then t else ReplayOnto(Apply(t, ops[0]), ops[1..])
  }

  lemma {:induction false} ReplayOntoAppend(t: Table, ops: seq<Op>, op: Op)
    ensures ReplayOnto(t, ops + [op]) == Apply(ReplayOnto(t, ops), op)
    decreases |ops|
  {
    if ops == [] {
      assert [] + [op] == [op];
      assert [op][1..] == [];
    } else {
      assert (ops + [op])[1..] == ops[1..] + [op];
      ReplayOntoAppend(Apply(t, ops[0]), ops[1..], op);
    }
  }

  lemma {:induction false} ReplayFromFront(ops: seq<Op>)
    ensures ReplayOnto(map[], ops) == Replay(ops)
  {
    if ops != [] {
      ReplayFromFront(ops[..|ops|-1]);
      ReplayOntoAppend(map[], ops[..|ops|-1], ops[|ops|-1]);
      assert ops == ops[..|ops|-1] + [ops[|ops|-1]];
    }
  }

  /** How many whole records lie in the first n bytes. */
  function Complete(ops: seq<Op>, n: nat): (c: nat)
    ensures c <= |ops|
  {
    if ops == [] || |LoaderRecord(ops[0])| > n then 0
    else 1 + Complete(ops[1..], n - |LoaderRecord(ops[0])|)
  }

  lemma {:induction false} CompleteIsGreatest(ops: seq<Op>, n: nat)
    ensures |LoaderLog(ops[..Complete(ops, n)])| <= n
    ensures Complete(ops, n) < |ops| ==> |LoaderLog(ops[..Complete(ops, n) + 1])| > n
  {
    if ops != [] {
      if |LoaderRecord(ops[0])| > n {
        assert ops[..1][1..] == [];
      } else {
        var c := Complete(ops[1..], n - |LoaderRecord(ops[0])|);
        CompleteIsGreatest(ops[1..], n - |LoaderRecord(ops[0])|);
        assert ops[..c+1][1..] == ops[1..][..c];
        if c < |ops[1..]| {
          assert ops[..c+2][1..] == ops[1..][..c+1];
        }
      }
    }
  }

  /** Reading a string off a stream that is cut at n bytes. */
  lemma TornText(t: Text, more: seq<byte>, n: nat)
    requires IsSize(|t|) && n <= |EncodeText(t) + more|
    ensures DecodeText((EncodeText(t) + more)[..n]) ==
            if n < SIZE_WIDTH + |t| then Failure(EndOfFile) else Success((t, more[..n - SIZE_WIDTH - |t|]))
  {
    var s := (EncodeText(t) + more)[..n];
    if n >= SIZE_WIDTH {
      Pow256Of8();
      assert s[..SIZE_WIDTH] == ToBytes(|t|, SIZE_WIDTH);
      FromToBytes(|t|, SIZE_WIDTH);
      if n >= SIZE_WIDTH + |t| {
        assert s == EncodeText(t) + more[..n - SIZE_WIDTH - |t|];
        TextRoundTrip(t, more[..n - SIZE_WIDTH - |t|]);
      }
    }
  }

  lemma TornKind(kind: nat, more: seq<byte>, n: nat)
    requires kind < 0x1_0000_0000 && n <= |ToBytes(kind, TAG_WIDTH) + more|
    ensures DecodeNat((ToBytes(kind, TAG_WIDTH) + more)[..n], TAG_WIDTH) ==
            if n < TAG_WIDTH then Failure(EndOfFile) else Success((kind, more[..n - TAG_WIDTH]))
  {
    if n >= TAG_WIDTH {
      Pow256Of8();
      assert (ToBytes(kind, TAG_WIDTH) + more)[..n] == ToBytes(kind, TAG_WIDTH) + more[..n - TAG_WIDTH];
      NatRoundTrip(kind, TAG_WIDTH, more[..n - TAG_WIDTH]);
    }
  }

  lemma TornValue(v: Value, more: seq<byte>, n: nat)
    requires IsSize(|v.text|) && n <= |EncodeValue(v) + more|
    ensures DecodeValue((EncodeValue(v) + more)[..n]) ==
            if n < |EncodeValue(v)| then Failure(EndOfFile) else Success((v, more[..n - |EncodeValue(v)|]))
  {
    assert EncodeValue(v) + more == ToBytes(v.tag, TAG_WIDTH) + (EncodeText(v.text) + more);
    TornKind(v.tag, EncodeText(v.text) + more, n);
    if n >= TAG_WIDTH {
      TornText(v.text, more, n - TAG_WIDTH);
    }
  }

  lemma TornEntry(e: Entry<Value>, more: seq<byte>, n: nat)
    requires EntryFits(e) && n <= |EncodeEntry(e) + more|
    ensures DecodeEntry((EncodeEntry(e) + more)[..n]) ==
            if n < |EncodeEntry(e)| then Failure(EndOfFile) else Success((e, more[..n - |EncodeEntry(e)|]))
  {
    assert EncodeEntry(e) + more == EncodeText(e.key) + (EncodeValue(e.val) + more);
    TornText(e.key, EncodeValue(e.val) + more, n);
    if n >= SIZE_WIDTH + |e.key| {
      TornValue(e.val, more, n - SIZE_WIDTH - |e.key|);
    }
  }

  /** A cut inside a record reads as the end of the file, a whole record as its operation. */
  lemma TornRecord(op: Op, more: seq<byte>, n: nat)
    requires OpFits(op) && n <= |LoaderRecord(op) + more|
    ensures NextRecord((LoaderRecord(op) + more)[..n]) ==
            if n < |LoaderRecord(op)| then Failure(EndOfFile)
            else Success((Entry(op.key, op.Stored()), more[..n - |LoaderRecord(op)|]))
  {
    hide EncodeText, EncodeValue, DecodeText, DecodeValue, ToBytes, DecodeNat, DecodeEntry, EncodeEntry;
    match op
    case Set(key, text) =>
      var e := Entry(key, Live(text));
      SetRecordShape(key, text, more);
      TornKind(SET_TRANSACTION, EncodeEntry(e) + more, n);
      if n >= TAG_WIDTH {
        TornEntry(e, more, n - TAG_WIDTH);
      }
    case Remove(key) =>
      RemoveRecordShape(key, more);
      TornKind(REMOVE_TRANSACTION, EncodeText(key) + more, n);
      if n >= TAG_WIDTH {
        TornText(key, more, n - TAG_WIDTH);
      }
  }

  lemma SetRecordShape(key: Key, text: Text, more: seq<byte>)
    ensures var e := Entry(key, Live(text));
            LoaderRecord(Set(key, text)) + more == ToBytes(SET_TRANSACTION, TAG_WIDTH) + (EncodeEntry(e) + more)
            && |LoaderRecord(Set(key, text))| == TAG_WIDTH + |EncodeEntry(e)|
  {
    hide ToBytes, EncodeText, EncodeValue;
    Reassociate(ToBytes(SET_TRANSACTION, TAG_WIDTH), EncodeText(key), EncodeValue(Live(text)), more);
  }

  lemma Reassociate(a: seq<byte>, b: seq<byte>, c: seq<byte>, d: seq<byte>)
    ensures (a + b + c) + d == a + ((b + c) + d)
  {
  }

  lemma RemoveRecordShape(key: Key, more: seq<byte>)
    ensures LoaderRecord(Remove(key)) + more == ToBytes(REMOVE_TRANSACTION, TAG_WIDTH) + (EncodeText(key) + more)
    ensures |LoaderRecord(Remove(key))| == TAG_WIDTH + SIZE_WIDTH + |key|
  {
    hide ToBytes;
  }

  lemma {:induction false} TornLogOnto(ops: seq<Op>, n: nat, t: Table)
    requires n <= |LoaderLog(ops)| && forall i :: 0 <= i < |ops| ==> OpFits(ops[i])
    ensures LoadOnto(LoaderLog(ops)[..n], t) == Success(ReplayOnto(t, ops[..Complete(ops, n)]))
    decreases |ops|
  {
    hide LoaderRecord, NextRecord;
    CompleteIsGreatest(ops, n);
    if ops == [] {
      assert LoaderLog(ops)[..n] == [];
      NothingToLoad();
    } else {
      TornRecord(ops[0], LoaderLog(ops[1..]), n);
      var rest := n - |LoaderRecord(ops[0])|;
      if rest >= 0 {
        TornLogOnto(ops[1..], rest, Apply(t, ops[0]));
        var c := Complete(ops, n);
        assert ops[..c][1..] == ops[1..][..c-1];
      }
    }
  }

  lemma NothingToLoad()
    ensures NextRecord([]) == Failure(EndOfFile)
  {
  }

  /** Loading a torn log applies exactly the operations whose records are complete. */
  lemma TornLog(ops: seq<Op>, n: nat)
    requires n <= |LoaderLog(ops)| && forall i :: 0 <= i < |ops| ==> OpFits(ops[i])
    ensures Load(LoaderLog(ops)[..n]) == Success(Replay(ops[..Complete(ops, n)]))
  {
    CompleteIsGreatest(ops, n);
    TornLogOnto(ops, n, map[]);
    ReplayFromFront(ops[..Complete(ops, n)]);
  }

  // ----- what the loader makes of the writer's records -----

  /** The loader reads a record back as it was written exactly when the record is a removal. */
  lemma ReadsBackExactlyRemovals(op: Op, rest: seq<byte>)
    requires OpFits(op)
    ensures NextRecord(WriterRecord(op) + rest) == Success((Entry(op.key, op.Stored()), rest)) <==> op.Remove?
  {
    match op
    case Remove(key) =>
      TornRecord(op, rest, |LoaderRecord(op) + rest|);
      assert rest[..|rest|] == rest;
      assert (LoaderRecord(op) + rest)[..|LoaderRecord(op) + rest|] == WriterRecord(op) + rest;
    case Set(key, text) =>
      SetRecordReads(op, rest);
      if DecodeValue(EncodeText(text) + rest).Success? {
        ValueConsumes(EncodeText(text) + rest);
      }
  }

  /** The loader finds the key of a set, and then takes the length of the text for a tag. */
  lemma SetRecordReads(op: Op, rest: seq<byte>)
    requires OpFits(op) && op.Set?
    ensures NextRecord(WriterRecord(op) + rest) ==
            match DecodeValue(EncodeText(op.text) + rest)
            case Success((v, rest')) => Success((Entry(op.key, v), rest'))
            case Failure(error) => Failure(error)
  {
    var tail := EncodeText(op.text) + rest;
    assert WriterRecord(op) + rest == ToBytes(SET_TRANSACTION, TAG_WIDTH) + (EncodeText(op.key) + tail);
    Pow256Of8();
    NatRoundTrip(SET_TRANSACTION, TAG_WIDTH, EncodeText(op.key) + tail);
    TextRoundTrip(op.key, tail);
  }

  /** Values read from s are not longer than s. */
  lemma {:induction false} LoadedTextsFit(s: seq<byte>, t: Table, bound: nat)
    requires |s| < bound && forall k :: k in t ==> |t[k].text| < bound
    ensures LoadOnto(s, t).Success? ==> forall k :: k in LoadOnto(s, t).value ==> |LoadOnto(s, t).value[k].text| < bound
    decreases |s|
  {
    hide NextRecord;
    RecordConsumes(s);
    if NextRecord(s).Success? {
      var (e, rest) := NextRecord(s).value;
      LoadedTextsFit(rest, t[e.key := e.val], bound);
    }
  }

  lemma SetDoesNotLoad(op: Op)
    requires OpFits(op) && op.Set?
    ensures Load(WriterRecord(op)) != Success(Apply(map[], op))
  {
    hide NextRecord, DecodeValue, WriterRecord;
    assert WriterRecord(op) + [] == WriterRecord(op);
    SetRecordReads(op, []);
    assert EncodeText(op.text) + [] == EncodeText(op.text);
    var decoded := DecodeValue(EncodeText(op.text));
    assert op.key in Apply(map[], op);
    if decoded.Success? {
      ValueConsumes(EncodeText(op.text));
      var (v, rest) := decoded.value;
      LoadedTextsFit(rest, map[op.key := v], |op.text|);
      assert Load(WriterRecord(op)) == LoadOnto(rest, map[][op.key := v]);
    }
  }

  /** A log of a single call loads to that call's memtable exactly when the call is a removal. */
  lemma SingleCallLog(op: Op)
    requires OpFits(op)
    ensures Load(WriterLog([op])) == Success(Replay([op])) <==> op.Remove?
  {
    hide NextRecord, WriterRecord;
    assert [op][1..] == [] && [op][..0] == [];
    assert WriterLog([op]) == WriterRecord(op) + [] == WriterRecord(op);
    assert Replay([op]) == Apply(map[], op);
    if op.Set? {
      SetDoesNotLoad(op);
    } else {
      ReadsBackExactlyRemovals(op, []);
      NothingToLoad();
      assert Load(WriterRecord(op)) == LoadOnto([], Apply(map[], op));
    }
  }

  /** A log of removals only loads as written. */
  lemma {:induction false} RemovalsLoad(ops: seq<Op>, t: Table, rest: seq<byte>)
    requires forall i :: 0 <= i < |ops| ==> OpFits(ops[i]) && ops[i].Remove?
    ensures LoadOnto(WriterLog(ops) + rest, t) == LoadOnto(rest, ReplayOnto(t, ops))
    decreases |ops|
  {
    hide NextRecord, WriterRecord;
    if ops == [] {
      assert WriterLog(ops) + rest == rest;
    } else {
      ReadsBackExactlyRemovals(ops[0], WriterLog(ops[1..]) + rest);
      assert WriterLog(ops) + rest == WriterRecord(ops[0]) + (WriterLog(ops[1..]) + rest);
      RemovalsLoad(ops[1..], Apply(t, ops[0]), rest);
    }
  }

  lemma RemovalLogLoads(ops: seq<Op>)
    requires forall i :: 0 <= i < |ops| ==> OpFits(ops[i]) && ops[i].Remove?
    ensures Load(WriterLog(ops)) == Success(Replay(ops))
  {
    RemovalsLoad(ops, map[], []);
    assert WriterLog(ops) + [] == WriterLog(ops);
    NothingToLoad();
    ReplayFromFront(ops);
  }

  lemma {:induction false} FromBytesAppend(a: seq<byte>, b: seq<byte>)
    ensures FromBytes(a + b) == FromBytes(a) + Pow256(|a|) * FromBytes(b)
  {
    if a == [] {
      assert a + b == b;
    } else {
      assert (a + b)[1..] == a[1..] + b;
      FromBytesAppend(a[1..], b);
      calc {
        256 * (FromBytes(a[1..]) + Pow256(|a|-1) * FromBytes(b));
        256 * FromBytes(a[1..]) + 256 * (Pow256(|a|-1) * FromBytes(b));
        { MulAssociates(256, Pow256(|a|-1), FromBytes(b)); }
        256 * FromBytes(a[1..]) + Pow256(|a|) * FromBytes(b);
      }
    }
  }

  lemma MulAssociates(a: nat, b: nat, c: nat)
    ensures a * (b * c) == (a * b) * c
  {
  }

  lemma {:induction false} FromBytesPositive(s: seq<byte>, i: nat)
    requires i < |s| && s[i] > 0
    ensures FromBytes(s) > 0
  {
    if i > 0 {
      FromBytesPositive(s[1..], i - 1);
    }
  }

  /** The four bytes behind the length, if there are as many, are not all zero. */
  predicate StartsNonzero(s: seq<byte>) {
    |s| < 4 || FromBytes(s[..4]) > 0
  }

  /**
   * The usual fate of a set, in a log below 4 GB: the lower half of its length is taken for a
   * tag, and the upper half with the four bytes behind it for a length. If those are not all
   * zero the file seems to end; the set and everything behind it are not replayed, wherever a
   * kill has cut the file off.
   */
  lemma FirstSetEndsReplay(removals: seq<Op>, op: Op, rest: seq<byte>, n: nat)
    requires forall i :: 0 <= i < |removals| ==> OpFits(removals[i]) && removals[i].Remove?
    requires OpFits(op) && op.Set? && StartsNonzero(op.text + rest)
    requires |op.text| + |rest| < 0x1_0000_0000 && n <= |WriterRecord(op) + rest|
    ensures Load(WriterLog(removals) + (WriterRecord(op) + rest)[..n]) == Success(Replay(removals))
  {
    hide NextRecord, WriterRecord, Replay, StartsNonzero;
    RemovalsLoad(removals, map[], (WriterRecord(op) + rest)[..n]);
    ReplayFromFront(removals);
    SetRecordEnds(op, rest, n);
  }

  lemma SetRecordEnds(op: Op, rest: seq<byte>, n: nat)
    requires OpFits(op) && op.Set? && StartsNonzero(op.text + rest)
    requires |op.text| + |rest| < 0x1_0000_0000 && n <= |WriterRecord(op) + rest|
    ensures NextRecord((WriterRecord(op) + rest)[..n]) == Failure(EndOfFile)
  {
    hide EncodeText, DecodeText, DecodeValue, ToBytes, DecodeNat, StartsNonzero;
    var tail := EncodeText(op.text) + rest;
    var s := (WriterRecord(op) + rest)[..n];
    SetRecordSplits(op, rest);
    TornKind(SET_TRANSACTION, EncodeText(op.key) + tail, n);
    if n >= TAG_WIDTH {
      TornText(op.key, tail, n - TAG_WIDTH);
      var m := n - TAG_WIDTH - SIZE_WIDTH - |op.key|;
      if m >= 0 {
        LengthTakenForTag(op.text, rest, m);
      }
    }
  }

  lemma SetRecordSplits(op: Op, rest: seq<byte>)
    requires op.Set?
    ensures WriterRecord(op) + rest ==
            ToBytes(SET_TRANSACTION, TAG_WIDTH) + (EncodeText(op.key) + (EncodeText(op.text) + rest))
    ensures |EncodeText(op.key)| == SIZE_WIDTH + |op.key|
  {
    hide ToBytes;
  }

  lemma LengthTakenForTag(text: Text, rest: seq<byte>, m: nat)
    requires StartsNonzero(text + rest) && |text| + |rest| < 0x1_0000_0000 && m <= |EncodeText(text) + rest|
    ensures DecodeValue((EncodeText(text) + rest)[..m]) == Failure(EndOfFile)
  {
    hide ToBytes, FromBytes;
    var tail := text + rest;
    var s := (EncodeText(text) + rest)[..m];
    assert EncodeText(text) + rest == ToBytes(|text|, SIZE_WIDTH) + tail;
    if m >= 4 {
      TagFits(s, TAG_WIDTH);
      var after := s[4..];
      if m >= 12 {
        var size := ToBytes(|text|, SIZE_WIDTH)[4..] + tail[..4];
        FromBytesAppend(ToBytes(|text|, SIZE_WIDTH)[4..], tail[..4]);
        Pow256Of8();
        assert after[..8] == size;
        assert FromBytes(size) >= 0x1_0000_0000;
      }
      assert DecodeText(after) == Failure(EndOfFile);
    }
  }

  /**
   * The other fate: four zeros complete a length of zero. The key is bound to an empty value
   * with the text's length for a tag, and the loader goes on inside the text.
   */
  lemma ZeroSetReadsOn(removals: seq<Op>, op: Op, rest: seq<byte>)
    requires forall i :: 0 <= i < |removals| ==> OpFits(removals[i]) && removals[i].Remove?
    requires OpFits(op) && op.Set? && 4 <= |op.text| < 0x1_0000_0000 && op.text[..4] == [0, 0, 0, 0]
    ensures Load(WriterLog(removals) + WriterRecord(op) + rest) ==
            LoadOnto(op.text[4..] + rest, Replay(removals)[op.key := Value(|op.text|, [])])
  {
    hide NextRecord, WriterRecord, Replay, DecodeValue;
    RemovalsLoad(removals, map[], WriterRecord(op) + rest);
    assert WriterLog(removals) + WriterRecord(op) + rest == WriterLog(removals) + (WriterRecord(op) + rest);
    ReplayFromFront(removals);
    SetRecordReads(op, rest);
    ZerosTakenForLength(op.text, rest);
  }

  lemma ZerosTakenForLength(text: Text, rest: seq<byte>)
    requires 4 <= |text| < 0x1_0000_0000 && text[..4] == [0, 0, 0, 0]
    ensures DecodeValue(EncodeText(text) + rest) == Success((Value(|text|, []), text[4..] + rest))
  {
    hide ToBytes, FromBytes;
    var s := EncodeText(text) + rest;
    var low, high := ToBytes(|text|, SIZE_WIDTH)[..4], ToBytes(|text|, SIZE_WIDTH)[4..];
    LengthHalves(|text|);
    Pow256Of8();
    FromToBytes(|text|, SIZE_WIDTH);
    FromBytesAppend(low, high);
    assert low + high == ToBytes(|text|, SIZE_WIDTH);
    FromBytesAppend(high, text[..4]);
    ZeroBytes();
    assert s[..4] == low && s[4..][..8] == high + text[..4];
    assert s[4..][8..] == text[4..] + rest;
    TagFits(s, TAG_WIDTH);
  }

  /** The upper half of a length below 4 GB is zero. */
  lemma LengthHalves(n: nat)
    requires n < 0x1_0000_0000
    ensures ToBytes(n, 8)[4..] == [0, 0, 0, 0]
  {
    var a := n / 256;
    var b := a / 256;
    var c := b / 256;
    assert c / 256 == 0;
    assert ToBytes(n, 8) == [n % 256] + ToBytes(a, 7);
    assert ToBytes(a, 7) == [a % 256] + ToBytes(b, 6);
    assert ToBytes(b, 6) == [b % 256] + ToBytes(c, 5);
    assert ToBytes(c, 5) == [c % 256] + ToBytes(0, 4);
    assert ToBytes(0, 4) == [0, 0, 0, 0] by {
      assert ToBytes(0, 2) == [0, 0] by { assert ToBytes(0, 1) == [0]; }
      assert ToBytes(0, 3) == [0, 0, 0];
    }
  }

  lemma ZeroBytes()
    ensures FromBytes([0, 0, 0, 0]) == 0
  {
    assert [0, 0, 0, 0][1..] == [0, 0, 0] && [0, 0, 0][1..] == [0, 0] && [0, 0][1..] == [0] && [0][1..] == [];
    assert FromBytes([0]) == 0;
    assert FromBytes([0, 0]) == 0;
    assert FromBytes([0, 0, 0]) == 0;
  }
}
