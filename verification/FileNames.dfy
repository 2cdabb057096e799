/** File names with counters: printing them, reading counters back, and their extensions. */
module FileNames {
  import opened Errors
  import opened Recovery

  const PREFIX := "project_db"
  const INT_MAX: nat := 0x7fff_ffff

  function Extensions(kind: Kind): string {
    match kind
    case Sst => ".sst"
    case InProgress => ".sst.ip"
    case MergedSst => ".sst.merged"
    case Txl => ".txl"
    case DeprecatedSst => ".sst.deprecated"
    case DeprecatedTxl => ".txl.deprecated"
  }

  // ----- printing -----

  predicate IsDigit(c: char) {
    '0' <= c <= '9'
  }

  function DigitChar(d: nat): (c: char)
    requires d < 10
    ensures IsDigit(c) && c as int - '0' as int == d
  {
    ('0' as int + d) as char
  }

  /** std::to_string of an unsigned. */
  function Digits(n: nat): (s: string)
    ensures s != "" && forall i :: 0 <= i < |s| ==> IsDigit(s[i])
  {
    if n < 10 then [DigitChar(n)] else Digits(n / 10) + [DigitChar(n % 10)]
  }

  function FileName(name: Name): string {
    PREFIX + "_" + Digits(name.id) + Extensions(name.kind)
  }

  // ----- reading the counter back -----

  function Number(s: string): nat
    requires forall i :: 0 <= i < |s| ==> IsDigit(s[i])
  {
    if s == "" then 0
    else
      assert IsDigit(s[|s|-1]);
      10 * Number(s[..|s|-1]) + (s[|s|-1] as int - '0' as int)
  }

  /** The longest run of digits at the front. */
  function DigitRun(s: string): (d: string)
    ensures d <= s && forall i :: 0 <= i < |d| ==> IsDigit(d[i])
    ensures |d| < |s| ==> !IsDigit(s[|d|])
  {
    if s == "" || !IsDigit(s[0]) then "" else [s[0]] + DigitRun(s[1..])
  }

  /**
   * Search for the prefix, an underscore and at least one digit, leftmost first, and read
   * the digits as an int.
   */
  function CounterOf(name: string): Result<nat>
    decreases |name|
  {
    if PREFIX + "_" <= name && DigitRun(name[|PREFIX| + 1..]) != "" then
      var n := Number(DigitRun(name[|PREFIX| + 1..]));
      if n <= INT_MAX then Success(n) else Failure(CounterOutOfRange)
    else if name == "" then Failure(NoCounterInName)
    else CounterOf(name[1..])
  }

  lemma {:induction false} NumberOfDigits(n: nat)
    ensures Number(Digits(n)) == n
  {
    if n >= 10 {
      NumberOfDigits(n / 10);
      assert Digits(n)[..|Digits(n)|-1] == Digits(n / 10);
    } else {
      assert Digits(n)[..0] == "";
    }
  }

  lemma {:induction false} DigitRunStops(d: string, rest: string)
    requires forall i :: 0 <= i < |d| ==> IsDigit(d[i])
    requires rest == "" || !IsDigit(rest[0])
    ensures DigitRun(d + rest) == d
  {
    if d == "" {
      assert d + rest == rest;
    } else {
      assert (d + rest)[1..] == d[1..] + rest;
      DigitRunStops(d[1..], rest);
    }
  }

  lemma NameParts(name: Name)
    ensures PREFIX + "_" <= FileName(name)
    ensures DigitRun(FileName(name)[|PREFIX| + 1..]) == Digits(name.id)
    ensures FileName(name)[|PREFIX| + 1 + |Digits(name.id)|..] == Extensions(name.kind)
  {
    var s := FileName(name);
    assert s == (PREFIX + "_") + (Digits(name.id) + Extensions(name.kind));
    assert s[|PREFIX| + 1..] == Digits(name.id) + Extensions(name.kind);
    DigitRunStops(Digits(name.id), Extensions(name.kind));
  }

  /** A counter is printed in decimal, without zeros in front. */
  lemma {:induction false} DigitsAreShortest(n: nat)
    ensures |Digits(n)| > 1 ==> Digits(n)[0] != '0'
  {
    if n >= 10 {
      DigitsAreShortest(n / 10);
      if n / 10 < 10 {
        assert Digits(n / 10) == [DigitChar(n / 10)];
      }
    }
  }

  /** The six names of counter 12. */
  lemma NamesSpelledOut()
    ensures FileName(Name(12, Sst)) == "project_db_12.sst"
    ensures FileName(Name(12, InProgress)) == "project_db_12.sst.ip"
    ensures FileName(Name(12, MergedSst)) == "project_db_12.sst.merged"
    ensures FileName(Name(12, Txl)) == "project_db_12.txl"
    ensures FileName(Name(12, DeprecatedSst)) == "project_db_12.sst.deprecated"
    ensures FileName(Name(12, DeprecatedTxl)) == "project_db_12.txl.deprecated"
  {
    assert Digits(12) == "12" by {
      assert Digits(1) == "1";
    }
  }

  /** The counter is read back from every name it was printed into exactly when it fits an int. */
  lemma CounterReadsBack(name: Name)
    ensures CounterOf(FileName(name)) == Success(name.id) <==> name.id <= INT_MAX
  {
    NameParts(name);
    NumberOfDigits(name.id);
  }

  /** Different files have different names. */
  lemma NamesDiffer(a: Name, b: Name)
    requires FileName(a) == FileName(b)
    ensures a == b
  {
    NameParts(a);
    NameParts(b);
    NumberOfDigits(a.id);
    NumberOfDigits(b.id);
    assert Extensions(a.kind) == Extensions(b.kind);
    assert |Extensions(a.kind)| == |Extensions(b.kind)|;
    assert Extensions(a.kind)[1] == Extensions(b.kind)[1];
  }

  // ----- extensions -----

  predicate HasDot(s: string) {
    exists i :: 0 <= i < |s| && s[i] == '.'
  }

  /** The part of a file name from its last dot on. */
  function Extension(s: string): string {
    if s == "" then ""
    else if s[|s|-1] == '.' then "."
    else if HasDot(s) then Extension(s[..|s|-1]) + [s[|s|-1]]
    else ""
  }

  /** The name without its last extension. */
  function RemoveExtension(s: string): string
  {
    ExtensionIsSuffix(s);
    s[..|s| - |Extension(s)|]
  }

  lemma {:induction false} ExtensionIsSuffix(s: string)
    ensures |Extension(s)| <= |s|
  {
    if s != "" {
      ExtensionIsSuffix(s[..|s|-1]);
    }
  }

  lemma {:induction false} ExtensionAfterDot(base: string, ext: string)
    requires !HasDot(ext)
    ensures Extension(base + "." + ext) == "." + ext
    ensures RemoveExtension(base + "." + ext) == base
  {
    var s := base + "." + ext;
    if ext == "" {
      assert s[|s|-1] == '.';
    } else {
      var init := ext[..|ext|-1];
      assert s[|base|] == '.';
      assert s[|s|-1] == ext[|ext|-1];
      assert s[..|s|-1] == base + "." + init;
      ExtensionAfterDot(base, init);
    }
  }

  /** A finished flush and a finished merge get their final name by losing their last extension. */
  lemma TemporaryNamesBecomeFinal(id: nat)
    ensures RemoveExtension(FileName(Name(id, InProgress))) == FileName(Name(id, Sst))
    ensures RemoveExtension(FileName(Name(id, MergedSst))) == FileName(Name(id, Sst))
  {
    var base := FileName(Name(id, Sst));
    assert FileName(Name(id, InProgress)) == base + "." + "ip";
    assert FileName(Name(id, MergedSst)) == base + "." + "merged";
    ExtensionAfterDot(base, "ip");
    ExtensionAfterDot(base, "merged");
  }

  /** Opening sorts files by their last extension alone. */
  function LastExtension(kind: Kind): string {
    match kind
    case Sst => ".sst"
    case InProgress => ".ip"
    case MergedSst => ".merged"
    case Txl => ".txl"
    case DeprecatedSst => ".deprecated"
    case DeprecatedTxl => ".deprecated"
  }

  lemma KindShowsInName(name: Name)
    ensures Extension(FileName(name)) == LastExtension(name.kind)
  {
    var stem := PREFIX + "_" + Digits(name.id);
    match name.kind
    case Sst =>
      assert FileName(name) == stem + "." + "sst";
      ExtensionAfterDot(stem, "sst");
    case Txl =>
      assert FileName(name) == stem + "." + "txl";
      ExtensionAfterDot(stem, "txl");
    case InProgress =>
      assert FileName(name) == (stem + ".sst") + "." + "ip";
      ExtensionAfterDot(stem + ".sst", "ip");
    case MergedSst =>
      assert FileName(name) == (stem + ".sst") + "." + "merged";
      ExtensionAfterDot(stem + ".sst", "merged");
    case DeprecatedSst =>
      assert FileName(name) == (stem + ".sst") + "." + "deprecated";
      ExtensionAfterDot(stem + ".sst", "deprecated");
    case DeprecatedTxl =>
      assert FileName(name) == (stem + ".txl") + "." + "deprecated";
      ExtensionAfterDot(stem + ".txl", "deprecated");
  }
}
