/** Metric log lines: printing a metric item and parsing it back. */
module MetricLine {
  import opened Options

  const SEPARATOR := '|'

  type U64 = n: nat | n < 0x1_0000_0000_0000_0000
  type U32 = n: nat | n < 0x1_0000_0000
  type I32 = n: int | -0x8000_0000 <= n < 0x8000_0000

  datatype MetricItem = MetricItem(resource: string, classification: I32, timestamp: U64, passQps: U64, blockQps: U64,
                                   completeQps: U64, errorQps: U64, avgRt: U64, occupiedPassQps: U64, concurrency: U32)

  // ---------------------------------------------------------------- numbers

  function DigitChar(d: nat): char
    requires d < 10
  {
    '0' + d as char
  }

  predicate IsDigit(c: char) {
    '0' <= c <= '9'
  }

  function PrintNat(n: nat): string {
    if n < 10 then [DigitChar(n)] else PrintNat(n / 10) + [DigitChar(n % 10)]
  }

  function PrintInt(n: int): string {
    if n < 0 then "-" + PrintNat(-n) else PrintNat(n)
  }

  predicate AllDigits(s: string) {
    forall i :: 0 <= i < |s| ==> IsDigit(s[i])
  }

  function Value(s: string): nat
    requires AllDigits(s)
  {
    if |s| == 0 then 0 else 10 * Value(s[..|s| - 1]) + (s[|s| - 1] as int - '0' as int)
  }

  /** Decimal digits only, at least one, and a value below the limit. */
  function ParseUint(s: string, limit: nat): Option<nat> {
    if |s| == 0 || !AllDigits(s) then None
    else if Value(s) >= limit then None
    else Some(Value(s))
  }

  /** An optional sign, then digits, within 32 bits. */
  function ParseInt32(s: string): Option<I32> {
    if |s| == 0 then None
    else
      var negative := s[0] == '-';
      var digits := if s[0] == '-' || s[0] == '+' then s[1..] else s;
      var magnitude: int :- ParseUint(digits, 0x1_0000_0000_0000_0000);
      if !negative && magnitude >= 0x8000_0000 then None
      else if negative && magnitude > 0x8000_0000 then None
      else Some(if negative then -magnitude else magnitude)
  }

  lemma {:induction false} PrintedNat(n: nat)
    ensures |PrintNat(n)| > 0 && AllDigits(PrintNat(n)) && Value(PrintNat(n)) == n
  {
    if n >= 10 {
      PrintedNat(n / 10);
      var s := PrintNat(n / 10);
      assert (s + [DigitChar(n % 10)])[..|s|] == s;
    } else {
      assert [DigitChar(n)][..0] == [];
    }
  }

  lemma {:induction false} UintRoundTrip(n: nat, limit: nat)
    requires n < limit
    ensures ParseUint(PrintNat(n), limit) == Some(n)
  {
    PrintedNat(n);
  }

  lemma {:induction false} Int32RoundTrip(n: I32)
    ensures ParseInt32(PrintInt(n)) == Some(n)
  {
    var k: int := n;
    var magnitude := if k < 0 then -k else k;
    UintRoundTrip(magnitude, 0x1_0000_0000_0000_0000);
    PrintedNat(magnitude);
    if k < 0 {
      assert PrintInt(k)[1..] == PrintNat(magnitude);
    } else {
      assert IsDigit(PrintNat(magnitude)[0]);
    }
  }

  lemma {:induction false} NumbersHaveNoSeparator(n: int)
    ensures SEPARATOR !in PrintInt(n)
    ensures n >= 0 ==> SEPARATOR !in PrintNat(n)
  {
    PrintedNat(if n < 0 then -n else n);
  }

  // ---------------------------------------------------------------- fields

  function Join(fields: seq<string>): string {
    if |fields| == 0 then ""
    else if |fields| == 1 then fields[0]
    else fields[0] + [SEPARATOR] + Join(fields[1..])
  }

  /** Fields are set apart by vertical bars. */
  lemma {:induction false} SetApartByBars(first: string, rest: seq<string>)
    requires |rest| > 0
    ensures Join([first] + rest) == first + "|" + Join(rest)
  {
    assert ([first] + rest)[1..] == rest;
  }

  /** The parts between separators; never empty. */
  function Split(s: string): (parts: seq<string>)
    ensures |parts| > 0
  {
    if |s| == 0 then [""]
    else if s[0] == SEPARATOR then [""] + Split(s[1..])
    else
      var rest := Split(s[1..]);
      [[s[0]] + rest[0]] + rest[1..]
  }

  function Replace(s: string, c: char, d: char): string {
    seq(|s|, i requires 0 <= i < |s| => if s[i] == c then d else s[i])
  }

  lemma {:induction false} SplitOne(f: string)
    requires SEPARATOR !in f
    ensures Split(f) == [f]
  {
    if |f| > 0 {
      SplitOne(f[1..]);
      assert [f[0]] + f[1..] == f;
    }
  }

  lemma {:induction false} SplitFirst(f: string, rest: string)
    requires SEPARATOR !in f
    ensures Split(f + [SEPARATOR] + rest) == [f] + Split(rest)
  {
    var s := f + [SEPARATOR] + rest;
    if |f| == 0 {
      assert s[1..] == rest;
    } else {
      SplitFirst(f[1..], rest);
      assert s[1..] == f[1..] + [SEPARATOR] + rest;
      assert [f[0]] + f[1..] == f;
    }
  }

  /** Splitting undoes joining when no field contains the separator. */
  lemma {:induction false} SplitJoin(fields: seq<string>)
    requires |fields| > 0 && forall i :: 0 <= i < |fields| ==> SEPARATOR !in fields[i]
    ensures Split(Join(fields)) == fields
    decreases |fields|
  {
    if |fields| == 1 {
      SplitOne(fields[0]);
    } else {
      SplitJoin(fields[1..]);
      SplitFirst(fields[0], Join(fields[1..]));
    }
  }

  // ---------------------------------------------------------------- lines

  /** The eleven fields of a line; separators in the resource name become underscores. */
  function Fields(m: MetricItem, timeText: string): seq<string> {
    [PrintNat(m.timestamp), timeText, Replace(m.resource, SEPARATOR, '_'), PrintNat(m.passQps), PrintNat(m.blockQps),
     PrintNat(m.completeQps), PrintNat(m.errorQps), PrintNat(m.avgRt), PrintNat(m.occupiedPassQps),
     PrintNat(m.concurrency),
     PrintInt(m.classification)]
  }

  function ToFatString(m: MetricItem, timeText: string): string {
    Join(Fields(m, timeText))
  }

  const U64_LIMIT := 0x1_0000_0000_0000_0000
  const U32_LIMIT := 0x1_0000_0000

  /** The fields of a line; older lines lack the last one, two or three, which then read as 0. */
  function FromFields(arr: seq<string>): Option<MetricItem> {
    if |arr| < 8 then None
    else
      var ts :- ParseUint(arr[0], U64_LIMIT);
      var p :- ParseUint(arr[3], U64_LIMIT);
      var b :- ParseUint(arr[4], U64_LIMIT);
      var c :- ParseUint(arr[5], U64_LIMIT);
      var e :- ParseUint(arr[6], U64_LIMIT);
      var rt :- ParseUint(arr[7], U64_LIMIT);
      var oc :- if |arr| >= 9 then ParseUint(arr[8], U64_LIMIT) else Some(0);
      var concurrency :- if |arr| >= 10 then ParseUint(arr[9], U32_LIMIT) else Some(0);
      var cl :- if |arr| >= 11 then ParseInt32(arr[10]) else Some(0);
      Some(MetricItem(arr[2], cl, ts, p, b, c, e, rt, oc, concurrency))
  }

  function MetricItemFromFatString(line: string): Option<MetricItem> {
    if |line| == 0 then None else FromFields(Split(line))
  }

  /** The item as a line cut to its first `n` fields remembers it. */
  function Remembered(m: MetricItem, n: nat): MetricItem {
    m.(resource := Replace(m.resource, SEPARATOR, '_'),
       occupiedPassQps := if n >= 9 then m.occupiedPassQps else 0,
       concurrency := if n >= 10 then m.concurrency else 0,
       classification := if n >= 11 then m.classification else 0)
  }

  lemma {:induction false} FieldsHaveNoSeparator(m: MetricItem, timeText: string)
    requires SEPARATOR !in timeText
    ensures forall i :: 0 <= i < |Fields(m, timeText)| ==> SEPARATOR !in Fields(m, timeText)[i]
  {
    NumbersHaveNoSeparator(m.timestamp);
    NumbersHaveNoSeparator(m.passQps);
    NumbersHaveNoSeparator(m.blockQps);
    NumbersHaveNoSeparator(m.completeQps);
    NumbersHaveNoSeparator(m.errorQps);
    NumbersHaveNoSeparator(m.avgRt);
    NumbersHaveNoSeparator(m.occupiedPassQps);
    NumbersHaveNoSeparator(m.concurrency);
    NumbersHaveNoSeparator(m.classification);
  }

  /** What the numeric fields of a line parse to. */
  ghost predicate ParsesTo(arr: seq<string>, m: MetricItem) {
    && 8 <= |arr| <= 11
    && ParseUint(arr[0], U64_LIMIT) == Some(m.timestamp)
    && ParseUint(arr[3], U64_LIMIT) == Some(m.passQps)
    && ParseUint(arr[4], U64_LIMIT) == Some(m.blockQps)
    && ParseUint(arr[5], U64_LIMIT) == Some(m.completeQps)
    && ParseUint(arr[6], U64_LIMIT) == Some(m.errorQps)
    && ParseUint(arr[7], U64_LIMIT) == Some(m.avgRt)
    && (|arr| >= 9 ==> ParseUint(arr[8], U64_LIMIT) == Some(m.occupiedPassQps))
    && (|arr| >= 10 ==> ParseUint(arr[9], U32_LIMIT) == Some(m.concurrency))
    && (|arr| >= 11 ==> ParseInt32(arr[10]) == Some(m.classification))
  }

  lemma {:induction false} FromParsedFields(arr: seq<string>, m: MetricItem)
    requires ParsesTo(arr, m) && arr[2] == Replace(m.resource, SEPARATOR, '_')
    ensures FromFields(arr) == Some(Remembered(m, |arr|))
  {
  }

  lemma {:induction false} PrintedFieldsParse(m: MetricItem, timeText: string, n: nat, arr: seq<string>)
    requires 8 <= n <= 11 && arr == Fields(m, timeText)[..n]
    ensures ParsesTo(arr, m)
  {
    UintRoundTrip(m.timestamp, U64_LIMIT);
    UintRoundTrip(m.passQps, U64_LIMIT);
    UintRoundTrip(m.blockQps, U64_LIMIT);
    UintRoundTrip(m.completeQps, U64_LIMIT);
    UintRoundTrip(m.errorQps, U64_LIMIT);
    UintRoundTrip(m.avgRt, U64_LIMIT);
    UintRoundTrip(m.occupiedPassQps, U64_LIMIT);
    UintRoundTrip(m.concurrency, U32_LIMIT);
    Int32RoundTrip(m.classification);
  }

  lemma {:induction false} JoinNotEmpty(fields: seq<string>)
    requires |fields| > 1
    ensures |Join(fields)| > 0
  {
  }

  /** A line cut to at least eight fields parses to the item, the missing fields as 0. */
  lemma {:induction false} CutLineRoundTrip(m: MetricItem, timeText: string, n: nat)
    requires SEPARATOR !in timeText && 8 <= n <= 11
    ensures MetricItemFromFatString(Join(Fields(m, timeText)[..n])) == Some(Remembered(m, n))
  {
    var fields := Fields(m, timeText)[..n];
    FieldsHaveNoSeparator(m, timeText);
    assert forall i :: 0 <= i < |fields| ==> fields[i] == Fields(m, timeText)[i];
    SplitJoin(fields);
    JoinNotEmpty(fields);
    PrintedFieldsParse(m, timeText, n, fields);
    FromParsedFields(fields, m);
  }

  /** Every printed item parses back to itself, with separators in the resource name replaced. */
  lemma {:induction false} RoundTrip(m: MetricItem, timeText: string)
    requires SEPARATOR !in timeText
    ensures MetricItemFromFatString(ToFatString(m, timeText)) ==
            Some(m.(resource := Replace(m.resource, SEPARATOR, '_')))
  {
    CutLineRoundTrip(m, timeText, 11);
    assert Fields(m, timeText)[..11] == Fields(m, timeText);
  }

  /** A line with fewer than eight fields, or with a damaged number among the first eight, is refused. */
  lemma {:induction false} DamagedLineRefused(fields: seq<string>, i: nat)
    requires |fields| > 0 && forall k :: 0 <= k < |fields| ==> SEPARATOR !in fields[k]
    requires |fields| < 8 || (i < 8 && i != 1 && i != 2 && ParseUint(fields[i], U64_LIMIT).None?)
    ensures MetricItemFromFatString(Join(fields)).None?
  {
    SplitJoin(fields);
  }
}
