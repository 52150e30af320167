/**
 * The date strings ExifRenamer.rb reads and writes.
 *
 * All of them consist of six digit groups, year (4 digits), month, day, hour,
 * minute and second (2 digits each), with one separator between consecutive
 * groups:
 *   - `%Y-%m-%d_%H-%M-%S`, the canonical form (DATE_FORMAT, line 20);
 *   - `%Y-%m-%d %H.%M.%S`, the time stamp in a screenshot's name (line 64);
 *   - `YYYY/MM/DD hh:mm:ss`, the Windows time value (line 99);
 *   - `MM/DD/YYYY hh:mm:ss`, the macOS `setfile` value (line 90), the only one
 *     whose groups are in another order.
 */
module Timestamps {
  import opened Wrappers
  import opened Text

  /** A broken-down local time, as `Time` holds it. */
  datatype DateTime = DateTime(year: nat, month: nat, day: nat, hour: nat, minute: nat, second: nat)

  /** The six digit groups of a date string, in year-to-second order. */
  datatype Fields = Fields(year: string, month: string, day: string, hour: string, minute: string, second: string)

  /** The five separators between consecutive groups. */
  datatype Separators = Separators(a: char, b: char, c: char, d: char, e: char)

  /** DATE_FORMAT, `%Y-%m-%d_%H-%M-%S`. */
  const CANONICAL := Separators('-', '-', '_', '-', '-')

  predicate IsDigitGroup(s: string, width: nat) {
    |s| == width && AllDigits(s)
  }

  /** Four digits of year and two of everything else. */
  predicate WellFormed(f: Fields) {
    IsDigitGroup(f.year, 4) && IsDigitGroup(f.month, 2) && IsDigitGroup(f.day, 2) &&
    IsDigitGroup(f.hour, 2) && IsDigitGroup(f.minute, 2) && IsDigitGroup(f.second, 2)
  }

  /** The groups written in year-to-second order with the given separators. */
  function Layout(f: Fields, sep: Separators): string {
    f.year + [sep.a] + f.month + [sep.b] + f.day + [sep.c] + f.hour + [sep.d] + f.minute + [sep.e] + f.second
  }

  /** The groups read from the first 19 characters, in year-to-second order. */
  function Slice(s: string): Fields
    requires |s| >= 19
  {
    Fields(s[0..4], s[5..7], s[8..10], s[11..13], s[14..16], s[17..19])
  }

  /** `s` begins with a date string in year-to-second order with the given
      separators; whatever follows is not looked at. */
  predicate StartsWithLayout(s: string, sep: Separators) {
    |s| >= 19 &&
    s[4] == sep.a && s[7] == sep.b && s[10] == sep.c && s[13] == sep.d && s[16] == sep.e &&
    WellFormed(Slice(s))
  }

  /** Exactly `%Y-%m-%d_%H-%M-%S`. */
  predicate IsCanonical(s: string) {
    |s| == 19 && StartsWithLayout(s, CANONICAL)
  }

  /** Writing groups out and reading them back, whatever follows, gives the
      same groups. */
  lemma {:induction false} SliceLayout(f: Fields, sep: Separators, tail: string)
    requires WellFormed(f)
    ensures |Layout(f, sep)| == 19
    ensures StartsWithLayout(Layout(f, sep) + tail, sep)
    ensures Slice(Layout(f, sep) + tail) == f
  {
    var s := Layout(f, sep) + tail;
    assert s == f.year + [sep.a] + f.month + [sep.b] + f.day + [sep.c] + f.hour + [sep.d] + f.minute + [sep.e] + f.second + tail;
    assert s[0..4] == f.year;
    assert s[5..7] == f.month;
    assert s[8..10] == f.day;
    assert s[11..13] == f.hour;
    assert s[14..16] == f.minute;
    assert s[17..19] == f.second;
  }

  /** Reading groups from a date string and writing them out again with the
      same separators gives back the date string. */
  lemma {:induction false} LayoutSlice(s: string, sep: Separators)
    requires StartsWithLayout(s, sep)
    ensures Layout(Slice(s), sep) == s[..19]
  {
    var f := Slice(s);
    var r := Layout(f, sep);
    assert |r| == 19;
    forall i | 0 <= i < 19
      ensures r[i] == s[i]
    {
      if i < 4 { assert r[i] == f.year[i]; }
      else if i == 4 { assert r[i] == sep.a; }
      else if i < 7 { assert r[i] == f.month[i - 5]; }
      else if i == 7 { assert r[i] == sep.b; }
      else if i < 10 { assert r[i] == f.day[i - 8]; }
      else if i == 10 { assert r[i] == sep.c; }
      else if i < 13 { assert r[i] == f.hour[i - 11]; }
      else if i == 13 { assert r[i] == sep.d; }
      else if i < 16 { assert r[i] == f.minute[i - 14]; }
      else if i == 16 { assert r[i] == sep.e; }
      else { assert r[i] == f.second[i - 17]; }
    }
  }

  function Pow10(w: nat): (r: nat)
    ensures r >= 1
  {
    if w == 0 then 1 else 10 * Pow10(w - 1)
  }

  function DigitChar(d: nat): (c: char)
    requires d < 10
    ensures IsDigit(c)
  {
    ('0' as int + d) as char
  }

  function DigitValue(c: char): (d: nat)
    requires IsDigit(c)
    ensures d < 10 && DigitChar(d) == c
  {
    c as int - '0' as int
  }

  /** strftime's zero-padded field: the `w` lowest decimal digits of `n`. */
  function Digits(n: nat, w: nat): (r: string)
    ensures IsDigitGroup(r, w)
  {
    if w == 0 then "" else Digits(n / 10, w - 1) + [DigitChar(n % 10)]
  }

  /** strptime's numeric field: the number a digit string denotes. */
  function Value(s: string): (n: nat)
    requires AllDigits(s)
    ensures n < Pow10(|s|)
  {
    if s == [] then 0 else 10 * Value(s[..|s| - 1]) + DigitValue(s[|s| - 1])
  }

  lemma {:induction false} ValueOfDigits(n: nat, w: nat)
    requires n < Pow10(w)
    ensures Value(Digits(n, w)) == n
  {
    if w > 0 {
      ValueOfDigits(n / 10, w - 1);
      var r := Digits(n, w);
      assert r[..|r| - 1] == Digits(n / 10, w - 1);
    }
  }

  lemma {:induction false} DigitsOfValue(s: string)
    requires AllDigits(s)
    ensures Digits(Value(s), |s|) == s
  {
    if s != [] {
      var t := s[..|s| - 1];
      DigitsOfValue(t);
      var d := DigitValue(s[|s| - 1]);
      assert Value(s) / 10 == Value(t) && Value(s) % 10 == d;
      assert s == t + [s[|s| - 1]];
    }
  }

  /** The time fits the widths strftime pads it to. */
  predicate InRange(t: DateTime) {
    t.year < 10000 && t.month < 100 && t.day < 100 && t.hour < 100 && t.minute < 100 && t.second < 100
  }

  function FieldsOf(t: DateTime): (f: Fields)
    ensures WellFormed(f)
  {
    Fields(Digits(t.year, 4), Digits(t.month, 2), Digits(t.day, 2),
           Digits(t.hour, 2), Digits(t.minute, 2), Digits(t.second, 2))
  }

  function TimeOf(f: Fields): (t: DateTime)
    requires WellFormed(f)
    ensures InRange(t)
  {
    DateTime(Value(f.year), Value(f.month), Value(f.day), Value(f.hour), Value(f.minute), Value(f.second))
  }

  lemma TimeOfFieldsOf(t: DateTime)
    requires InRange(t)
    ensures TimeOf(FieldsOf(t)) == t
  {
    ValueOfDigits(t.year, 4);
    ValueOfDigits(t.month, 2);
    ValueOfDigits(t.day, 2);
    ValueOfDigits(t.hour, 2);
    ValueOfDigits(t.minute, 2);
    ValueOfDigits(t.second, 2);
  }

  lemma FieldsOfTimeOf(f: Fields)
    requires WellFormed(f)
    ensures FieldsOf(TimeOf(f)) == f
  {
    DigitsOfValue(f.year);
    DigitsOfValue(f.month);
    DigitsOfValue(f.day);
    DigitsOfValue(f.hour);
    DigitsOfValue(f.minute);
    DigitsOfValue(f.second);
  }

  /** `strftime("%Y-%m-%d_%H-%M-%S")`. Its alphabet is digits, `-` and `_`. */
  function Strftime(t: DateTime): (r: string)
    ensures IsCanonical(r)
    ensures forall i :: 0 <= i < |r| ==> IsDigit(r[i]) || r[i] == '-' || r[i] == '_'
  {
    var r := Layout(FieldsOf(t), CANONICAL);
    SliceLayout(FieldsOf(t), CANONICAL, "");
    assert r + "" == r;
    LayoutSlice(r, CANONICAL);
    assert r == r[..19];
    r
  }

  /** The reference inverse of Strftime on DATE_FORMAT: reads the six digit
      groups of a canonical string, without calendar checks. */
  function Parse(s: string): (r: Option<DateTime>)
    ensures r.Some? <==> IsCanonical(s)
    ensures r.Some? ==> InRange(r.value)
  {
    if IsCanonical(s) then Some(TimeOf(Slice(s))) else None
  }

  /** Every time in range survives formatting and parsing back. */
  lemma {:induction false} ParseStrftime(t: DateTime)
    requires InRange(t)
    ensures Parse(Strftime(t)) == Some(t)
  {
    SliceLayout(FieldsOf(t), CANONICAL, "");
    assert Strftime(t) + "" == Strftime(t);
    TimeOfFieldsOf(t);
  }

  /** Every canonical string survives parsing and formatting back. */
  lemma {:induction false} StrftimeParse(s: string)
    requires IsCanonical(s)
    ensures Parse(s).Some? && Strftime(Parse(s).value) == s
  {
    FieldsOfTimeOf(Slice(s));
    LayoutSlice(s, CANONICAL);
    assert s[..19] == s;
  }
}
