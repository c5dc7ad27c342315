/**
 * Calendar dates as chrono's `NaiveDate` represents them: the proleptic
 * Gregorian calendar, years -262144 ..= 262143, with the ISO 8601 text form
 * `%Y-%m-%d` (`%F`) used by `src/api/date.rs` and for lending deadlines.
 * Day numbers count days from 0000-01-01 and are also used for SQLite's
 * `JulianDay` differences, which only ever appear subtracted from each other.
 */
module Dates {
  import opened Wrappers
  import opened Text

  const MIN_YEAR: int := -262144
  const MAX_YEAR: int := 262143

  datatype Date = Date(year: int, month: int, day: int)

  predicate IsLeap(y: int) {
    y % 4 == 0 && (y % 100 != 0 || y % 400 == 0)
  }

  function DaysInMonth(y: int, m: int): (n: int)
    requires 1 <= m <= 12
    ensures 28 <= n <= 31
  {
    if m == 2 then (if IsLeap(y) then 29 else 28)
    else if m == 4 || m == 6 || m == 9 || m == 11 then 30
    else 31
  }

  function DaysInYear(y: int): int {
    if IsLeap(y) then 366 else 365
  }

  /** A date chrono can represent. */
  predicate Valid(d: Date) {
    MIN_YEAR <= d.year <= MAX_YEAR && 1 <= d.month <= 12 && 1 <= d.day <= DaysInMonth(d.year, d.month)
  }

  const MIN_DATE: Date := Date(MIN_YEAR, 1, 1)
  const MAX_DATE: Date := Date(MAX_YEAR, 12, 31)

  // ------------------------------------------------------------ day numbers

  /** Days in the months of year `y` before month `m`. */
  function DaysBeforeMonth(y: int, m: int): int
    requires 1 <= m <= 12
  {
    var common :=
      if m == 1 then 0 else if m == 2 then 31 else if m == 3 then 59 else if m == 4 then 90
      else if m == 5 then 120 else if m == 6 then 151 else if m == 7 then 181 else if m == 8 then 212
      else if m == 9 then 243 else if m == 10 then 273 else if m == 11 then 304 else 334;
    common + (if m > 2 && IsLeap(y) then 1 else 0)
  }

  /** Each month starts where the previous one ends, and December ends the year. */
  lemma MonthStep(y: int, m: int)
    requires 1 <= m <= 12
    ensures m < 12 ==> DaysBeforeMonth(y, m + 1) == DaysBeforeMonth(y, m) + DaysInMonth(y, m)
    ensures m == 12 ==> DaysBeforeMonth(y, m) + DaysInMonth(y, m) == DaysInYear(y)
  {
  }

  /** Leap years in [0, y) (negated count of those in [y, 0) when y < 0). */
  function LeapsBefore(y: int): int {
    (y + 3) / 4 - (y + 99) / 100 + (y + 399) / 400
  }

  /** Days from 0000-01-01 to January 1st of `y`. */
  function DaysBeforeYear(y: int): int {
    365 * y + LeapsBefore(y)
  }

  /** Days since 0000-01-01. Days beyond the month's length simply run on, as SQLite's date arithmetic does. */
  function DayNumber(d: Date): int
    requires 1 <= d.month <= 12
  {
    DaysBeforeYear(d.year) + DaysBeforeMonth(d.year, d.month) + d.day - 1
  }

  // One more year passes one more multiple of 4, 100 or 400 exactly when `y` is one.
  lemma Step4(y: int)
    ensures (y + 4) / 4 == (y + 3) / 4 + (if y % 4 == 0 then 1 else 0)
  {
  }

  lemma Step100(y: int)
    ensures (y + 100) / 100 == (y + 99) / 100 + (if y % 100 == 0 then 1 else 0)
    ensures y % 100 == 0 ==> y % 4 == 0
  {
  }

  lemma Step400(y: int)
    ensures (y + 400) / 400 == (y + 399) / 400 + (if y % 400 == 0 then 1 else 0)
    ensures y % 400 == 0 ==> y % 100 == 0
  {
  }

  lemma LeapsStep(y: int)
    ensures LeapsBefore(y + 1) == LeapsBefore(y) + (if IsLeap(y) then 1 else 0)
  {
    Step4(y);
    Step100(y);
    Step400(y);
  }

  lemma YearLength(y: int)
    ensures DaysBeforeYear(y + 1) == DaysBeforeYear(y) + DaysInYear(y)
    ensures DaysBeforeMonth(y, 12) + 31 == DaysInYear(y)
  {
    LeapsStep(y);
  }

  /** Later in the calendar means a larger day number. */
  lemma DayNumberWithinYear(d: Date)
    requires Valid(d)
    ensures DaysBeforeYear(d.year) <= DayNumber(d) < DaysBeforeYear(d.year + 1)
  {
    YearLength(d.year);
    MonthsFit(d.year, d.month);
  }

  lemma MonthsFit(y: int, m: int)
    requires 1 <= m <= 12
    ensures DaysBeforeMonth(y, m) + DaysInMonth(y, m) <= DaysInYear(y)
  {
  }

  // ------------------------------------------------------------ stepping

  /** The following calendar day. */
  function NextDay(d: Date): Date
    requires 1 <= d.month <= 12
  {
    if d.day < DaysInMonth(d.year, d.month) then Date(d.year, d.month, d.day + 1)
    else if d.month < 12 then Date(d.year, d.month + 1, 1)
    else Date(d.year + 1, 1, 1)
  }

  /** The preceding calendar day. */
  function PrevDay(d: Date): Date
    requires 1 <= d.month <= 12
  {
    if d.day > 1 then Date(d.year, d.month, d.day - 1)
    else if d.month > 1 then Date(d.year, d.month - 1, DaysInMonth(d.year, d.month - 1))
    else Date(d.year - 1, 12, 31)
  }

  lemma NextDayNumber(d: Date)
    requires Valid(d) && d != MAX_DATE
    ensures Valid(NextDay(d)) && DayNumber(NextDay(d)) == DayNumber(d) + 1
  {
    MonthStep(d.year, d.month);
    if d.day >= DaysInMonth(d.year, d.month) && d.month == 12 {
      YearLength(d.year);
    }
  }

  lemma PrevDayNumber(d: Date)
    requires Valid(d) && d != MIN_DATE
    ensures Valid(PrevDay(d)) && DayNumber(PrevDay(d)) == DayNumber(d) - 1
  {
    if d.month > 1 {
      MonthStep(d.year, d.month - 1);
    }
    if d.day == 1 && d.month == 1 {
      YearLength(d.year - 1);
    }
  }

  /**
   * `date + Duration::days(n)`: `None` when the result leaves chrono's range
   * (where the source's `+` panics).
   */
  function AddDays(d: Date, n: int): Option<Date>
    requires Valid(d)
    decreases if n < 0 then -n else n
  {
    if n == 0 then Some(d)
    else if n > 0 then (if d == MAX_DATE then None else AddDays(NextDay(d), n - 1))
    else (if d == MIN_DATE then None else AddDays(PrevDay(d), n + 1))
  }

  /** Adding days moves the day number by exactly that amount, and fails only outside chrono's range. */
  lemma {:induction false} AddDaysNumber(d: Date, n: int)
    requires Valid(d)
    ensures AddDays(d, n).Some? <==> DayNumber(MIN_DATE) <= DayNumber(d) + n <= DayNumber(MAX_DATE)
    ensures AddDays(d, n).Some? ==> Valid(AddDays(d, n).value) && DayNumber(AddDays(d, n).value) == DayNumber(d) + n
    decreases if n < 0 then -n else n
  {
    DayNumberRange(d);
    if n > 0 {
      if d != MAX_DATE {
        NextDayNumber(d);
        AddDaysNumber(NextDay(d), n - 1);
      }
    } else if n < 0 {
      if d != MIN_DATE {
        PrevDayNumber(d);
        AddDaysNumber(PrevDay(d), n + 1);
      }
    }
  }

  /** Valid dates lie between the first and the last representable day, which are the only ones with those numbers. */
  lemma DayNumberRange(d: Date)
    requires Valid(d)
    ensures DayNumber(MIN_DATE) <= DayNumber(d) <= DayNumber(MAX_DATE)
    ensures DayNumber(d) == DayNumber(MIN_DATE) ==> d == MIN_DATE
    ensures DayNumber(d) == DayNumber(MAX_DATE) ==> d == MAX_DATE
  {
    DayNumberWithinYear(d);
    YearLength(MAX_YEAR);
    DaysBeforeYearMonotone(MIN_YEAR, d.year);
    DaysBeforeYearMonotone(d.year + 1, MAX_YEAR + 1);
    if DayNumber(d) == DayNumber(MIN_DATE) {
      if d.year > MIN_YEAR {
        DaysBeforeYearMonotone(MIN_YEAR + 1, d.year);
        YearLength(MIN_YEAR);
      }
    }
    if DayNumber(d) == DayNumber(MAX_DATE) {
      if d.year < MAX_YEAR {
        DaysBeforeYearMonotone(d.year + 1, MAX_YEAR);
      }
      if d.month < 12 { MonthsFit(d.year, d.month); }
    }
  }

  /** Later months of the same year start after earlier ones end. */
  lemma MonthOrder(y: int, m1: int, m2: int)
    requires 1 <= m1 < m2 <= 12
    ensures DaysBeforeMonth(y, m1) + DaysInMonth(y, m1) <= DaysBeforeMonth(y, m2)
  {
  }

  /** Distinct valid dates have distinct day numbers. */
  lemma DayNumberInjective(a: Date, b: Date)
    requires Valid(a) && Valid(b) && DayNumber(a) == DayNumber(b)
    ensures a == b
  {
    DayNumberWithinYear(a);
    DayNumberWithinYear(b);
    if a.year < b.year {
      DaysBeforeYearMonotone(a.year + 1, b.year);
    } else if b.year < a.year {
      DaysBeforeYearMonotone(b.year + 1, a.year);
    } else if a.month < b.month {
      MonthOrder(a.year, a.month, b.month);
    } else if b.month < a.month {
      MonthOrder(a.year, b.month, a.month);
    }
  }

  /** More years before means more days before. */
  lemma {:induction false} DaysBeforeYearMonotone(a: int, b: int)
    requires a <= b
    ensures DaysBeforeYear(a) + 365 * (b - a) <= DaysBeforeYear(b)
    decreases b - a
  {
    if a < b {
      LeapsStep(a);
      DaysBeforeYearMonotone(a + 1, b);
    }
  }

  // ------------------------------------------------------------ ISO 8601 text

  /** `%Y`: four digits for years 0..9999, otherwise an explicit sign followed by at least four digits. */
  function YearText(y: int): String {
    if 0 <= y <= 9999 then PadDecimal(y, 4)
    else if y < 0 then "-" + PadDecimal(-y, 4)
    else "+" + PadDecimal(y, 4)
  }

  /** `format("%F")`, i.e. `%Y-%m-%d`. */
  function FormatIso(d: Date): String
    requires Valid(d)
  {
    YearText(d.year) + "-" + PadDecimal(d.month, 2) + "-" + PadDecimal(d.day, 2)
  }

  /** `str::trim_start`, which chrono applies before every numeric field. */
  function TrimLeft(s: String): (r: String)
    ensures |r| <= |s|
  {
    s[SkipWhitespace(s, 0)..]
  }

  /** Length of the run of ASCII digits that starts `s`, capped at `max`. */
  function DigitPrefix(s: String, max: nat): (n: nat)
    ensures n <= max && n <= |s|
  {
    if max == 0 || s == [] || !IsAsciiDigit(s[0]) then 0 else 1 + DigitPrefix(s[1..], max - 1)
  }

  /** chrono's scanner for one numeric field: between `min` and `max` digits, split off the rest. */
  function ScanDigits(s: String, min: nat, max: nat): (r: Option<(String, String)>)
    ensures r.Some? ==> AllDigits(r.value.0) && min <= |r.value.0| <= max && s == r.value.0 + r.value.1
  {
    var n := DigitPrefix(s, max);
    if n < min then None
    else
      assert AllDigits(s[..n]) by { DigitPrefixDigits(s, max); }
      Some((s[..n], s[n..]))
  }

  /** The digits `DigitPrefix` counts are digits. */
  lemma {:induction false} DigitPrefixDigits(s: String, max: nat)
    ensures AllDigits(s[..DigitPrefix(s, max)])
  {
    var n := DigitPrefix(s, max);
    if n > 0 {
      DigitPrefixDigits(s[1..], max - 1);
      assert s[..n] == [s[0]] + s[1..][..n - 1];
    }
  }

  /** The year field of `%Y`: its sign and its digits. */
  datatype YearField = YearField(negative: bool, digits: String)

  function YearValue(f: YearField): int {
    if f.negative then -(DigitsValue(f.digits) as int) else DigitsValue(f.digits) as int
  }

  /** `%Y` after optional whitespace: a sign allows any number of digits, no sign allows one to four. */
  function ScanYear(s: String): Option<(YearField, String)>
  {
    var t := TrimLeft(s);
    if t != [] && (t[0] == '-' || t[0] == '+') then SignedYear(t) else UnsignedYear(t)
  }

  function SignedYear(t: String): Option<(YearField, String)>
    requires t != []
  {
    match ScanDigits(t[1..], 1, |t|)
    case None => None
    case Some((p, rest)) => Some((YearField(t[0] == '-', p), rest))
  }

  function UnsignedYear(t: String): Option<(YearField, String)>
  {
    match ScanDigits(t, 1, 4)
    case None => None
    case Some((p, rest)) => Some((YearField(false, p), rest))
  }

  /** An unsigned field of one or two digits (`%m`, `%d`), after optional whitespace. */
  function ScanTwo(s: String): Option<(String, String)>
  {
    ScanDigits(TrimLeft(s), 1, 2)
  }

  /** A literal character of the format. */
  function Expect(s: String, c: char): Option<String>
  {
    if s != [] && s[0] == c then Some(s[1..]) else None
  }

  /** `NaiveDate::parse_from_str(s, "%F")`: the whole input must be consumed and name a valid date. */
  function ParseIso(s: String): (r: Option<Date>)
    ensures r.Some? ==> Valid(r.value)
  {
    match ScanYear(s)
    case None => None
    case Some((y, r1)) =>
      match Expect(r1, '-')
      case None => None
      case Some(r2) => ParseMonthDay(YearValue(y), r2)
  }

  /** The `%m-%d` tail of `%F`, once the year is read. */
  function ParseMonthDay(y: int, s: String): (r: Option<Date>)
    ensures r.Some? ==> Valid(r.value)
  {
    match ScanTwo(s)
    case None => None
    case Some((m, r3)) =>
      match Expect(r3, '-')
      case None => None
      case Some(r4) =>
        match ScanTwo(r4)
        case None => None
        case Some((d, r5)) =>
          var date := Date(y, DigitsValue(m), DigitsValue(d));
          if r5 == [] && Valid(date) then Some(date) else None
  }

  // ------------------------------------------------------------ round trip

  /** The digit run of `p + rest` is `p` when `rest` does not continue it. */
  lemma {:induction false} DigitPrefixOf(p: String, rest: String, max: nat)
    requires AllDigits(p) && |p| <= max
    requires |p| < max && rest != [] ==> !IsAsciiDigit(rest[0])
    ensures DigitPrefix(p + rest, max) == |p|
  {
    if p != [] {
      assert (p + rest)[0] == p[0];
      assert (p + rest)[1..] == p[1..] + rest;
      DigitPrefixOf(p[1..], rest, max - 1);
    } else {
      assert p + rest == rest;
    }
  }

  /** A field printed as the digits `p` scans back to `p` and leaves the rest. */
  lemma ScanDigitsOf(p: String, rest: String, min: nat, max: nat)
    requires AllDigits(p) && min <= |p| <= max
    requires |p| < max && rest != [] ==> !IsAsciiDigit(rest[0])
    ensures ScanDigits(p + rest, min, max) == Some((p, rest))
  {
    DigitPrefixOf(p, rest, max);
    assert (p + rest)[..|p|] == p && (p + rest)[|p|..] == rest;
  }

  /** A string that starts with a non-whitespace character is its own `trim_start`. */
  lemma TrimLeftNoop(s: String)
    requires s != [] && !IsWhitespace(s[0])
    ensures TrimLeft(s) == s
  {
  }

  /** Four digits followed by the separator scan back as an unsigned year. */
  lemma ScanYearPlain(p: String, rest: String)
    requires AllDigits(p) && |p| == 4 && rest != [] && rest[0] == '-'
    ensures ScanYear(p + rest) == Some((YearField(false, p), rest))
  {
    assert (p + rest)[0] == p[0];
    TrimLeftNoop(p + rest);
    ScanDigitsOf(p, rest, 1, 4);
  }

  /** A sign, at least one digit and the separator scan back as a signed year. */
  lemma ScanYearSigned(c: char, p: String, rest: String)
    requires c == '-' || c == '+'
    requires AllDigits(p) && p != [] && rest != [] && rest[0] == '-'
    ensures ScanYear([c] + (p + rest)) == Some((YearField(c == '-', p), rest))
  {
    var t := [c] + (p + rest);
    assert t[0] == c && t[1..] == p + rest;
    TrimLeftNoop(t);
    ScanDigitsOf(p, rest, 1, |t|);
  }

  /** The `%Y` text of a year, followed by the `-` separator, scans back to the year. */
  lemma ScanYearText(y: int, rest: String)
    requires rest != [] && rest[0] == '-'
    ensures ScanYear(YearText(y) + rest) == Some((YearFieldOf(y), rest))
  {
    if 0 <= y <= 9999 {
      ScanYearTextPlain(y, rest);
    } else if y < 0 {
      ScanYearTextSigned(y, '-', rest);
    } else {
      ScanYearTextSigned(y, '+', rest);
    }
  }

  lemma ScanYearTextPlain(y: int, rest: String)
    requires rest != [] && rest[0] == '-' && 0 <= y <= 9999
    ensures ScanYear(YearText(y) + rest) == Some((YearFieldOf(y), rest))
  {
    assert Pow10(4) == 10000;
    PadDecimalLength(y, 4);
    ScanYearPlain(PadDecimal(y, 4), rest);
  }

  lemma ScanYearTextSigned(y: int, c: char, rest: String)
    requires rest != [] && rest[0] == '-' && !(0 <= y <= 9999)
    requires c == (if y < 0 then '-' else '+')
    ensures ScanYear(YearText(y) + rest) == Some((YearFieldOf(y), rest))
  {
    var p := PadDecimal(if y < 0 then -y else y, 4);
    ScanYearSigned(c, p, rest);
    assert YearText(y) + rest == [c] + (p + rest);
  }

  /** The sign and digits `%Y` prints for a year. */
  function YearFieldOf(y: int): (f: YearField)
    ensures YearValue(f) == y
  {
    var n: nat := if y < 0 then -y else y;
    PadDecimalValue(n, 4);
    YearField(y < 0, PadDecimal(n, 4))
  }

  /** A two-digit field scans back to its digits. */
  lemma ScanTwoText(n: nat, rest: String)
    requires n < 100
    requires rest != [] ==> !IsAsciiDigit(rest[0])
    ensures ScanTwo(PadDecimal(n, 2) + rest) == Some((PadDecimal(n, 2), rest))
  {
    var p := PadDecimal(n, 2);
    assert Pow10(2) == 100;
    PadDecimalLength(n, 2);
    assert (p + rest)[0] == p[0];
    TrimLeftNoop(p + rest);
    ScanDigitsOf(p, rest, 1, 2);
  }

  /** The `%m-%d` text of a valid date's month and day reads back. */
  lemma ParseMonthDayText(d: Date)
    requires Valid(d)
    ensures ParseMonthDay(d.year, PadDecimal(d.month, 2) + ("-" + PadDecimal(d.day, 2))) == Some(d)
  {
    var ms, ds := PadDecimal(d.month, 2), PadDecimal(d.day, 2);
    ScanTwoText(d.month, "-" + ds);
    ScanTwoText(d.day, []);
    assert ds + [] == ds;
    PadDecimalValue(d.month, 2);
    PadDecimalValue(d.day, 2);
    ParseMonthDayOf(d, ms, ds);
  }

  lemma ParseMonthDayOf(d: Date, ms: String, ds: String)
    requires Valid(d) && DigitsValue(ms) == d.month && DigitsValue(ds) == d.day
    requires ScanTwo(ms + ("-" + ds)) == Some((ms, "-" + ds))
    requires ScanTwo(ds) == Some((ds, []))
    ensures ParseMonthDay(d.year, ms + ("-" + ds)) == Some(d)
  {
    assert Expect("-" + ds, '-') == Some(ds);
  }

  /** `set_iso(get_iso())` keeps the date: parsing the `%F` text of a valid date gives it back. */
  lemma ParseFormatIso(d: Date)
    requires Valid(d)
    ensures ParseIso(FormatIso(d)) == Some(d)
  {
    var md := PadDecimal(d.month, 2) + ("-" + PadDecimal(d.day, 2));
    var r1 := "-" + md;
    assert FormatIso(d) == YearText(d.year) + r1;
    ScanYearText(d.year, r1);
    assert YearValue(YearFieldOf(d.year)) == d.year;
    assert Expect(r1, '-') == Some(md);
    ParseMonthDayText(d);
  }
}
