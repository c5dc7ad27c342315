/**
 * String helpers shared by the model: Rust's `trim`, `split`, `split_once`,
 * `rsplit_once`, `replace`, decimal integer parsing and printing, ASCII
 * classification, SQL `LIKE '%x%'` containment and UTF-8 lengths.
 * Strings are sequences of Unicode scalar values (`seq<char>`).
 */
module Text {
  import opened Wrappers

  type String = seq<char>

  /** Rust's `char::is_whitespace`: the Unicode White_Space property. */
  predicate IsWhitespace(c: char) {
    ('\U{9}' <= c <= '\U{D}') || c == ' ' || c == '\U{85}' || c == '\U{A0}' || c == '\U{1680}'
    || ('\U{2000}' <= c <= '\U{200A}') || c == '\U{2028}' || c == '\U{2029}' || c == '\U{202F}'
    || c == '\U{205F}' || c == '\U{3000}'
  }

  /** Rust's `char::is_control`: general category Cc. */
  predicate IsControl(c: char) {
    c <= '\U{1F}' || ('\U{7F}' <= c <= '\U{9F}')
  }

  predicate IsBlank(s: String) {
    forall i :: 0 <= i < |s| ==> IsWhitespace(s[i])
  }

  /** Index of the first non-whitespace character of `s` at or after `i`, or `|s|`. */
  function SkipWhitespace(s: String, i: nat): (k: nat)
    requires i <= |s|
    ensures i <= k <= |s|
    ensures forall j :: i <= j < k ==> IsWhitespace(s[j])
    ensures k < |s| ==> !IsWhitespace(s[k])
    decreases |s| - i
  {
    if i == |s| || !IsWhitespace(s[i]) then i else SkipWhitespace(s, i + 1)
  }

  /** End of `s[lo..e]` once its trailing whitespace is dropped. */
  function SkipWhitespaceBack(s: String, lo: nat, e: nat): (k: nat)
    requires lo <= e <= |s|
    ensures lo <= k <= e
    ensures forall j :: k <= j < e ==> IsWhitespace(s[j])
    ensures k > lo ==> !IsWhitespace(s[k - 1])
  {
    if e == lo || !IsWhitespace(s[e - 1]) then e else SkipWhitespaceBack(s, lo, e - 1)
  }

  /** Number of leading whitespace characters `trim` removes. */
  function TrimOffset(s: String): (k: nat)
    ensures k <= |s|
  {
    SkipWhitespace(s, 0)
  }

  /** Rust's `str::trim`: strips leading and trailing whitespace. */
  function Trim(s: String): (r: String)
    ensures TrimOffset(s) + |r| <= |s|
    ensures r == s[TrimOffset(s)..TrimOffset(s) + |r|]
    ensures forall i :: 0 <= i < TrimOffset(s) ==> IsWhitespace(s[i])
    ensures forall i :: TrimOffset(s) + |r| <= i < |s| ==> IsWhitespace(s[i])
    ensures r != [] ==> !IsWhitespace(r[0]) && !IsWhitespace(r[|r| - 1])
  {
    var k := SkipWhitespace(s, 0);
    s[k..SkipWhitespaceBack(s, k, |s|)]
  }

  lemma TrimOfTrimmed(s: String)
    requires s == [] || (!IsWhitespace(s[0]) && !IsWhitespace(s[|s| - 1]))
    ensures Trim(s) == s
  {
  }

  /** Trimming twice is trimming once. */
  lemma TrimIdempotent(s: String)
    ensures Trim(Trim(s)) == Trim(s)
  {
    TrimOfTrimmed(Trim(s));
  }

  /** A string trims to nothing exactly when it is all whitespace. */
  lemma TrimEmptyIffBlank(s: String)
    ensures Trim(s) == [] <==> IsBlank(s)
  {
    if Trim(s) != [] {
      assert s[TrimOffset(s)] == Trim(s)[0];
    }
  }

  // ---------------------------------------------------------------- ASCII

  predicate IsAscii(c: char) { c < '\U{80}' }
  predicate IsAsciiDigit(c: char) { '0' <= c <= '9' }
  predicate IsAsciiUpper(c: char) { 'A' <= c <= 'Z' }
  predicate IsAsciiLower(c: char) { 'a' <= c <= 'z' }
  predicate IsAsciiAlphabetic(c: char) { IsAsciiUpper(c) || IsAsciiLower(c) }

  function ToAsciiUpper(c: char): (r: char)
    ensures IsAsciiLower(c) ==> IsAsciiUpper(r)
    ensures !IsAsciiLower(c) ==> r == c
  {
    if IsAsciiLower(c) then (c as int - 32) as char else c
  }

  function ToAsciiLower(c: char): (r: char)
    ensures IsAsciiUpper(c) ==> IsAsciiLower(r)
    ensures !IsAsciiUpper(c) ==> r == c
  {
    if IsAsciiUpper(c) then (c as int + 32) as char else c
  }

  /** `str::to_uppercase`, restricted to strings of ASCII letters. */
  function UpperAscii(s: String): (r: String)
    ensures |r| == |s|
    ensures forall i :: 0 <= i < |s| ==> r[i] == ToAsciiUpper(s[i])
  {
    if s == [] then [] else [ToAsciiUpper(s[0])] + UpperAscii(s[1..])
  }

  function LowerAscii(s: String): (r: String)
    ensures |r| == |s|
    ensures forall i :: 0 <= i < |s| ==> r[i] == ToAsciiLower(s[i])
  {
    if s == [] then [] else [ToAsciiLower(s[0])] + LowerAscii(s[1..])
  }

  // ------------------------------------------------------ containment, LIKE

  predicate IsPrefix(p: String, s: String) {
    |p| <= |s| && s[..|p|] == p
  }

  /** `needle` occurs in `hay` starting at index `i`. */
  predicate OccursAt(hay: String, needle: String, i: int) {
    0 <= i <= |hay| - |needle| && hay[i..i + |needle|] == needle
  }

  /** `needle` occurs in `hay` as a contiguous substring. */
  predicate Contains(hay: String, needle: String) {
    exists i | 0 <= i <= |hay| - |needle| :: OccursAt(hay, needle, i)
  }

  /**
   * SQLite's `x LIKE '%' || y || '%'` with the default, ASCII-case-insensitive
   * collation, for a `y` without wildcards: the special case of `Sql.Like`
   * on which the plain searches rest (`UserTable.MatchesLiteral`,
   * `MediumTable.MatchesLiteral`, `Books.SearchUserContains`).
   */
  predicate LikeContains(hay: String, needle: String) {
    Contains(LowerAscii(hay), LowerAscii(needle))
  }

  lemma ContainsEmpty(hay: String)
    ensures Contains(hay, [])
  {
    assert OccursAt(hay, [], 0);
  }

  // ------------------------------------------------------------ splitting

  /** Index of the first `c` in `s`, if any. */
  function FindChar(s: String, c: char): (r: Option<nat>)
    ensures r.Some? ==> r.value < |s| && s[r.value] == c && c !in s[..r.value]
    ensures r.None? ==> c !in s
  {
    if s == [] then None
    else if s[0] == c then Some(0)
    else match FindChar(s[1..], c)
      case None => None
      case Some(k) => assert s[..k + 1] == [s[0]] + s[1..][..k]; Some(k + 1)
  }

  /** Index of the last `c` in `s`, if any. */
  function FindLastChar(s: String, c: char): (r: Option<nat>)
    ensures r.Some? ==> r.value < |s| && s[r.value] == c && c !in s[r.value + 1..]
    ensures r.None? ==> c !in s
  {
    if s == [] then None
    else if s[|s| - 1] == c then Some(|s| - 1)
    else
      var r := FindLastChar(s[..|s| - 1], c);
      assert r.Some? ==> s[r.value + 1..] == s[..|s| - 1][r.value + 1..] + [s[|s| - 1]];
      assert r.None? ==> s == s[..|s| - 1] + [s[|s| - 1]];
      r
  }

  /** `str::split_once(c)`: the text around the first `c`. */
  function SplitOnce(s: String, c: char): (r: Option<(String, String)>)
    ensures r.None? <==> c !in s
    ensures r.Some? ==> s == r.value.0 + [c] + r.value.1 && c !in r.value.0
  {
    match FindChar(s, c)
    case None => None
    case Some(k) => assert s == s[..k] + [c] + s[k + 1..]; Some((s[..k], s[k + 1..]))
  }

  /** Splitting at a separator that the first part does not contain gives the two parts back. */
  lemma SplitOnceOf(a: String, c: char, b: String)
    requires c !in a
    ensures SplitOnce(a + [c] + b, c) == Some((a, b))
  {
    var s := a + [c] + b;
    var k := FindChar(s, c).value;
    assert forall j | 0 <= j < |a| :: s[j] == a[j];
    assert |a| < |s| && s[|a|] == c;
    assert k <= |a| by {
      assert forall j | 0 <= j < k :: s[..k][j] == s[j];
    }
    assert s[..k] == a && s[k + 1..] == b;
  }

  /** `str::rsplit_once(c)`: the text around the last `c`. */
  function RSplitOnce(s: String, c: char): (r: Option<(String, String)>)
    ensures r.None? <==> c !in s
    ensures r.Some? ==> s == r.value.0 + [c] + r.value.1 && c !in r.value.1
  {
    match FindLastChar(s, c)
    case None => None
    case Some(k) => assert s == s[..k] + [c] + s[k + 1..]; Some((s[..k], s[k + 1..]))
  }

  /** `str::split(c)`: every piece between occurrences of `c`; never empty. */
  function Split(s: String, c: char): (r: seq<String>)
    ensures |r| >= 1
    ensures forall i :: 0 <= i < |r| ==> c !in r[i]
    decreases |s|
  {
    match SplitOnce(s, c)
    case None => [s]
    case Some((a, b)) => [a] + Split(b, c)
  }

  /** `[String]::join(sep)`. */
  function Join(parts: seq<String>, sep: String): (r: String)
  {
    if parts == [] then []
    else if |parts| == 1 then parts[0]
    else parts[0] + sep + Join(parts[1..], sep)
  }

  /** Splitting and re-joining with the same separator gives back the string. */
  lemma {:induction false} JoinSplit(s: String, c: char)
    ensures Join(Split(s, c), [c]) == s
    decreases |s|
  {
    match SplitOnce(s, c)
    case None =>
    case Some((a, b)) =>
      JoinSplit(b, c);
  }

  /** Joining pieces free of the separator and splitting again gives the pieces back. */
  lemma {:induction false} SplitJoin(parts: seq<String>, c: char)
    requires parts != []
    requires forall i | 0 <= i < |parts| :: c !in parts[i]
    ensures Split(Join(parts, [c]), c) == parts
  {
    if |parts| == 1 {
      assert SplitOnce(parts[0], c).None?;
    } else {
      SplitJoin(parts[1..], c);
      SplitOnceOf(parts[0], c, Join(parts[1..], [c]));
      assert parts == [parts[0]] + parts[1..];
    }
  }

  /** `str::replace(from, to)` for a non-empty pattern: left to right, non-overlapping. */
  function Replace(s: String, from: String, to: String): (r: String)
    requires from != []
    decreases |s|
  {
    if |s| < |from| then s
    else if s[..|from|] == from then to + Replace(s[|from|..], from, to)
    else [s[0]] + Replace(s[1..], from, to)
  }

  /** Replacing leaves a string without the pattern unchanged. */
  lemma {:induction false} ReplaceAbsent(s: String, from: String, to: String)
    requires from != [] && !Contains(s, from)
    ensures Replace(s, from, to) == s
    decreases |s|
  {
    if |s| >= |from| {
      assert !OccursAt(s, from, 0);
      assert !Contains(s[1..], from) by {
        if Contains(s[1..], from) {
          var i :| 0 <= i <= |s| - 1 - |from| && OccursAt(s[1..], from, i);
          assert s[1..][i..i + |from|] == from;
          assert s[i + 1..i + 1 + |from|] == from;
          assert OccursAt(s, from, i + 1);
        }
      }
      ReplaceAbsent(s[1..], from, to);
    }
  }

  /** Keeps the characters that satisfy no predicate: `retain(|c| !c.is_control())`. */
  function RemoveControl(s: String): (r: String)
    ensures forall i :: 0 <= i < |r| ==> !IsControl(r[i])
    ensures |r| <= |s|
  {
    if s == [] then [] else (if IsControl(s[0]) then [] else [s[0]]) + RemoveControl(s[1..])
  }

  // ------------------------------------------------------ decimal numbers

  function DigitChar(d: nat): (c: char)
    requires d < 10
    ensures IsAsciiDigit(c)
  {
    ('0' as int + d) as char
  }

  function DigitValue(c: char): (d: nat)
    requires IsAsciiDigit(c)
    ensures d < 10 && DigitChar(d) == c
  {
    c as int - '0' as int
  }

  predicate AllDigits(s: String) {
    forall i :: 0 <= i < |s| ==> IsAsciiDigit(s[i])
  }

  /** The decimal value of a digit string (a character that is not a digit counts as 0). */
  function DigitsValue(s: String): nat
  {
    if s == [] then 0
    else DigitsValue(s[..|s| - 1]) * 10 + (if IsAsciiDigit(s[|s| - 1]) then DigitValue(s[|s| - 1]) else 0)
  }

  /** `n.to_string()`: decimal digits, no leading zeros. */
  function NatToString(n: nat): (r: String)
    ensures r != [] && AllDigits(r)
    ensures |r| > 1 ==> r[0] != '0'
  {
    if n < 10 then [DigitChar(n)] else NatToString(n / 10) + [DigitChar(n % 10)]
  }

  lemma {:induction false} NatToStringValue(n: nat)
    ensures DigitsValue(NatToString(n)) == n
  {
    if n >= 10 {
      NatToStringValue(n / 10);
      var s := NatToString(n);
      assert s[..|s| - 1] == NatToString(n / 10);
    }
  }

  /** Printing a natural number never produces a '-' or a '.'. */
  lemma NatToStringNoSeparator(n: nat, c: char)
    requires !IsAsciiDigit(c)
    ensures c !in NatToString(n)
  {
  }

  /** `str::parse::<uN>()`: an optional '+', at least one digit, at most `max`. */
  function ParseUnsigned(s: String, max: nat): (r: Option<nat>)
    ensures r.Some? ==> r.value <= max
  {
    var digits := if s != [] && s[0] == '+' then s[1..] else s;
    if digits == [] || !AllDigits(digits) then None
    else if DigitsValue(digits) <= max then Some(DigitsValue(digits))
    else None
  }

  /** Parsing the printed form of a number in range gives the number back. */
  lemma ParseUnsignedPrinted(n: nat, max: nat)
    requires n <= max
    ensures ParseUnsigned(NatToString(n), max) == Some(n)
  {
    NatToStringValue(n);
  }

  /** `str::parse::<i64>()` (range `min..=max`): an optional sign, at least one digit. */
  function ParseSigned(s: String, min: int, max: int): (r: Option<int>)
    ensures r.Some? ==> min <= r.value <= max
  {
    var negative := s != [] && s[0] == '-';
    var digits := if s != [] && (s[0] == '+' || s[0] == '-') then s[1..] else s;
    if digits == [] || !AllDigits(digits) then None
    else
      var v: int := if negative then -(DigitsValue(digits) as int) else DigitsValue(digits);
      if min <= v <= max then Some(v) else None
  }

  /** `i64::to_string()`. */
  function IntToString(n: int): (r: String)
    ensures r != []
  {
    if n < 0 then "-" + NatToString(-n) else NatToString(n)
  }

  lemma ParseSignedPrinted(n: int, min: int, max: int)
    requires min <= n <= max
    ensures ParseSigned(IntToString(n), min, max) == Some(n)
  {
    NatToStringValue(if n < 0 then -n else n);
    if n < 0 {
      ParseSignedNegative(NatToString(-n), min, max);
    } else {
      ParseSignedDigits(NatToString(n), min, max);
    }
  }

  lemma ParseSignedNegative(d: String, min: int, max: int)
    requires d != [] && AllDigits(d) && min <= -(DigitsValue(d) as int) <= max
    ensures ParseSigned("-" + d, min, max) == Some(-(DigitsValue(d) as int))
  {
    var s := "-" + d;
    assert s[0] == '-' && s[1..] == d;
  }

  lemma ParseSignedDigits(d: String, min: int, max: int)
    requires d != [] && AllDigits(d) && min <= DigitsValue(d) <= max
    ensures ParseSigned(d, min, max) == Some(DigitsValue(d))
  {
    assert IsAsciiDigit(d[0]);
  }

  /** Left-pads the decimal form of `n` with zeros to at least `width` digits. */
  function PadDecimal(n: nat, width: nat): (r: String)
    ensures AllDigits(r) && |r| >= width && r != []
    decreases width
  {
    var s := NatToString(n);
    if |s| >= width then s else ['0'] + PadDecimal(n, width - 1)
  }

  lemma {:induction false} PadDecimalValue(n: nat, width: nat)
    ensures DigitsValue(PadDecimal(n, width)) == n
    decreases width
  {
    var s := NatToString(n);
    if |s| >= width {
      NatToStringValue(n);
    } else {
      PadDecimalValue(n, width - 1);
      LeadingZeroValue(PadDecimal(n, width - 1));
    }
  }

  lemma {:induction false} LeadingZeroValue(s: String)
    requires AllDigits(s)
    ensures DigitsValue(['0'] + s) == DigitsValue(s)
    decreases |s|
  {
    if s != [] {
      var t := ['0'] + s;
      assert t[..|t| - 1] == ['0'] + s[..|s| - 1];
      LeadingZeroValue(s[..|s| - 1]);
    }
  }

  function Pow10(k: nat): (r: nat)
    ensures r >= 1
  {
    if k == 0 then 1 else 10 * Pow10(k - 1)
  }

  /** A number below 10^k prints in at most k digits. */
  lemma {:induction false} NatToStringLength(n: nat, k: nat)
    requires 1 <= k && n < Pow10(k)
    ensures |NatToString(n)| <= k
  {
    if n >= 10 {
      assert k >= 2;
      assert n / 10 < Pow10(k - 1);
      NatToStringLength(n / 10, k - 1);
    }
  }

  /** Zero-padding to `width` gives exactly `width` digits when the number fits. */
  lemma {:induction false} PadDecimalLength(n: nat, width: nat)
    requires 1 <= width && n < Pow10(width)
    ensures |PadDecimal(n, width)| == width
    decreases width
  {
    NatToStringLength(n, width);
    if |NatToString(n)| < width {
      if width - 1 >= 1 && n < Pow10(width - 1) {
        PadDecimalLength(n, width - 1);
      } else {
        // n needs all `width` digits, contradicting the shorter printed form
        NatToStringAtLeast(n, width - 1);
      }
    }
  }

  /** A number of at least 10^k needs more than k digits. */
  lemma {:induction false} NatToStringAtLeast(n: nat, k: nat)
    requires n >= Pow10(k)
    ensures |NatToString(n)| > k
  {
    if k > 0 {
      assert n >= 10;
      assert n / 10 >= Pow10(k - 1);
      NatToStringAtLeast(n / 10, k - 1);
    }
  }

  // ------------------------------------------------------------ UTF-8

  /** Number of bytes of the UTF-8 encoding of one scalar value. */
  function Utf8Width(c: char): (n: nat)
    ensures 1 <= n <= 4
    ensures n == 1 <==> IsAscii(c)
  {
    if c < '\U{80}' then 1 else if c < '\U{800}' then 2 else if c < '\U{10000}' then 3 else 4
  }

  /** `str::len()`: the byte length of the UTF-8 encoding. */
  function Utf8Len(s: String): (n: nat)
    ensures n >= |s|
  {
    if s == [] then 0 else Utf8Width(s[0]) + Utf8Len(s[1..])
  }

  /** An ASCII text has one byte per character. */
  lemma {:induction false} Utf8LenAscii(s: String)
    requires forall i | 0 <= i < |s| :: IsAscii(s[i])
    ensures Utf8Len(s) == |s|
  {
    if s != [] {
      Utf8LenAscii(s[1..]);
    }
  }

  /** Byte lengths add up over concatenation. */
  lemma {:induction false} Utf8LenConcat(a: String, b: String)
    ensures Utf8Len(a + b) == Utf8Len(a) + Utf8Len(b)
  {
    if a != [] {
      assert (a + b)[1..] == a[1..] + b;
      Utf8LenConcat(a[1..], b);
    } else {
      assert a + b == b;
    }
  }
}
