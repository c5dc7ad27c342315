/**
 * The ISBN normaliser of `src/isbn.rs`: an input string is reduced to its
 * digit values (`X`/`x` standing for 10) and accepted when it satisfies the
 * ISBN-10 or the ISBN-13 check-digit rule of ISO 2108.
 */
module Isbn {
  import opened Wrappers
  import opened Text

  /** A filtered value is a decimal digit 0..9, or 10 for `X`. */
  type Value = nat

  predicate ValidValues(v: seq<Value>) {
    forall i :: 0 <= i < |v| ==> v[i] <= 10
  }

  predicate AllDigitValues(v: seq<Value>) {
    forall i :: 0 <= i < |v| ==> v[i] < 10
  }

  /** The characters the filter keeps. */
  predicate Kept(c: char) { IsAsciiDigit(c) || c == 'X' || c == 'x' }

  function CharValue(c: char): Value
    requires Kept(c)
  {
    if c == 'X' || c == 'x' then 10 else c as int - '0' as int
  }

  /** The `filter_map` of `parse`: digits become their value, `X`/`x` becomes 10, the rest is dropped. */
  function Values(input: String): seq<Value>
  {
    ValuesFrom(input, 0)
  }

  /** The filter applied to `input[i..]`, walking by index. */
  function ValuesFrom(input: String, i: nat): seq<Value>
    requires i <= |input|
    decreases |input| - i
  {
    if i == |input| then []
    else (if Kept(input[i]) then [CharValue(input[i])] else []) + ValuesFrom(input, i + 1)
  }

  lemma {:induction false} ValuesFromBounds(input: String, i: nat)
    requires i <= |input|
    ensures |ValuesFrom(input, i)| <= |input| - i && ValidValues(ValuesFrom(input, i))
    decreases |input| - i
  {
    if i < |input| { ValuesFromBounds(input, i + 1); }
  }

  /** The filter never lengthens its input, and every value is at most 10. */
  lemma ValuesBounds(input: String)
    ensures |Values(input)| <= |input| && ValidValues(Values(input))
  {
    ValuesFromBounds(input, 0);
  }

  lemma {:induction false} ValuesFromShift(input: String, i: nat)
    requires 1 <= i <= |input|
    ensures ValuesFrom(input, i) == ValuesFrom(input[1..], i - 1)
    decreases |input| - i
  {
    if i < |input| { ValuesFromShift(input, i + 1); }
  }

  /** One step of the filter: the first character's contribution, then the rest. */
  lemma ValuesCons(input: String)
    requires input != []
    ensures Values(input) == (if Kept(input[0]) then [CharValue(input[0])] else []) + Values(input[1..])
  {
    ValuesFromShift(input, 1);
  }

  /** Sum over the first `k` values with weights 1, 2, ..., k. */
  function Sum10(v: seq<Value>, k: nat): nat
    requires k <= |v|
  {
    if k == 0 then 0 else Sum10(v, k - 1) + k * v[k - 1]
  }

  /** Sum over the first `k` values with the alternating weights 1, 3, 1, 3, ... */
  function Sum13(v: seq<Value>, k: nat): nat
    requires k <= |v|
  {
    if k == 0 then 0 else Sum13(v, k - 1) + Weight13(k - 1) * v[k - 1]
  }

  function Weight13(i: nat): nat { 1 + 2 * (i % 2) }

  function Checksum10(v: seq<Value>): (r: Value)
    requires |v| >= 9
    ensures r <= 10
  {
    Sum10(v, 9) % 11
  }

  /** The ISBN-13 weighted sum never exceeds 360, so `400 - sum` cannot underflow. */
  lemma {:induction false} Sum13Bound(v: seq<Value>, k: nat)
    requires k <= |v| && ValidValues(v)
    ensures Sum13(v, k) <= 30 * k
  {
    if k > 0 {
      Sum13Bound(v, k - 1);
      assert Weight13(k - 1) * v[k - 1] <= 30 by {
        if k % 2 == 0 { assert Weight13(k - 1) == 3; } else { assert Weight13(k - 1) == 1; }
      }
    }
  }

  /** `(400 - sum) % 10`; on valid values the sum never exceeds 360, so the subtraction cannot underflow. */
  function Checksum13(v: seq<Value>): (r: Value)
    requires |v| >= 12 && ValidValues(v)
    ensures r < 10
  {
    Sum13Bound(v, 12);
    (400 - Sum13(v, 12)) % 10
  }

  predicate Is10(v: seq<Value>) {
    |v| == 10 && AllDigitValues(v[..9]) && v[9] == Checksum10(v)
  }

  predicate Is13(v: seq<Value>) {
    |v| == 13 && AllDigitValues(v) && v[12] == Checksum13(v)
  }

  /** `isbn_str`: each value below 10 printed as its digit, any other value as `X`. */
  function IsbnStr(v: seq<Value>): (r: String)
    ensures |r| == |v|
  {
    if v == [] then [] else [if v[0] < 10 then DigitChar(v[0]) else 'X'] + IsbnStr(v[1..])
  }

  /** Each printed character is a kept character standing for its value, and `X` stands exactly for 10. */
  lemma {:induction false} IsbnStrChars(v: seq<Value>)
    requires ValidValues(v)
    ensures forall i :: 0 <= i < |v| ==> Kept(IsbnStr(v)[i]) && CharValue(IsbnStr(v)[i]) == v[i]
    ensures forall i :: 0 <= i < |v| ==> (IsbnStr(v)[i] == 'X' <==> v[i] == 10)
  {
    if v != [] {
      IsbnStrChars(v[1..]);
      assert forall i :: 1 <= i < |v| ==> IsbnStr(v)[i] == IsbnStr(v[1..])[i - 1];
    }
  }

  /** `parse`: the stripped string, as `Ok` when it is a valid ISBN-10 or ISBN-13, else as `Err`. */
  function Parse(input: String): (r: Result<String, String>)
  {
    var v := Values(input);
    if Is10(v) || Is13(v) then Ok(IsbnStr(v)) else Err(IsbnStr(v))
  }

  /** The string carried by either outcome of `Parse`. */
  function Stripped(r: Result<String, String>): String {
    match r
    case Ok(s) => s
    case Err(s) => s
  }

  // ------------------------------------------------------------ properties

  /** The filter distributes over concatenation. */
  lemma {:induction false} ValuesConcat(a: String, b: String)
    ensures Values(a + b) == Values(a) + Values(b)
  {
    if a != [] {
      var ab := a + b;
      assert ab[0] == a[0] && ab[1..] == a[1..] + b;
      ValuesCons(ab);
      ValuesCons(a);
      ValuesConcat(a[1..], b);
    } else {
      assert a + b == b;
    }
  }

  /** Only digits and `X`/`x` survive the filter: a digit keeps its value, `X`/`x` becomes 10, anything else vanishes. */
  lemma ValuesOfChar(c: char)
    ensures IsAsciiDigit(c) ==> Values([c]) == [DigitValue(c)]
    ensures (c == 'X' || c == 'x') ==> Values([c]) == [10]
    ensures !Kept(c) ==> Values([c]) == []
  {
    ValuesCons([c]);
  }

  /** A string with no digit and no `X`/`x` filters to nothing. */
  lemma {:induction false} ValuesOfDropped(s: String)
    requires forall i :: 0 <= i < |s| ==> !Kept(s[i])
    ensures Values(s) == []
  {
    if s != [] { ValuesCons(s); ValuesOfDropped(s[1..]); }
  }

  /** Filtering the printed form gives back the values. */
  lemma {:induction false} ValuesOfIsbnStr(v: seq<Value>)
    requires ValidValues(v)
    ensures Values(IsbnStr(v)) == v
  {
    if v != [] {
      ValuesOfIsbnStr(v[1..]);
      assert IsbnStr(v)[1..] == IsbnStr(v[1..]);
      ValuesCons(IsbnStr(v));
    }
  }

  /** A string of digits and upper-case `X` is its own stripped form. */
  lemma {:induction false} IsbnStrOfValues(t: String)
    requires forall i :: 0 <= i < |t| ==> IsAsciiDigit(t[i]) || t[i] == 'X'
    ensures IsbnStr(Values(t)) == t
  {
    if t != [] {
      ValuesCons(t);
      IsbnStrOfValues(t[1..]);
    }
  }

  /** Both outcomes carry the same stripped string, and the outcome is `Ok` exactly for valid ISBNs. */
  lemma ParseOutcome(input: String)
    ensures Stripped(Parse(input)) == IsbnStr(Values(input))
    ensures Parse(input).Ok? <==> Is10(Values(input)) || Is13(Values(input))
  {
  }

  /** Parsing is idempotent: the stripped string parses to itself with the same verdict. */
  lemma ParseIdempotent(input: String)
    ensures Parse(Stripped(Parse(input))) == Parse(input)
  {
    ValuesBounds(input);
    ValuesOfIsbnStr(Values(input));
  }

  /** `checksum10` lies in 0..10, and exactly the value 10 prints as `X`. */
  lemma Checksum10Range(v: seq<Value>)
    requires |v| >= 9
    ensures Checksum10(v) <= 10
    ensures IsbnStr([Checksum10(v)]) == (if Checksum10(v) == 10 then "X" else [DigitChar(Checksum10(v))])
  {
  }

  /** With digits only, the ISBN-13 sum is at most 216 (= 9 * (6 * 1 + 6 * 3)). */
  lemma {:induction false} Sum13DigitBound(v: seq<Value>)
    requires |v| >= 12 && AllDigitValues(v[..12])
    ensures Sum13(v, 12) <= 216
  {
    Sum13Split(v, 12);
  }

  /** Sum13 over an even prefix: 9 per position of weight 1 and 27 per position of weight 3. */
  lemma {:induction false} Sum13Split(v: seq<Value>, k: nat)
    requires k <= |v| && k % 2 == 0 && AllDigitValues(v[..k])
    ensures Sum13(v, k) <= 18 * k
  {
    if k > 0 {
      assert v[..k - 2] == v[..k][..k - 2];
      assert v[..k][k - 1] == v[k - 1] && v[..k][k - 2] == v[k - 2];
      Sum13Split(v, k - 2);
      assert Weight13(k - 1) == 3 && Weight13(k - 2) == 1;
    }
  }

  /** A valid ISBN-10 has `X` at most in its last position. */
  lemma Is10XOnlyLast(v: seq<Value>)
    requires Is10(v)
    ensures forall i :: 0 <= i < 9 ==> IsbnStr(v)[i] != 'X'
  {
    IsbnStrChars(v);
    forall i | 0 <= i < 9 ensures IsbnStr(v)[i] != 'X' {
      assert v[..9][i] == v[i];
    }
  }

  /** Any `X` makes a 13-value input invalid. */
  lemma Is13NoX(v: seq<Value>)
    requires |v| == 13 && exists i :: 0 <= i < 13 && v[i] == 10
    ensures !Is13(v)
  {
  }

  /** The ISBN-10 fold written out term by term. */
  lemma Sum10Unrolled(v: seq<Value>)
    requires |v| >= 9
    ensures Sum10(v, 9) == v[0] + 2 * v[1] + 3 * v[2] + 4 * v[3] + 5 * v[4] + 6 * v[5] + 7 * v[6] + 8 * v[7] + 9 * v[8]
  {
    assert Sum10(v, 1) == v[0];
    assert Sum10(v, 2) == v[0] + 2 * v[1];
    assert Sum10(v, 3) == v[0] + 2 * v[1] + 3 * v[2];
    assert Sum10(v, 4) == v[0] + 2 * v[1] + 3 * v[2] + 4 * v[3];
    assert Sum10(v, 5) == v[0] + 2 * v[1] + 3 * v[2] + 4 * v[3] + 5 * v[4];
    assert Sum10(v, 6) == v[0] + 2 * v[1] + 3 * v[2] + 4 * v[3] + 5 * v[4] + 6 * v[5];
    assert Sum10(v, 7) == v[0] + 2 * v[1] + 3 * v[2] + 4 * v[3] + 5 * v[4] + 6 * v[5] + 7 * v[6];
    assert Sum10(v, 8) == v[0] + 2 * v[1] + 3 * v[2] + 4 * v[3] + 5 * v[4] + 6 * v[5] + 7 * v[6] + 8 * v[7];
    assert Sum10(v, 9) == v[0] + 2 * v[1] + 3 * v[2] + 4 * v[3] + 5 * v[4] + 6 * v[5] + 7 * v[6] + 8 * v[7] + 9 * v[8];
  }

  /** The ISBN-13 fold written out term by term. */
  lemma Sum13Unrolled(v: seq<Value>)
    requires |v| >= 12
    ensures Sum13(v, 12) == v[0] + 3 * v[1] + v[2] + 3 * v[3] + v[4] + 3 * v[5] + v[6] + 3 * v[7] + v[8] + 3 * v[9] + v[10] + 3 * v[11]
  {
    assert Weight13(0) == 1;
    assert Weight13(1) == 3;
    assert Weight13(2) == 1;
    assert Weight13(3) == 3;
    assert Weight13(4) == 1;
    assert Weight13(5) == 3;
    assert Weight13(6) == 1;
    assert Weight13(7) == 3;
    assert Weight13(8) == 1;
    assert Weight13(9) == 3;
    assert Weight13(10) == 1;
    assert Weight13(11) == 3;
    assert Sum13(v, 1) == v[0];
    assert Sum13(v, 2) == v[0] + 3 * v[1];
    assert Sum13(v, 3) == v[0] + 3 * v[1] + v[2];
    assert Sum13(v, 4) == v[0] + 3 * v[1] + v[2] + 3 * v[3];
    assert Sum13(v, 5) == v[0] + 3 * v[1] + v[2] + 3 * v[3] + v[4];
    assert Sum13(v, 6) == v[0] + 3 * v[1] + v[2] + 3 * v[3] + v[4] + 3 * v[5];
    assert Sum13(v, 7) == v[0] + 3 * v[1] + v[2] + 3 * v[3] + v[4] + 3 * v[5] + v[6];
    assert Sum13(v, 8) == v[0] + 3 * v[1] + v[2] + 3 * v[3] + v[4] + 3 * v[5] + v[6] + 3 * v[7];
    assert Sum13(v, 9) == v[0] + 3 * v[1] + v[2] + 3 * v[3] + v[4] + 3 * v[5] + v[6] + 3 * v[7] + v[8];
    assert Sum13(v, 10) == v[0] + 3 * v[1] + v[2] + 3 * v[3] + v[4] + 3 * v[5] + v[6] + 3 * v[7] + v[8] + 3 * v[9];
    assert Sum13(v, 11) == v[0] + 3 * v[1] + v[2] + 3 * v[3] + v[4] + 3 * v[5] + v[6] + 3 * v[7] + v[8] + 3 * v[9] + v[10];
    assert Sum13(v, 12) == v[0] + 3 * v[1] + v[2] + 3 * v[3] + v[4] + 3 * v[5] + v[6] + 3 * v[7] + v[8] + 3 * v[9] + v[10] + 3 * v[11];
  }

  // ------------------------------------------- the ISO 2108 check-digit rules

  /** Σ_{i=1..10} i·d_i, the ISBN-10 sum of ISO 2108 including the check digit. */
  function IsoSum10(v: seq<Value>): nat
    requires |v| == 10
  {
    Sum10(v, 10)
  }

  /** ISO 2108: a 10-value ISBN is valid when Σ i·d_i ≡ 0 (mod 11) and only the check position may be 10. */
  lemma Is10IffIsoRule(v: seq<Value>)
    requires |v| == 10 && ValidValues(v)
    ensures Is10(v) <==> AllDigitValues(v[..9]) && IsoSum10(v) % 11 == 0
  {
    var s := Sum10(v, 9);
    assert IsoSum10(v) == s + 10 * (v[9] as int);
    // s + 10·d ≡ 0 (mod 11)  <==>  d ≡ s (mod 11), and d lies in 0..10
    var q := s / 11;
    var m := s % 11;
    assert s == 11 * q + m;
    var d: int := v[9];
    assert s + 10 * d == 11 * (q + d) + (m - d);
    if d == m {
      assert (s + 10 * d) % 11 == 0;
    }
    if (s + 10 * d) % 11 == 0 {
      ModZeroDiff(11 * (q + d), m - d, 11);
    }
  }

  /** If `a` is a multiple of `n` and `a + d` is too, with |d| < n, then d is 0. */
  lemma ModZeroDiff(a: int, d: int, n: int)
    requires n > 0 && a % n == 0 && (a + d) % n == 0 && -n < d < n
    ensures d == 0
  {
    var k := (a + d) / n - a / n;
    assert d == n * k;
    if k >= 1 {
      MulAtLeast(n, k);
    } else if k <= -1 {
      MulAtLeast(n, -k);
    }
  }

  lemma MulAtLeast(n: int, k: int)
    requires n > 0 && k >= 1
    ensures n * k >= n
  {
    var j := k - 1;
    assert n * k == n * j + n;
    assert n * j >= 0;
  }

  /** Σ_{i=0..12} w_i·d_i with weights 1, 3, 1, 3, ..., 1: the ISBN-13 sum of ISO 2108. */
  function IsoSum13(v: seq<Value>): nat
    requires |v| == 13
  {
    Sum13(v, 13)
  }

  /** ISO 2108: a 13-digit ISBN is valid when its weighted sum is ≡ 0 (mod 10). */
  lemma Is13IffIsoRule(v: seq<Value>)
    requires |v| == 13
    ensures Is13(v) <==> AllDigitValues(v) && IsoSum13(v) % 10 == 0
  {
    var s := Sum13(v, 12);
    assert Weight13(12) == 1;
    assert IsoSum13(v) == s + v[12];
    if AllDigitValues(v) {
      Sum13Bound(v, 12);
      var c := (400 - s) % 10;
      assert c == Checksum13(v);
      var q := (400 - s) / 10;
      assert 400 - s == 10 * q + c;
      assert s + c == 10 * (40 - q);
      if v[12] == c {
        assert (s + v[12]) % 10 == 0;
      }
      if (s + v[12]) % 10 == 0 {
        ModZeroDiff(s + c, v[12] - c, 10);
      }
    }
  }

  // ------------------------------------------------------------ test vectors

  /** Characters other than digits and `X`/`x`, such as the hyphens of a printed ISBN, never change the outcome. */
  lemma ParseDropsSeparator(a: String, c: char, b: String)
    requires !Kept(c)
    ensures Parse(a + [c] + b) == Parse(a + b)
  {
    ValuesConcat(a + [c], b);
    ValuesConcat(a, [c]);
    ValuesConcat(a, b);
    ValuesOfChar(c);
    assert Values(a + [c]) == Values(a);
  }

  // The test vectors of `src/isbn.rs`. Each is reduced to a lemma about
  // symbolic characters, so that the solver never has to unfold the filter
  // over a whole literal string.

  /** Printed ISBN characters filter to their values one for one. */
  lemma {:induction false} ValuesOfKept(s: String)
    requires forall i :: 0 <= i < |s| ==> Kept(s[i])
    ensures |Values(s)| == |s|
    ensures forall i :: 0 <= i < |s| ==> Values(s)[i] == CharValue(s[i])
  {
    if s != [] {
      ValuesCons(s);
      ValuesOfKept(s[1..]);
    }
  }

  /** A ten-character candidate of digits and `X`: the ISBN-10 rule evaluated on its characters. */
  lemma Vector10(s: String, ok: bool)
    requires |s| == 10 && forall i :: 0 <= i < |s| ==> IsAsciiDigit(s[i]) || s[i] == 'X'
    requires ok == ((forall i :: 0 <= i < 9 ==> s[i] != 'X') && CharValue(s[9]) == (CharValue(s[0]) + 2 * CharValue(s[1]) + 3 * CharValue(s[2]) + 4 * CharValue(s[3]) + 5 * CharValue(s[4]) + 6 * CharValue(s[5]) + 7 * CharValue(s[6]) + 8 * CharValue(s[7]) + 9 * CharValue(s[8])) % 11)
    ensures Parse(s) == if ok then Ok(s) else Err(s)
  {
    ValuesOfKept(s);
    IsbnStrOfValues(s);
    var v := Values(s);
    Sum10Unrolled(v);
    assert AllDigitValues(v[..9]) <==> forall i :: 0 <= i < 9 ==> s[i] != 'X';
  }

  lemma VectorIsbn10X()
    ensures Parse("353411292X") == Ok("353411292X")
  {
    Vector10("353411292X", true);
  }
  lemma VectorTwoX()
    ensures Parse("35341129XX") == Err("35341129XX")
  {
    Vector10("35341129XX", false);
  }
  lemma VectorIsbn10()
    ensures Parse("3440039145") == Ok("3440039145")
  {
    Vector10("3440039145", true);
  }
  lemma VectorBadChecksum()
    ensures Parse("1234567890") == Err("1234567890")
  {
    Vector10("1234567890", false);
  }
  /** A thirteen-digit candidate: the ISBN-13 rule evaluated on its characters. */
  lemma Vector13(s: String, ok: bool)
    requires |s| == 13 && forall i :: 0 <= i < |s| ==> IsAsciiDigit(s[i])
    requires ok == (CharValue(s[12]) == (400 - (CharValue(s[0]) + 3 * CharValue(s[1]) + CharValue(s[2]) + 3 * CharValue(s[3]) + CharValue(s[4]) + 3 * CharValue(s[5]) + CharValue(s[6]) + 3 * CharValue(s[7]) + CharValue(s[8]) + 3 * CharValue(s[9]) + CharValue(s[10]) + 3 * CharValue(s[11]))) % 10)
    ensures Parse(s) == if ok then Ok(s) else Err(s)
  {
    ValuesOfKept(s);
    IsbnStrOfValues(s);
    var v := Values(s);
    Sum13Unrolled(v);
  }
  lemma VectorIsbn13A()
    ensures Parse("9783923923410") == Ok("9783923923410")
  {
    Vector13("9783923923410", true);
  }
  lemma VectorIsbn13B()
    ensures Parse("9781338099133") == Ok("9781338099133")
  {
    Vector13("9781338099133", true);
  }
  /** The filter skips a dropped character at any position. */
  lemma ValuesSkip(s: String, k: nat)
    requires k < |s| && !Kept(s[k])
    ensures Values(s) == Values(s[..k] + s[k + 1..])
  {
    assert s == s[..k] + [s[k]] + s[k + 1..];
    ValuesConcat(s[..k] + [s[k]], s[k + 1..]);
    ValuesConcat(s[..k], [s[k]]);
    ValuesConcat(s[..k], s[k + 1..]);
    ValuesOfChar(s[k]);
  }

  /** A hyphenated ISBN-10 in the 1-3-5-1 grouping filters like its digits alone. */
  lemma Hyphenated10(s: String, t: String)
    requires |s| == 13 && |t| == 10
    requires s[1] == '-' && s[5] == '-' && s[11] == '-'
    requires s[0] == t[0] && s[2] == t[1] && s[3] == t[2] && s[4] == t[3]
    requires s[6] == t[4] && s[7] == t[5] && s[8] == t[6] && s[9] == t[7] && s[10] == t[8] && s[12] == t[9]
    ensures Values(s) == Values(t)
  {
    ValuesSkip(s, 11);
    var s1 := s[..11] + s[12..];
    ValuesSkip(s1, 5);
    var s2 := s1[..5] + s1[6..];
    ValuesSkip(s2, 1);
    var s3 := s2[..1] + s2[2..];
    assert s3 == t;
  }

  lemma VectorIsbn10Hyphens()
    ensures Parse("3-440-03914-5") == Ok("3440039145")
  {
    Hyphenated10("3-440-03914-5", "3440039145");
    VectorIsbn10();
  }
  /** A hyphen after the EAN prefix of an ISBN-13 is dropped by the filter. */
  lemma Hyphenated13(s: String, t: String)
    requires |s| == 14 && |t| == 13 && s[3] == '-'
    requires forall i :: 0 <= i < 3 ==> s[i] == t[i]
    requires forall i :: 4 <= i < 14 ==> s[i] == t[i - 1]
    ensures Values(s) == Values(t)
  {
    ValuesSkip(s, 3);
    assert s[..3] + s[4..] == t;
  }

  lemma VectorIsbn13Hyphen()
    ensures Parse("978-3923923410") == Ok("9783923923410")
  {
    Hyphenated13("978-3923923410", "9783923923410");
    VectorIsbn13A();
  }

  lemma VectorEmpty()
    ensures Parse("") == Err("")
  {
    assert Values("") == [];
  }
}
