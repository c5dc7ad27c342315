/**
 * The parts of SQLite's behaviour the queries of the catalogue rely on:
 * the BINARY text collation used by `order by`, a stable sort by a pair of
 * text keys, and `date(x)` on `YYYY-MM-DD` text for deadline comparisons.
 */
module Sql {
  import opened Wrappers
  import opened Text
  import opened Dates

  // ------------------------------------------------------------ collation

  /** `a <= b` under the BINARY collation: code point by code point, a prefix first. */
  predicate TextLe(a: String, b: String)
    decreases |a|
  {
    a == [] || (b != [] && (a[0] < b[0] || (a[0] == b[0] && TextLe(a[1..], b[1..]))))
  }

  lemma {:induction false} TextLeTotal(a: String, b: String)
    ensures TextLe(a, b) || TextLe(b, a)
    decreases |a|
  {
    if a != [] && b != [] && a[0] == b[0] {
      TextLeTotal(a[1..], b[1..]);
    }
  }

  lemma {:induction false} TextLeTrans(a: String, b: String, c: String)
    requires TextLe(a, b) && TextLe(b, c)
    ensures TextLe(a, c)
    decreases |a|
  {
    if a != [] && b != [] && c != [] && a[0] == b[0] && b[0] == c[0] {
      TextLeTrans(a[1..], b[1..], c[1..]);
    }
  }

  lemma {:induction false} TextLeAntisym(a: String, b: String)
    requires TextLe(a, b) && TextLe(b, a)
    ensures a == b
    decreases |a|
  {
    if a != [] {
      TextLeAntisym(a[1..], b[1..]);
      assert a == [a[0]] + a[1..] && b == [b[0]] + b[1..];
    }
  }

  /** `order by k1, k2`: lexicographic on the pair of keys. */
  predicate KeyLe(a: (String, String), b: (String, String)) {
    if a.0 == b.0 then TextLe(a.1, b.1) else TextLe(a.0, b.0)
  }

  lemma KeyLeTotal(a: (String, String), b: (String, String))
    ensures KeyLe(a, b) || KeyLe(b, a)
  {
    TextLeTotal(a.0, b.0);
    TextLeTotal(a.1, b.1);
  }

  lemma KeyLeTrans(a: (String, String), b: (String, String), c: (String, String))
    requires KeyLe(a, b) && KeyLe(b, c)
    ensures KeyLe(a, c)
  {
    if a.0 == b.0 && b.0 == c.0 {
      TextLeTrans(a.1, b.1, c.1);
    } else if a.0 == b.0 || b.0 == c.0 {
    } else {
      TextLeTrans(a.0, b.0, c.0);
      if a.0 == c.0 {
        TextLeAntisym(a.0, b.0);
      }
    }
  }

  // ------------------------------------------------------------ like

  /**
   * `s LIKE p` without an ESCAPE clause: '%' matches any run of characters,
   * '_' any one character, every other character itself up to ASCII case.
   */
  predicate Like(s: String, p: String)
    decreases |s| + |p|
  {
    if p == [] then s == []
    else if p[0] == '%' then Like(s, p[1..]) || (s != [] && Like(s[1..], p))
    else s != [] && (p[0] == '_' || ToAsciiLower(s[0]) == ToAsciiLower(p[0])) && Like(s[1..], p[1..])
  }

  /** A pattern without wildcards. */
  predicate Literal(p: String) {
    forall i | 0 <= i < |p| :: p[i] != '%' && p[i] != '_'
  }

  /** `'%'` matches every text. */
  lemma {:induction false} LikeAny(s: String)
    ensures Like(s, "%")
    decreases |s|
  {
    if s != [] {
      LikeAny(s[1..]);
    }
  }

  /** `'_%'` matches exactly the non-empty texts. */
  lemma LikeNonEmpty(s: String)
    ensures Like(s, "_%") <==> s != []
  {
    assert "_%"[1..] == "%";
    if s != [] {
      LikeAny(s[1..]);
    }
  }

  /** A literal pattern matches the texts equal to it up to ASCII case. */
  lemma {:induction false} LikeLiteral(s: String, p: String)
    requires Literal(p)
    ensures Like(s, p) <==> LowerAscii(s) == LowerAscii(p)
    decreases |p|
  {
    if p != [] && s != [] {
      LikeLiteral(s[1..], p[1..]);
      assert LowerAscii(s) == [ToAsciiLower(s[0])] + LowerAscii(s[1..]);
      assert LowerAscii(p) == [ToAsciiLower(p[0])] + LowerAscii(p[1..]);
    }
  }

  /** A leading '%' lets the rest of the pattern match any suffix. */
  lemma {:induction false} LikeLeadingAny(s: String, q: String)
    ensures Like(s, "%" + q) <==> exists k | 0 <= k <= |s| :: Like(s[k..], q)
    decreases |s|
  {
    var p := "%" + q;
    assert p[1..] == q;
    assert s[0..] == s;
    if s != [] {
      LikeLeadingAny(s[1..], q);
      forall k | 1 <= k <= |s| ensures s[1..][k - 1..] == s[k..] { }
    }
  }

  /** A literal followed by '%' matches the texts it begins, up to ASCII case. */
  lemma {:induction false} LikeLiteralThenAny(s: String, x: String)
    requires Literal(x)
    ensures Like(s, x + "%") <==> IsPrefix(LowerAscii(x), LowerAscii(s))
    decreases |x|
  {
    if x == [] {
      assert x + "%" == "%";
      LikeAny(s);
    } else {
      assert (x + "%")[1..] == x[1..] + "%";
      if s != [] {
        LikeLiteralThenAny(s[1..], x[1..]);
        assert LowerAscii(s) == [ToAsciiLower(s[0])] + LowerAscii(s[1..]);
        assert LowerAscii(x) == [ToAsciiLower(x[0])] + LowerAscii(x[1..]);
      }
    }
  }

  lemma LowerAsciiSuffix(s: String, k: int)
    requires 0 <= k <= |s|
    ensures LowerAscii(s[k..]) == LowerAscii(s)[k..]
  {
  }

  /** `s LIKE '%' || x || '%'` for a literal `x` is containment up to ASCII case. */
  lemma LikeInfix(s: String, x: String)
    requires Literal(x)
    ensures Like(s, "%" + x + "%") <==> LikeContains(s, x)
  {
    assert "%" + x + "%" == "%" + (x + "%");
    LikeLeadingAny(s, x + "%");
    var ls, lx := LowerAscii(s), LowerAscii(x);
    if Like(s, "%" + x + "%") {
      var k :| 0 <= k <= |s| && Like(s[k..], x + "%");
      LikeLiteralThenAny(s[k..], x);
      LowerAsciiSuffix(s, k);
      assert OccursAt(ls, lx, k);
    }
    if LikeContains(s, x) {
      var k :| 0 <= k <= |ls| - |lx| && OccursAt(ls, lx, k);
      LikeLiteralThenAny(s[k..], x);
      LowerAsciiSuffix(s, k);
    }
  }

  /** Every text matches itself followed by '%', wildcards and all. */
  lemma {:induction false} LikeOwnPrefix(p: String, rest: String)
    ensures Like(p + rest, p + "%")
    decreases |p|
  {
    if p == [] {
      assert p + rest == rest && p + "%" == "%";
      LikeAny(rest);
    } else {
      LikeOwnPrefix(p[1..], rest);
      assert (p + rest)[1..] == p[1..] + rest;
      assert (p + "%")[1..] == p[1..] + "%";
      if p[0] == '%' {
        // the leading '%' first consumes the '%' of the text, then nothing
        assert Like(p[1..] + rest, p + "%");
      }
    }
  }

  // ------------------------------------------------------------ order by

  predicate SortedBy<T>(s: seq<T>, key: T -> (String, String)) {
    forall i, j | 0 <= i < j < |s| :: KeyLe(key(s[i]), key(s[j]))
  }

  /** Inserts `x` into a sorted sequence after every element whose key is not greater. */
  function Insert<T>(x: T, s: seq<T>, key: T -> (String, String)): (r: seq<T>)
    requires SortedBy(s, key)
    ensures SortedBy(r, key) && multiset(r) == multiset(s) + multiset{x}
  {
    if s == [] then [x]
    else if KeyLe(key(x), key(s[0])) then
      InsertFront(x, s, key);
      [x] + s
    else
      var rest := Insert(x, s[1..], key);
      KeyLeTotal(key(x), key(s[0]));
      InsertBehind(s[0], rest, s[1..], x, key);
      assert s == [s[0]] + s[1..];
      [s[0]] + rest
  }

  lemma InsertFront<T>(x: T, s: seq<T>, key: T -> (String, String))
    requires SortedBy(s, key) && s != [] && KeyLe(key(x), key(s[0]))
    ensures SortedBy([x] + s, key)
  {
    forall j | 1 <= j < |s| + 1
      ensures KeyLe(key(x), key(([x] + s)[j]))
    {
      if j > 1 { KeyLeTrans(key(x), key(s[0]), key(s[j - 1])); }
    }
  }

  lemma InsertBehind<T>(h: T, rest: seq<T>, tail: seq<T>, x: T, key: T -> (String, String))
    requires SortedBy(rest, key) && SortedBy([h] + tail, key) && KeyLe(key(h), key(x))
    requires multiset(rest) == multiset(tail) + multiset{x}
    ensures SortedBy([h] + rest, key)
  {
    forall j | 0 <= j < |rest|
      ensures KeyLe(key(h), key(rest[j]))
    {
      assert rest[j] in multiset(rest);
      if rest[j] != x {
        assert rest[j] in multiset(tail);
        var k :| 0 <= k < |tail| && tail[k] == rest[j];
        assert ([h] + tail)[0] == h && ([h] + tail)[k + 1] == tail[k];
        assert KeyLe(key(([h] + tail)[0]), key(([h] + tail)[k + 1]));
      }
    }
  }

  /** `order by`: a permutation of the rows, sorted by the key pair. */
  function SortBy<T>(s: seq<T>, key: T -> (String, String)): (r: seq<T>)
    ensures SortedBy(r, key) && multiset(r) == multiset(s)
  {
    if s == [] then []
    else
      var r := Insert(s[|s| - 1], SortBy(s[..|s| - 1], key), key);
      assert s == s[..|s| - 1] + [s[|s| - 1]];
      r
  }

  // ------------------------------------------------------------ date(x)

  /**
   * `JulianDay(date(x))` for text of the form `YYYY-MM-DD` (month 1..12,
   * day 1..31, a day past the month's end rolling over as SQLite does),
   * as a day number, and `NULL` for other text. SQLite's other accepted
   * forms (a date followed by a time, a Julian day number, `'now'`) are not
   * modelled and are `NULL` here too.
   */
  function SqlDay(s: String): (r: Option<int>)
    ensures r.Some? ==> |s| == 10
  {
    if |s| == 10 && AllDigits(s[..4]) && s[4] == '-' && AllDigits(s[5..7]) && s[7] == '-' && AllDigits(s[8..])
    then
      var y, m, d := DigitsValue(s[..4]), DigitsValue(s[5..7]), DigitsValue(s[8..]);
      if 1 <= m <= 12 && 1 <= d <= 31 then Some(DayNumber(Date(y, m, d))) else None
    else None
  }

  /** The `%F` text of a date in years 0..9999 is read back by `date(x)` as the same day. */
  lemma SqlDayOfIso(d: Date)
    requires Dates.Valid(d) && 0 <= d.year <= 9999
    ensures SqlDay(FormatIso(d)) == Some(DayNumber(d))
  {
    var ys, ms, ds := PadDecimal(d.year, 4), PadDecimal(d.month, 2), PadDecimal(d.day, 2);
    assert Pow10(4) == 10000 && Pow10(2) == 100;
    PadDecimalLength(d.year, 4);
    PadDecimalLength(d.month, 2);
    PadDecimalLength(d.day, 2);
    PadDecimalValue(d.year, 4);
    PadDecimalValue(d.month, 2);
    PadDecimalValue(d.day, 2);
    SqlDayOf(ys, ms, ds);
  }

  lemma SqlDayOf(ys: String, ms: String, ds: String)
    requires |ys| == 4 && |ms| == 2 && |ds| == 2 && AllDigits(ys) && AllDigits(ms) && AllDigits(ds)
    requires 1 <= DigitsValue(ms) <= 12 && 1 <= DigitsValue(ds) <= 31
    ensures SqlDay(ys + "-" + ms + "-" + ds) == Some(DayNumber(Date(DigitsValue(ys), DigitsValue(ms), DigitsValue(ds))))
  {
    var s := ys + "-" + ms + "-" + ds;
    assert s[..4] == ys && s[4] == '-' && s[5..7] == ms && s[7] == '-' && s[8..] == ds;
  }
}
