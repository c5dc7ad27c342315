/**
 * The `application/x-www-form-urlencoded` format of section 5 of the WHATWG
 * URL Standard, which `URLSearchParams.prototype.toString` produces: the
 * serializer of section 5.2, and the parser of section 5.1 that a server
 * applies to the query it receives. Text is encoded as UTF-8 first; the
 * parser here decodes UTF-8 strictly, where the standard substitutes
 * U+FFFD for malformed input, which the serializer never produces.
 */
module FormUrlencoded {
  import opened Wrappers
  import opened Text
  import opened Ints

  // ------------------------------------------------------------------ UTF-8

  /** The UTF-8 encoding of one scalar value, as in section 3 of RFC 3629. */
  function CharBytes(c: char): (r: seq<u8>)
    ensures |r| == Utf8Width(c)
  {
    var v := c as int;
    var q := v / 64;
    var qq := q / 64;
    var qqq := qq / 64;
    if v < 0x80 then [v]
    else if v < 0x800 then [0xC0 + q, 0x80 + v % 64]
    else if v < 0x10000 then [0xE0 + qq, 0x80 + q % 64, 0x80 + v % 64]
    else [0xF0 + qqq, 0x80 + qq % 64, 0x80 + q % 64, 0x80 + v % 64]
  }

  function Utf8Encode(s: String): (r: seq<u8>)
    ensures |r| == Utf8Len(s)
  {
    if s == [] then [] else CharBytes(s[0]) + Utf8Encode(s[1..])
  }

  lemma {:induction false} Utf8EncodeConcat(a: String, b: String)
    ensures Utf8Encode(a + b) == Utf8Encode(a) + Utf8Encode(b)
  {
    if a != [] {
      assert (a + b)[1..] == a[1..] + b;
      Utf8EncodeConcat(a[1..], b);
    } else {
      assert a + b == b;
    }
  }

  predicate IsScalar(v: int) {
    0 <= v < 0xD800 || 0xE000 <= v < 0x110000
  }

  /**
   * The first character of a UTF-8 byte sequence and the number of bytes
   * it takes; `None` for a stray continuation byte, a truncated sequence,
   * an over-long form, a surrogate or a value above U+10FFFF.
   */
  function DecodeFirst(bytes: seq<u8>): (r: Option<(char, nat)>)
    requires bytes != []
    ensures r.Some? ==> 1 <= r.value.1 <= |bytes|
  {
    var b0: int := bytes[0];
    var b1: int := if |bytes| >= 2 then bytes[1] as int - 0x80 else -1;
    var b2: int := if |bytes| >= 3 then bytes[2] as int - 0x80 else -1;
    var b3: int := if |bytes| >= 4 then bytes[3] as int - 0x80 else -1;
    if b0 < 0x80 then Some((b0 as char, 1))
    else if 0xC0 <= b0 < 0xE0 && 0 <= b1 < 64 then
      var v := (b0 - 0xC0) * 64 + b1;
      if v >= 0x80 then Some((v as char, 2)) else None
    else if 0xE0 <= b0 < 0xF0 && 0 <= b1 < 64 && 0 <= b2 < 64 then
      var v := ((b0 - 0xE0) * 64 + b1) * 64 + b2;
      if v >= 0x800 && IsScalar(v) then Some((v as char, 3)) else None
    else if 0xF0 <= b0 < 0xF8 && 0 <= b1 < 64 && 0 <= b2 < 64 && 0 <= b3 < 64 then
      var v := (((b0 - 0xF0) * 64 + b1) * 64 + b2) * 64 + b3;
      if v >= 0x10000 && IsScalar(v) then Some((v as char, 4)) else None
    else None
  }

  /** UTF-8 decoding; `None` when the bytes are not well-formed UTF-8. */
  function Utf8Decode(bytes: seq<u8>): (r: Option<String>)
    decreases |bytes|
  {
    if bytes == [] then Some([])
    else match DecodeFirst(bytes)
      case None => None
      case Some((c, n)) =>
        match Utf8Decode(bytes[n..])
        case None => None
        case Some(rest) => Some([c] + rest)
  }

  /** Each character's encoding decodes back to it, whatever follows. */
  lemma DecodeCharBytes(c: char, rest: seq<u8>)
    ensures DecodeFirst(CharBytes(c) + rest) == Some((c, |CharBytes(c)|))
  {
    var v := c as int;
    var q := v / 64;
    var qq := q / 64;
    assert v == q * 64 + v % 64;
    assert q == qq * 64 + q % 64;
    assert qq == qq / 64 * 64 + qq % 64;
  }

  /** Decoding undoes encoding. */
  lemma {:induction false} Utf8RoundTrip(s: String)
    ensures Utf8Decode(Utf8Encode(s)) == Some(s)
  {
    if s != [] {
      var bytes := Utf8Encode(s);
      DecodeCharBytes(s[0], Utf8Encode(s[1..]));
      assert bytes[|CharBytes(s[0])|..] == Utf8Encode(s[1..]);
      Utf8RoundTrip(s[1..]);
      var n: nat := |CharBytes(s[0])|;
      assert DecodeFirst(bytes) == Some((s[0], n));
      assert [s[0]] + s[1..] == s;
    }
  }

  /** An ASCII text encodes to its own code points. */
  lemma {:induction false} Utf8EncodeAscii(s: String)
    requires forall i | 0 <= i < |s| :: IsAscii(s[i])
    ensures |Utf8Encode(s)| == |s|
    ensures forall i | 0 <= i < |s| :: Utf8Encode(s)[i] == s[i] as int
  {
    if s != [] {
      Utf8EncodeAscii(s[1..]);
    }
  }

  // ---------------------------------------------------------- percent-coding

  /** ASCII alphanumerics and `*`, `-`, `.`, `_`: the bytes outside the urlencoded percent-encode set, besides the space. */
  predicate Unreserved(b: u8) {
    (0x30 <= b <= 0x39) || (0x41 <= b <= 0x5A) || (0x61 <= b <= 0x7A)
    || b == 0x2A || b == 0x2D || b == 0x2E || b == 0x5F
  }

  /** Upper-case hexadecimal digit, as percent-encoding writes it. */
  function HexDigit(d: nat): (c: char)
    requires d < 16
    ensures IsAscii(c)
  {
    if d < 10 then ('0' as int + d) as char else ('A' as int + d - 10) as char
  }

  predicate IsHexByte(b: u8) {
    (0x30 <= b <= 0x39) || (0x41 <= b <= 0x46) || (0x61 <= b <= 0x66)
  }

  function HexValue(b: u8): (d: nat)
    requires IsHexByte(b)
    ensures d < 16
  {
    if b <= 0x39 then b - 0x30 else if b <= 0x46 then b - 0x41 + 10 else b - 0x61 + 10
  }

  /** One byte of the serializer: the space as `+`, an unreserved byte as itself, anything else as `%XX`. */
  function EncodeByte(b: u8): (r: String)
    ensures forall i | 0 <= i < |r| :: IsAscii(r[i]) && r[i] != '&' && r[i] != '='
  {
    if b == 0x20 then "+"
    else if Unreserved(b) then [b as char]
    else ['%', HexDigit(b / 16), HexDigit(b % 16)]
  }

  function PercentEncode(bytes: seq<u8>): (r: String)
    ensures forall i | 0 <= i < |r| :: IsAscii(r[i]) && r[i] != '&' && r[i] != '='
  {
    if bytes == [] then [] else EncodeByte(bytes[0]) + PercentEncode(bytes[1..])
  }

  /** Percent-encode after encoding, with the urlencoded set and the space as plus. */
  function EncodeText(s: String): (r: String)
    ensures '&' !in r && '=' !in r
  {
    var r := PercentEncode(Utf8Encode(s));
    assert forall i | 0 <= i < |r| :: r[i] != '&' && r[i] != '=';
    r
  }

  /** The parser's first step on a name or value: every `+` byte becomes a space. */
  function PlusToSpace(bytes: seq<u8>): (r: seq<u8>)
    ensures |r| == |bytes|
    ensures forall i | 0 <= i < |bytes| :: r[i] == if bytes[i] == 0x2B then 0x20 else bytes[i]
  {
    seq(|bytes|, i requires 0 <= i < |bytes| => if bytes[i] == 0x2B then 0x20 else bytes[i])
  }

  /** Percent-decoding: `%` and two hexadecimal digits is one byte; any other byte, a lone `%` included, stands for itself. */
  function PercentDecode(bytes: seq<u8>): (r: seq<u8>)
    decreases |bytes|
  {
    if bytes == [] then []
    else if bytes[0] == 0x25 && |bytes| >= 3 && IsHexByte(bytes[1]) && IsHexByte(bytes[2]) then
      [HexValue(bytes[1]) * 16 + HexValue(bytes[2])] + PercentDecode(bytes[3..])
    else [bytes[0]] + PercentDecode(bytes[1..])
  }

  /** A name or a value as the parser reads it back. */
  function DecodeText(s: String): (r: Option<String>)
  {
    Utf8Decode(PercentDecode(PlusToSpace(Utf8Encode(s))))
  }

  /** Reading one byte's encoding back gives the byte, whatever follows. */
  lemma DecodeByte(b: u8, rest: seq<u8>)
    ensures PercentDecode(PlusToSpace(Utf8Encode(EncodeByte(b))) + rest) == [b] + PercentDecode(rest)
  {
    var e := EncodeByte(b);
    Utf8EncodeAscii(e);
    var bytes := PlusToSpace(Utf8Encode(e)) + rest;
    if b == 0x20 || Unreserved(b) {
      assert bytes[0] == b && bytes[1..] == rest;
    } else {
      assert bytes[0] == 0x25 && bytes[3..] == rest;
      assert HexValue(bytes[1]) == b / 16 && HexValue(bytes[2]) == b % 16;
    }
  }

  lemma {:induction false} PercentRoundTrip(bytes: seq<u8>)
    ensures PercentDecode(PlusToSpace(Utf8Encode(PercentEncode(bytes)))) == bytes
  {
    if bytes != [] {
      var head := EncodeByte(bytes[0]);
      var tail := PercentEncode(bytes[1..]);
      Utf8EncodeConcat(head, tail);
      assert PlusToSpace(Utf8Encode(head) + Utf8Encode(tail))
        == PlusToSpace(Utf8Encode(head)) + PlusToSpace(Utf8Encode(tail));
      DecodeByte(bytes[0], PlusToSpace(Utf8Encode(tail)));
      PercentRoundTrip(bytes[1..]);
    }
  }

  /** Every text survives serialization and parsing, spaces, `+`, `&`, `=`, `%` and non-ASCII characters included. */
  lemma TextRoundTrip(s: String)
    ensures DecodeText(EncodeText(s)) == Some(s)
  {
    PercentRoundTrip(Utf8Encode(s));
    Utf8RoundTrip(s);
  }

  // ------------------------------------------------------ pairs and lists

  function EncodePair(pair: (String, String)): (r: String)
    ensures '&' !in r
  {
    EncodeText(pair.0) + "=" + EncodeText(pair.1)
  }

  function EncodePairs(pairs: seq<(String, String)>): (r: seq<String>)
    ensures |r| == |pairs|
    ensures forall i | 0 <= i < |pairs| :: r[i] == EncodePair(pairs[i])
  {
    if pairs == [] then [] else [EncodePair(pairs[0])] + EncodePairs(pairs[1..])
  }

  /** The urlencoded serializer: each name and value encoded, joined by `=` within and `&` between the pairs. */
  function Serialize(pairs: seq<(String, String)>): (r: String)
  {
    Join(EncodePairs(pairs), "&")
  }

  /** One non-empty sequence of the input: split at its first `=`, or all name when it has none. */
  function ParsePiece(piece: String): (r: Option<(String, String)>)
  {
    var (name, value) := match SplitOnce(piece, '=') case None => (piece, []) case Some(nv) => nv;
    match (DecodeText(name), DecodeText(value))
    case (Some(n), Some(v)) => Some((n, v))
    case _ => None
  }

  function ParsePieces(pieces: seq<String>): (r: Option<seq<(String, String)>>)
  {
    if pieces == [] then Some([])
    else match ParsePieces(pieces[1..])
      case None => None
      case Some(rest) =>
        if pieces[0] == [] then Some(rest)
        else match ParsePiece(pieces[0])
          case None => None
          case Some(p) => Some([p] + rest)
  }

  /**
   * The urlencoded parser: the input split at every `&`, empty sequences
   * skipped. Splitting the text at the ASCII `&` and `=` is splitting its
   * UTF-8 bytes there, as no other character's encoding contains those bytes.
   */
  function Parse(input: String): (r: Option<seq<(String, String)>>)
  {
    ParsePieces(Split(input, '&'))
  }

  /** One encoded pair reads back as itself. */
  lemma ParseEncodedPair(pair: (String, String))
    ensures EncodePair(pair) != [] && ParsePiece(EncodePair(pair)) == Some(pair)
  {
    var (n, v) := pair;
    assert EncodePair(pair) == EncodeText(n) + ['='] + EncodeText(v);
    SplitOnceOf(EncodeText(n), '=', EncodeText(v));
    TextRoundTrip(n);
    TextRoundTrip(v);
  }

  lemma {:induction false} ParseEncodedPieces(pairs: seq<(String, String)>)
    ensures ParsePieces(EncodePairs(pairs)) == Some(pairs)
  {
    if pairs != [] {
      var pieces := EncodePairs(pairs);
      assert pieces[1..] == EncodePairs(pairs[1..]);
      ParseEncodedPieces(pairs[1..]);
      ParseEncodedPair(pairs[0]);
      assert pieces[0] == EncodePair(pairs[0]);
      assert ParsePieces(pieces) == Some([pairs[0]] + pairs[1..]);
      assert pairs == [pairs[0]] + pairs[1..];
    }
  }

  /** Parsing the serializer's output gives back every pair, in order. */
  lemma ParseSerialize(pairs: seq<(String, String)>)
    ensures Parse(Serialize(pairs)) == Some(pairs)
  {
    if pairs == [] {
      assert Split([], '&') == [[]];
    } else {
      var pieces := EncodePairs(pairs);
      SplitJoin(pieces, '&');
      ParseEncodedPieces(pairs);
    }
  }
}
