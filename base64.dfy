/**
 * The standard Base64 alphabet and padding of section 4 of RFC 4648, as
 * the `STANDARD` engine of the `base64` crate uses it: the encoder always
 * pads, and the decoder only accepts canonical text — padding exactly where
 * the encoder would put it, and unused bits of the last character zero.
 */
module Base64 {
  import opened Wrappers
  import opened Ints
  import opened Text

  type Sextet = x: int | 0 <= x < 64

  const PAD: char := '='

  /** The character for a 6-bit value: `A`-`Z`, `a`-`z`, `0`-`9`, `+`, `/`. */
  function CharOf(v: Sextet): (c: char)
    ensures c != PAD
  {
    if v < 26 then (v + 'A' as int) as char
    else if v < 52 then (v - 26 + 'a' as int) as char
    else if v < 62 then (v - 52 + '0' as int) as char
    else if v == 62 then '+'
    else '/'
  }

  /** The 6-bit value of an alphabet character; `None` for every other character, padding included. */
  function ValueOf(c: char): (r: Option<Sextet>)
    ensures r.Some? ==> CharOf(r.value) == c
    ensures c == PAD ==> r.None?
  {
    if 'A' <= c <= 'Z' then Some(c as int - 'A' as int)
    else if 'a' <= c <= 'z' then Some(c as int - 'a' as int + 26)
    else if '0' <= c <= '9' then Some(c as int - '0' as int + 52)
    else if c == '+' then Some(62)
    else if c == '/' then Some(63)
    else None
  }

  lemma ValueOfCharOf(v: Sextet)
    ensures ValueOf(CharOf(v)) == Some(v)
  {
  }

  /** Three bytes as four characters, most significant bits first. */
  function EncodeBlock(b0: u8, b1: u8, b2: u8): String {
    [CharOf(b0 / 4), CharOf(b0 % 4 * 16 + b1 / 16), CharOf(b1 % 16 * 4 + b2 / 64), CharOf(b2 % 64)]
  }

  /** `encode`: full blocks, then a final block padded with one `=` for two bytes left, with two for one byte left. */
  function Encode(bytes: seq<u8>): (s: String)
    decreases |bytes|
  {
    if |bytes| >= 3 then EncodeBlock(bytes[0], bytes[1], bytes[2]) + Encode(bytes[3..])
    else if |bytes| == 2 then [CharOf(bytes[0] / 4), CharOf(bytes[0] % 4 * 16 + bytes[1] / 16), CharOf(bytes[1] % 16 * 4), PAD]
    else if |bytes| == 1 then [CharOf(bytes[0] / 4), CharOf(bytes[0] % 4 * 16), PAD, PAD]
    else []
  }

  /** Four characters for every started group of three bytes. */
  lemma {:induction false} EncodeLength(bytes: seq<u8>)
    ensures |Encode(bytes)| == (|bytes| + 2) / 3 * 4
    decreases |bytes|
  {
    if |bytes| >= 3 {
      EncodeLength(bytes[3..]);
    }
  }

  /** Four 6-bit values as three bytes. */
  function DecodeBlock(v0: Sextet, v1: Sextet, v2: Sextet, v3: Sextet): seq<u8> {
    [v0 * 4 + v1 / 16, v1 % 16 * 16 + v2 / 4, v2 % 4 * 64 + v3]
  }

  /**
   * `decode`: groups of four characters; only the last may end in one or
   * two `=`, and then the bits its last character carries beyond the
   * bytes it completes must be zero. Anything else is refused.
   */
  function Decode(s: String): (r: Option<seq<u8>>)
    decreases |s|
  {
    if s == [] then Some([])
    else if |s| < 4 then None
    else
      var a, b, c, d := ValueOf(s[0]), ValueOf(s[1]), ValueOf(s[2]), ValueOf(s[3]);
      if a.None? || b.None? then None
      else if |s| == 4 && s[2] == PAD && s[3] == PAD then
        if b.value % 16 == 0 then Some([a.value * 4 + b.value / 16]) else None
      else if c.None? then None
      else if |s| == 4 && s[3] == PAD then
        if c.value % 4 == 0 then Some([a.value * 4 + b.value / 16, b.value % 16 * 16 + c.value / 4]) else None
      else if d.None? then None
      else match Decode(s[4..])
        case None => None
        case Some(rest) => Some(DecodeBlock(a.value, b.value, c.value, d.value) + rest)
  }

  lemma BlockRoundTrip(b0: u8, b1: u8, b2: u8)
    ensures DecodeBlock(b0 / 4, b0 % 4 * 16 + b1 / 16, b1 % 16 * 4 + b2 / 64, b2 % 64) == [b0, b1, b2]
  {
  }

  lemma BlockOfValues(v0: Sextet, v1: Sextet, v2: Sextet, v3: Sextet)
    ensures var bs := DecodeBlock(v0, v1, v2, v3);
      bs[0] / 4 == v0 && bs[0] % 4 * 16 + bs[1] / 16 == v1 && bs[1] % 16 * 4 + bs[2] / 64 == v2 && bs[2] % 64 == v3
  {
  }

  lemma TwoRoundTrip(b0: u8, b1: u8)
    ensures (b0 / 4) * 4 + (b0 % 4 * 16 + b1 / 16) / 16 == b0
    ensures (b0 % 4 * 16 + b1 / 16) % 16 * 16 + (b1 % 16 * 4) / 4 == b1
    ensures (b1 % 16 * 4) % 4 == 0
  {
  }

  lemma OneRoundTrip(b0: u8)
    ensures (b0 / 4) * 4 + (b0 % 4 * 16) / 16 == b0 && (b0 % 4 * 16) % 16 == 0
  {
  }

  lemma TwoOfValues(v0: Sextet, v1: Sextet, v2: Sextet)
    requires v2 % 4 == 0
    ensures var b0, b1 := v0 * 4 + v1 / 16, v1 % 16 * 16 + v2 / 4;
      b0 / 4 == v0 && b0 % 4 * 16 + b1 / 16 == v1 && b1 % 16 * 4 == v2
  {
  }

  lemma OneOfValues(v0: Sextet, v1: Sextet)
    requires v1 % 16 == 0
    ensures var b0 := v0 * 4 + v1 / 16; b0 / 4 == v0 && b0 % 4 * 16 == v1
  {
  }

  lemma EncodeTwo(b0: u8, b1: u8)
    ensures Decode(Encode([b0, b1])) == Some([b0, b1])
  {
    ValueOfCharOf(b0 / 4);
    ValueOfCharOf(b0 % 4 * 16 + b1 / 16);
    ValueOfCharOf(b1 % 16 * 4);
    TwoRoundTrip(b0, b1);
  }

  lemma EncodeOne(b0: u8)
    ensures Decode(Encode([b0])) == Some([b0])
  {
    ValueOfCharOf(b0 / 4);
    ValueOfCharOf(b0 % 4 * 16);
    OneRoundTrip(b0);
  }

  /** A group of four alphabet characters decodes to its block, in front of what the rest decodes to. */
  lemma DecodeGroup(s: String)
    requires |s| >= 4 && forall i | 0 <= i < 4 :: ValueOf(s[i]).Some?
    ensures Decode(s) == match Decode(s[4..])
      case None => None
      case Some(rest) => Some(DecodeBlock(ValueOf(s[0]).value, ValueOf(s[1]).value, ValueOf(s[2]).value, ValueOf(s[3]).value) + rest)
  {
    assert s[2] != PAD && s[3] != PAD;
  }

  /** The characters of four values in front of `t` decode to their block in front of what `t` decodes to. */
  lemma DecodeChars(v0: Sextet, v1: Sextet, v2: Sextet, v3: Sextet, t: String)
    requires Decode(t).Some?
    ensures Decode([CharOf(v0), CharOf(v1), CharOf(v2), CharOf(v3)] + t) == Some(DecodeBlock(v0, v1, v2, v3) + Decode(t).value)
  {
    var s := [CharOf(v0), CharOf(v1), CharOf(v2), CharOf(v3)] + t;
    ValueOfCharOf(v0);
    ValueOfCharOf(v1);
    ValueOfCharOf(v2);
    ValueOfCharOf(v3);
    assert s[4..] == t;
    DecodeGroup(s);
  }

  /** One full block in front of bytes whose encoding decodes. */
  lemma EncodeBlockStep(b0: u8, b1: u8, b2: u8, rest: seq<u8>)
    requires Decode(Encode(rest)) == Some(rest)
    ensures Decode(Encode([b0, b1, b2] + rest)) == Some([b0, b1, b2] + rest)
  {
    var v0: Sextet, v1: Sextet, v2: Sextet, v3: Sextet := b0 / 4, b0 % 4 * 16 + b1 / 16, b1 % 16 * 4 + b2 / 64, b2 % 64;
    var t := Encode(rest);
    assert ([b0, b1, b2] + rest)[3..] == rest;
    assert Encode([b0, b1, b2] + rest) == [CharOf(v0), CharOf(v1), CharOf(v2), CharOf(v3)] + t;
    DecodeChars(v0, v1, v2, v3, t);
    BlockRoundTrip(b0, b1, b2);
  }

  /** Decoding an encoding gives the bytes back. */
  lemma {:induction false} DecodeEncode(bytes: seq<u8>)
    ensures Decode(Encode(bytes)) == Some(bytes)
    decreases |bytes|
  {
    if |bytes| >= 3 {
      DecodeEncode(bytes[3..]);
      EncodeBlockStep(bytes[0], bytes[1], bytes[2], bytes[3..]);
      assert bytes == [bytes[0], bytes[1], bytes[2]] + bytes[3..];
    } else if |bytes| == 2 {
      assert bytes == [bytes[0], bytes[1]];
      EncodeTwo(bytes[0], bytes[1]);
    } else if |bytes| == 1 {
      assert bytes == [bytes[0]];
      EncodeOne(bytes[0]);
    }
  }

  lemma DecodedOne(s: String)
    requires |s| == 4 && s[2] == PAD && s[3] == PAD && Decode(s).Some?
    ensures Encode(Decode(s).value) == s
  {
    var a: int, b: int := ValueOf(s[0]).value, ValueOf(s[1]).value;
    var b0: u8 := a * 4 + b / 16;
    assert Decode(s) == Some([b0]);
    OneOfValues(a, b);
    assert Encode([b0]) == [CharOf(a), CharOf(b), PAD, PAD];
  }

  lemma DecodedTwo(s: String)
    requires |s| == 4 && s[2] != PAD && s[3] == PAD && Decode(s).Some?
    ensures Encode(Decode(s).value) == s
  {
    var a: int, b: int, c: int := ValueOf(s[0]).value, ValueOf(s[1]).value, ValueOf(s[2]).value;
    var b0: u8, b1: u8 := a * 4 + b / 16, b % 16 * 16 + c / 4;
    assert Decode(s) == Some([b0, b1]);
    TwoOfValues(a, b, c);
    assert Encode([b0, b1]) == [CharOf(a), CharOf(b), CharOf(c), PAD];
  }

  /** A decodable text whose fourth character is not padding starts with four alphabet characters. */
  lemma DecodedGroupValues(s: String)
    requires |s| >= 4 && s[3] != PAD && Decode(s).Some?
    ensures forall i | 0 <= i < 4 :: ValueOf(s[i]).Some?
  {
  }

  /** The block of four values, encoded in front of more bytes, gives back their characters. */
  lemma EncodeBlockOfValues(v0: Sextet, v1: Sextet, v2: Sextet, v3: Sextet, rest: seq<u8>)
    ensures Encode(DecodeBlock(v0, v1, v2, v3) + rest) == [CharOf(v0), CharOf(v1), CharOf(v2), CharOf(v3)] + Encode(rest)
  {
    var bs := DecodeBlock(v0, v1, v2, v3);
    BlockOfValues(v0, v1, v2, v3);
    assert (bs + rest)[3..] == rest;
  }

  /** One full group in front of canonical text. */
  lemma DecodedBlockStep(s: String)
    requires |s| >= 4 && s[3] != PAD && Decode(s).Some?
    requires Decode(s[4..]).Some? && Encode(Decode(s[4..]).value) == s[4..]
    ensures Encode(Decode(s).value) == s
  {
    DecodedGroupValues(s);
    DecodeGroup(s);
    var a, b, c, d := ValueOf(s[0]).value, ValueOf(s[1]).value, ValueOf(s[2]).value, ValueOf(s[3]).value;
    EncodeBlockOfValues(a, b, c, d, Decode(s[4..]).value);
    assert s == [s[0], s[1], s[2], s[3]] + s[4..];
  }

  /** Only canonical text decodes: encoding what was decoded gives the text back. */
  lemma {:induction false} EncodeDecode(s: String)
    requires Decode(s).Some?
    ensures Encode(Decode(s).value) == s
    decreases |s|
  {
    if s != [] {
      if |s| == 4 && s[2] == PAD && s[3] == PAD {
        DecodedOne(s);
      } else if |s| == 4 && s[3] == PAD {
        DecodedTwo(s);
      } else {
        EncodeDecode(s[4..]);
        DecodedBlockStep(s);
      }
    }
  }

  /** An encoding holds only alphabet characters and padding. */
  lemma {:induction false} OnlyAlphabet(bytes: seq<u8>, c: char)
    requires ValueOf(c).None? && c != PAD
    ensures c !in Encode(bytes)
    decreases |bytes|
  {
    if |bytes| >= 3 {
      OnlyAlphabet(bytes[3..], c);
      var b0, b1, b2 := bytes[0], bytes[1], bytes[2];
      ValueOfCharOf(b0 / 4);
      ValueOfCharOf(b0 % 4 * 16 + b1 / 16);
      ValueOfCharOf(b1 % 16 * 4 + b2 / 64);
      ValueOfCharOf(b2 % 64);
    } else if |bytes| == 2 {
      ValueOfCharOf(bytes[0] / 4);
      ValueOfCharOf(bytes[0] % 4 * 16 + bytes[1] / 16);
      ValueOfCharOf(bytes[1] % 16 * 4);
    } else if |bytes| == 1 {
      ValueOfCharOf(bytes[0] / 4);
      ValueOfCharOf(bytes[0] % 4 * 16);
    }
  }
}
