/**
 * The project version `major.minor.patch` (three bytes) that gates
 * importing and migrating a project: parsing, printing, ordering and the
 * JSON string form.
 */
module SemVer {
  import opened Wrappers
  import opened Ints
  import opened Text

  datatype Version = Version(major: u8, minor: u8, patch: u8)

  /** `str::splitn(n, c)`: at most `n` pieces, the last one keeping any further separators. */
  function SplitN(s: String, n: nat, c: char): (r: seq<String>)
    requires n >= 1
    ensures 1 <= |r| <= n
    ensures forall i | 0 <= i < |r| - 1 :: c !in r[i]
    ensures |r| < n ==> c !in r[|r| - 1]
  {
    if n == 1 then [s]
    else match SplitOnce(s, c)
      case None => [s]
      case Some((a, b)) => [a] + SplitN(b, n - 1, c)
  }

  /** Pieces free of the separator come back from `splitn` as they were joined. */
  lemma SplitN3Of(a: String, b: String, d: String, c: char)
    requires c !in a && c !in b
    ensures SplitN(a + [c] + b + [c] + d, 3, c) == [a, b, d]
  {
    SplitOnceOf(a, c, b + [c] + d);
    assert a + [c] + b + [c] + d == a + [c] + (b + [c] + d);
    SplitOnceOf(b, c, d);
    assert SplitN(b + [c] + d, 2, c) == [b] + SplitN(d, 1, c);
  }

  /** `collect::<Result<Vec<u8>, _>>()` over `str::parse::<u8>`: fails if any piece fails. */
  function ParseBytes(parts: seq<String>): (r: Option<seq<u8>>)
    ensures r.Some? <==> forall i | 0 <= i < |parts| :: ParseUnsigned(parts[i], 255).Some?
    ensures r.Some? ==> |r.value| == |parts| && forall i | 0 <= i < |parts| :: r.value[i] == ParseUnsigned(parts[i], 255).value
  {
    if parts == [] then Some([])
    else match ParseUnsigned(parts[0], 255)
      case None => None
      case Some(b) =>
        match ParseBytes(parts[1..])
        case None => None
        case Some(rest) => Some([b as u8] + rest)
  }

  /** One more piece that parses puts its byte in front. */
  lemma ParseBytesCons(parts: seq<String>, b: u8, rest: seq<u8>)
    requires parts != [] && ParseUnsigned(parts[0], 255) == Some(b as nat)
    requires ParseBytes(parts[1..]) == Some(rest)
    ensures ParseBytes(parts) == Some([b] + rest)
  {
  }

  /** Three pieces that each parse give three bytes. */
  lemma ParseBytesThree(p: seq<String>, x: u8, y: u8, z: u8)
    requires |p| == 3
    requires ParseUnsigned(p[0], 255) == Some(x as nat) && ParseUnsigned(p[1], 255) == Some(y as nat) && ParseUnsigned(p[2], 255) == Some(z as nat)
    ensures ParseBytes(p) == Some([x, y, z])
  {
    assert p[2..][0] == p[2] && p[2..][1..] == [];
    ParseBytesCons(p[2..], z, []);
    assert [z] + [] == [z];
    assert p[1..][0] == p[1] && p[1..][1..] == p[2..];
    ParseBytesCons(p[1..], y, [z]);
    assert [y] + [z] == [y, z];
    ParseBytesCons(p, x, [y, z]);
    assert [x] + [y, z] == [x, y, z];
  }

  /**
   * `Version::from_str`: the `splitn(3, '.')` pieces each parsed as a byte,
   * and exactly three of them. A piece that does not parse and a wrong
   * number of pieces are the same error, so the order of the two checks
   * does not show.
   */
  function Parse(s: String): Option<Version> {
    var p := SplitN(s, 3, '.');
    if |p| != 3 then None
    else match (ParseUnsigned(p[0], 255), ParseUnsigned(p[1], 255), ParseUnsigned(p[2], 255))
      case (Some(a), Some(b), Some(c)) => Some(Version(a as u8, b as u8, c as u8))
      case _ => None
  }

  /** `Display`: `{major}.{minor}.{patch}`. */
  function Display(v: Version): (r: String) {
    NatToString(v.major) + "." + NatToString(v.minor) + "." + NatToString(v.patch)
  }

  /** Every printed version parses back to itself. */
  lemma ParseDisplay(v: Version)
    ensures Parse(Display(v)) == Some(v)
  {
    NatToStringNoSeparator(v.major, '.');
    NatToStringNoSeparator(v.minor, '.');
    SplitN3Of(NatToString(v.major), NatToString(v.minor), NatToString(v.patch), '.');
    ParseUnsignedPrinted(v.major, 255);
    ParseUnsignedPrinted(v.minor, 255);
    ParseUnsignedPrinted(v.patch, 255);
  }

  /** A fourth part stays inside the third piece and makes it unparseable. */
  lemma ParseRejectsFourParts(a: String, b: String, d: String, e: String)
    requires '.' !in a && '.' !in b
    ensures Parse(a + "." + b + "." + d + "." + e) == None
  {
    var s := a + "." + b + "." + d + "." + e;
    assert s == a + ['.'] + b + ['.'] + (d + "." + e);
    SplitN3Of(a, b, d + "." + e, '.');
    var last := d + "." + e;
    assert last[|d|] == '.';
    assert !AllDigits(last);
    assert last[1..] == (d + "." + e)[1..];
    assert ParseUnsigned(last, 255).None? by {
      if last[0] == '+' {
        assert last[1..][|d| - 1] == '.' || |d| == 0;
        if |d| == 0 {
          assert false;
        }
      }
    }
  }

  /** Too few pieces: a version without two dots is rejected. */
  lemma ParseRejectsShort(s: String)
    requires |SplitN(s, 3, '.')| < 3
    ensures Parse(s) == None
  {
  }

  /** Test vectors of the version parser: accepted versions. */
  lemma ParseExamples()
    ensures Parse("0.9.22") == Some(Version(0, 9, 22))
  {
    assert Display(Version(0, 9, 22)) == "0.9.22";
    ParseDisplay(Version(0, 9, 22));
  }

  lemma ParseLargestExample()
    ensures Parse("255.255.255") == Some(Version(255, 255, 255))
  {
    assert NatToString(255) == "255";
    assert Display(Version(255, 255, 255)) == "255.255.255";
    ParseDisplay(Version(255, 255, 255));
  }

  /** Test vectors of the version parser: a single number and empty pieces are rejected. */
  lemma ParseRejectExamples()
    ensures Parse("10") == None
    ensures Parse("..") == None
  {
    assert SplitN("10", 3, '.') == ["10"];
    SplitN3Of([], [], [], '.');
    assert ".." == [] + ['.'] + [] + ['.'] + [];
    assert ParseUnsigned([], 255) == None;
  }

  /** `derive(PartialOrd, Ord)`: lexicographic on (major, minor, patch). */
  predicate Less(a: Version, b: Version) {
    a.major < b.major || (a.major == b.major && (a.minor < b.minor || (a.minor == b.minor && a.patch < b.patch)))
  }

  predicate LessEq(a: Version, b: Version) {
    a == b || Less(a, b)
  }

  /** The number the three bytes spell in base 256. */
  function Rank(v: Version): nat {
    v.major * 0x1_0000 + v.minor * 0x100 + v.patch
  }

  /** The derived order is the numeric order of the base-256 rank: a strict total order. */
  lemma LessRank(a: Version, b: Version)
    ensures Less(a, b) <==> Rank(a) < Rank(b)
    ensures a == b <==> Rank(a) == Rank(b)
  {
    if a.major < b.major {
      assert Rank(a) < (a.major + 1) * 0x1_0000 <= Rank(b);
    } else if a.major > b.major {
      assert Rank(b) < (b.major + 1) * 0x1_0000 <= Rank(a);
    } else if a.minor < b.minor {
      assert Rank(a) < a.major * 0x1_0000 + (a.minor + 1) * 0x100 <= Rank(b);
    } else if a.minor > b.minor {
      assert Rank(b) < b.major * 0x1_0000 + (b.minor + 1) * 0x100 <= Rank(a);
    }
  }

  lemma LessTotal(a: Version, b: Version)
    ensures Less(a, b) || a == b || Less(b, a)
    ensures !(Less(a, b) && Less(b, a))
  {
    LessRank(a, b);
    LessRank(b, a);
  }

  /** The JSON string of a value whose text needs no escapes. */
  function JsonString(s: String): String {
    ['"'] + s + ['"']
  }

  /** A JSON string literal without escape sequences; anything else is not a version string. */
  function UnquoteJson(j: String): (r: Option<String>)
    ensures r.Some? ==> j == JsonString(r.value)
  {
    if |j| >= 2 && j[0] == '"' && j[|j| - 1] == '"' && '"' !in j[1..|j| - 1] && '\\' !in j[1..|j| - 1]
    then
      assert j == ['"'] + j[1..|j| - 1] + ['"'];
      Some(j[1..|j| - 1])
    else None
  }

  /** `Serialize`: the displayed text as a JSON string. */
  function Serialize(v: Version): String {
    JsonString(Display(v))
  }

  /** `Deserialize`: a JSON string parsed as a version. */
  function Deserialize(j: String): (r: Option<Version>)
    ensures r.Some? ==> UnquoteJson(j).Some? && Parse(UnquoteJson(j).value) == r
  {
    match UnquoteJson(j)
    case None => None
    case Some(s) => Parse(s)
  }

  /** The version stored in a project file reads back unchanged. */
  lemma DeserializeSerialize(v: Version)
    ensures Deserialize(Serialize(v)) == Some(v)
  {
    DisplayNeedsNoEscape(v);
    UnquoteJsonString(Display(v));
    ParseDisplay(v);
  }

  lemma DisplayNeedsNoEscape(v: Version)
    ensures '"' !in Display(v) && '\\' !in Display(v)
  {
    NatToStringNoSeparator(v.major, '"');
    NatToStringNoSeparator(v.minor, '"');
    NatToStringNoSeparator(v.patch, '"');
    NatToStringNoSeparator(v.major, '\\');
    NatToStringNoSeparator(v.minor, '\\');
    NatToStringNoSeparator(v.patch, '\\');
  }

  /** A text without quotes or backslashes survives quoting and unquoting. */
  lemma UnquoteJsonString(s: String)
    requires '"' !in s && '\\' !in s
    ensures UnquoteJson(JsonString(s)) == Some(s)
  {
    var j := JsonString(s);
    assert j[1..|j| - 1] == s;
  }
}
