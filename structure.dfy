/**
 * Creating and migrating a project database of the SQLite revision: the
 * lenient version parser, the version window, the table of patches applied
 * in order to older projects, the renaming of the settings of the oldest
 * projects and the placeholder rewrite of the mail templates.
 */
module Structure {
  import opened Wrappers
  import opened Ints
  import opened Text
  import opened Schema
  import V = SemVer
  import SS = SettingsStore
  import E = ApiErrors

  type Version = V.Version

  /**
   * `Version::from_str` of this revision: three dot-separated bytes, or two
   * read as minor and patch of major 0; anything else is unsupported.
   */
  function ParseVersion(s: String): (r: Option<Version>)
    ensures
      var p := V.SplitN(s, 3, '.');
      r.Some? <==> (|p| == 2 || |p| == 3) && V.ParseBytes(p).Some?
    ensures
      var p := V.SplitN(s, 3, '.');
      r.Some? && |p| == 3 ==>
        r.value == V.Version(ParseUnsigned(p[0], 255).value, ParseUnsigned(p[1], 255).value, ParseUnsigned(p[2], 255).value)
    ensures
      var p := V.SplitN(s, 3, '.');
      r.Some? && |p| == 2 ==> r.value == V.Version(0, ParseUnsigned(p[0], 255).value, ParseUnsigned(p[1], 255).value)
  {
    match V.ParseBytes(V.SplitN(s, 3, '.'))
    case None => None
    case Some(b) =>
      if |b| == 3 then Some(V.Version(b[0], b[1], b[2]))
      else if |b| == 2 then Some(V.Version(0, b[0], b[1]))
      else None
  }

  /** Whatever the strict parser accepts, this one reads the same way. */
  lemma ParseVersionExtends(s: String)
    requires V.Parse(s).Some?
    ensures ParseVersion(s) == V.Parse(s)
  {
    var p := V.SplitN(s, 3, '.');
    V.ParseBytesThree(p, ParseUnsigned(p[0], 255).value as u8, ParseUnsigned(p[1], 255).value as u8, ParseUnsigned(p[2], 255).value as u8);
  }

  /** Every printed version parses back to itself. */
  lemma ParseVersionDisplay(v: Version)
    ensures ParseVersion(V.Display(v)) == Some(v)
  {
    V.ParseDisplay(v);
    ParseVersionExtends(V.Display(v));
  }

  /** Two bytes are minor and patch of a 0 major version. */
  lemma ParseVersionTwoParts(minor: u8, patch: u8)
    ensures ParseVersion(NatToString(minor) + "." + NatToString(patch)) == Some(V.Version(0, minor, patch))
  {
    var a, b := NatToString(minor), NatToString(patch);
    NatToStringNoSeparator(minor, '.');
    NatToStringNoSeparator(patch, '.');
    SplitOnceOf(a, '.', b);
    assert a + "." + b == a + ['.'] + b;
    assert V.SplitN(b, 1, '.') == [b];
    assert V.SplitN(a + "." + b, 3, '.') == [a] + V.SplitN(b, 2, '.');
    assert SplitOnce(b, '.').None?;
    ParseUnsignedPrinted(minor, 255);
    ParseUnsignedPrinted(patch, 255);
  }

  /** Test vector: `"3.55"` is 0.3.55. */
  lemma ParseVersionTwoPartExample()
    ensures ParseVersion("3.55") == Some(V.Version(0, 3, 55))
  {
    ParseVersionTwoParts(3, 55);
    assert NatToString(3) == "3";
    assert NatToString(55) == "55";
    assert NatToString(3) + "." + NatToString(55) == "3.55";
  }

  /** Test vector: a single number is rejected. */
  lemma ParseVersionOnePartExample()
    ensures ParseVersion("10") == None
  {
    assert V.SplitN("10", 3, '.') == ["10"];
  }

  /** A fourth part stays inside the third piece, so four parts are rejected as by the strict parser. */
  lemma ParseVersionFourParts(a: String, b: String, d: String, e: String)
    requires '.' !in a && '.' !in b
    ensures ParseVersion(a + "." + b + "." + d + "." + e) == None
  {
    var s := a + "." + b + "." + d + "." + e;
    V.ParseRejectsFourParts(a, b, d, e);
    assert s == a + ['.'] + b + ['.'] + (d + "." + e);
    V.SplitN3Of(a, b, d + "." + e, '.');
  }

  /** A negative part is not a byte. */
  lemma ParseVersionNegative(a: String, b: String)
    requires '.' !in a && '.' !in b
    ensures ParseVersion(a + ".-" + b) == None
  {
    SplitOnceOf(a, '.', "-" + b);
    assert a + ".-" + b == a + ['.'] + ("-" + b);
    assert SplitOnce("-" + b, '.').None?;
    assert V.SplitN("-" + b, 2, '.') == ["-" + b];
    assert ParseUnsigned("-" + b, 255).None?;
  }

  /** The oldest project version that can still be migrated. */
  const MIN_VERSION: Version := V.Version(0, 6, 2)

  /** The migration routines, each with the version that introduced it. */
  datatype Patch = RenameSettings | RewritePlaceholders

  const PATCHES: seq<(Version, Patch)> := [(V.Version(0, 6, 3), RenameSettings), (V.Version(0, 8, 0), RewritePlaceholders)]

  // ------------------------------------------------------------ patch 0.8.0

  /** SQLite's `key LIKE prefix || '%' || suffix`, ASCII letters matched regardless of case. */
  predicate LikeAffixes(s: String, prefix: String, suffix: String) {
    |s| >= |prefix| + |suffix| && LowerAscii(s[..|prefix|]) == prefix && LowerAscii(s[|s| - |suffix|..]) == suffix
  }

  /** `key like 'mail.%.subject' or key like 'mail.%.content'`. */
  predicate IsMailTemplateKey(key: String) {
    LikeAffixes(key, "mail.", ".subject") || LikeAffixes(key, "mail.", ".content")
  }

  /** `replace(replace(value, '[mediumtitel]', '{booktitle}'), '[name]', '{username}')`. */
  function ReplacePlaceholders(value: String): String {
    Replace(Replace(value, "[mediumtitel]", "{booktitle}"), "[name]", "{username}")
  }

  /** `patch_0_8_0`: the old placeholders of every mail template are rewritten; no other row changes. */
  function PatchPlaceholders(meta: map<String, String>): (r: map<String, String>)
    ensures r.Keys == meta.Keys
    ensures forall key | key in meta && IsMailTemplateKey(key) :: r[key] == ReplacePlaceholders(meta[key])
    ensures forall key | key in meta && !IsMailTemplateKey(key) :: r[key] == meta[key]
  {
    map key | key in meta :: if IsMailTemplateKey(key) then ReplacePlaceholders(meta[key]) else meta[key]
  }

  /** A text without the old placeholders is left as it is. */
  lemma ReplacePlaceholdersAbsent(value: String)
    requires !Contains(value, "[mediumtitel]") && !Contains(value, "[name]")
    ensures ReplacePlaceholders(value) == value
  {
    ReplaceAbsent(value, "[mediumtitel]", "{booktitle}");
    ReplaceAbsent(value, "[name]", "{username}");
  }

  /** Every `mail.<name>.subject` and `mail.<name>.content` key is a template key. */
  lemma MailTemplateKeys(name: String)
    ensures IsMailTemplateKey("mail." + name + ".subject") && IsMailTemplateKey("mail." + name + ".content")
  {
    AffixesMatch("mail.", name, ".subject");
    AffixesMatch("mail.", name, ".content");
  }

  lemma AffixesMatch(prefix: String, middle: String, suffix: String)
    requires forall i | 0 <= i < |prefix| :: !IsAsciiUpper(prefix[i])
    requires forall i | 0 <= i < |suffix| :: !IsAsciiUpper(suffix[i])
    ensures LikeAffixes(prefix + middle + suffix, prefix, suffix)
  {
    var s := prefix + middle + suffix;
    assert s[..|prefix|] == prefix;
    assert s[|s| - |suffix|..] == suffix;
    LowerAsciiUnchanged(prefix);
    LowerAsciiUnchanged(suffix);
  }

  lemma LowerAsciiUnchanged(s: String)
    requires forall i | 0 <= i < |s| :: !IsAsciiUpper(s[i])
    ensures LowerAscii(s) == s
  {
    assert forall i | 0 <= i < |s| :: ToAsciiLower(s[i]) == s[i];
  }

  /** The mail host is too short to be a template key, so the patch leaves it alone. */
  lemma MailHostNotTemplate()
    ensures !IsMailTemplateKey("mail.host")
  {
  }

  // ------------------------------------------------------------ patch 0.6.3

  /** The settings keys of the oldest projects that are renamed with their values kept. */
  const RENAMED: map<String, String> := map[
    "data.ausleihdauer" := "borrowing.duration",
    "letzteMahnung" := "mail.lastReminder",
    "email.absender" := "mail.from",
    "email.host" := "mail.host",
    "email.passwort" := "mail.password",
    "email.infoTitel" := "mail.info.subject",
    "email.info" := "mail.info.content",
    "email.mahnungTitel" := "mail.overdue.subject",
    "email.mahnung" := "mail.overdue.content",
    "email.mahnung2Titel" := "mail.overdue2.subject",
    "email.mahnung2" := "mail.overdue2.content"]

  const REGEX_KEY: String := "data.benutzer.regex"
  const PATH_KEY: String := "data.benutzer"
  const DNB_KEY: String := "dnb.url.medien"

  predicate IsHexDigit(c: char) {
    '0' <= c <= '9' || 'a' <= c <= 'f' || 'A' <= c <= 'F'
  }

  function HexValue(c: char): (r: nat)
    requires IsHexDigit(c)
    ensures r < 16
  {
    if '0' <= c <= '9' then c as nat - '0' as nat
    else if 'a' <= c <= 'f' then c as nat - 'a' as nat + 10
    else c as nat - 'A' as nat + 10
  }

  /** The value of four hexadecimal digits. */
  function Hex4(s: String): (r: nat)
    requires |s| == 4 && forall i | 0 <= i < 4 :: IsHexDigit(s[i])
    ensures r < 0x1_0000
  {
    ((HexValue(s[0]) * 16 + HexValue(s[1])) * 16 + HexValue(s[2])) * 16 + HexValue(s[3])
  }

  /** The character of a simple escape `\c`, if `c` names one. */
  function SimpleEscape(c: char): Option<char> {
    if c == 'b' then Some('\U{0008}')
    else if c == 'f' then Some('\U{000C}')
    else if c == 'n' then Some('\n')
    else if c == 'r' then Some('\r')
    else if c == 't' then Some('\t')
    else if c == '\'' then Some('\'')
    else if c == '"' then Some('"')
    else if c == '\\' then Some('\\')
    else None
  }

  /**
   * `unescape::unescape`: the simple escapes and `\uXXXX` with four
   * hexadecimal digits naming a character; any other backslash sequence
   * makes the whole text fail.
   */
  function Unescape(s: String): (r: Option<String>)
    ensures '\\' !in s ==> r == Some(s)
    decreases |s|
  {
    if s == [] then Some([])
    else if s[0] != '\\' then
      assert s == [s[0]] + s[1..];
      match Unescape(s[1..])
      case None => None
      case Some(t) => Some([s[0]] + t)
    else if |s| < 2 then None
    else if SimpleEscape(s[1]).Some? then
      match Unescape(s[2..])
      case None => None
      case Some(t) => Some([SimpleEscape(s[1]).value] + t)
    else if s[1] == 'u' && |s| >= 6 && (forall i | 2 <= i < 6 :: IsHexDigit(s[i])) then
      var v := Hex4(s[2..6]);
      if 0xD800 <= v < 0xE000 then None
      else
        match Unescape(s[6..])
        case None => None
        case Some(t) => Some([v as char] + t)
    else None
  }

  /** Doubling every backslash: the escaped form of a text. */
  function EscapeBackslashes(s: String): (r: String)
    ensures |r| >= |s|
  {
    if s == [] then []
    else (if s[0] == '\\' then "\\\\" else [s[0]]) + EscapeBackslashes(s[1..])
  }

  /** Unescaping undoes escaping. */
  lemma {:induction false} UnescapeEscape(s: String)
    ensures Unescape(EscapeBackslashes(s)) == Some(s)
  {
    if s != [] {
      UnescapeEscape(s[1..]);
      var t := EscapeBackslashes(s[1..]);
      if s[0] == '\\' {
        assert EscapeBackslashes(s) == "\\\\" + t;
        UnescapeEscapedBackslash(t);
      } else {
        assert EscapeBackslashes(s) == [s[0]] + t;
        UnescapePlain(s[0], t);
      }
      assert s == [s[0]] + s[1..];
    }
  }

  /** An escaped backslash unescapes to one backslash. */
  lemma UnescapeEscapedBackslash(t: String)
    ensures Unescape("\\\\" + t) == (if Unescape(t).Some? then Some(['\\'] + Unescape(t).value) else None)
  {
    var e := "\\\\" + t;
    assert e[2..] == t;
    assert SimpleEscape(e[1]) == Some('\\');
  }

  /** Any other character stands for itself. */
  lemma UnescapePlain(c: char, t: String)
    requires c != '\\'
    ensures Unescape([c] + t) == (if Unescape(t).Some? then Some([c] + Unescape(t).value) else None)
  {
    assert ([c] + t)[1..] == t;
  }

  /** The delimiter test vectors: a bare `|` and `|` both give `|`. */
  lemma UnescapeExamples()
    ensures Unescape("|") == Some("|")
    ensures Unescape("\\u007C") == Some("|")
  {
    var s := "\\u007C";
    assert s[2..6] == "007C";
    assert Hex4("007C") == 0x7C;
    assert s[6..] == [];
  }

  predicate IsWordChar(c: char) {
    IsAsciiAlphabetic(c) || IsAsciiDigit(c) || c == '_'
  }

  /** The length of the run of word characters that starts `s`. */
  function WordRun(s: String): (n: nat)
    ensures n <= |s| && forall i | 0 <= i < n :: IsWordChar(s[i])
    ensures n < |s| ==> !IsWordChar(s[n])
  {
    if s != [] && IsWordChar(s[0]) then 1 + WordRun(s[1..]) else 0
  }

  const TOKEN_MARK: String := "accessToken~"

  /** The token the pattern `accessToken~(\w+)/` captures when it matches at the start of `s`. */
  function TokenAt(s: String): (r: Option<String>)
    ensures r.Some? ==> r.value != [] && forall i | 0 <= i < |r.value| :: IsWordChar(r.value[i])
  {
    if IsPrefix(TOKEN_MARK, s) then
      var rest := s[|TOKEN_MARK|..];
      var n := WordRun(rest);
      if n > 0 && n < |rest| && rest[n] == '/' then Some(rest[..n]) else None
    else None
  }

  /** The regular-expression search: the leftmost match's group, or empty text when nothing matches. */
  function TokenSearch(s: String): (r: String)
    ensures forall i | 0 <= i < |r| :: IsWordChar(r[i])
    ensures r == [] || exists k | 0 <= k <= |s| :: TokenAt(s[k..]) == Some(r)
    decreases |s|
  {
    match TokenAt(s)
    case Some(t) => assert s[0..] == s; t
    case None =>
      if s == [] then []
      else
        var r := TokenSearch(s[1..]);
        assert r != [] ==> exists k | 1 <= k <= |s| :: TokenAt(s[k..]) == Some(r) by {
          if r != [] {
            var k :| 0 <= k <= |s[1..]| && TokenAt(s[1..][k..]) == Some(r);
            assert s[1..][k..] == s[k + 1..];
          }
        }
        r
  }

  /** A medium URL that carries a token yields exactly that token. */
  lemma TokenSearchFinds(token: String, rest: String)
    requires token != [] && forall i | 0 <= i < |token| :: IsWordChar(token[i])
    ensures TokenSearch(TOKEN_MARK + token + "/" + rest) == token
  {
    var s := TOKEN_MARK + token + "/" + rest;
    assert s[..|TOKEN_MARK|] == TOKEN_MARK;
    var tail := s[|TOKEN_MARK|..];
    assert tail == token + "/" + rest;
    WordRunOf(token, "/" + rest);
    assert tail == token + ("/" + rest);
    assert tail[..|token|] == token;
  }

  lemma {:induction false} WordRunOf(w: String, rest: String)
    requires forall i | 0 <= i < |w| :: IsWordChar(w[i])
    requires rest != [] && !IsWordChar(rest[0])
    ensures WordRun(w + rest) == |w|
  {
    if w != [] {
      assert (w + rest)[1..] == w[1..] + rest;
      WordRunOf(w[1..], rest);
    }
  }

  /**
   * `patch_0_6_3_settings`: the key of a setting of the oldest projects
   * becomes its current name. The user delimiter is unescaped (its text kept
   * when that fails), the user file is resolved against the project's
   * directory by `resolve` (kept when that fails), the medium URL is reduced
   * to its access token; every other key passes through unchanged.
   */
  function RenameSetting(item: (String, String), resolve: String -> Option<String>): (r: (String, String))
    ensures item.0 in RENAMED ==> r == (RENAMED[item.0], item.1)
    ensures item.0 !in RENAMED && item.0 != REGEX_KEY && item.0 != PATH_KEY && item.0 != DNB_KEY ==> r == item
  {
    var (key, value) := item;
    if key in RENAMED then (RENAMED[key], value)
    else if key == REGEX_KEY then ("user.delimiter", Unescape(value).UnwrapOr(value))
    else if key == PATH_KEY then ("user.path", resolve(value).UnwrapOr(value))
    else if key == DNB_KEY then ("dnb.token", TokenSearch(value))
    else item
  }

  /** The three keys whose values are rewritten are not plain renames. */
  lemma SpecialKeysNotRenamed()
    ensures REGEX_KEY !in RENAMED && PATH_KEY !in RENAMED && DNB_KEY !in RENAMED
  {
  }

  /** The delimiter is unescaped, the user file resolved and the medium URL reduced to its token. */
  lemma RenameSpecial(value: String, resolve: String -> Option<String>)
    ensures RenameSetting((REGEX_KEY, value), resolve) == ("user.delimiter", Unescape(value).UnwrapOr(value))
    ensures RenameSetting((PATH_KEY, value), resolve) == ("user.path", resolve(value).UnwrapOr(value))
    ensures RenameSetting((DNB_KEY, value), resolve) == ("dnb.token", TokenSearch(value))
  {
    SpecialKeysNotRenamed();
  }

  /** Every renamed key is one the settings reader knows. */
  lemma RenamedKeysKnown(key: String, value: String, resolve: String -> Option<String>)
    requires key in RENAMED || key in {REGEX_KEY, PATH_KEY, DNB_KEY}
    ensures
      var k := RenameSetting((key, value), resolve).0;
      k == SS.DURATION_KEY || k in SS.TEXT_KEYS
  {
  }

  function RenameAll(items: seq<(String, String)>, resolve: String -> Option<String>): (r: seq<(String, String)>)
    ensures |r| == |items|
    ensures forall i | 0 <= i < |items| :: r[i] == RenameSetting(items[i], resolve)
  {
    seq(|items|, i requires 0 <= i < |items| => RenameSetting(items[i], resolve))
  }

  lemma RenameAllSnoc(items: seq<(String, String)>, i: nat, resolve: String -> Option<String>)
    requires i < |items|
    ensures RenameAll(items[..i + 1], resolve) == RenameAll(items[..i], resolve) + [RenameSetting(items[i], resolve)]
  {
    var longer, shorter := RenameAll(items[..i + 1], resolve), RenameAll(items[..i], resolve);
    forall j | 0 <= j < i + 1
      ensures longer[j] == (shorter + [RenameSetting(items[i], resolve)])[j]
    {
      assert items[..i + 1][j] == items[j];
      if j < i {
        assert items[..i][j] == items[j];
      }
    }
  }

  /**
   * `patch_0_6_3`: the settings of the properties file, renamed and folded
   * into the defaults, are written with `settings::update`.
   */
  method RenameSettingsPatch(meta: map<String, String>, properties: seq<(String, String)>, resolve: String -> Option<String>)
    returns (r: map<String, String>)
    ensures r == meta + SS.Written(SS.Fold(SS.Default(), RenameAll(properties, resolve)))
  {
    var settings := SS.Default();
    var i := 0;
    while i < |properties|
      invariant 0 <= i <= |properties|
      invariant settings == SS.Fold(SS.Default(), RenameAll(properties[..i], resolve))
    {
      var (k, v) := RenameSetting(properties[i], resolve);
      RenameAllSnoc(properties, i, resolve);
      SS.FoldAppend(SS.Default(), RenameAll(properties[..i], resolve), k, v);
      settings := SS.Set(settings, k, v);
      i := i + 1;
    }
    assert properties[..i] == properties;
    r := meta + SS.Written(settings);
  }

  // ------------------------------------------------------------- migrate

  /**
   * One migration routine on the settings table. The properties file of
   * the oldest projects is `None` when it cannot be opened.
   */
  function ApplyPatch(p: Patch, meta: map<String, String>, properties: Option<seq<(String, String)>>,
    resolve: String -> Option<String>): Result<map<String, String>, E.Error>
  {
    match p
    case RenameSettings =>
      if properties.None? then Err(E.FileOpen)
      else Ok(meta + SS.Written(SS.Fold(SS.Default(), RenameAll(properties.value, resolve))))
    case RewritePlaceholders => Ok(PatchPlaceholders(meta))
  }

  /** The patches newer than `stored`, applied in table order; the first failure ends the run. */
  function ApplyNewer(patches: seq<(Version, Patch)>, stored: Version, meta: map<String, String>,
    properties: Option<seq<(String, String)>>, resolve: String -> Option<String>): Result<map<String, String>, E.Error>
    decreases |patches|
  {
    if patches == [] then Ok(meta)
    else if V.Less(stored, patches[0].0) then
      match ApplyPatch(patches[0].1, meta, properties, resolve)
      case Err(e) => Err(e)
      case Ok(m) => ApplyNewer(patches[1..], stored, m, properties, resolve)
    else ApplyNewer(patches[1..], stored, meta, properties, resolve)
  }

  /** A project at 0.8.0 or later needs no patch. */
  lemma ApplyNewerCurrent(stored: Version, meta: map<String, String>, properties: Option<seq<(String, String)>>,
    resolve: String -> Option<String>)
    requires V.LessEq(V.Version(0, 8, 0), stored)
    ensures ApplyNewer(PATCHES, stored, meta, properties, resolve) == Ok(meta)
  {
    assert PATCHES[1..][1..] == [];
  }

  /** A project from 0.6.3 on gets only the placeholder rewrite. */
  lemma ApplyNewerPlaceholdersOnly(stored: Version, meta: map<String, String>, properties: Option<seq<(String, String)>>,
    resolve: String -> Option<String>)
    requires V.LessEq(V.Version(0, 6, 3), stored) && V.Less(stored, V.Version(0, 8, 0))
    ensures ApplyNewer(PATCHES, stored, meta, properties, resolve) == Ok(PatchPlaceholders(meta))
  {
    assert PATCHES[1..][1..] == [];
  }

  /** An older project gets both patches, in order, and needs its properties file. */
  lemma ApplyNewerBoth(stored: Version, meta: map<String, String>, properties: Option<seq<(String, String)>>,
    resolve: String -> Option<String>)
    requires V.Less(stored, V.Version(0, 6, 3))
    ensures properties.None? ==> ApplyNewer(PATCHES, stored, meta, properties, resolve) == Err(E.FileOpen)
    ensures properties.Some? ==> (ApplyNewer(PATCHES, stored, meta, properties, resolve)
      == Ok(PatchPlaceholders(meta + SS.Written(SS.Fold(SS.Default(), RenameAll(properties.value, resolve))))))
  {
    assert V.Less(stored, PATCHES[0].0) && V.Less(stored, PATCHES[1].0);
    ApplyNewerPair(PATCHES[0], PATCHES[1], stored, meta, properties, resolve);
    assert PATCHES == [PATCHES[0], PATCHES[1]];
  }

  lemma ApplyNewerPair(first: (Version, Patch), second: (Version, Patch), stored: Version, meta: map<String, String>,
    properties: Option<seq<(String, String)>>, resolve: String -> Option<String>)
    requires V.Less(stored, first.0) && V.Less(stored, second.0)
    ensures ApplyNewer([first, second], stored, meta, properties, resolve) ==
      match ApplyPatch(first.1, meta, properties, resolve)
      case Err(e) => Err(e)
      case Ok(m) => ApplyPatch(second.1, m, properties, resolve)
  {
    assert [first, second][1..] == [second];
    assert [second][1..] == [];
    var applied := ApplyPatch(first.1, meta, properties, resolve);
    if applied.Ok? {
      var next := ApplyPatch(second.1, applied.value, properties, resolve);
      assert ApplyNewer([second], stored, applied.value, properties, resolve) == next;
    }
  }

  /** The outcome `migrate` reaches on a settings table, by its checks in order. */
  function Migration(meta: map<String, String>, version: String, properties: Option<seq<(String, String)>>,
    resolve: String -> Option<String>): Result<(bool, map<String, String>), E.Error>
  {
    if "version" !in meta then Err(E.UnsupportedProjectVersion)
    else match (ParseVersion(meta["version"]), ParseVersion(version))
      case (None, _) => Err(E.UnsupportedProjectVersion)
      case (_, None) => Err(E.UnsupportedProjectVersion)
      case (Some(stored), Some(target)) =>
        if !(V.LessEq(MIN_VERSION, stored) && V.LessEq(stored, target)) then Err(E.UnsupportedProjectVersion)
        else match ApplyNewer(PATCHES, stored, meta, properties, resolve)
          case Err(e) => Err(e)
          case Ok(m) => Ok((stored != target, m["version" := version]))
  }

  /** A project outside the window [0.6.2, new version] is refused whatever it holds. */
  lemma MigrationWindow(meta: map<String, String>, version: String, properties: Option<seq<(String, String)>>,
    resolve: String -> Option<String>)
    requires "version" in meta && ParseVersion(meta["version"]).Some? && ParseVersion(version).Some?
    ensures
      var stored, target := ParseVersion(meta["version"]).value, ParseVersion(version).value;
      (Migration(meta, version, properties, resolve).Err? && Migration(meta, version, properties, resolve).error != E.FileOpen)
        <==> !(V.LessEq(MIN_VERSION, stored) && V.LessEq(stored, target))
  {
    ApplyNewerFailsOnlyOnFile(PATCHES, ParseVersion(meta["version"]).value, meta, properties, resolve);
  }

  /** The only way a patch run fails is an unreadable properties file. */
  lemma {:induction false} ApplyNewerFailsOnlyOnFile(patches: seq<(Version, Patch)>, stored: Version, meta: map<String, String>,
    properties: Option<seq<(String, String)>>, resolve: String -> Option<String>)
    ensures ApplyNewer(patches, stored, meta, properties, resolve).Err? ==>
      ApplyNewer(patches, stored, meta, properties, resolve).error == E.FileOpen
    decreases |patches|
  {
    if patches != [] {
      var applied := ApplyPatch(patches[0].1, meta, properties, resolve);
      ApplyNewerFailsOnlyOnFile(patches[1..], stored, meta, properties, resolve);
      if applied.Ok? {
        ApplyNewerFailsOnlyOnFile(patches[1..], stored, applied.value, properties, resolve);
      }
    }
  }

  /** Opening a current project rewrites only the version and reports no update. */
  lemma MigrationCurrent(meta: map<String, String>, properties: Option<seq<(String, String)>>,
    resolve: String -> Option<String>)
    requires "version" in meta && ParseVersion(meta["version"]).Some?
    requires V.LessEq(V.Version(0, 8, 0), ParseVersion(meta["version"]).value)
    ensures Migration(meta, meta["version"], properties, resolve) == Ok((false, meta))
  {
    ApplyNewerCurrent(ParseVersion(meta["version"]).value, meta, properties, resolve);
    assert meta["version" := meta["version"]] == meta;
  }

  /**
   * `migrate`: reads the stored version, checks the window, runs the newer
   * patches in table order and stores the new version, all in one
   * transaction. Returns whether the version changed.
   */
  method Migrate(db: Database, version: String, properties: Option<seq<(String, String)>>,
    resolve: String -> Option<String>) returns (r: Result<bool, E.Error>)
    requires db.Valid()
    modifies db
    ensures db.Valid()
    ensures Migration(old(db.meta), version, properties, resolve).Err? ==>
      r == Err(Migration(old(db.meta), version, properties, resolve).error) && db.meta == old(db.meta)
    ensures Migration(old(db.meta), version, properties, resolve).Ok? ==>
      r == Ok(Migration(old(db.meta), version, properties, resolve).value.0)
      && db.meta == Migration(old(db.meta), version, properties, resolve).value.1
    ensures db.media == old(db.media) && db.authors == old(db.authors) && db.users == old(db.users)
    ensures db.categories == old(db.categories)
  {
    if "version" !in db.meta {
      return Err(E.UnsupportedProjectVersion);
    }
    var oldVersion := ParseVersion(db.meta["version"]);
    if oldVersion.None? {
      return Err(E.UnsupportedProjectVersion);
    }
    var newVersion := ParseVersion(version);
    if newVersion.None? {
      return Err(E.UnsupportedProjectVersion);
    }
    var stored, target := oldVersion.value, newVersion.value;
    if !(V.LessEq(MIN_VERSION, stored) && V.LessEq(stored, target)) {
      return Err(E.UnsupportedProjectVersion);
    }
    var patched := RunPatches(stored, db.meta, properties, resolve);
    if patched.Err? {
      return Err(patched.error);
    }
    db.meta := patched.value["version" := version];
    r := Ok(stored != target);
  }

  /** The patch loop of `migrate`: every patch newer than `stored`, in table order, stopping at the first error. */
  method RunPatches(stored: Version, meta: map<String, String>, properties: Option<seq<(String, String)>>,
    resolve: String -> Option<String>) returns (r: Result<map<String, String>, E.Error>)
    ensures r == ApplyNewer(PATCHES, stored, meta, properties, resolve)
  {
    var current := meta;
    var i := 0;
    while i < |PATCHES|
      invariant 0 <= i <= |PATCHES|
      invariant ApplyNewer(PATCHES[i..], stored, current, properties, resolve) == ApplyNewer(PATCHES, stored, meta, properties, resolve)
    {
      assert PATCHES[i..][1..] == PATCHES[i + 1..];
      var (patchVersion, patch) := PATCHES[i];
      if V.Less(stored, patchVersion) {
        var applied := ApplyPatch(patch, current, properties, resolve);
        if applied.Err? {
          return Err(applied.error);
        }
        current := applied.value;
      }
      i := i + 1;
    }
    r := Ok(current);
  }

  // ------------------------------------------------------------- create

  /** The settings table of a new project: the version and the written defaults. */
  function CreatedMeta(version: String): map<String, String> {
    map["version" := version] + SS.Written(SS.Default())
  }

  /** `create`: empty tables, the version and the default settings. */
  method Create(version: String) returns (db: Database)
    ensures fresh(db) && db.Valid()
    ensures db.media == [] && db.authors == [] && db.users == [] && db.categories == []
    ensures db.meta == CreatedMeta(version)
  {
    db := new Database();
    db.meta := db.meta["version" := version];
    var _ := SS.Update(db, SS.Default());
  }

  /** The settings read back from a new project are the defaults. */
  lemma CreatedSettingsAreDefault(version: String)
    ensures SS.Fetch(CreatedMeta(version)) == SS.Default()
  {
    SS.FetchAfterUpdate(map["version" := version], SS.Default());
    SS.TrimmedDefault();
  }
}
