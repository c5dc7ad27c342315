/**
 * The project settings as stored in the `sbv_meta` key/value table:
 * reading folds the stored pairs into a record that starts from the
 * defaults, and writing stores the fourteen known keys with trimmed text.
 */
module SettingsStore {
  import opened Wrappers
  import opened Ints
  import opened Text
  import opened Schema

  /** The key of the loan duration, the one field that is a number. */
  const DURATION_KEY: String := "borrowing.duration"

  /** The keys of the thirteen text fields of the settings record. */
  const TEXT_KEYS: set<String> := {"user.path", "user.delimiter", "dnb.token", "mail.lastReminder", "mail.from",
    "mail.host", "mail.password", "mail.info.subject", "mail.info.content", "mail.overdue.subject",
    "mail.overdue.content", "mail.overdue2.subject", "mail.overdue2.content"}

  /**
   * The settings record: the loan duration in days and the thirteen text
   * fields, each held under the key it is stored with.
   */
  datatype Settings = Settings(borrowingDuration: i64, texts: map<String, String>)

  /** Every text field is present, and only those. */
  predicate Complete(s: Settings) {
    s.texts.Keys == TEXT_KEYS
  }

  /** `Settings::default`: a 28-day loan, `,` as the user delimiter and every other text empty. */
  function Default(): (r: Settings)
    ensures Complete(r)
    ensures r.borrowingDuration == 28
    ensures forall key | key in TEXT_KEYS :: r.texts[key] == if key == "user.delimiter" then "," else []
  {
    Settings(28, map key | key in TEXT_KEYS :: if key == "user.delimiter" then "," else [])
  }

  /** The duration is not one of the text fields. */
  lemma DurationNotText()
    ensures DURATION_KEY !in TEXT_KEYS
  {
  }

  /** `str::parse::<i64>()`. */
  function ParseI64(s: String): Option<i64> {
    match ParseSigned(s, -TWO_63, TWO_63 - 1)
    case None => None
    case Some(v) => Some(v as i64)
  }

  /**
   * One step of `from_iter`: a known key replaces its field (an unparseable
   * duration keeps the previous one); `version` and unknown keys change nothing.
   */
  function Set(s: Settings, key: String, value: String): (r: Settings)
    ensures key == DURATION_KEY ==> r == s.(borrowingDuration := ParseI64(value).UnwrapOr(s.borrowingDuration))
    ensures key in TEXT_KEYS ==> r == s.(texts := s.texts[key := value])
    ensures key != DURATION_KEY && key !in TEXT_KEYS ==> r == s
  {
    DurationNotText();
    if key == DURATION_KEY then s.(borrowingDuration := ParseI64(value).UnwrapOr(s.borrowingDuration))
    else if key in TEXT_KEYS then s.(texts := s.texts[key := value])
    else s
  }

  /** The pairs applied in order. */
  function Fold(s: Settings, pairs: seq<(String, String)>): Settings
    decreases |pairs|
  {
    if pairs == [] then s else Fold(Set(s, pairs[0].0, pairs[0].1), pairs[1..])
  }

  /** `Settings::from_iter`: starts from the defaults and applies every pair in order. */
  method FromIter(pairs: seq<(String, String)>) returns (s: Settings)
    ensures s == Fold(Default(), pairs)
  {
    s := Default();
    var i := 0;
    while i < |pairs|
      invariant 0 <= i <= |pairs|
      invariant Fold(s, pairs[i..]) == Fold(Default(), pairs)
    {
      assert pairs[i..][1..] == pairs[i + 1..];
      s := Set(s, pairs[i].0, pairs[i].1);
      i := i + 1;
    }
  }

  /** Whatever the pairs, every text field stays present, and nothing else appears. */
  lemma {:induction false} FoldComplete(s: Settings, pairs: seq<(String, String)>)
    requires Complete(s)
    ensures Complete(Fold(s, pairs))
    decreases |pairs|
  {
    if pairs != [] {
      FoldComplete(Set(s, pairs[0].0, pairs[0].1), pairs[1..]);
    }
  }

  /** Folding one more pair is one more step. */
  lemma {:induction false} FoldAppend(s: Settings, pairs: seq<(String, String)>, key: String, value: String)
    ensures Fold(s, pairs + [(key, value)]) == Set(Fold(s, pairs), key, value)
    decreases |pairs|
  {
    if pairs != [] {
      assert (pairs + [(key, value)])[1..] == pairs[1..] + [(key, value)];
      FoldAppend(Set(s, pairs[0].0, pairs[0].1), pairs[1..], key, value);
    }
  }

  /** `version` and unknown keys are skipped wherever they appear. */
  lemma FoldIgnoresUnknown(s: Settings, pairs: seq<(String, String)>, key: String, value: String)
    requires key != DURATION_KEY && key !in TEXT_KEYS
    ensures Fold(s, pairs + [(key, value)]) == Fold(s, pairs)
  {
    FoldAppend(s, pairs, key, value);
  }

  /** Of two pairs with the same key the later one wins (for the duration, when it parses). */
  lemma FoldLaterWins(s: Settings, pairs: seq<(String, String)>, key: String, first: String, second: String)
    requires key != DURATION_KEY || ParseI64(second).Some?
    ensures Fold(s, pairs + [(key, first), (key, second)]) == Fold(s, pairs + [(key, second)])
  {
    assert pairs + [(key, first), (key, second)] == (pairs + [(key, first)]) + [(key, second)];
    FoldAppend(s, pairs + [(key, first)], key, second);
    FoldAppend(s, pairs, key, first);
    FoldAppend(s, pairs, key, second);
  }

  /** An unparseable duration leaves the previous one in place. */
  lemma FoldKeepsDuration(s: Settings, pairs: seq<(String, String)>, value: String)
    requires ParseI64(value).None?
    ensures Fold(s, pairs + [(DURATION_KEY, value)]) == Fold(s, pairs)
  {
    FoldAppend(s, pairs, DURATION_KEY, value);
  }

  /** The settings a table holds: every stored known key overrides its field of `s`. */
  function Overlay(s: Settings, m: map<String, String>): (r: Settings)
    ensures r.borrowingDuration ==
      if DURATION_KEY in m then ParseI64(m[DURATION_KEY]).UnwrapOr(s.borrowingDuration) else s.borrowingDuration
    ensures r.texts.Keys == s.texts.Keys
    ensures forall key | key in s.texts :: r.texts[key] == if key in m then m[key] else s.texts[key]
  {
    Settings(
      if DURATION_KEY in m then ParseI64(m[DURATION_KEY]).UnwrapOr(s.borrowingDuration) else s.borrowingDuration,
      map key | key in s.texts :: if key in m then m[key] else s.texts[key])
  }

  /** The rows of a key/value table, which holds each key once. */
  function MapOf(rows: seq<(String, String)>): map<String, String> {
    if rows == [] then map[] else MapOf(rows[1..])[rows[0].0 := rows[0].1]
  }

  predicate DistinctKeys(rows: seq<(String, String)>) {
    forall i, j | 0 <= i < j < |rows| :: rows[i].0 != rows[j].0
  }

  lemma {:induction false} MapOfKeys(rows: seq<(String, String)>, key: String)
    ensures key in MapOf(rows) <==> exists i | 0 <= i < |rows| :: rows[i].0 == key
  {
    if rows != [] {
      MapOfKeys(rows[1..], key);
      if key != rows[0].0 && key in MapOf(rows) {
        var i :| 0 <= i < |rows[1..]| && rows[1..][i].0 == key;
        assert rows[i + 1].0 == key;
      }
      if key != rows[0].0 && (exists i | 0 <= i < |rows| :: rows[i].0 == key) {
        var i :| 0 <= i < |rows| && rows[i].0 == key;
        assert rows[1..][i - 1].0 == key;
      }
    }
  }

  /** A step on a key the rest of the table does not hold commutes into the table. */
  lemma OverlayStep(s: Settings, m: map<String, String>, key: String, value: String)
    requires Complete(s) && key !in m
    ensures Overlay(Set(s, key, value), m) == Overlay(s, m[key := value])
  {
    DurationNotText();
    if key == DURATION_KEY {
      OverlayDuration(s, m, value);
    } else if key in TEXT_KEYS {
      OverlayText(s, m, key, value);
    } else {
      OverlayIgnored(s, m, key, value);
    }
  }

  lemma OverlayDuration(s: Settings, m: map<String, String>, value: String)
    requires DURATION_KEY !in s.texts && DURATION_KEY !in m
    ensures Overlay(s.(borrowingDuration := ParseI64(value).UnwrapOr(s.borrowingDuration)), m)
      == Overlay(s, m[DURATION_KEY := value])
  {
    var a, b := Overlay(s.(borrowingDuration := ParseI64(value).UnwrapOr(s.borrowingDuration)), m),
      Overlay(s, m[DURATION_KEY := value]);
    assert a.texts == b.texts;
  }

  lemma OverlayText(s: Settings, m: map<String, String>, key: String, value: String)
    requires key in s.texts && key !in m && DURATION_KEY !in s.texts
    ensures Overlay(s.(texts := s.texts[key := value]), m) == Overlay(s, m[key := value])
  {
    var a, b := Overlay(s.(texts := s.texts[key := value]), m), Overlay(s, m[key := value]);
    assert a.texts == b.texts;
  }

  lemma OverlayIgnored(s: Settings, m: map<String, String>, key: String, value: String)
    requires key !in s.texts && key != DURATION_KEY
    ensures Overlay(s, m[key := value]) == Overlay(s, m)
  {
    var a, b := Overlay(s, m[key := value]), Overlay(s, m);
    assert a.texts == b.texts;
  }

  /**
   * Reading a table: whatever order the rows come in, folding them from
   * `s` gives the table's overlay, because each key occurs once.
   */
  lemma {:induction false} FoldRows(s: Settings, rows: seq<(String, String)>)
    requires Complete(s) && DistinctKeys(rows)
    ensures Fold(s, rows) == Overlay(s, MapOf(rows))
    decreases |rows|
  {
    if rows == [] {
      assert Overlay(s, map[]).texts == s.texts;
    } else {
      var rest := rows[1..];
      assert DistinctKeys(rest) by {
        forall i, j | 0 <= i < j < |rest| ensures rest[i].0 != rest[j].0 {
          assert rest[i] == rows[i + 1] && rest[j] == rows[j + 1];
        }
      }
      FoldComplete(s, rows[..1]);
      assert Fold(s, rows[..1]) == Set(s, rows[0].0, rows[0].1);
      FoldRows(Set(s, rows[0].0, rows[0].1), rest);
      MapOfKeys(rest, rows[0].0);
      assert rows[0].0 !in MapOf(rest) by {
        forall i | 0 <= i < |rest| ensures rest[i].0 != rows[0].0 {
          assert rest[i] == rows[i + 1];
        }
      }
      OverlayStep(s, MapOf(rest), rows[0].0, rows[0].1);
    }
  }

  /** `fetch`: the settings the `sbv_meta` table holds, whatever order its rows are read in. */
  function Fetch(meta: map<String, String>): (r: Settings)
    ensures Complete(r)
    ensures forall rows: seq<(String, String)> | DistinctKeys(rows) && MapOf(rows) == meta :: r == Fold(Default(), rows)
  {
    forall rows: seq<(String, String)> | DistinctKeys(rows) && MapOf(rows) == meta
      ensures Overlay(Default(), meta) == Fold(Default(), rows)
    {
      FoldRows(Default(), rows);
    }
    Overlay(Default(), meta)
  }

  /** Every text field trimmed, as `update` stores it. */
  function Trimmed(s: Settings): (r: Settings)
    ensures r.borrowingDuration == s.borrowingDuration && r.texts.Keys == s.texts.Keys
    ensures forall key | key in s.texts :: r.texts[key] == Trim(s.texts[key])
  {
    Settings(s.borrowingDuration, map key | key in s.texts :: Trim(s.texts[key]))
  }

  /** The defaults have no surrounding whitespace. */
  lemma TrimmedDefault()
    ensures Trimmed(Default()) == Default()
  {
    var d := Default();
    assert Trim(",") == "," by {
      TrimOfTrimmed(",");
    }
    assert Trim([]) == [] by {
      TrimOfTrimmed([]);
    }
    assert Trimmed(d).texts == d.texts;
  }

  /** The rows `update` writes: every text trimmed and the duration in decimal. */
  function Written(s: Settings): (r: map<String, String>)
    ensures r.Keys == s.texts.Keys + {DURATION_KEY}
    ensures r[DURATION_KEY] == IntToString(s.borrowingDuration)
    ensures forall key | key in s.texts && key != DURATION_KEY :: r[key] == Trim(s.texts[key])
  {
    Trimmed(s).texts[DURATION_KEY := IntToString(s.borrowingDuration)]
  }

  /** For complete settings those are the fourteen keys of the statement. */
  lemma WrittenKeys(s: Settings)
    requires Complete(s)
    ensures Written(s).Keys == TEXT_KEYS + {DURATION_KEY}
  {
  }

  /** `update`: the fourteen rows replace those with the same keys. */
  method Update(db: Database, s: Settings) returns (r: Result<(), DbError>)
    requires db.Valid()
    modifies db
    ensures db.Valid() && r.Ok?
    ensures db.meta == old(db.meta) + Written(s)
    ensures db.media == old(db.media) && db.authors == old(db.authors) && db.users == old(db.users)
    ensures db.categories == old(db.categories)
  {
    db.meta := db.meta + Written(s);
    r := Ok(());
  }

  /**
   * Writing and reading back gives the settings with trimmed texts,
   * whatever else the table holds, because every known key is overwritten.
   */
  lemma FetchAfterUpdate(meta: map<String, String>, s: Settings)
    requires Complete(s)
    ensures Fetch(meta + Written(s)) == Trimmed(s)
  {
    DurationNotText();
    OverlayWritten(Default(), meta, s);
  }

  lemma OverlayWritten(base: Settings, meta: map<String, String>, s: Settings)
    requires base.texts.Keys == s.texts.Keys && DURATION_KEY !in s.texts
    ensures Overlay(base, meta + Written(s)) == Trimmed(s)
  {
    var w := Written(s);
    var a, b := Overlay(base, meta + w), Trimmed(s);
    ParseI64Printed(s.borrowingDuration);
    assert a.borrowingDuration == b.borrowingDuration;
    forall key | key in base.texts ensures a.texts[key] == b.texts[key] {
      assert key in w;
    }
    assert a.texts == b.texts;
  }

  /** The decimal form of a duration parses back to it. */
  lemma ParseI64Printed(d: i64)
    ensures ParseI64(IntToString(d)) == Some(d)
  {
    ParseSignedPrinted(d, -TWO_63, TWO_63 - 1);
  }
}
