/**
 * The SQLite project format of releases before 0.9: its settings record,
 * its book rows, the conversions into the current data model that the
 * importer uses, and the migration that brings an old file up to the last
 * SQLite release before it is read.
 */
module Legacy {
  import opened Wrappers
  import opened Ints
  import opened Text
  import opened Schema
  import opened Dates
  import V = SemVer
  import Errors
  import SS = SettingsStore
  import Structure

  // ------------------------------------------------------------- settings

  /** The keys of the eleven text fields of the old settings record. */
  const TEXT_KEYS: set<String> := {"dnb.token", "mail.lastReminder", "mail.from", "mail.host", "mail.password",
    "mail.info.subject", "mail.info.content", "mail.overdue.subject", "mail.overdue.content",
    "mail.overdue2.subject", "mail.overdue2.content"}

  /** The old settings record: the loan duration and the text fields, each held under its key. */
  datatype Settings = Settings(borrowingDuration: i64, texts: map<String, String>)

  predicate Complete(s: Settings) {
    s.texts.Keys == TEXT_KEYS
  }

  /** A text field, empty when absent. */
  function Field(s: Settings, key: String): String {
    if key in s.texts then s.texts[key] else []
  }

  /** `Settings::default`: a 28-day loan and every text empty. */
  function Default(): (r: Settings)
    ensures Complete(r)
    ensures r.borrowingDuration == 28
    ensures forall key | key in TEXT_KEYS :: r.texts[key] == []
  {
    Settings(28, map key | key in TEXT_KEYS :: [])
  }

  lemma DurationNotText()
    ensures SS.DURATION_KEY !in TEXT_KEYS
  {
  }

  /**
   * `Settings::set`: a known key replaces its field (an unparseable
   * duration keeps the previous one); `version` and unknown keys are only
   * logged.
   */
  function Set(s: Settings, key: String, value: String): (r: Settings)
    ensures key == SS.DURATION_KEY ==> r == s.(borrowingDuration := SS.ParseI64(value).UnwrapOr(s.borrowingDuration))
    ensures key in TEXT_KEYS ==> r == s.(texts := s.texts[key := value])
    ensures key != SS.DURATION_KEY && key !in TEXT_KEYS ==> r == s
  {
    DurationNotText();
    if key == "version" then s
    else if key == SS.DURATION_KEY then s.(borrowingDuration := SS.ParseI64(value).UnwrapOr(s.borrowingDuration))
    else if key in TEXT_KEYS then s.(texts := s.texts[key := value])
    else s
  }

  /** The stored version is not a setting. */
  lemma SetIgnoresVersion(s: Settings, value: String)
    ensures Set(s, "version", value) == s
  {
  }

  /** Setting a text field changes that field and no other. */
  lemma SetOneField(s: Settings, key: String, value: String, other: String)
    requires key in TEXT_KEYS && other != key
    ensures Field(Set(s, key, value), key) == value
    ensures Field(Set(s, key, value), other) == Field(s, other)
    ensures Set(s, key, value).borrowingDuration == s.borrowingDuration
  {
    DurationNotText();
  }

  function Fold(s: Settings, pairs: seq<(String, String)>): Settings
    decreases |pairs|
  {
    if pairs == [] then s else Fold(Set(s, pairs[0].0, pairs[0].1), pairs[1..])
  }

  /** `Settings::from_iter`: the defaults, then every pair in order. */
  method FromIter(pairs: seq<(String, String)>) returns (s: Settings)
    ensures s == Fold(Default(), pairs)
  {
    s := Default();
    var i := 0;
    while i < |pairs|
      invariant 0 <= i <= |pairs|
      invariant Fold(s, pairs[i..]) == Fold(Default(), pairs)
    {
      assert pairs[i..][1..] == pairs[i + 1..];
      s := Set(s, pairs[i].0, pairs[i].1);
      i := i + 1;
    }
  }

  lemma {:induction false} FoldComplete(s: Settings, pairs: seq<(String, String)>)
    requires Complete(s)
    ensures Complete(Fold(s, pairs))
    decreases |pairs|
  {
    if pairs != [] {
      FoldComplete(Set(s, pairs[0].0, pairs[0].1), pairs[1..]);
    }
  }

  lemma {:induction false} FoldAppend(s: Settings, pairs: seq<(String, String)>, key: String, value: String)
    ensures Fold(s, pairs + [(key, value)]) == Set(Fold(s, pairs), key, value)
    decreases |pairs|
  {
    if pairs != [] {
      assert (pairs + [(key, value)])[1..] == pairs[1..] + [(key, value)];
      FoldAppend(Set(s, pairs[0].0, pairs[0].1), pairs[1..], key, value);
    }
  }

  /** Of two pairs with the same key the later one wins (for the duration, when it parses). */
  lemma FoldLaterWins(s: Settings, pairs: seq<(String, String)>, key: String, first: String, second: String)
    requires key != SS.DURATION_KEY || SS.ParseI64(second).Some?
    ensures Fold(s, pairs + [(key, first), (key, second)]) == Fold(s, pairs + [(key, second)])
  {
    assert pairs + [(key, first), (key, second)] == (pairs + [(key, first)]) + [(key, second)];
    FoldAppend(s, pairs + [(key, first)], key, second);
    FoldAppend(s, pairs, key, first);
    FoldAppend(s, pairs, key, second);
  }

  /** An unparseable duration leaves the previous one in place. */
  lemma FoldKeepsDuration(s: Settings, pairs: seq<(String, String)>, value: String)
    requires SS.ParseI64(value).None?
    ensures Fold(s, pairs + [(SS.DURATION_KEY, value)]) == Fold(s, pairs)
  {
    FoldAppend(s, pairs, SS.DURATION_KEY, value);
  }

  /** The user-file keys, which this format no longer knows, are skipped like any unknown key. */
  lemma FoldIgnoresUnknown(s: Settings, pairs: seq<(String, String)>, key: String, value: String)
    requires key != SS.DURATION_KEY && key !in TEXT_KEYS
    ensures Fold(s, pairs + [(key, value)]) == Fold(s, pairs)
  {
    FoldAppend(s, pairs, key, value);
  }

  // --------------------------------------------------- settings conversion

  datatype MailTemplate = MailTemplate(subject: String, body: String)

  /** The fields of the current settings record that the conversion fills. */
  datatype CurrentSettings = CurrentSettings(
    borrowingDuration: int,
    mailLastReminder: Date,
    mailFrom: String,
    mailHost: String,
    mailPassword: String,
    mailInfo: MailTemplate,
    mailOverdue: MailTemplate,
    mailOverdue2: MailTemplate)

  /** The template stored under `mail.<name>.subject` and `mail.<name>.content`. */
  function Template(s: Settings, name: String): MailTemplate {
    MailTemplate(Field(s, "mail." + name + ".subject"), Field(s, "mail." + name + ".content"))
  }

  /**
   * `From<Settings>`: the mail templates become subject/body pairs and the
   * last reminder a date, falling back to `today` when it does not parse.
   */
  function Convert(s: Settings, today: Date): (r: CurrentSettings)
    ensures r.borrowingDuration == s.borrowingDuration as int
    ensures r.mailInfo == Template(s, "info") && r.mailOverdue == Template(s, "overdue")
    ensures r.mailOverdue2 == Template(s, "overdue2")
    ensures r.mailFrom == Field(s, "mail.from") && r.mailHost == Field(s, "mail.host")
    ensures r.mailPassword == Field(s, "mail.password")
    ensures ParseIso(Field(s, "mail.lastReminder")).None? ==> r.mailLastReminder == today
    ensures ParseIso(Field(s, "mail.lastReminder")).Some? ==> r.mailLastReminder == ParseIso(Field(s, "mail.lastReminder")).value
  {
    CurrentSettings(
      s.borrowingDuration as int,
      ParseIso(Field(s, "mail.lastReminder")).UnwrapOr(today),
      Field(s, "mail.from"),
      Field(s, "mail.host"),
      Field(s, "mail.password"),
      Template(s, "info"),
      Template(s, "overdue"),
      Template(s, "overdue2"))
  }

  /** A stored reminder date in `%Y-%m-%d` form survives the conversion. */
  lemma ConvertReminder(s: Settings, d: Date, today: Date)
    requires Valid(d) && Field(s, "mail.lastReminder") == FormatIso(d)
    ensures Convert(s, today).mailLastReminder == d
  {
    ParseFormatIso(d);
  }

  /** Untouched defaults convert to empty templates and today's date. */
  lemma ConvertDefault(today: Date)
    ensures Convert(Default(), today) ==
      CurrentSettings(28, today, [], [], [], MailTemplate([], []), MailTemplate([], []), MailTemplate([], []))
  {
    var d := Default();
    assert "mail.lastReminder" in TEXT_KEYS;
    assert Field(d, "mail.lastReminder") == [];
    assert ParseIso([]).None?;
  }

  // ------------------------------------------------------------- books

  /** A `medium` row read with its joined author names. */
  datatype Book = Book(
    id: String,
    isbn: String,
    title: String,
    publisher: String,
    year: int,
    costs: real,
    note: String,
    borrowable: bool,
    category: String,
    authors: seq<String>,
    borrower: String,
    deadline: String,
    reservation: String)

  /** The joined `authors` column split at every comma. */
  function ReadAuthors(column: String): (r: seq<String>)
    ensures Join(r, ",") == column
    ensures |r| >= 1
  {
    JoinSplit(column, ',');
    Split(column, ',')
  }

  /** Names without commas come back as they were concatenated. */
  lemma ReadAuthorsOfNames(names: seq<String>)
    requires names != [] && forall i | 0 <= i < |names| :: ',' !in names[i]
    ensures ReadAuthors(Join(names, ",")) == names
  {
    SplitJoin(names, ',');
  }

  /** A medium without authors reads as one empty author name. */
  lemma ReadNoAuthors()
    ensures ReadAuthors([]) == [[]]
  {
    assert SplitOnce([], ',').None?;
  }

  datatype Borrower = Borrower(user: String, deadline: Date)

  /** A book of the current data model. */
  datatype CurrentBook = CurrentBook(
    id: String,
    isbn: String,
    title: String,
    publisher: String,
    year: int,
    costs: real,
    note: String,
    borrowable: bool,
    category: String,
    authors: String,
    borrower: Option<Borrower>,
    reservation: Option<String>)

  /**
   * `From<Book>`: authors joined with `", "`, a borrower only when there is
   * a deadline, a reservation only when it is non-empty. The deadline is
   * unwrapped, so a deadline that does not parse aborts the conversion
   * (`None` here).
   */
  function ConvertBook(b: Book): (r: Option<CurrentBook>)
    ensures r.None? <==> b.deadline != [] && ParseIso(b.deadline).None?
    ensures r.Some? ==> r.value.authors == Join(b.authors, ", ")
    ensures r.Some? ==> (r.value.borrower.Some? <==> b.deadline != [])
    ensures r.Some? && r.value.borrower.Some? ==> r.value.borrower.value.user == b.borrower
    ensures r.Some? ==> (r.value.reservation.Some? <==> b.reservation != [])
    ensures r.Some? && r.value.reservation.Some? ==> r.value.reservation.value == b.reservation
    ensures r.Some? ==> r.value.id == b.id && r.value.title == b.title && r.value.category == b.category
  {
    var reservation := if b.reservation == [] then None else Some(b.reservation);
    if b.deadline == [] then
      Some(CurrentBook(b.id, b.isbn, b.title, b.publisher, b.year, b.costs, b.note, b.borrowable, b.category,
        Join(b.authors, ", "), None, reservation))
    else match ParseIso(b.deadline)
      case None => None
      case Some(d) =>
        Some(CurrentBook(b.id, b.isbn, b.title, b.publisher, b.year, b.costs, b.note, b.borrowable, b.category,
          Join(b.authors, ", "), Some(Borrower(b.borrower, d)), reservation))
  }

  /** A lent book keeps its borrower and the date its deadline names. */
  lemma ConvertLentBook(b: Book, d: Date)
    requires Valid(d) && b.deadline == FormatIso(d)
    ensures ConvertBook(b).Some? && ConvertBook(b).value.borrower == Some(Borrower(b.borrower, d))
  {
    ParseFormatIso(d);
  }

  /** A book row whose authors have no commas converts to those names separated by `", "`. */
  lemma ConvertAuthorsColumn(b: Book, names: seq<String>, column: String)
    requires names != [] && forall i | 0 <= i < |names| :: ',' !in names[i]
    requires column == Join(names, ",") && b.authors == ReadAuthors(column) && b.deadline == []
    ensures ConvertBook(b).Some? && ConvertBook(b).value.authors == Join(names, ", ")
  {
    ReadAuthorsOfNames(names);
  }

  // ------------------------------------------------------------- migrate

  const MIN_VERSION: V.Version := V.Version(0, 7, 0)

  datatype Patch = RewritePlaceholders | FillEmptyRoles | DropUserFileKeys

  const PATCHES: seq<(V.Version, Patch)> := [
    (V.Version(0, 8, 0), RewritePlaceholders),
    (V.Version(0, 8, 3), FillEmptyRoles),
    (V.Version(0, 8, 4), DropUserFileKeys)]

  /** `patch_0_8_3`: an empty role becomes `-`; every other user is untouched. */
  function FillRoles(users: seq<User>): (r: seq<User>)
    ensures |r| == |users|
    ensures forall i | 0 <= i < |users| :: r[i].role != []
    ensures forall i | 0 <= i < |users| :: users[i].role != [] ==> r[i] == users[i]
    ensures forall i | 0 <= i < |users| :: users[i].role == [] ==> r[i] == users[i].(role := "-")
  {
    seq(|users|, i requires 0 <= i < |users| => if users[i].role == [] then users[i].(role := "-") else users[i])
  }

  /** Filling roles keeps the accounts, so the primary key still holds. */
  lemma FillRolesKeepsAccounts(users: seq<User>)
    requires UniqueAccounts(users)
    ensures UniqueAccounts(FillRoles(users))
    ensures forall i | 0 <= i < |users| :: FillRoles(users)[i].account == users[i].account
  {
    var r := FillRoles(users);
    assert forall i | 0 <= i < |users| :: r[i].account == users[i].account;
  }

  /** Filling twice is filling once. */
  lemma FillRolesIdempotent(users: seq<User>)
    ensures FillRoles(FillRoles(users)) == FillRoles(users)
  {
  }

  /** `patch_0_8_4`: the user-file path and delimiter rows are deleted. */
  function DropUserFile(meta: map<String, String>): (r: map<String, String>)
    ensures r.Keys == meta.Keys - {"user.path", "user.delimiter"}
    ensures forall key | key in r :: r[key] == meta[key]
  {
    meta - {"user.path", "user.delimiter"}
  }

  /** The two tables the patches touch. */
  datatype Tables = Tables(meta: map<String, String>, users: seq<User>)

  function ApplyPatch(p: Patch, t: Tables): Tables {
    match p
    case RewritePlaceholders => t.(meta := Structure.PatchPlaceholders(t.meta))
    case FillEmptyRoles => t.(users := FillRoles(t.users))
    case DropUserFileKeys => t.(meta := DropUserFile(t.meta))
  }

  /** The patches newer than `stored`, applied in table order. */
  function ApplyNewer(patches: seq<(V.Version, Patch)>, stored: V.Version, t: Tables): Tables
    decreases |patches|
  {
    if patches == [] then t
    else ApplyNewer(patches[1..], stored, if V.Less(stored, patches[0].0) then ApplyPatch(patches[0].1, t) else t)
  }

  /** A project at 0.8.4 or later needs no patch. */
  lemma ApplyNewerCurrent(stored: V.Version, t: Tables)
    requires V.LessEq(V.Version(0, 8, 4), stored)
    ensures ApplyNewer(PATCHES, stored, t) == t
  {
    assert PATCHES[1..][1..][1..] == [];
  }

  /** A 0.7 project gets all three patches. */
  lemma ApplyNewerAll(stored: V.Version, t: Tables)
    requires V.Less(stored, V.Version(0, 8, 0))
    ensures ApplyNewer(PATCHES, stored, t) ==
      Tables(DropUserFile(Structure.PatchPlaceholders(t.meta)), FillRoles(t.users))
  {
    assert PATCHES[1..][1..][1..] == [];
  }

  /** A project between 0.8.0 and 0.8.3 gets the last two. */
  lemma ApplyNewerRolesAndKeys(stored: V.Version, t: Tables)
    requires V.LessEq(V.Version(0, 8, 0), stored) && V.Less(stored, V.Version(0, 8, 3))
    ensures ApplyNewer(PATCHES, stored, t) == Tables(DropUserFile(t.meta), FillRoles(t.users))
  {
    assert PATCHES[1..][1..][1..] == [];
  }

  /** The patch run touches no user account, so the primary key survives it. */
  lemma {:induction false} ApplyNewerKeepsAccounts(patches: seq<(V.Version, Patch)>, stored: V.Version, t: Tables)
    requires UniqueAccounts(t.users)
    ensures UniqueAccounts(ApplyNewer(patches, stored, t).users)
    decreases |patches|
  {
    if patches != [] {
      FillRolesKeepsAccounts(t.users);
      var next := if V.Less(stored, patches[0].0) then ApplyPatch(patches[0].1, t) else t;
      ApplyNewerKeepsAccounts(patches[1..], stored, next);
    }
  }

  /** The outcome `migrate` reaches, by its checks in order. */
  function Migration(t: Tables, version: String): Result<(bool, Tables), Errors.Error> {
    if "version" !in t.meta then Err(Errors.UnsupportedProjectVersion)
    else match (V.Parse(t.meta["version"]), V.Parse(version))
      case (None, _) => Err(Errors.UnsupportedProjectVersion)
      case (_, None) => Err(Errors.UnsupportedProjectVersion)
      case (Some(stored), Some(target)) =>
        if !(V.LessEq(MIN_VERSION, stored) && V.LessEq(stored, target)) then Err(Errors.UnsupportedProjectVersion)
        else
          var patched := ApplyNewer(PATCHES, stored, t);
          Ok((stored != target, patched.(meta := patched.meta["version" := version])))
  }

  /** A file is refused exactly when its version lies outside [0.7.0, new version]. */
  lemma MigrationWindow(t: Tables, version: String)
    requires "version" in t.meta && V.Parse(t.meta["version"]).Some? && V.Parse(version).Some?
    ensures
      var stored, target := V.Parse(t.meta["version"]).value, V.Parse(version).value;
      Migration(t, version).Err? <==> !(V.LessEq(MIN_VERSION, stored) && V.LessEq(stored, target))
  {
  }

  /** Any success reports whether the version changed and stores the new one. */
  lemma MigrationReports(t: Tables, version: String)
    requires Migration(t, version).Ok?
    ensures Migration(t, version).value.1.meta["version"] == version
    ensures Migration(t, version).value.0 <==> V.Parse(t.meta["version"]) != V.Parse(version)
  {
  }

  lemma MigrationAccepted(t: Tables, version: String, stored: V.Version, target: V.Version, patched: Tables)
    requires "version" in t.meta && V.Parse(t.meta["version"]) == Some(stored) && V.Parse(version) == Some(target)
    requires V.LessEq(MIN_VERSION, stored) && V.LessEq(stored, target)
    requires patched == ApplyNewer(PATCHES, stored, t)
    ensures Outcome(t, version) == (Ok(stored != target), patched.(meta := patched.meta["version" := version]))
  {
  }

  /** The result `migrate` returns and the tables it leaves: unchanged on any error. */
  function Outcome(t: Tables, version: String): (Result<bool, Errors.Error>, Tables) {
    match Migration(t, version)
    case Err(e) => (Err(e), t)
    case Ok((changed, patched)) => (Ok(changed), patched)
  }

  /** The patch run never touches an account, so the primary key of `user` survives a migration. */
  lemma OutcomeKeepsAccounts(t: Tables, version: String)
    requires UniqueAccounts(t.users)
    ensures UniqueAccounts(Outcome(t, version).1.users)
  {
    if Migration(t, version).Ok? {
      ApplyNewerKeepsAccounts(PATCHES, V.Parse(t.meta["version"]).value, t);
    }
  }

  /**
   * `migrate` inside its transaction: reads the stored version, checks the
   * window, runs the newer patches in table order and stores the new
   * version. Returns whether the version changed, and the tables the
   * transaction would commit.
   */
  method MigrateTables(t: Tables, version: String) returns (r: Result<bool, Errors.Error>, after: Tables)
    ensures (r, after) == Outcome(t, version)
  {
    after := t;
    if "version" !in t.meta {
      return Err(Errors.UnsupportedProjectVersion), t;
    }
    var oldVersion := V.Parse(t.meta["version"]);
    if oldVersion.None? {
      return Err(Errors.UnsupportedProjectVersion), t;
    }
    var newVersion := V.Parse(version);
    if newVersion.None? {
      return Err(Errors.UnsupportedProjectVersion), t;
    }
    var stored, target := oldVersion.value, newVersion.value;
    if !(V.LessEq(MIN_VERSION, stored) && V.LessEq(stored, target)) {
      return Err(Errors.UnsupportedProjectVersion), t;
    }
    var patched := RunPatches(stored, t);
    MigrationAccepted(t, version, stored, target, patched);
    after := patched.(meta := patched.meta["version" := version]);
    r := Ok(stored != target);
  }

  /** `migrate` on a project: the transaction commits only on success. */
  method Migrate(db: Database, version: String) returns (r: Result<bool, Errors.Error>)
    requires db.Valid()
    modifies db
    ensures db.Valid()
    ensures (r, Tables(db.meta, db.users)) == Outcome(Tables(old(db.meta), old(db.users)), version)
    ensures db.media == old(db.media) && db.authors == old(db.authors) && db.categories == old(db.categories)
  {
    var after;
    r, after := MigrateTables(Tables(db.meta, db.users), version);
    OutcomeKeepsAccounts(Tables(db.meta, db.users), version);
    db.meta, db.users := after.meta, after.users;
  }

  /** The patch loop of `migrate`: every patch newer than `stored`, in table order. */
  method RunPatches(stored: V.Version, t: Tables) returns (r: Tables)
    ensures r == ApplyNewer(PATCHES, stored, t)
  {
    r := t;
    var i := 0;
    while i < |PATCHES|
      invariant 0 <= i <= |PATCHES|
      invariant ApplyNewer(PATCHES[i..], stored, r) == ApplyNewer(PATCHES, stored, t)
    {
      assert PATCHES[i..][1..] == PATCHES[i + 1..];
      var (patchVersion, patch) := PATCHES[i];
      if V.Less(stored, patchVersion) {
        r := ApplyPatch(patch, r);
      }
      i := i + 1;
    }
  }
}
