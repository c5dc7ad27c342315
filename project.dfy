/**
 * The project object the user interface talks to: it holds the open
 * database, if any, together with a cached copy of its settings. Opening
 * and creating a database file are file-system work and enter as their
 * outcome; the database calls the other methods forward to are modelled in
 * their own modules and reach the database through `GetDb`.
 */
module ProjectApi {
  import opened Wrappers
  import opened Text
  import A = ApiErrors
  import S = Schema
  import SS = SettingsStore

  class Project {
    var db: Option<S.Database>
    /** The file the database was opened from; meaningful only while one is open. */
    var file: String
    var settings: Option<SS.Settings>

    /** Either nothing is open, or a database is open and the cache holds its settings. */
    ghost predicate Valid()
      reads this, if db.Some? then {db.value} else {}
    {
      (db.Some? <==> settings.Some?)
      && (db.Some? ==> db.value.Valid() && settings.value == SS.Fetch(db.value.meta))
    }

    /** `new`: no project open. */
    constructor()
      ensures Valid() && db.None? && settings.None?
    {
      db, file, settings := None, [], None;
    }

    /** `get_db`: what every database-backed method asks first; `NoProject` while closed. */
    function GetDb(): (r: Result<S.Database, A.Error>)
      reads this
      ensures r.Ok? <==> db.Some?
      ensures r.Ok? ==> r.value == db.value
      ensures r.Err? ==> r.error == A.NoProject
    {
      match db
      case Some(d) => Ok(d)
      case None => Err(A.NoProject)
    }

    /** `close`: both the database and the cached settings are dropped. */
    method Close()
      modifies this
      ensures Valid() && db.None? && settings.None? && file == old(file)
    {
      db := None;
      settings := None;
    }

    /**
     * `open`: closes first, then takes the database `Database::open` gave
     * (with whether it was migrated) and caches its settings. When opening
     * failed the project stays closed.
     */
    method Open(path: String, outcome: Result<(S.Database, bool), A.Error>) returns (r: Result<bool, A.Error>)
      requires outcome.Ok? ==> outcome.value.0.Valid()
      modifies this
      ensures Valid()
      ensures outcome.Err? ==> r == Err(outcome.error) && db.None? && settings.None?
      ensures outcome.Ok? ==> r == Ok(outcome.value.1) && db == Some(outcome.value.0) && file == path
      ensures outcome.Ok? ==> settings == Some(SS.Fetch(outcome.value.0.meta))
    {
      Close();
      if outcome.Err? {
        return Err(outcome.error);
      }
      var (d, updated) := outcome.value;
      settings := Some(SS.Fetch(d.meta));
      db := Some(d);
      file := path;
      r := Ok(updated);
    }

    /** `create`: like `open`, with the database `Database::create` gave. */
    method Create(path: String, created: Result<S.Database, A.Error>) returns (r: Result<(), A.Error>)
      requires created.Ok? ==> created.value.Valid()
      modifies this
      ensures Valid()
      ensures created.Err? ==> r == Err(created.error) && db.None? && settings.None?
      ensures created.Ok? ==> r.Ok? && db == Some(created.value) && file == path
      ensures created.Ok? ==> settings == Some(SS.Fetch(created.value.meta))
    {
      Close();
      if created.Err? {
        return Err(created.error);
      }
      var d := created.value;
      settings := Some(SS.Fetch(d.meta));
      db := Some(d);
      file := path;
      r := Ok(());
    }

    /** `path`: the file of the open project, or the empty string. */
    function Path(): (p: String)
      reads this
      ensures db.None? ==> p == []
      ensures db.Some? ==> p == file
    {
      if db.Some? then file else []
    }

    /** `settings_get`: a copy of the cache, `NoProject` while closed. */
    function SettingsGet(): (r: Result<SS.Settings, A.Error>)
      reads this
      ensures r.Ok? <==> settings.Some?
      ensures r.Err? ==> r.error == A.NoProject
      ensures r.Ok? ==> r.value == settings.value
    {
      match settings
      case Some(s) => Ok(s)
      case None => Err(A.NoProject)
    }

    /**
     * `settings_update`: writes the settings, then reloads the cache from
     * the database, so that it holds what a fresh read would give: the
     * settings with every text trimmed.
     */
    method SettingsUpdate(s: SS.Settings) returns (r: Result<(), A.Error>)
      requires Valid() && SS.Complete(s)
      modifies this, if db.Some? then {db.value} else {}
      ensures Valid() && db == old(db) && file == old(file)
      ensures old(db).None? ==> r == Err(A.NoProject) && settings == old(settings)
      ensures old(db).Some? ==> r.Ok? && settings == Some(SS.Trimmed(s))
    {
      if db.None? {
        return Err(A.NoProject);
      }
      var d := db.value;
      var reloaded := WriteAndReload(d, s);
      Cache(d, reloaded);
      r := Ok(());
    }

    /** The cache takes the settings just read back from the open database. */
    method Cache(d: S.Database, reloaded: SS.Settings)
      requires db == Some(d) && d.Valid() && reloaded == SS.Fetch(d.meta)
      modifies this
      ensures Valid() && db == old(db) && file == old(file) && settings == Some(reloaded)
    {
      settings := Some(reloaded);
    }
  }

  /** The two database steps of `settings_update`: write the settings, then fetch them back. */
  method WriteAndReload(d: S.Database, s: SS.Settings) returns (reloaded: SS.Settings)
    requires d.Valid() && SS.Complete(s)
    modifies d
    ensures d.Valid() && reloaded == SS.Fetch(d.meta) && reloaded == SS.Trimmed(s)
  {
    ghost var before := d.meta;
    var _ := SS.Update(d, s);
    reloaded := SS.Fetch(d.meta);
    SS.FetchAfterUpdate(before, s);
  }

  /**
   * Whatever a project held, once closed or after a failed `open` every
   * database-backed call, the settings included, answers `NoProject`, and
   * the path is empty.
   */
  lemma ClosedAnswers(p: Project)
    requires p.db.None? && p.settings.None?
    ensures p.GetDb() == Err(A.NoProject) && p.SettingsGet() == Err(A.NoProject) && p.Path() == []
  {
  }

  /** While a project is open, `settings_get` gives what reading the database would. */
  lemma OpenSettingsFresh(p: Project)
    requires p.Valid() && p.db.Some?
    ensures p.SettingsGet() == Ok(SS.Fetch(p.db.value.meta))
  {
  }
}
