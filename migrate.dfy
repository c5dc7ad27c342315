/**
 * Reading a project file into the current data model: the version window
 * of a JSON project file, and the transfer of an old SQLite project, item
 * by item, where an item that cannot be added is skipped.
 */
module Import {
  import opened Wrappers
  import opened Ints
  import opened Schema
  import opened Dates
  import V = SemVer
  import E = Errors
  import L = Legacy

  // ------------------------------------------------------- version window

  /** The oldest JSON project file version the importer reads. */
  const MIN_VERSION: V.Version := V.Version(0, 9, 0)

  /** From 0.9.0 up to the version of this build (`pkg`), both ends included. */
  predicate Supported(version: V.Version, pkg: V.Version) {
    V.LessEq(MIN_VERSION, version) && V.LessEq(version, pkg)
  }

  /**
   * `import` of a JSON project file. `read` is the version stored in the
   * file, or the error opening or decoding it gave; `load` is what loading
   * the whole file gives. Only a version inside the window lets the file load.
   */
  function ImportFile<D>(read: Result<V.Version, E.Error>, pkg: V.Version, load: Result<D, E.Error>): (r: Result<D, E.Error>)
    ensures r.Ok? <==> read.Ok? && Supported(read.value, pkg) && load.Ok?
    ensures r.Ok? ==> r == load
    ensures read.Ok? && !Supported(read.value, pkg) ==> r == Err(E.UnsupportedProjectVersion)
  {
    match read
    case Err(e) => Err(e)
    case Ok(version) => if Supported(version, pkg) then load else Err(E.UnsupportedProjectVersion)
  }

  /** The window in numbers: the base-256 rank of the version lies between those of 0.9.0 and `pkg`. */
  lemma SupportedRank(version: V.Version, pkg: V.Version)
    ensures Supported(version, pkg) <==> V.Rank(MIN_VERSION) <= V.Rank(version) <= V.Rank(pkg)
  {
    V.LessRank(MIN_VERSION, version);
    V.LessRank(version, pkg);
  }

  /** A file written by this very build is read whenever the build is 0.9.0 or newer. */
  lemma ImportOwnVersion<D>(pkg: V.Version, load: Result<D, E.Error>)
    requires V.LessEq(MIN_VERSION, pkg)
    ensures ImportFile(Ok(pkg), pkg, load) == load
  {
  }

  /** Files older than 0.9.0 and files newer than the build are refused, whatever they hold. */
  lemma ImportRefused<D>(version: V.Version, pkg: V.Version, load: Result<D, E.Error>)
    requires V.Less(version, MIN_VERSION) || V.Less(pkg, version)
    ensures ImportFile(Ok(version), pkg, load) == Err(E.UnsupportedProjectVersion)
  {
    V.LessTotal(version, MIN_VERSION);
    V.LessTotal(version, pkg);
  }

  /** The last SQLite layouts (0.8.x) are below the window: they go through the transfer instead. */
  lemma ImportRefusesSqliteEra<D>(patch: u8, pkg: V.Version, load: Result<D, E.Error>)
    ensures ImportFile(Ok(V.Version(0, 8, patch)), pkg, load) == Err(E.UnsupportedProjectVersion)
  {
    ImportRefused(V.Version(0, 8, patch), pkg, load);
  }

  // ------------------------------------------------------------- transfer

  /**
   * One transfer loop of `from_db`: each item is added to the target in
   * turn; an item whose addition fails is logged and skipped, and the loop
   * goes on with the next.
   */
  function Transfer<S, T>(add: (S, T) -> Result<S, E.Error>, s: S, items: seq<T>): S
    decreases |items|
  {
    if items == [] then s
    else
      var before := Transfer(add, s, items[..|items| - 1]);
      match add(before, items[|items| - 1])
      case Ok(after) => after
      case Err(_) => before
  }

  /** The loop as written: the target is updated after each successful addition. */
  method TransferLoop<S, T>(add: (S, T) -> Result<S, E.Error>, s: S, items: seq<T>) returns (r: S)
    ensures r == Transfer(add, s, items)
  {
    r := s;
    var i := 0;
    while i < |items|
      invariant 0 <= i <= |items|
      invariant r == Transfer(add, s, items[..i])
    {
      assert items[..i + 1][..i] == items[..i];
      var added := add(r, items[i]);
      if added.Ok? {
        r := added.value;
      }
      i := i + 1;
    }
    assert items[..i] == items;
  }

  /** Transferring two runs of items is transferring the first, then the second onto the result. */
  lemma {:induction false} TransferConcat<S, T>(add: (S, T) -> Result<S, E.Error>, s: S, a: seq<T>, b: seq<T>)
    ensures Transfer(add, s, a + b) == Transfer(add, Transfer(add, s, a), b)
    decreases |b|
  {
    if b == [] {
      assert a + b == a;
    } else {
      var init := b[..|b| - 1];
      assert (a + b)[..|a + b| - 1] == a + init;
      assert (a + b)[|a + b| - 1] == b[|b| - 1];
      TransferConcat(add, s, a, init);
    }
  }

  /** An item that fails leaves no trace: the rest is transferred as if it had not been there. */
  lemma SkipThenContinue<S, T>(add: (S, T) -> Result<S, E.Error>, s: S, a: seq<T>, x: T, b: seq<T>)
    requires add(Transfer(add, s, a), x).Err?
    ensures Transfer(add, s, a + [x] + b) == Transfer(add, s, a + b)
  {
    TransferConcat(add, s, a + [x], b);
    TransferConcat(add, s, a, b);
    assert (a + [x])[..|a + [x]| - 1] == a;
  }

  /** Items that all fail leave the target as it was. */
  lemma {:induction false} TransferAllRefused<S, T>(add: (S, T) -> Result<S, E.Error>, s: S, items: seq<T>)
    requires forall i | 0 <= i < |items| :: add(s, items[i]).Err?
    ensures Transfer(add, s, items) == s
    decreases |items|
  {
    if items != [] {
      TransferAllRefused(add, s, items[..|items| - 1]);
    }
  }

  /** Whatever a successful addition preserves holds of the transferred target. */
  lemma {:induction false} TransferKeeps<S, T>(add: (S, T) -> Result<S, E.Error>, inv: S -> bool, s: S, items: seq<T>)
    requires inv(s)
    requires forall x: S, t: T :: inv(x) && add(x, t).Ok? ==> inv(add(x, t).value)
    ensures inv(Transfer(add, s, items))
    decreases |items|
  {
    if items != [] {
      TransferKeeps(add, inv, s, items[..|items| - 1]);
    }
  }

  // -------------------------------------------------------------- from_db

  /** The new data model as the transfer fills it: settings and three tables. */
  datatype Data<C, U, B> = Data(settings: L.CurrentSettings, categories: C, users: U, books: B)

  /**
   * The empty tables of a new project and their `add` operations; a book
   * is added against the categories already transferred.
   */
  datatype Target<!C, !U, !B> = Target(
    categories: C,
    users: U,
    books: B,
    addCategory: (C, Category) -> Result<C, E.Error>,
    addUser: (U, UserData) -> Result<U, E.Error>,
    addBook: (B, C, L.CurrentBook) -> Result<B, E.Error>)

  /** What reading the old file gives, query by query. */
  datatype Source = Source(
    settings: Result<L.Settings, E.Error>,
    categories: Result<seq<Category>, E.Error>,
    users: Result<seq<UserData>, E.Error>,
    books: Result<seq<L.Book>, E.Error>)

  /** The end of a transfer: the new data, the error of a failed query, or the panic of a book conversion. */
  datatype Imported<D> = Imported(data: D) | Failed(error: E.Error) | Aborted

  /** The converted books, or `None` as soon as one conversion would panic. */
  function ConvertAll(books: seq<L.Book>): (r: Option<seq<L.CurrentBook>>)
    ensures r.None? <==> exists i | 0 <= i < |books| :: L.ConvertBook(books[i]).None?
    ensures r.Some? ==> |r.value| == |books| && forall i | 0 <= i < |books| :: L.ConvertBook(books[i]) == Some(r.value[i])
    decreases |books|
  {
    if books == [] then Some([])
    else
      var init := books[..|books| - 1];
      assert forall i | 0 <= i < |init| :: init[i] == books[i];
      match ConvertAll(init)
      case None => None
      case Some(converted) =>
        match L.ConvertBook(books[|books| - 1])
        case None => None
        case Some(b) => Some(converted + [b])
  }

  /** The books loop adds against these categories. */
  function AddBookTo<C, U, B>(t: Target<C, U, B>, categories: C): (B, L.CurrentBook) -> Result<B, E.Error> {
    (b: B, x: L.CurrentBook) => t.addBook(b, categories, x)
  }

  /** The books loop: every book converted and added, or `None` when a conversion panics. */
  function TransferBooks<B>(add: (B, L.CurrentBook) -> Result<B, E.Error>, s: B, books: seq<L.Book>): Option<B> {
    match ConvertAll(books)
    case None => None
    case Some(converted) => Some(Transfer(add, s, converted))
  }

  /**
   * `from_db`: settings, categories, users and books in that order; a query
   * that fails ends the transfer with its error, an item that cannot be
   * added is skipped.
   */
  function FromDbOutcome<C, U, B>(src: Source, t: Target<C, U, B>, today: Date): Imported<Data<C, U, B>> {
    if src.settings.Err? then Failed(src.settings.error)
    else if src.categories.Err? then Failed(src.categories.error)
    else if src.users.Err? then Failed(src.users.error)
    else if src.books.Err? then Failed(src.books.error)
    else
      var categories := Transfer(t.addCategory, t.categories, src.categories.value);
      match TransferBooks(AddBookTo(t, categories), t.books, src.books.value)
      case None => Aborted
      case Some(books) =>
        Imported(Data(L.Convert(src.settings.value, today), categories, Transfer(t.addUser, t.users, src.users.value), books))
  }

  /** The transfer as written: three loops that add item by item into the new data. */
  method FromDb<C, U, B>(src: Source, t: Target<C, U, B>, today: Date) returns (r: Imported<Data<C, U, B>>)
    ensures r == FromDbOutcome(src, t, today)
  {
    if src.settings.Err? {
      return Failed(src.settings.error);
    }
    var settings := L.Convert(src.settings.value, today);
    if src.categories.Err? {
      return Failed(src.categories.error);
    }
    var categories := TransferLoop(t.addCategory, t.categories, src.categories.value);
    if src.users.Err? {
      return Failed(src.users.error);
    }
    var users := TransferLoop(t.addUser, t.users, src.users.value);
    if src.books.Err? {
      return Failed(src.books.error);
    }
    var books := BooksLoop(AddBookTo(t, categories), t.books, src.books.value);
    if books.None? {
      return Aborted;
    }
    r := Imported(Data(settings, categories, users, books.value));
  }

  /** The books loop as written: convert, then add; a conversion that panics ends everything. */
  method BooksLoop<B>(add: (B, L.CurrentBook) -> Result<B, E.Error>, s: B, all: seq<L.Book>) returns (r: Option<B>)
    ensures r == TransferBooks(add, s, all)
  {
    var books := s;
    var converted: seq<L.CurrentBook> := [];
    var i := 0;
    while i < |all|
      invariant 0 <= i <= |all|
      invariant ConvertAll(all[..i]) == Some(converted)
      invariant books == Transfer(add, s, converted)
    {
      assert all[..i + 1][..i] == all[..i];
      var book := L.ConvertBook(all[i]);
      if book.None? {
        ConvertAllAborts(all, i);
        return None;
      }
      var added := add(books, book.value);
      if added.Ok? {
        books := added.value;
      }
      assert (converted + [book.value])[..|converted|] == converted;
      converted := converted + [book.value];
      i := i + 1;
    }
    assert all[..i] == all;
    r := Some(books);
  }

  /** A book whose conversion panics makes the whole conversion panic. */
  lemma ConvertAllAborts(books: seq<L.Book>, i: nat)
    requires i < |books| && L.ConvertBook(books[i]).None?
    ensures ConvertAll(books).None?
  {
  }

  /** The transfer panics exactly when every query succeeds and some book has a deadline that is not a date. */
  lemma FromDbAborts<C, U, B>(src: Source, t: Target<C, U, B>, today: Date)
    ensures FromDbOutcome(src, t, today) == Aborted <==>
      src.settings.Ok? && src.categories.Ok? && src.users.Ok? && src.books.Ok? &&
      exists i | 0 <= i < |src.books.value| :: src.books.value[i].deadline != [] && ParseIso(src.books.value[i].deadline).None?
  {
    if src.books.Ok? {
      var books := src.books.value;
      assert (exists i | 0 <= i < |books| :: L.ConvertBook(books[i]).None?) <==>
        (exists i | 0 <= i < |books| :: books[i].deadline != [] && ParseIso(books[i].deadline).None?);
    }
  }

  /**
   * A transferred project has the old settings converted, and every table
   * keeps whatever its `add` keeps: a key that `add` never lets repeat stays
   * unique however many old rows clash.
   */
  lemma FromDbKeeps<C, U, B>(src: Source, t: Target<C, U, B>, today: Date,
      catInv: C -> bool, userInv: U -> bool, bookInv: B -> bool)
    requires catInv(t.categories) && userInv(t.users) && bookInv(t.books)
    requires forall x: C, c: Category :: catInv(x) && t.addCategory(x, c).Ok? ==> catInv(t.addCategory(x, c).value)
    requires forall x: U, u: UserData :: userInv(x) && t.addUser(x, u).Ok? ==> userInv(t.addUser(x, u).value)
    requires forall x: B, cs: C, b: L.CurrentBook :: bookInv(x) && t.addBook(x, cs, b).Ok? ==> bookInv(t.addBook(x, cs, b).value)
    ensures FromDbOutcome(src, t, today).Imported? ==>
      var d := FromDbOutcome(src, t, today).data;
      d.settings == L.Convert(src.settings.value, today) && catInv(d.categories) && userInv(d.users) && bookInv(d.books)
  {
    if FromDbOutcome(src, t, today).Imported? {
      var books := ConvertAll(src.books.value).value;
      assert ConvertAll(src.books.value).Some?;
      TransferKeeps(t.addCategory, catInv, t.categories, src.categories.value);
      TransferKeeps(t.addUser, userInv, t.users, src.users.value);
      var categories := Transfer(t.addCategory, t.categories, src.categories.value);
      TransferKeeps(AddBookTo(t, categories), bookInv, t.books, books);
    }
  }

  /** A user the target refuses is skipped: the users after it are transferred as if it were absent. */
  lemma FromDbSkipsUser<C, U, B>(src: Source, t: Target<C, U, B>, today: Date,
      before: seq<UserData>, refused: UserData, after: seq<UserData>)
    requires src.users == Ok(before + [refused] + after)
    requires t.addUser(Transfer(t.addUser, t.users, before), refused).Err?
    ensures FromDbOutcome(src, t, today) == FromDbOutcome(src.(users := Ok(before + after)), t, today)
  {
    SkipThenContinue(t.addUser, t.users, before, refused, after);
  }
}
