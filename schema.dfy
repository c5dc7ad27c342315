/**
 * The project database: the five tables `structure::create` defines, held
 * as in-memory rows, in table order. A primary key is a uniqueness
 * invariant on its table.
 */
module Schema {
  import opened Text

  /** A row of `medium`. `costs` is a floating-point column that is only carried along. */
  datatype Medium = Medium(
    id: String,
    isbn: String,
    title: String,
    publisher: String,
    year: int,
    costs: real,
    note: String,
    borrowable: bool,
    category: String,
    borrower: String,
    deadline: String,
    reservation: String)

  /** A row of `author`: primary key (name, medium). */
  datatype Author = Author(name: String, medium: String)

  /** A row of `user`; `may_borrow` is an integer column. */
  datatype User = User(account: String, forename: String, surname: String, role: String, mayBorrow: int)

  /** A user as the code handles it: `may_borrow` read back as `!= 0`. */
  datatype UserData = UserData(account: String, forename: String, surname: String, role: String, mayBorrow: bool)

  /** Reading a `user` row: any non-zero `may_borrow` means the user may borrow. */
  function ReadUser(u: User): (r: UserData)
    ensures r.account == u.account && r.role == u.role
    ensures r.mayBorrow <==> u.mayBorrow != 0
  {
    UserData(u.account, u.forename, u.surname, u.role, u.mayBorrow != 0)
  }

  /** Writing a user: `may_borrow` is stored as 1 or 0. */
  function WriteUser(u: UserData): (r: User)
    ensures r.mayBorrow == 0 || r.mayBorrow == 1
    ensures r.account == u.account && r.role == u.role
  {
    User(u.account, u.forename, u.surname, u.role, if u.mayBorrow then 1 else 0)
  }

  /** A written user reads back unchanged. */
  lemma ReadWriteUser(u: UserData)
    ensures ReadUser(WriteUser(u)) == u
  {
  }

  /** A row with a flag other than 0 or 1 does not survive a read and a write. */
  lemma WriteReadUser(u: User)
    ensures WriteUser(ReadUser(u)) == u <==> u.mayBorrow == 0 || u.mayBorrow == 1
  {
  }

  /** A row of `category`. */
  datatype Category = Category(id: String, name: String, section: String)

  /**
   * The error enumeration of the revision that the lending, rental, medium,
   * user, category and statistics code was written against.
   */
  datatype DbError =
    | LogicError
    | SQLError
    | LendingUserMayNotBorrow
    | LendingBookNotBorrowable
    | LendingBookAlreadyBorrowed
    | LendingBookAlreadyBorrowedByUser
    | LendingBookNotBorrowed
    | LendingBookAlreadyReserved

  predicate UniqueMediumIds(media: seq<Medium>) {
    forall i, j | 0 <= i < j < |media| :: media[i].id != media[j].id
  }

  predicate UniqueAuthors(authors: seq<Author>) {
    forall i, j | 0 <= i < j < |authors| :: authors[i] != authors[j]
  }

  predicate UniqueAccounts(users: seq<User>) {
    forall i, j | 0 <= i < j < |users| :: users[i].account != users[j].account
  }

  predicate UniqueCategoryIds(categories: seq<Category>) {
    forall i, j | 0 <= i < j < |categories| :: categories[i].id != categories[j].id
  }

  predicate HasMedium(media: seq<Medium>, id: String) {
    exists i | 0 <= i < |media| :: media[i].id == id
  }

  predicate HasAccount(users: seq<User>, account: String) {
    exists i | 0 <= i < |users| :: users[i].account == account
  }

  predicate HasCategory(categories: seq<Category>, id: String) {
    exists i | 0 <= i < |categories| :: categories[i].id == id
  }

  /** The ids of the medium table. */
  function MediumIds(media: seq<Medium>): (r: set<String>)
    ensures forall id :: id in r <==> HasMedium(media, id)
  {
    set i | 0 <= i < |media| :: media[i].id
  }

  /** The names of a medium's authors, in table order (`group_concat(author.name)`). */
  function AuthorNames(authors: seq<Author>, id: String): (r: seq<String>)
    ensures forall n :: n in r <==> Author(n, id) in authors
  {
    if authors == [] then []
    else
      var rest := AuthorNames(authors[1..], id);
      assert forall a :: a in authors <==> a == authors[0] || a in authors[1..];
      if authors[0].medium == id then [authors[0].name] + rest else rest
  }

  /** The medium rows without the given id, in order. */
  function RemoveMedium(media: seq<Medium>, id: String): (r: seq<Medium>)
    ensures forall m :: m in r <==> m in media && m.id != id
    ensures !HasMedium(r, id)
    ensures UniqueMediumIds(media) ==> UniqueMediumIds(r)
  {
    if media == [] then []
    else
      var rest := RemoveMedium(media[1..], id);
      assert forall m :: m in media <==> m == media[0] || m in media[1..];
      if media[0].id == id then rest
      else
        assert forall k | 0 <= k < |rest| :: rest[k] in media[1..];
        assert UniqueMediumIds(media) ==> forall k | 1 <= k < |media| :: media[k].id != media[0].id;
        [media[0]] + rest
  }

  /** The author rows whose medium still exists: orphaned rows are removed. */
  function DropOrphans(authors: seq<Author>, media: seq<Medium>): (r: seq<Author>)
    ensures forall a :: a in r <==> a in authors && HasMedium(media, a.medium)
    ensures UniqueAuthors(authors) ==> UniqueAuthors(r)
  {
    if authors == [] then []
    else
      var rest := DropOrphans(authors[1..], media);
      assert forall a :: a in authors <==> a == authors[0] || a in authors[1..];
      if !HasMedium(media, authors[0].medium) then rest
      else
        assert forall k | 0 <= k < |rest| :: rest[k] in authors[1..];
        assert UniqueAuthors(authors) ==> authors[0] !in authors[1..];
        [authors[0]] + rest
  }

  /** Adds an author row unless the same (name, medium) pair is already present. */
  function InsertOrIgnore(authors: seq<Author>, a: Author): (r: seq<Author>)
    ensures forall x :: x in r <==> x in authors || x == a
    ensures UniqueAuthors(authors) ==> UniqueAuthors(r)
    ensures |authors| <= |r| && r[..|authors|] == authors
  {
    if a in authors then authors else authors + [a]
  }

  /** The accounts of the user table. */
  function Accounts(users: seq<User>): (r: set<String>)
    ensures forall a :: a in r <==> HasAccount(users, a)
  {
    set i | 0 <= i < |users| :: users[i].account
  }

  class Database {
    var media: seq<Medium>
    var authors: seq<Author>
    var users: seq<User>
    var categories: seq<Category>
    /** `sbv_meta`: the settings and the schema version, keyed by name. */
    var meta: map<String, String>

    ghost predicate Valid()
      reads this
    {
      UniqueMediumIds(media) && UniqueAuthors(authors) && UniqueAccounts(users) && UniqueCategoryIds(categories)
    }

    /** A freshly created database: every table empty. */
    constructor()
      ensures Valid()
      ensures media == [] && authors == [] && users == [] && categories == [] && meta == map[]
    {
      media, authors, users, categories, meta := [], [], [], [], map[];
    }
  }
}
