/**
 * The book catalogue of the current revision: validation of a book record,
 * the search parameters, adding, updating and deleting a book together
 * with its author rows, and the generation of a book id from the first
 * author's surname and the category.
 */
module Books {
  import opened Wrappers
  import opened Text
  import opened Schema
  import Sql
  import Isbn
  import ApiErrors
  import Ints

  /** A book as the user interface sends it: a medium row plus its author names. */
  datatype Book = Book(
    id: String,
    isbn: String,
    title: String,
    publisher: String,
    year: int,
    costs: real,
    note: String,
    borrowable: bool,
    category: String,
    authors: seq<String>,
    borrower: String,
    deadline: String,
    reservation: String)

  // ------------------------------------------------------------ validation

  /** `Book::is_valid`: id and title must not trim to nothing. */
  predicate IsValid(b: Book) {
    Trim(b.id) != [] && Trim(b.title) != []
  }

  /** A book is valid exactly when neither its id nor its title is all whitespace. */
  lemma IsValidNotBlank(b: Book)
    ensures IsValid(b) <==> !IsBlank(b.id) && !IsBlank(b.title)
  {
    TrimEmptyIffBlank(b.id);
    TrimEmptyIffBlank(b.title);
  }

  /** The medium row behind a book: every column but the author names. */
  function MediumOf(b: Book): Medium {
    Medium(b.id, b.isbn, b.title, b.publisher, b.year, b.costs, b.note, b.borrowable, b.category,
      b.borrower, b.deadline, b.reservation)
  }

  /** `Book::from_row`: a result row, the joined author names split at `,`. */
  function ReadBook(m: Medium, authors: String): (b: Book)
    ensures MediumOf(b) == m
    ensures b.authors == Split(authors, ',')
  {
    Book(m.id, m.isbn, m.title, m.publisher, m.year, m.costs, m.note, m.borrowable, m.category,
      Split(authors, ','), m.borrower, m.deadline, m.reservation)
  }

  /** Author names without a comma come back as they were joined, in order. */
  lemma ReadBookAuthors(m: Medium, names: seq<String>)
    requires names != [] && forall i | 0 <= i < |names| :: ',' !in names[i]
    ensures ReadBook(m, Join(names, ",")).authors == names
  {
    SplitJoin(names, ',');
  }

  /**
   * The ISBN that is stored: a blank one as the empty text, any other as
   * the digits `isbn::parse` keeps, whether it accepts them or not.
   */
  function StoredIsbn(isbn: String): (r: String)
    ensures IsBlank(isbn) ==> r == []
    ensures !IsBlank(isbn) ==> r == Isbn.Stripped(Isbn.Parse(isbn))
  {
    TrimEmptyIffBlank(isbn);
    StrippedTrimmed(isbn);
    if Trim(isbn) == [] then [] else Trim(Isbn.Stripped(Isbn.Parse(isbn)))
  }

  /** The text `isbn::parse` keeps has no surrounding whitespace to trim. */
  lemma StrippedTrimmed(isbn: String)
    ensures Trim(Isbn.Stripped(Isbn.Parse(isbn))) == Isbn.Stripped(Isbn.Parse(isbn))
  {
    var v := Isbn.Values(isbn);
    Isbn.ValuesBounds(isbn);
    Isbn.IsbnStrChars(v);
    assert Isbn.Stripped(Isbn.Parse(isbn)) == Isbn.IsbnStr(v);
    TrimOfTrimmed(Isbn.IsbnStr(v));
  }

  /** The row `add` inserts: every text field trimmed, no loan and no reservation. */
  function NewRow(b: Book): (m: Medium)
    ensures m.id == Trim(b.id) && m.title == Trim(b.title) && m.isbn == StoredIsbn(b.isbn)
    ensures m.borrower == [] && m.deadline == [] && m.reservation == []
  {
    Medium(Trim(b.id), StoredIsbn(b.isbn), Trim(b.title), Trim(b.publisher), b.year, b.costs,
      Trim(b.note), b.borrowable, Trim(b.category), [], [], [])
  }

  // ------------------------------------------------------------ add, update, delete

  /** The author rows `add` inserts: one per name in order, a repeated (name, medium) pair being ignored. */
  function AddAuthors(authors: seq<Author>, names: seq<String>, id: String): (r: seq<Author>)
    ensures forall a :: a in r <==> a in authors || (a.medium == id && exists i | 0 <= i < |names| :: a.name == Trim(names[i]))
    ensures UniqueAuthors(authors) ==> UniqueAuthors(r)
    decreases |names|
  {
    if names == [] then authors
    else
      var init := names[..|names| - 1];
      var r := InsertOrIgnore(AddAuthors(authors, init, id), Author(Trim(names[|names| - 1]), id));
      assert forall i | 0 <= i < |init| :: init[i] == names[i];
      r
  }

  lemma AddAuthorsNext(authors: seq<Author>, names: seq<String>, i: nat, id: String)
    requires i < |names|
    ensures AddAuthors(authors, names[..i + 1], id) == InsertOrIgnore(AddAuthors(authors, names[..i], id), Author(Trim(names[i]), id))
  {
    assert names[..i + 1][..i] == names[..i];
  }

  lemma AppendFreshRow(media: seq<Medium>, m: Medium)
    requires UniqueMediumIds(media) && !HasMedium(media, m.id)
    ensures UniqueMediumIds(media + [m])
  {
  }

  /** The author loop of `add`, one name at a time, a repeated pair being ignored. */
  method InsertAuthors(authors: seq<Author>, names: seq<String>, id: String) returns (r: seq<Author>)
    ensures r == AddAuthors(authors, names, id)
  {
    r := authors;
    var i := 0;
    while i < |names|
      invariant 0 <= i <= |names|
      invariant r == AddAuthors(authors, names[..i], id)
    {
      AddAuthorsNext(authors, names, i, id);
      r := InsertOrIgnore(r, Author(Trim(names[i]), id));
      i := i + 1;
    }
    assert names[..i] == names;
  }

  /** `add`: a valid book whose id is free becomes a new row, its authors new author rows. */
  method Add(db: Database, book: Book) returns (r: Result<(), ApiErrors.Error>)
    requires db.Valid()
    modifies db
    ensures db.Valid()
    ensures !IsValid(book) ==> r == Err(ApiErrors.InvalidBook)
    ensures IsValid(book) && HasMedium(old(db.media), Trim(book.id)) ==> r == Err(ApiErrors.SQL)
    ensures r.Err? ==> db.media == old(db.media) && db.authors == old(db.authors)
    ensures IsValid(book) && !HasMedium(old(db.media), Trim(book.id)) ==>
      r == Ok(()) && db.media == old(db.media) + [NewRow(book)]
      && db.authors == AddAuthors(old(db.authors), book.authors, Trim(book.id))
    ensures db.users == old(db.users) && db.categories == old(db.categories) && db.meta == old(db.meta)
  {
    if !IsValid(book) {
      return Err(ApiErrors.InvalidBook);
    }
    var id := Trim(book.id);
    if HasMedium(db.media, id) {
      // the primary key of `medium` rejects the insert and the transaction is dropped
      return Err(ApiErrors.SQL);
    }
    AppendFreshRow(db.media, NewRow(book));
    var authors := InsertAuthors(db.authors, book.authors, id);
    db.media, db.authors := db.media + [NewRow(book)], authors;
    r := Ok(());
  }

  /** The row a book update writes: the book's columns take the new values; the loan columns stay. */
  function UpdatedRow(m: Medium, b: Book): (r: Medium)
    ensures r.id == Trim(b.id) && r.borrower == m.borrower && r.deadline == m.deadline && r.reservation == m.reservation
    ensures var n := NewRow(b); r == n.(borrower := m.borrower, deadline := m.deadline, reservation := m.reservation)
  {
    m.(id := Trim(b.id), isbn := StoredIsbn(b.isbn), title := Trim(b.title), publisher := Trim(b.publisher),
      year := b.year, costs := b.costs, note := Trim(b.note), borrowable := b.borrowable, category := Trim(b.category))
  }

  function UpdateMedia(media: seq<Medium>, previous: String, b: Book): (r: seq<Medium>)
    ensures |r| == |media|
    ensures forall i | 0 <= i < |media| :: r[i] == if media[i].id == previous then UpdatedRow(media[i], b) else media[i]
  {
    seq(|media|, i requires 0 <= i < |media| => if media[i].id == previous then UpdatedRow(media[i], b) else media[i])
  }

  /** Every author row of the previous id moves to the new id. */
  function Repoint(authors: seq<Author>, previous: String, id: String): (r: seq<Author>)
    ensures |r| == |authors|
    ensures forall n :: Author(n, previous) in authors ==> Author(n, id) in r
    ensures previous != id ==> forall n :: Author(n, previous) !in r
    ensures forall a | a in authors && a.medium != previous :: a in r
  {
    var r := seq(|authors|, i requires 0 <= i < |authors| => if authors[i].medium == previous then Author(authors[i].name, id) else authors[i]);
    assert forall n | Author(n, previous) in authors :: Author(n, id) in r by {
      forall n | Author(n, previous) in authors ensures Author(n, id) in r {
        var i :| 0 <= i < |authors| && authors[i] == Author(n, previous);
        assert r[i] == Author(n, id);
      }
    }
    assert forall a | a in authors && a.medium != previous :: a in r by {
      forall a | a in authors && a.medium != previous ensures a in r {
        var i :| 0 <= i < |authors| && authors[i] == a;
        assert r[i] == a;
      }
    }
    r
  }

  /** Re-pointing to the same id changes nothing. */
  lemma RepointSame(authors: seq<Author>, id: String)
    ensures Repoint(authors, id, id) == authors
  {
  }

  /** The id change would collide with another medium's primary key. */
  predicate MediaClash(media: seq<Medium>, previous: String, b: Book) {
    Trim(b.id) != previous && HasMedium(media, previous) && HasMedium(media, Trim(b.id))
  }

  lemma UpdateMediaKeys(media: seq<Medium>, previous: String, b: Book)
    requires UniqueMediumIds(media) && !MediaClash(media, previous, b)
    ensures UniqueMediumIds(UpdateMedia(media, previous, b))
  {
    var r := UpdateMedia(media, previous, b);
    forall i, j | 0 <= i < j < |r|
      ensures r[i].id != r[j].id
    {
      if media[i].id == previous || media[j].id == previous {
        assert HasMedium(media, previous);
      }
    }
  }

  /**
   * `update`: a blank previous id or an invalid book is refused; otherwise
   * the row with the previous id takes the new values, and the author rows
   * follow when the previous id differs from the book's id as given. A
   * collision with an existing key aborts the whole transaction.
   */
  method Update(db: Database, previousId: String, book: Book) returns (r: Result<(), ApiErrors.Error>)
    requires db.Valid()
    modifies db
    ensures db.Valid()
    ensures Trim(previousId) == [] || !IsValid(book) ==> r == Err(ApiErrors.InvalidBook)
    ensures r.Err? ==> db.media == old(db.media) && db.authors == old(db.authors)
    ensures var previous := Trim(previousId);
      previous != [] && IsValid(book) ==>
        var authors := if previous != book.id then Repoint(old(db.authors), previous, Trim(book.id)) else old(db.authors);
        if MediaClash(old(db.media), previous, book) || !UniqueAuthors(authors) then r == Err(ApiErrors.SQL)
        else r == Ok(()) && db.media == UpdateMedia(old(db.media), previous, book) && db.authors == authors
    ensures db.users == old(db.users) && db.categories == old(db.categories) && db.meta == old(db.meta)
  {
    var previous := Trim(previousId);
    if previous == [] || !IsValid(book) {
      return Err(ApiErrors.InvalidBook);
    }
    if MediaClash(db.media, previous, book) {
      return Err(ApiErrors.SQL);
    }
    var media := UpdateMedia(db.media, previous, book);
    var authors := db.authors;
    if previous != book.id {
      authors := Repoint(authors, previous, Trim(book.id));
      if !UniqueAuthors(authors) {
        // the primary key of `author` rejects the update; the transaction is dropped
        return Err(ApiErrors.SQL);
      }
    }
    UpdateMediaKeys(db.media, previous, book);
    db.media, db.authors := media, authors;
    r := Ok(());
  }

  /** After renaming a book, its authors are found under the new id and none under the old. */
  lemma UpdateMovesAuthors(authors: seq<Author>, previous: String, b: Book, n: String)
    requires previous != b.id && previous != Trim(b.id)
    ensures Author(n, previous) in authors ==> Author(n, Trim(b.id)) in Repoint(authors, previous, Trim(b.id))
    ensures Author(n, previous) !in Repoint(authors, previous, Trim(b.id))
  {
  }

  /** `delete`: a blank id is refused; otherwise the row goes, and with it every author row left without a medium. */
  method Delete(db: Database, id: String) returns (r: Result<(), ApiErrors.Error>)
    requires db.Valid()
    modifies db
    ensures db.Valid()
    ensures IsBlank(id) ==> r == Err(ApiErrors.InvalidBook) && db.media == old(db.media) && db.authors == old(db.authors)
    ensures !IsBlank(id) ==>
      r == Ok(()) && db.media == RemoveMedium(old(db.media), Trim(id)) && db.authors == DropOrphans(old(db.authors), db.media)
    ensures db.users == old(db.users) && db.categories == old(db.categories) && db.meta == old(db.meta)
  {
    TrimEmptyIffBlank(id);
    var t := Trim(id);
    if t == [] {
      return Err(ApiErrors.InvalidBook);
    }
    db.media := RemoveMedium(db.media, t);
    db.authors := DropOrphans(db.authors, db.media);
    r := Ok(());
  }

  /** After a delete no author row refers to a missing medium, whatever the table held before. */
  lemma DeleteLeavesNoOrphans(media: seq<Medium>, authors: seq<Author>, id: String)
    ensures var rest := RemoveMedium(media, id);
      forall a | a in DropOrphans(authors, rest) :: HasMedium(rest, a.medium) && a.medium != id
  {
  }

  // ------------------------------------------------------------ year range

  const U16_MAX: nat := 65535

  /**
   * `YearRange::from_variant`: blank gives the whole range, `a-b` gives the
   * two bounds (0 and 65535 where unreadable), one year gives that year
   * twice (0 where unreadable).
   */
  function ParseYearRange(s: String): (r: (nat, nat))
    ensures r.0 <= U16_MAX && r.1 <= U16_MAX
    ensures IsBlank(s) ==> r == (0, U16_MAX)
  {
    TrimEmptyIffBlank(s);
    var t := Trim(s);
    if t == [] then (0, U16_MAX)
    else
      match SplitOnce(t, '-')
      case Some((start, end)) =>
        (ParseUnsigned(Trim(start), U16_MAX).UnwrapOr(0), ParseUnsigned(Trim(end), U16_MAX).UnwrapOr(U16_MAX))
      case None =>
        var year := ParseUnsigned(t, U16_MAX).UnwrapOr(0);
        (year, year)
  }

  lemma PrintedTrimmed(n: nat)
    ensures Trim(NatToString(n)) == NatToString(n)
  {
    TrimOfTrimmed(NatToString(n));
  }

  /** `a-b` printed from two years in range reads back as those years. */
  lemma YearRangePrinted(a: nat, b: nat)
    requires a <= U16_MAX && b <= U16_MAX
    ensures ParseYearRange(NatToString(a) + "-" + NatToString(b)) == (a, b)
  {
    var s := NatToString(a) + "-" + NatToString(b);
    NatToStringNoSeparator(a, '-');
    SplitOnceOf(NatToString(a), '-', NatToString(b));
    TrimOfTrimmed(s);
    PrintedTrimmed(a);
    PrintedTrimmed(b);
    ParseUnsignedPrinted(a, U16_MAX);
    ParseUnsignedPrinted(b, U16_MAX);
  }

  /** A single printed year in range gives the one-year range. */
  lemma YearRangeSingle(y: nat)
    requires y <= U16_MAX
    ensures ParseYearRange(NatToString(y)) == (y, y)
  {
    NatToStringNoSeparator(y, '-');
    PrintedTrimmed(y);
    ParseUnsignedPrinted(y, U16_MAX);
  }

  /** A missing upper bound leaves the range open to the top. */
  lemma YearRangeOpenEnd(a: nat)
    requires a <= U16_MAX
    ensures ParseYearRange(NatToString(a) + "-") == (a, U16_MAX)
  {
    var s := NatToString(a) + "-";
    assert s == NatToString(a) + "-" + [];
    NatToStringNoSeparator(a, '-');
    SplitOnceOf(NatToString(a), '-', []);
    TrimOfTrimmed(s);
    PrintedTrimmed(a);
    ParseUnsignedPrinted(a, U16_MAX);
    TrimOfTrimmed([]);
  }

  // ------------------------------------------------------------ book state

  /** `BookState`: the filter on lending state; `StateNone` is the enumeration's `None`. */
  datatype BookState = StateNone | Borrowable | NotBorrowable | BorrowedOrReserved

  /** `*self as i64`. */
  function StateToInt(s: BookState): (r: int)
    ensures 0 <= r <= 3
  {
    match s
    case StateNone => 0
    case Borrowable => 1
    case NotBorrowable => 2
    case BorrowedOrReserved => 3
  }

  /** `BookState::from(i64)`: 1, 2 and 3 name a state, every other integer is `None`. */
  function StateFromInt(v: int): (r: BookState)
    ensures v == 1 <==> r == Borrowable
    ensures v == 2 <==> r == NotBorrowable
    ensures v == 3 <==> r == BorrowedOrReserved
    ensures r == StateNone <==> v != 1 && v != 2 && v != 3
  {
    if v == 1 then Borrowable
    else if v == 2 then NotBorrowable
    else if v == 3 then BorrowedOrReserved
    else StateNone
  }

  /** The state survives the trip to the user interface and back. */
  lemma StateRoundTrip(s: BookState)
    ensures StateFromInt(StateToInt(s)) == s
  {
  }

  /** Exactly the integers 0..3 survive the trip from the user interface and back. */
  lemma StateIntRoundTrip(v: int)
    ensures StateToInt(StateFromInt(v)) == v <==> 0 <= v <= 3
  {
  }

  // ------------------------------------------------------------ advanced search

  /** `BookSearch`. */
  datatype BookSearch = BookSearch(
    id: String,
    isbn: String,
    title: String,
    publisher: String,
    authors: String,
    year: (nat, nat),
    category: String,
    note: String,
    user: String,
    state: BookState)

  /** The user pattern: the trimmed user, else `_%` for borrowed-or-reserved, else `%`. */
  function UserPattern(p: BookSearch): (r: String)
    ensures !IsBlank(p.user) ==> r == Trim(p.user)
    ensures IsBlank(p.user) && p.state == BorrowedOrReserved ==> r == "_%"
    ensures IsBlank(p.user) && p.state != BorrowedOrReserved ==> r == "%"
  {
    TrimEmptyIffBlank(p.user);
    var user := Trim(p.user);
    if user != [] then user
    else if p.state == BorrowedOrReserved then "_%"
    else "%"
  }

  /** The pattern for the `borrowable` column: `1`, `0`, or anything. */
  function BorrowablePattern(s: BookState): String {
    match s
    case Borrowable => "1"
    case NotBorrowable => "0"
    case _ => "%"
  }

  /** The text SQLite compares an integer `borrowable` column as. */
  function FlagText(b: bool): String {
    if b then "1" else "0"
  }

  /** The text conditions of `SEARCH_ADVANCED`. */
  predicate TextMatches(m: Medium, authors: String, p: BookSearch) {
    Sql.Like(m.id, "%" + Trim(p.id) + "%")
    && Sql.Like(m.isbn, "%" + Trim(p.isbn) + "%")
    && Sql.Like(m.title, "%" + Trim(p.title) + "%")
    && Sql.Like(m.publisher, "%" + Trim(p.publisher) + "%")
    && Sql.Like(authors, "%" + Trim(p.authors) + "%")
    && Sql.Like(m.category, Trim(p.category))
    && Sql.Like(m.note, "%" + Trim(p.note) + "%")
  }

  /** The lending conditions: borrower or reservation against the user pattern, and the flag. */
  predicate UserMatches(m: Medium, p: BookSearch) {
    Sql.Like(m.borrower, "%" + UserPattern(p) + "%") || Sql.Like(m.reservation, "%" + UserPattern(p) + "%")
  }

  predicate StateMatches(m: Medium, p: BookSearch) {
    Sql.Like(FlagText(m.borrowable), BorrowablePattern(p.state))
  }

  /** The `having` clause of `SEARCH_ADVANCED` for one medium and its joined authors. */
  predicate MatchesAdvanced(m: Medium, authors: String, p: BookSearch) {
    TextMatches(m, authors, p) && p.year.0 <= m.year <= p.year.1 && UserMatches(m, p) && StateMatches(m, p)
  }

  /** The author names of a medium joined with commas, the empty text when it has none. */
  function AuthorsText(authors: seq<Author>, id: String): String {
    Join(AuthorNames(authors, id), ",")
  }

  /** `search_advanced`: the media, in table order, that satisfy every condition. */
  function SearchAdvanced(media: seq<Medium>, authors: seq<Author>, p: BookSearch): (r: seq<Medium>)
    ensures forall m :: m in r <==> m in media && MatchesAdvanced(m, AuthorsText(authors, m.id), p)
  {
    if media == [] then []
    else
      var rest := SearchAdvanced(media[1..], authors, p);
      assert forall m :: m in media <==> m == media[0] || m in media[1..];
      if MatchesAdvanced(media[0], AuthorsText(authors, media[0].id), p) then [media[0]] + rest else rest
  }

  /** Searching for borrowable books only lists borrowable books, and likewise for the opposite. */
  lemma SearchBorrowableState(media: seq<Medium>, authors: seq<Author>, p: BookSearch, m: Medium)
    requires m in SearchAdvanced(media, authors, p)
    ensures p.state == Borrowable ==> m.borrowable
    ensures p.state == NotBorrowable ==> !m.borrowable
  {
    assert StateMatches(m, p);
    FlagPattern(m.borrowable, p.state);
  }

  lemma FlagPattern(b: bool, s: BookState)
    requires Sql.Like(FlagText(b), BorrowablePattern(s))
    ensures s == Borrowable ==> b
    ensures s == NotBorrowable ==> !b
  {
    if s == Borrowable || s == NotBorrowable {
      Sql.LikeLiteral(FlagText(b), BorrowablePattern(s));
      assert LowerAscii(FlagText(b))[0] == FlagText(b)[0];
      assert LowerAscii(BorrowablePattern(s))[0] == BorrowablePattern(s)[0];
    }
  }

  /** Without a user, borrowed-or-reserved lists only books that are lent or reserved. */
  lemma SearchBorrowedOrReserved(media: seq<Medium>, authors: seq<Author>, p: BookSearch, m: Medium)
    requires m in SearchAdvanced(media, authors, p)
    requires IsBlank(p.user) && p.state == BorrowedOrReserved
    ensures m.borrower != [] || m.reservation != []
  {
    assert "%" + "_%" + "%" == "%" + "_%%";
    LikeSomeChar(m.borrower);
    LikeSomeChar(m.reservation);
  }

  /** Without a user and any other state, the user condition holds for every book. */
  lemma SearchAnyUser(m: Medium, p: BookSearch)
    requires IsBlank(p.user) && p.state != BorrowedOrReserved
    ensures Sql.Like(m.borrower, "%" + UserPattern(p) + "%")
  {
    assert "%" + "%" + "%" == "%" + "%%";
    Sql.LikeLeadingAny(m.borrower, "%%");
    assert m.borrower[0..] == m.borrower;
    LikeTwoAny(m.borrower);
  }

  /** With a user given without wildcards, the user condition is containment in borrower or reservation. */
  lemma SearchUserContains(m: Medium, p: BookSearch)
    requires !IsBlank(p.user) && Sql.Literal(Trim(p.user))
    ensures (Sql.Like(m.borrower, "%" + UserPattern(p) + "%") || Sql.Like(m.reservation, "%" + UserPattern(p) + "%"))
      <==> LikeContains(m.borrower, Trim(p.user)) || LikeContains(m.reservation, Trim(p.user))
  {
    Sql.LikeInfix(m.borrower, Trim(p.user));
    Sql.LikeInfix(m.reservation, Trim(p.user));
  }

  /** `'%_%%'` matches exactly the non-empty texts. */
  lemma LikeSomeChar(s: String)
    ensures Sql.Like(s, "%" + "_%%") <==> s != []
  {
    Sql.LikeLeadingAny(s, "_%%");
    if s != [] {
      assert s[0..] == s;
      assert "_%%"[1..] == "%%";
      LikeTwoAny(s[1..]);
    }
    forall k | 0 <= k <= |s| && Sql.Like(s[k..], "_%%")
      ensures s != []
    {
    }
  }

  lemma LikeTwoAny(s: String)
    ensures Sql.Like(s, "%%")
  {
    assert "%%"[1..] == "%";
    Sql.LikeAny(s);
  }

  // ------------------------------------------------------------ id generation

  /**
   * The Unicode decomposition of the letters the catalogue meets, followed
   * by dropping the combining mark: umlauts become their base letter, and
   * 'ß' is mapped to 'S'.
   */
  function BaseLetter(c: char): (r: char)
    ensures c == 'ß' ==> r == 'S'
    ensures IsAscii(c) ==> r == c
  {
    if c == 'ä' then 'a' else if c == 'Ä' then 'A'
    else if c == 'ö' then 'o' else if c == 'Ö' then 'O'
    else if c == 'ü' then 'u' else if c == 'Ü' then 'U'
    else if c == 'ß' then 'S'
    else c
  }

  /** The surname's ASCII letters after decomposition, upper-cased. */
  function Letters(s: String): (r: String)
    ensures |r| <= |s|
    ensures forall i | 0 <= i < |r| :: IsAsciiUpper(r[i])
    ensures (forall i | 0 <= i < |s| :: IsAsciiUpper(s[i])) ==> r == s
  {
    if s == [] then []
    else
      var c := BaseLetter(s[0]);
      var rest := Letters(s[1..]);
      if IsAsciiAlphabetic(c) then [ToAsciiUpper(c)] + rest else rest
  }

  /** The part after the last space, or the whole name. */
  function Surname(author: String): (r: String)
    ensures ' ' !in r
    ensures ' ' !in author ==> r == author
  {
    match RSplitOnce(author, ' ')
    case Some((_, surname)) => surname
    case None => author
  }

  /** At most four letters of the surname, or `XXXX` when it has none. */
  function Abbreviation(author: String): (r: String)
    ensures 1 <= |r| <= 4
    ensures forall i | 0 <= i < |r| :: IsAsciiUpper(r[i])
    ensures Letters(Surname(author)) != [] ==> IsPrefix(r, Letters(Surname(author)))
  {
    var letters := Letters(Surname(author));
    if letters == [] then "XXXX"
    else if |letters| <= 4 then letters
    else letters[..4]
  }

  /** `id_prefix`: the category (`XXXX` when empty), a space, and the author abbreviation. */
  function IdPrefix(author: String, category: String): (r: String)
    ensures |r| >= 3
    ensures category != [] ==> IsPrefix(category + " ", r)
    ensures category == [] ==> IsPrefix("XXXX ", r)
    ensures var a := Abbreviation(author); |a| < |r| && r[|r| - |a|..] == a && r[|r| - |a| - 1] == ' '
  {
    var c := if category != [] then category else "XXXX";
    c + " " + Abbreviation(author)
  }

  /** Only the surname counts. */
  lemma AbbreviationOfSurname(first: String, surname: String)
    requires ' ' !in surname
    ensures Abbreviation(first + " " + surname) == Abbreviation(surname)
  {
    RSplitOnceOf(first, surname);
  }

  /** A surname of plain ASCII letters is kept whole, upper-cased. */
  lemma {:induction false} LettersAscii(s: String)
    requires forall i | 0 <= i < |s| :: IsAsciiAlphabetic(s[i])
    ensures Letters(s) == UpperAscii(s)
  {
    if s != [] {
      LettersAscii(s[1..]);
    }
  }

  lemma AbbreviationAbedi()
    ensures Abbreviation("Abedi") == "ABED" && Abbreviation("Äbedi") == "ABED"
  {
    LettersAscii("Abedi");
    LettersAscii("bedi");
    assert "Äbedi"[1..] == "bedi";
    assert Letters("Äbedi") == "ABEDI";
  }

  lemma LettersBaeumer()
    ensures Letters("äumer") == "AUMER"
  {
    LettersAscii("umer");
    assert "äumer"[1..] == "umer";
  }

  lemma AbbreviationBaeumer()
    ensures Abbreviation("Bäumer") == "BAUM"
  {
    LettersBaeumer();
    assert "Bäumer"[1..] == "äumer";
    assert Letters("Bäumer") == "BAUMER";
  }

  lemma AbbreviationUmlauts()
    ensures Abbreviation("äÖü") == "AOU" && Abbreviation("äÖüß") == "AOUS"
  {
    assert Letters("ß") == "S";
    assert Letters("äÖü") == "AOU";
    assert Letters("äÖüß") == "AOUS";
  }

  /** `id_prefix` of a name whose surname abbreviates to `abbreviation`. */
  lemma IdPrefixOf(first: String, surname: String, category: String, abbreviation: String)
    requires ' ' !in surname && Abbreviation(surname) == abbreviation
    ensures IdPrefix(first + " " + surname, category) == (if category != [] then category else "XXXX") + " " + abbreviation
  {
    AbbreviationOfSurname(first, surname);
  }

  /** The prefixes `id_prefix` is documented to produce for a first name and a surname. */
  lemma IdPrefixExamples()
    ensures IdPrefix("Isabel" + " " + "Abedi", "FANT") == "FANT" + " " + "ABED"
    ensures IdPrefix("Isabel" + " " + "Äbedi", "FANT") == "FANT" + " " + "ABED"
    ensures IdPrefix("Isabel" + " " + "Abedi", "") == "XXXX" + " " + "ABED"
  {
    AbbreviationAbedi();
    IdPrefixOf("Isabel", "Abedi", "FANT", "ABED");
    IdPrefixOf("Isabel", "Äbedi", "FANT", "ABED");
    IdPrefixOf("Isabel", "Abedi", "", "ABED");
  }

  /** The category is taken as it is, without upper-casing. */
  lemma IdPrefixBaeumerExample()
    ensures IdPrefix("Remigius" + " " + "Bäumer", "RErk") == "RErk" + " " + "BAUM"
  {
    AbbreviationBaeumer();
    IdPrefixOf("Remigius", "Bäumer", "RErk", "BAUM");
  }

  /** Umlauts lose their marks and 'ß' becomes 'S'; a name without a space is its own surname; no letters give `XXXX`. */
  lemma IdPrefixWordExamples()
    ensures IdPrefix("", "FANT") == "FANT" + " " + "XXXX"
    ensures IdPrefix("äÖü", "FANT") == "FANT" + " " + "AOU"
    ensures IdPrefix("äÖüß", "FANT") == "FANT" + " " + "AOUS"
  {
    AbbreviationUmlauts();
  }

  /** The abbreviation of an author with only ASCII capitals in the surname is its first four letters. */
  lemma AbbreviationOfCapitals(first: String, surname: String)
    requires ' ' !in surname && 4 <= |surname|
    requires forall i | 0 <= i < |surname| :: IsAsciiUpper(surname[i])
    ensures Abbreviation(first + " " + surname) == surname[..4]
  {
    var author := first + " " + surname;
    var r := RSplitOnce(author, ' ').value;
    RSplitOnceOf(first, surname);
  }

  lemma RSplitOnceOf(a: String, b: String)
    requires ' ' !in b
    ensures RSplitOnce(a + " " + b, ' ') == Some((a, b))
  {
    var s := a + " " + b;
    assert s[|a|] == ' ';
    var k := FindLastChar(s, ' ').value;
    forall j | k < j < |s|
      ensures s[j] != ' '
    {
      assert s[j] == s[k + 1..][j - k - 1];
    }
    assert forall j | 0 <= j < |b| :: s[|a| + 1 + j] == b[j];
    assert k == |a|;
    assert s[..|a|] == a && s[|a| + 1..] == b;
  }

  // ------------------------------------------------------------ CAST and the unused id

  /**
   * SQLite's `CAST(x AS INTEGER)` on text: leading white space skipped,
   * then the longest prefix that reads as a signed decimal integer, 0 when there is none.
   */
  function CastInteger(s: String): (r: Ints.i64) {
    var t := s[SpacePrefix(s)..];
    var negative := t != [] && t[0] == '-';
    var body := if t != [] && (t[0] == '-' || t[0] == '+') then t[1..] else t;
    var digits := body[..DigitRun(body)];
    var v := DigitsValue(digits);
    var clamped := if negative then -(if v > 0x8000_0000_0000_0000 then 0x8000_0000_0000_0000 else v)
                   else if v > 0x7FFF_FFFF_FFFF_FFFF then 0x7FFF_FFFF_FFFF_FFFF else v;
    clamped
  }

  /** The white space SQLite skips before a number: space, tab, line feed, vertical tab, form feed and carriage return. */
  predicate IsSqlSpace(c: char) {
    c == ' ' || c == '\t' || c == '\n' || c == '\U{B}' || c == '\U{C}' || c == '\r'
  }

  function SpacePrefix(s: String): (n: nat)
    ensures n <= |s|
    ensures forall i | 0 <= i < n :: IsSqlSpace(s[i])
    ensures n < |s| ==> !IsSqlSpace(s[n])
  {
    if s == [] || !IsSqlSpace(s[0]) then 0 else 1 + SpacePrefix(s[1..])
  }

  function DigitRun(s: String): (n: nat)
    ensures n <= |s| && AllDigits(s[..n])
    ensures n < |s| ==> !IsAsciiDigit(s[n])
  {
    if s == [] || !IsAsciiDigit(s[0]) then 0
    else
      var n := 1 + DigitRun(s[1..]);
      assert forall i | 1 <= i < n :: s[..n][i] == s[1..][..n - 1][i - 1];
      n
  }

  /** A space followed by a printed number casts back to the number. */
  lemma CastPrinted(n: nat)
    requires n <= 0x7FFF_FFFF_FFFF_FFFF
    ensures CastInteger(" " + NatToString(n)) == n
  {
    var s := " " + NatToString(n);
    var d := NatToString(n);
    assert s[1..] == d;
    assert SpacePrefix(s) == 1;
    DigitRunAll(d);
    assert d[..DigitRun(d)] == d;
    NatToStringValue(n);
  }

  /** A tab before the number is skipped like a space: `\t7` casts to 7. */
  lemma CastAfterTab()
    ensures CastInteger("\t" + "7") == 7
  {
    var s := "\t" + "7";
    assert SpacePrefix(s[1..]) == 0;
    assert SpacePrefix(s) == 1;
    assert s[1..] == "7";
    assert DigitRun(s[1..]) == 1 by {
      assert DigitRun(s[1..][1..]) == 0;
    }
    var t := s[1..];
    assert t == "7" && t[0] != '-' && t[0] != '+';
    assert t[..1] == "7";
    assert DigitsValue("7") == 7 by {
      assert "7"[..0] == [];
    }
  }

  lemma {:induction false} DigitRunAll(s: String)
    requires AllDigits(s)
    ensures DigitRun(s) == |s|
  {
    if s != [] {
      DigitRunAll(s[1..]);
    }
  }

  /** The characters of the id after the prefix's length, empty when the id is shorter. */
  function SuffixAfter(id: String, prefix: String): String {
    if |prefix| <= |id| then id[|prefix|..] else []
  }

  /**
   * The largest suffix after the prefix, cast to an integer, over the ids
   * that start with the prefix; `None` is SQL's `NULL` when no id does.
   */
  function MaxSuffix(media: seq<Medium>, prefix: String): (r: Option<int>)
    ensures r.None? <==> forall m | m in media :: !Sql.Like(m.id, prefix + "%")
    ensures r.Some? ==> forall m | m in media && Sql.Like(m.id, prefix + "%") :: CastInteger(SuffixAfter(m.id, prefix)) <= r.value
    ensures r.Some? ==> exists m | m in media && Sql.Like(m.id, prefix + "%") :: CastInteger(SuffixAfter(m.id, prefix)) == r.value
  {
    if media == [] then None
    else
      var rest := MaxSuffix(media[1..], prefix);
      assert forall m :: m in media <==> m == media[0] || m in media[1..];
      if !Sql.Like(media[0].id, prefix + "%") then rest
      else
        var v := CastInteger(SuffixAfter(media[0].id, prefix));
        match rest
        case None => Some(v)
        case Some(w) => Some(if v > w then v else w)
  }

  /** The id `generate_id` proposes from a prefix and the largest number in use. */
  function NumberedId(prefix: String, max: nat): String {
    prefix + " " + NatToString(max + 1)
  }

  /**
   * The test by which `generate_id` keeps a given id, as written: it
   * compares byte lengths and slices the one byte after the prefix, which
   * panics (`None`) when that byte is not the end of a character.
   */
  function KeepsIdAsWritten(id: String, prefix: String): (r: Option<bool>)
    ensures r.None? <==> IsPrefix(prefix, id) && Utf8Len(id) > Utf8Len(prefix) + 1 && |prefix| < |id| && !IsAscii(id[|prefix|])
  {
    if !IsPrefix(prefix, id) || Utf8Len(id) <= Utf8Len(prefix) + 1 then Some(false)
    else
      Utf8LenConcat(prefix, id[|prefix|..]);
      assert id == prefix + id[|prefix|..];
      if !IsAscii(id[|prefix|]) then None else Some(id[|prefix|] == ' ')
  }

  /** The test as intended: the prefix, a space, and more text. */
  predicate KeepsId(id: String, prefix: String) {
    IsPrefix(prefix, id) && |id| > |prefix| + 1 && id[|prefix|] == ' '
  }

  lemma KeepsIdShape(id: String, prefix: String)
    ensures KeepsId(id, prefix) <==> exists rest :: rest != [] && id == prefix + " " + rest
  {
    if KeepsId(id, prefix) {
      var rest := id[|prefix| + 1..];
      assert id == prefix + " " + rest;
    }
  }

  /** Wherever the written test does not panic it agrees with the intended one. */
  lemma KeepsIdAsWrittenAgrees(id: String, prefix: String)
    requires KeepsIdAsWritten(id, prefix).Some?
    ensures KeepsIdAsWritten(id, prefix).value == KeepsId(id, prefix)
  {
    if IsPrefix(prefix, id) && |id| > |prefix| {
      var rest := id[|prefix| + 1..];
      assert id == prefix + ([id[|prefix|]] + rest);
      Utf8LenConcat(prefix, [id[|prefix|]] + rest);
      Utf8LenConcat([id[|prefix|]], rest);
      assert Utf8Len([id[|prefix|]]) == Utf8Width(id[|prefix|]);
      assert |rest| > 0 <==> Utf8Len(rest) > 0;
    } else if IsPrefix(prefix, id) {
      assert id == id[..|prefix|];
    }
  }

  /** Any id made of the prefix and one non-ASCII character makes the written test panic. */
  lemma KeepsIdAsWrittenPanics(prefix: String, c: char)
    requires !IsAscii(c)
    ensures KeepsIdAsWritten(prefix + [c], prefix).None?
    ensures !KeepsId(prefix + [c], prefix)
  {
    Utf8LenConcat(prefix, [c]);
    assert Utf8Len([c]) == Utf8Width(c);
    assert (prefix + [c])[..|prefix|] == prefix;
  }

  /** For example the book id "FANT ABEDé" of an Abedi title in FANT. */
  lemma KeepsIdAsWrittenPanicsExample()
    ensures KeepsIdAsWritten("FANT ABED" + "é", "FANT ABED").None?
  {
    KeepsIdAsWrittenPanics("FANT ABED", 'é');
  }

  /**
   * `generate_id`: an id that already consists of the prefix, a space and
   * more text is kept; otherwise the prefix with one more than the largest
   * number in use under it. A negative maximum does not convert to `usize`
   * and is reported as an SQL error.
   */
  function GenerateId(media: seq<Medium>, b: Book): (r: Result<String, ApiErrors.Error>)
    ensures r.Err? ==> r.error == ApiErrors.SQL
  {
    var prefix := IdPrefix(if b.authors == [] then [] else Trim(b.authors[0]), Trim(b.category));
    var id := Trim(b.id);
    if KeepsId(id, prefix) then Ok(id)
    else
      var max := MaxSuffix(media, prefix).UnwrapOr(0);
      if max < 0 then Err(ApiErrors.SQL)
      else Ok(NumberedId(prefix, max))
  }

  /** A newly numbered id is not the id of any medium in the table. */
  lemma GenerateIdFresh(media: seq<Medium>, b: Book)
    requires GenerateId(media, b).Ok? && GenerateId(media, b).value != Trim(b.id)
    requires MaxSuffix(media, IdPrefix(if b.authors == [] then [] else Trim(b.authors[0]), Trim(b.category))).UnwrapOr(0) < 0x7FFF_FFFF_FFFF_FFFF
    ensures !HasMedium(media, GenerateId(media, b).value)
  {
    var prefix := IdPrefix(if b.authors == [] then [] else Trim(b.authors[0]), Trim(b.category));
    NumberedIdFresh(media, prefix, MaxSuffix(media, prefix).UnwrapOr(0));
  }

  /** One more than the largest number in use under a prefix is not in use. */
  lemma NumberedIdFresh(media: seq<Medium>, prefix: String, max: int)
    requires max == MaxSuffix(media, prefix).UnwrapOr(0) && 0 <= max < 0x7FFF_FFFF_FFFF_FFFF
    ensures !HasMedium(media, NumberedId(prefix, max))
  {
    var cand := NumberedId(prefix, max);
    NumberedIdMatches(prefix, max);
    forall m | m in media && m.id == cand
      ensures false
    {
    }
  }

  /** A numbered id matches its prefix pattern and casts back to its number. */
  lemma NumberedIdMatches(prefix: String, max: nat)
    requires max < 0x7FFF_FFFF_FFFF_FFFF
    ensures Sql.Like(NumberedId(prefix, max), prefix + "%")
    ensures CastInteger(SuffixAfter(NumberedId(prefix, max), prefix)) == max + 1
  {
    var tail := " " + NatToString(max + 1);
    assert NumberedId(prefix, max) == prefix + tail;
    Sql.LikeOwnPrefix(prefix, tail);
    assert SuffixAfter(prefix + tail, prefix) == tail;
    CastPrinted(max + 1);
  }
}
