/**
 * Lending: lend, return, reserve and release a book on behalf of a user,
 * each guarded by checks taken in a fixed order, and the list of overdue
 * loans. Every operation is specified by a pure step that names the
 * outcome and the `UPDATE` statements it executes; the same statements
 * are applied to the in-memory record of the book and to its row.
 */
module Lending {
  import opened Wrappers
  import opened Text
  import opened Dates
  import opened Schema
  import Sql
  import opened Rental
  import Books

  /** What one lending operation answers and which statements it executes, in order. */
  datatype Step = Step(result: Result<(), DbError>, writes: seq<Change>)

  /** The statements applied to one record, in order. */
  function ApplyRow(m: Medium, cs: seq<Change>): (r: Medium)
    ensures r.id == m.id
    decreases |cs|
  {
    if cs == [] then m else ApplyRow(Apply(cs[0], m), cs[1..])
  }

  /** The statements run against the table, in order. */
  function ApplyAll(media: seq<Medium>, id: String, cs: seq<Change>): (r: seq<Medium>)
    ensures |r| == |media|
    decreases |cs|
  {
    if cs == [] then media else ApplyAll(Update(media, id, cs[0]), id, cs[1..])
  }

  /**
   * Row and record stay in step: when the row with the book's id equals the
   * record, it equals the record after the same statements; all other rows
   * keep their contents.
   */
  lemma {:induction false} ApplyAllRow(media: seq<Medium>, m: Medium, cs: seq<Change>, i: int)
    requires 0 <= i < |media|
    ensures media[i] == m ==> ApplyAll(media, m.id, cs)[i] == ApplyRow(m, cs)
    ensures media[i].id != m.id ==> ApplyAll(media, m.id, cs)[i] == media[i]
    decreases |cs|
  {
    if cs != [] {
      ApplyAllRow(Update(media, m.id, cs[0]), Apply(cs[0], m), cs[1..], i);
    }
  }

  lemma {:induction false} ApplyAllKeys(media: seq<Medium>, id: String, cs: seq<Change>)
    requires UniqueMediumIds(media)
    ensures UniqueMediumIds(ApplyAll(media, id, cs)) && MediumIds(ApplyAll(media, id, cs)) == MediumIds(media)
    decreases |cs|
  {
    if cs != [] {
      UpdateKeepsKeys(media, id, cs[0]);
      ApplyAllKeys(Update(media, id, cs[0]), id, cs[1..]);
    }
  }

  lemma ApplyShort(m: Medium, a: Change, b: Change)
    ensures ApplyRow(m, [a]) == Apply(a, m)
    ensures ApplyRow(m, [a, b]) == Apply(b, Apply(a, m))
  {
    assert [a, b][1..] == [b];
    assert [a][1..] == [];
    assert ApplyRow(Apply(a, m), [b]) == Apply(b, Apply(a, m));
  }

  // ------------------------------------------------------------ the steps

  /**
   * `lend`: the user must be allowed to borrow, the book must be borrowable,
   * a reservation must be the user's own (and is then released), and the
   * book must not be on loan to someone else; a loan to the current
   * borrower renews it.
   */
  function LendStep(book: Medium, user: UserData, deadline: String): (s: Step)
    ensures !user.mayBorrow ==> s == Step(Err(LendingUserMayNotBorrow), [])
    ensures user.mayBorrow && !book.borrowable ==> s == Step(Err(LendingBookNotBorrowable), [])
    ensures user.mayBorrow && book.borrowable && book.reservation != [] && book.reservation != user.account
      ==> s == Step(Err(LendingBookAlreadyReserved), [])
    ensures s.result.Ok? <==>
      user.mayBorrow && book.borrowable
      && (book.reservation == [] || book.reservation == user.account)
      && (book.borrower == [] || book.borrower == user.account)
    ensures s.result.Ok? ==> ApplyRow(book, s.writes) == book.(borrower := user.account, deadline := deadline, reservation := [])
    ensures s.result.Err? && s.writes != [] ==>
      s.result == Err(LendingBookAlreadyBorrowed) && book.reservation == user.account
      && ApplyRow(book, s.writes) == book.(reservation := [])
    ensures s.result.Err? && s.writes == [] ==> ApplyRow(book, s.writes) == book
  {
    if !user.mayBorrow then Step(Err(LendingUserMayNotBorrow), [])
    else if !book.borrowable then Step(Err(LendingBookNotBorrowable), [])
    else if book.reservation != [] && book.reservation != user.account then Step(Err(LendingBookAlreadyReserved), [])
    else
      ApplyShort(book, Release, SetLend(user.account, deadline));
      if book.borrower != [] && book.borrower != user.account then
        Step(Err(LendingBookAlreadyBorrowed), if book.reservation != [] then [Release] else [])
      else
        Step(Ok(()), if book.reservation != [] then [Release, SetLend(user.account, deadline)] else [SetLend(user.account, deadline)])
  }

  /** `return_back`: a book that is not on loan cannot be returned. */
  function ReturnStep(book: Medium): (s: Step)
    ensures s.result.Ok? <==> book.borrower != []
    ensures s.result.Err? ==> s == Step(Err(LogicError), [])
    ensures s.result.Ok? ==> ApplyRow(book, s.writes) == book.(borrower := [], deadline := [])
  {
    if book.borrower == [] then Step(Err(LogicError), []) else Step(Ok(()), [Revoke])
  }

  /**
   * `reserve`: only a borrowable book on loan to another user, without a
   * reservation, can be reserved by a user who may borrow.
   */
  function ReserveStep(book: Medium, user: UserData): (s: Step)
    ensures !user.mayBorrow ==> s.result == Err(LendingUserMayNotBorrow)
    ensures user.mayBorrow && !book.borrowable ==> s.result == Err(LendingBookNotBorrowable)
    ensures user.mayBorrow && book.borrowable && book.reservation != [] ==> s.result == Err(LendingBookAlreadyReserved)
    ensures user.mayBorrow && book.borrowable && book.reservation == [] && book.borrower == [] ==> s.result == Err(LendingBookNotBorrowed)
    ensures user.mayBorrow && book.borrowable && book.reservation == [] && book.borrower != [] && book.borrower == user.account
      ==> s.result == Err(LendingBookAlreadyBorrowedByUser)
    ensures s.result.Ok? <==>
      user.mayBorrow && book.borrowable && book.reservation == [] && book.borrower != [] && book.borrower != user.account
    ensures s.result.Err? ==> s.writes == []
    ensures s.result.Ok? ==> ApplyRow(book, s.writes) == book.(reservation := user.account)
  {
    if !user.mayBorrow then Step(Err(LendingUserMayNotBorrow), [])
    else if !book.borrowable then Step(Err(LendingBookNotBorrowable), [])
    else if book.reservation != [] then Step(Err(LendingBookAlreadyReserved), [])
    else if book.borrower == [] then Step(Err(LendingBookNotBorrowed), [])
    else if book.borrower == user.account then Step(Err(LendingBookAlreadyBorrowedByUser), [])
    else Step(Ok(()), [SetReserve(user.account)])
  }

  /** `release`: a book without a reservation cannot be released. */
  function ReleaseStep(book: Medium): (s: Step)
    ensures s.result.Ok? <==> book.reservation != []
    ensures s.result.Err? ==> s == Step(Err(LogicError), [])
    ensures s.result.Ok? ==> ApplyRow(book, s.writes) == book.(reservation := [])
  {
    if book.reservation == [] then Step(Err(LogicError), []) else Step(Ok(()), [Release])
  }

  // ------------------------------------------------------------ properties

  /** Lending to the current borrower only moves the deadline. */
  lemma Renewal(book: Medium, user: UserData, deadline: String)
    requires user.mayBorrow && book.borrowable && book.reservation == [] && book.borrower == user.account
    ensures LendStep(book, user, deadline).result.Ok?
    ensures ApplyRow(book, LendStep(book, user, deadline).writes) == book.(deadline := deadline)
  {
  }

  /**
   * Lending to the reserving user while another user still holds the book
   * fails, yet the reservation has already been released.
   */
  lemma LendToReserverWhileBorrowed(book: Medium, user: UserData, deadline: String)
    requires user.mayBorrow && book.borrowable && book.reservation == user.account != []
    requires book.borrower != [] && book.borrower != user.account
    ensures LendStep(book, user, deadline).result == Err(LendingBookAlreadyBorrowed)
    ensures ApplyRow(book, LendStep(book, user, deadline).writes) == book.(reservation := [])
  {
  }

  /** A successful loan can be returned, leaving the book neither lent nor reserved. */
  lemma LendThenReturn(book: Medium, user: UserData, deadline: String)
    requires LendStep(book, user, deadline).result.Ok? && user.account != []
    ensures var lent := ApplyRow(book, LendStep(book, user, deadline).writes);
      ReturnStep(lent).result.Ok?
      && ApplyRow(lent, ReturnStep(lent).writes) == book.(borrower := [], deadline := [], reservation := [])
  {
  }

  /** Releasing a fresh reservation restores the record. */
  lemma ReserveThenRelease(book: Medium, user: UserData)
    requires ReserveStep(book, user).result.Ok? && user.account != []
    ensures var reserved := ApplyRow(book, ReserveStep(book, user).writes);
      ReleaseStep(reserved).result.Ok? && ApplyRow(reserved, ReleaseStep(reserved).writes) == book
  {
  }

  /**
   * The reserving user gets the book once it is returned: the loan succeeds
   * and the reservation is gone.
   */
  lemma ReserverLendsAfterReturn(book: Medium, reserver: UserData, deadline: String)
    requires ReserveStep(book, reserver).result.Ok?
    ensures var reserved := ApplyRow(book, ReserveStep(book, reserver).writes);
      var returned := ApplyRow(reserved, ReturnStep(reserved).writes);
      ReturnStep(reserved).result.Ok?
      && LendStep(returned, reserver, deadline).result.Ok?
      && ApplyRow(returned, LendStep(returned, reserver, deadline).writes)
         == book.(borrower := reserver.account, deadline := deadline, reservation := [])
  {
  }

  // ------------------------------------------------------------ the operations

  /**
   * The deadline text: today plus `days`, formatted as `%F`; `None` where
   * the date leaves chrono's range and the addition panics.
   */
  function Deadline(today: Date, days: int): (r: Option<String>)
    requires Dates.Valid(today)
    ensures r.Some? <==> AddDays(today, days).Some?
    ensures r.Some? ==> ParseIso(r.value) == AddDays(today, days)
  {
    if AddDays(today, days).None? then None
    else
      AddDaysNumber(today, days);
      ParseFormatIso(AddDays(today, days).value);
      Some(FormatIso(AddDays(today, days).value))
  }

  /**
   * What `lend` ends in: an answer (`Some`) or the panic of the deadline
   * computation (`None`), and the statements executed before it.
   */
  datatype Lent = Lent(result: Option<Result<(), DbError>>, writes: seq<Change>)

  /**
   * `lend` with the deadline as computed: the four checks come first, so
   * an out-of-range deadline only matters once they pass; it then panics
   * after a reservation of the user has been released.
   */
  function LendOutcome(book: Medium, user: UserData, deadline: Option<String>): (o: Lent)
    ensures deadline.Some? ==>
      o == Lent(Some(LendStep(book, user, deadline.value).result), LendStep(book, user, deadline.value).writes)
    ensures deadline.None? ==> (o.result.None? <==> LendStep(book, user, []).result.Ok?)
    ensures deadline.None? && o.result.Some? ==>
      o == Lent(Some(LendStep(book, user, []).result), LendStep(book, user, []).writes)
    ensures o.result.None? ==> ApplyRow(book, o.writes) == book.(reservation := [])
  {
    var s := LendStep(book, user, if deadline.Some? then deadline.value else []);
    if deadline.Some? || s.result.Err? then Lent(Some(s.result), s.writes)
    else
      ApplyShort(book, Release, Release);
      Lent(None, if book.reservation != [] then [Release] else [])
  }

  /** A refused loan is refused whatever the loan duration, even one past chrono's range. */
  lemma LendRefusedAnyDeadline(book: Medium, user: UserData, today: Date, days: int)
    requires Dates.Valid(today) && !user.mayBorrow
    ensures LendOutcome(book, user, Deadline(today, days)) == Lent(Some(Err(LendingUserMayNotBorrow)), [])
  {
  }

  /** Runs the statements of a step against the table and the record. */
  method Execute(db: Database, book: Medium, writes: seq<Change>) returns (after: Medium)
    requires db.Valid()
    modifies db
    ensures db.Valid()
    ensures after == ApplyRow(book, writes) && db.media == ApplyAll(old(db.media), book.id, writes)
    ensures db.authors == old(db.authors) && db.users == old(db.users) && db.categories == old(db.categories) && db.meta == old(db.meta)
  {
    after := book;
    var i := 0;
    while i < |writes|
      invariant 0 <= i <= |writes|
      invariant db.Valid()
      invariant ApplyRow(after, writes[i..]) == ApplyRow(book, writes)
      invariant ApplyAll(db.media, book.id, writes[i..]) == ApplyAll(old(db.media), book.id, writes)
      invariant after.id == book.id
      invariant db.authors == old(db.authors) && db.users == old(db.users) && db.categories == old(db.categories) && db.meta == old(db.meta)
    {
      assert writes[i..][1..] == writes[i + 1..];
      UpdateKeepsKeys(db.media, book.id, writes[i]);
      db.media := Update(db.media, book.id, writes[i]);
      after := Apply(writes[i], after);
      i := i + 1;
    }
    assert writes[i..] == [];
  }

  /** `lend`, for a loan of `days` days from `today`; a `None` result is the panic of the deadline computation. */
  method Lend(db: Database, book: Medium, user: UserData, days: int, today: Date) returns (r: Option<Result<(), DbError>>, after: Medium)
    requires db.Valid() && Dates.Valid(today)
    modifies db
    ensures db.Valid()
    ensures var o := LendOutcome(book, user, Deadline(today, days));
      r == o.result && after == ApplyRow(book, o.writes) && db.media == ApplyAll(old(db.media), book.id, o.writes)
    ensures db.authors == old(db.authors) && db.users == old(db.users) && db.categories == old(db.categories) && db.meta == old(db.meta)
  {
    after := book;
    if !user.mayBorrow {
      return Some(Err(LendingUserMayNotBorrow)), after;
    }
    if !book.borrowable {
      return Some(Err(LendingBookNotBorrowable)), after;
    }
    if book.reservation != [] {
      if book.reservation == user.account {
        // a reservation of the borrowing user is released first
        var released;
        released, after := ReleaseBook(db, after);
      } else {
        return Some(Err(LendingBookAlreadyReserved)), after;
      }
    }
    if after.borrower != [] && after.borrower != user.account {
      return Some(Err(LendingBookAlreadyBorrowed)), after;
    }
    var deadline := Deadline(today, days);
    if deadline.None? {
      return None, after;
    }
    ApplyShort(book, Release, SetLend(user.account, deadline.value));
    after := Execute(db, after, [SetLend(user.account, deadline.value)]);
    ApplyAllConcat(old(db.media), book.id, ReleaseStep(book).writes, [SetLend(user.account, deadline.value)]);
    r := Some(Ok(()));
  }

  /** Running two lists of statements one after the other is running their concatenation. */
  lemma {:induction false} ApplyAllConcat(media: seq<Medium>, id: String, a: seq<Change>, b: seq<Change>)
    ensures ApplyAll(ApplyAll(media, id, a), id, b) == ApplyAll(media, id, a + b)
    decreases |a|
  {
    if a != [] {
      ApplyAllConcat(Update(media, id, a[0]), id, a[1..], b);
      assert (a + b)[1..] == a[1..] + b;
    } else {
      assert a + b == b;
    }
  }

  /** `return_back`. */
  method ReturnBack(db: Database, book: Medium) returns (r: Result<(), DbError>, after: Medium)
    requires db.Valid()
    modifies db
    ensures db.Valid()
    ensures var s := ReturnStep(book);
      r == s.result && after == ApplyRow(book, s.writes) && db.media == ApplyAll(old(db.media), book.id, s.writes)
    ensures db.authors == old(db.authors) && db.users == old(db.users) && db.categories == old(db.categories) && db.meta == old(db.meta)
  {
    if book.borrower == [] {
      return Err(LogicError), book;
    }
    after := Execute(db, book, [Revoke]);
    r := Ok(());
  }

  /** `reserve`. */
  method Reserve(db: Database, book: Medium, user: UserData) returns (r: Result<(), DbError>, after: Medium)
    requires db.Valid()
    modifies db
    ensures db.Valid()
    ensures var s := ReserveStep(book, user);
      r == s.result && after == ApplyRow(book, s.writes) && db.media == ApplyAll(old(db.media), book.id, s.writes)
    ensures db.authors == old(db.authors) && db.users == old(db.users) && db.categories == old(db.categories) && db.meta == old(db.meta)
  {
    after := book;
    if !user.mayBorrow {
      return Err(LendingUserMayNotBorrow), after;
    }
    if !book.borrowable {
      return Err(LendingBookNotBorrowable), after;
    }
    if book.reservation != [] {
      return Err(LendingBookAlreadyReserved), after;
    }
    if book.borrower == [] {
      return Err(LendingBookNotBorrowed), after;
    }
    if book.borrower == user.account {
      return Err(LendingBookAlreadyBorrowedByUser), after;
    }
    after := Execute(db, book, [SetReserve(user.account)]);
    r := Ok(());
  }

  /** `release`. */
  method ReleaseBook(db: Database, book: Medium) returns (r: Result<(), DbError>, after: Medium)
    requires db.Valid()
    modifies db
    ensures db.Valid()
    ensures var s := ReleaseStep(book);
      r == s.result && after == ApplyRow(book, s.writes) && db.media == ApplyAll(old(db.media), book.id, s.writes)
    ensures db.authors == old(db.authors) && db.users == old(db.users) && db.categories == old(db.categories) && db.meta == old(db.meta)
  {
    if book.reservation == [] {
      return Err(LogicError), book;
    }
    after := Execute(db, book, [Release]);
    r := Ok(());
  }

  // ------------------------------------------------------------ overdues

  /** The deadline lies before today, in whole days; an unreadable deadline is never overdue. */
  predicate Overdue(m: Medium, today: Date)
    requires Dates.Valid(today)
  {
    Sql.SqlDay(m.deadline).Some? && Sql.SqlDay(m.deadline).value < DayNumber(today)
  }

  /** The user row whose account is `account`, as the join on the borrower finds it. */
  function FindUser(users: seq<User>, account: String): (r: Option<User>)
    ensures r.Some? <==> HasAccount(users, account)
    ensures r.Some? ==> r.value in users && r.value.account == account
  {
    if users == [] then None
    else if users[0].account == account then Some(users[0])
    else
      var r := FindUser(users[1..], account);
      assert forall i | 1 <= i < |users| :: users[i] == users[1..][i - 1];
      r
  }

  /** The joined rows before `order by`, one per overdue medium whose borrower has an account. */
  function OverdueRows(media: seq<Medium>, users: seq<User>, today: Date): (r: seq<(Medium, UserData)>)
    requires Dates.Valid(today)
    ensures forall p | p in r ::
      p.0 in media && Overdue(p.0, today) && FindUser(users, p.0.borrower).Some?
      && p.1 == ReadUser(FindUser(users, p.0.borrower).value)
    ensures forall m | m in media && Overdue(m, today) && HasAccount(users, m.borrower) ::
      (m, ReadUser(FindUser(users, m.borrower).value)) in r
  {
    if media == [] then []
    else
      var m := media[0];
      var rest := OverdueRows(media[1..], users, today);
      assert forall x | x in media :: x == m || x in media[1..];
      match FindUser(users, m.borrower)
      case Some(u) => if Overdue(m, today) then [(m, ReadUser(u))] + rest else rest
      case None => rest
  }

  /** The joined rows as `(Book, User)::read` reads them: each medium with its `group_concat` of author names. */
  function OverdueBooks(rows: seq<(Medium, UserData)>, authors: seq<Author>): (r: seq<(Books.Book, UserData)>)
    ensures |r| == |rows|
    ensures forall i | 0 <= i < |rows| ::
      r[i].1 == rows[i].1 && Books.MediumOf(r[i].0) == rows[i].0
      && r[i].0.authors == Split(Books.AuthorsText(authors, rows[i].0.id), ',')
  {
    seq(|rows|, i requires 0 <= i < |rows| => (Books.ReadBook(rows[i].0, Books.AuthorsText(authors, rows[i].0.id)), rows[i].1))
  }

  function OverdueKey(p: (Books.Book, UserData)): (String, String) {
    (p.1.role, p.1.account)
  }

  /** `overdues`: the overdue loans with their authors and borrowers, ordered by role and account. */
  function Overdues(db: Database, today: Date): (r: seq<(Books.Book, UserData)>)
    reads db
    requires Dates.Valid(today)
    ensures Sql.SortedBy(r, OverdueKey)
    ensures multiset(r) == multiset(OverdueBooks(OverdueRows(db.media, db.users, today), db.authors))
  {
    Sql.SortBy(OverdueBooks(OverdueRows(db.media, db.users, today), db.authors), OverdueKey)
  }

  /**
   * Exactly the overdue media whose borrower has an account are listed,
   * each with its joined authors and that account's user.
   */
  lemma OverduesListed(db: Database, today: Date, b: Books.Book, u: UserData)
    requires Dates.Valid(today)
    ensures (b, u) in Overdues(db, today) <==>
      var m := Books.MediumOf(b);
      m in db.media && Overdue(m, today) && HasAccount(db.users, m.borrower)
      && b.authors == Split(Books.AuthorsText(db.authors, m.id), ',')
      && u == ReadUser(FindUser(db.users, m.borrower).value)
  {
    var rows := OverdueRows(db.media, db.users, today);
    var books := OverdueBooks(rows, db.authors);
    var m := Books.MediumOf(b);
    assert (b, u) in Overdues(db, today) <==> (b, u) in multiset(books);
    if (b, u) in books {
      var i :| 0 <= i < |books| && books[i] == (b, u);
      assert rows[i] in rows;
    }
    if m in db.media && Overdue(m, today) && HasAccount(db.users, m.borrower)
      && b.authors == Split(Books.AuthorsText(db.authors, m.id), ',')
      && u == ReadUser(FindUser(db.users, m.borrower).value)
    {
      assert (m, u) in rows;
      var i :| 0 <= i < |rows| && rows[i] == (m, u);
      assert books[i] == (b, u);
    }
  }
}
