/**
 * The dashboard statistics: one query counting media, distinct author
 * names, users, loans, reservations and overdue loans.
 */
module Statistics {
  import opened Wrappers
  import opened Text
  import opened Dates
  import opened Schema
  import Lending

  /** The six counts, each a non-negative `count(*)`. */
  datatype Stats = Stats(books: nat, authors: nat, users: nat, borrows: nat, reservations: nat, overdues: nat)

  /** The number of rows that satisfy `p`. */
  function CountWhere(media: seq<Medium>, p: Medium -> bool): (r: nat)
    ensures r <= |media|
    ensures r == 0 <==> forall i | 0 <= i < |media| :: !p(media[i])
    ensures r == |media| <==> forall i | 0 <= i < |media| :: p(media[i])
  {
    if media == [] then 0
    else
      var rest := CountWhere(media[1..], p);
      assert forall i | 1 <= i < |media| :: media[i] == media[1..][i - 1];
      (if p(media[0]) then 1 else 0) + rest
  }

  /** A weaker filter never counts fewer rows. */
  lemma {:induction false} CountWhereMonotone(media: seq<Medium>, p: Medium -> bool, q: Medium -> bool)
    requires forall i | 0 <= i < |media| :: p(media[i]) ==> q(media[i])
    ensures CountWhere(media, p) <= CountWhere(media, q)
  {
    if media != [] {
      assert forall i | 0 <= i < |media[1..]| :: media[1..][i] == media[i + 1];
      CountWhereMonotone(media[1..], p, q);
    }
  }

  predicate Borrowed(m: Medium) {
    m.borrower != []
  }

  predicate Reserved(m: Medium) {
    m.reservation != []
  }

  /**
   * A medium with a borrower whose deadline reads as a day before today; an unreadable
   * deadline is `NULL` and never overdue.
   */
  predicate OverdueLoan(m: Medium, today: Date)
    requires Dates.Valid(today)
  {
    Borrowed(m) && Lending.Overdue(m, today)
  }

  /** The number of distinct author names. */
  function DistinctNames(authors: seq<Author>): (r: set<String>)
    ensures forall n :: n in r <==> exists i | 0 <= i < |authors| :: authors[i].name == n
    ensures |r| <= |authors|
  {
    if authors == [] then {}
    else
      var rest := DistinctNames(authors[1..]);
      assert forall i | 1 <= i < |authors| :: authors[i] == authors[1..][i - 1];
      {authors[0].name} + rest
  }

  /** The single row of the statistics query; `today` is `date('now')`. */
  function Compute(media: seq<Medium>, authors: seq<Author>, users: seq<User>, today: Date): (r: Stats)
    requires Dates.Valid(today)
    ensures r.books == |media| && r.users == |users|
    ensures r.authors <= |authors|
    ensures r.overdues <= r.borrows <= r.books
    ensures r.reservations <= r.books
  {
    var overdue := (m: Medium) => OverdueLoan(m, today);
    CountWhereMonotone(media, overdue, Borrowed);
    Stats(|media|, |DistinctNames(authors)|, |users|, CountWhere(media, Borrowed), CountWhere(media, Reserved),
      CountWhere(media, overdue))
  }

  /** Nothing borrowed means nothing overdue; an empty library has nothing at all. */
  lemma EmptyCounts(media: seq<Medium>, authors: seq<Author>, users: seq<User>, today: Date)
    requires Dates.Valid(today)
    ensures (forall i | 0 <= i < |media| :: media[i].borrower == []) ==>
      Compute(media, authors, users, today).borrows == 0 && Compute(media, authors, users, today).overdues == 0
    ensures Compute([], [], [], today) == Stats(0, 0, 0, 0, 0, 0)
  {
    var s := Compute(media, authors, users, today);
    assert s.overdues <= s.borrows;
  }

  /** An author with several media is counted once. */
  lemma DistinctNamesExample(a: String, b: String, m1: String, m2: String)
    requires a != b
    ensures |DistinctNames([Author(a, m1), Author(a, m2), Author(b, m1)])| == 2
  {
    var r := DistinctNames([Author(a, m1), Author(a, m2), Author(b, m1)]);
    assert r == {a, b} by {
      assert forall n :: n in r <==> n == a || n == b by {
        var authors := [Author(a, m1), Author(a, m2), Author(b, m1)];
        assert authors[0].name == a && authors[2].name == b;
      }
    }
  }

  /** `stats`: the query always yields its one row. */
  method Query(db: Database, today: Date) returns (r: Result<Stats, DbError>)
    requires Dates.Valid(today)
    ensures r == Ok(Compute(db.media, db.authors, db.users, today))
  {
    r := Ok(Compute(db.media, db.authors, db.users, today));
  }
}
