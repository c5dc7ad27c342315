/**
 * The user provider of the scripting API revision: a CSV file with one
 * user per row, looked up by account. The CSV reader is not modelled: a
 * file is what opening it gave, either an error or the list of its rows,
 * each of which was read or failed to be read.
 */
module CsvUsers {
  import opened Wrappers
  import opened Text
  import opened Ints
  import P = ProviderApi
  import A = ApiErrors

  type Row = seq<String>

  /** What opening and reading the file gave. */
  type File = Result<seq<Result<Row, P.Error>>, P.Error>

  /** The user data a provider returns. */
  datatype UserData = UserData(account: String, forename: String, surname: String, role: String)

  /** The provider settings: the file, its delimiter, whether its first row is a header, and four column indices. */
  datatype Csv = Csv(
    path: String,
    delimiter: u8,
    hasHeaders: bool,
    columnAccount: usize,
    columnForename: usize,
    columnSurname: usize,
    columnRole: usize)

  const COMMA: u8 := 0x2C

  /** `CSV::default()`. */
  const DEFAULT: Csv := Csv([], COMMA, false, 0, 1, 2, 3)

  /** The rows the reader yields as records: a header row is not one of them. */
  function Records(csv: Csv, rows: seq<Result<Row, P.Error>>): seq<Result<Row, P.Error>> {
    if csv.hasHeaders && rows != [] then rows[1..] else rows
  }

  /** A configured column, trimmed; a row too short for it is `InvalidArguments`. */
  function Column(row: Row, i: usize): (r: Result<String, P.Error>)
    ensures r.Ok? <==> i < |row|
    ensures r.Ok? ==> r.value == Trim(row[i])
    ensures r.Err? ==> r.error == P.InvalidArguments
  {
    if i < |row| then Ok(Trim(row[i])) else Err(P.InvalidArguments)
  }

  /** The user of a row, under the given account; the first missing column is the error. */
  function UserFrom(csv: Csv, account: String, row: Row): (r: Result<UserData, P.Error>)
    ensures r.Ok? <==> csv.columnForename < |row| && csv.columnSurname < |row| && csv.columnRole < |row|
    ensures r.Ok? ==> r.value == UserData(account, Trim(row[csv.columnForename]), Trim(row[csv.columnSurname]), Trim(row[csv.columnRole]))
    ensures r.Err? ==> r.error == P.InvalidArguments
  {
    match Column(row, csv.columnForename)
    case Err(e) => Err(e)
    case Ok(f) =>
      match Column(row, csv.columnSurname)
      case Err(e) => Err(e)
      case Ok(s) =>
        match Column(row, csv.columnRole)
        case Err(e) => Err(e)
        case Ok(role) => Ok(UserData(account, f, s, role))
  }

  /** A row that was read, whose account column exists and trims to something other than `account`. */
  predicate Passes(csv: Csv, account: String, rec: Result<Row, P.Error>) {
    rec.Ok? && Column(rec.value, csv.columnAccount).Ok? && Column(rec.value, csv.columnAccount).value != account
  }

  /**
   * The scan of `request`: the first row whose trimmed account column is
   * `account` gives the user; a row that could not be read, or has no
   * account column, ends the scan with its error first.
   */
  function Find(csv: Csv, account: String, recs: seq<Result<Row, P.Error>>): (r: Result<UserData, P.Error>)
    ensures r.Ok? ==> r.value.account == account
    ensures (forall i | 0 <= i < |recs| :: Passes(csv, account, recs[i])) ==> r == Err(P.Api(A.NothingFound))
    decreases |recs|
  {
    if recs == [] then Err(P.Api(A.NothingFound))
    else match recs[0]
      case Err(e) => Err(e)
      case Ok(row) =>
        match Column(row, csv.columnAccount)
        case Err(e) => Err(e)
        case Ok(a) =>
          if a == account then UserFrom(csv, account, row)
          else Find(csv, account, recs[1..])
  }

  /** The first row whose trimmed account column is `account` decides, when every row before it was read and differs. */
  lemma {:induction false} FindFirst(csv: Csv, account: String, recs: seq<Result<Row, P.Error>>, i: nat)
    requires i < |recs| && recs[i].Ok? && Column(recs[i].value, csv.columnAccount) == Ok(account)
    requires forall j | 0 <= j < i :: Passes(csv, account, recs[j])
    ensures Find(csv, account, recs) == UserFrom(csv, account, recs[i].value)
    decreases i
  {
    if i > 0 {
      assert Passes(csv, account, recs[0]);
      assert forall j | 0 <= j < i - 1 :: recs[1..][j] == recs[j + 1];
      FindFirst(csv, account, recs[1..], i - 1);
    }
  }

  /** `CSV::request` on what the file gave. */
  function RequestOutcome(csv: Csv, account: String, file: File): Result<UserData, P.Error> {
    match file
    case Err(e) => Err(e)
    case Ok(rows) => Find(csv, account, Records(csv, rows))
  }

  /** `CSV::request`: the records in order, returning at the first match or the first error. */
  method Request(csv: Csv, account: String, file: File) returns (r: Result<UserData, P.Error>)
    ensures r == RequestOutcome(csv, account, file)
  {
    if file.Err? {
      return Err(file.error);
    }
    var recs := Records(csv, file.value);
    for i := 0 to |recs|
      invariant Find(csv, account, recs) == Find(csv, account, recs[i..])
    {
      assert recs[i..][1..] == recs[i + 1..];
      if recs[i].Err? {
        return Err(recs[i].error);
      }
      var row := recs[i].value;
      var a := Column(row, csv.columnAccount);
      if a.Err? {
        return Err(a.error);
      }
      if a.value == account {
        return UserFrom(csv, account, row);
      }
    }
    return Err(P.Api(A.NothingFound));
  }

  /** `Ok(us)` with `u` in front; an error stays as it is. */
  function Cons(u: UserData, rest: Result<seq<UserData>, P.Error>): Result<seq<UserData>, P.Error> {
    match rest
    case Err(e) => Err(e)
    case Ok(us) => Ok([u] + us)
  }

  /**
   * The scan of `bulk_request`: every row whose trimmed account column is
   * one of `accounts`, in file order; the first unreadable row or missing
   * column ends it with that error.
   */
  function Collect(csv: Csv, accounts: set<String>, recs: seq<Result<Row, P.Error>>): (r: Result<seq<UserData>, P.Error>)
    ensures r.Ok? ==> |r.value| <= |recs|
    ensures r.Ok? ==> forall i | 0 <= i < |r.value| :: r.value[i].account in accounts
    decreases |recs|
  {
    if recs == [] then Ok([])
    else match recs[0]
      case Err(e) => Err(e)
      case Ok(row) =>
        match Column(row, csv.columnAccount)
        case Err(e) => Err(e)
        case Ok(a) =>
          if a in accounts then
            match UserFrom(csv, a, row)
            case Err(e) => Err(e)
            case Ok(u) => Cons(u, Collect(csv, accounts, recs[1..]))
          else Collect(csv, accounts, recs[1..])
  }

  /** `CSV::bulk_request` on what the file gave; the requested accounts only matter as a set. */
  function BulkOutcome(csv: Csv, accounts: seq<String>, file: File): Result<seq<UserData>, P.Error> {
    match file
    case Err(e) => Err(e)
    case Ok(rows) => Collect(csv, (set a | a in accounts), Records(csv, rows))
  }

  /** `CSV::bulk_request`: one pass over the records, collecting the requested ones. */
  method BulkRequest(csv: Csv, accounts: seq<String>, file: File) returns (r: Result<seq<UserData>, P.Error>)
    ensures r == BulkOutcome(csv, accounts, file)
  {
    if file.Err? {
      return Err(file.error);
    }
    var wanted := set a | a in accounts;
    var recs := Records(csv, file.value);
    var result := [];
    assert recs[0..] == recs;
    assert Prefixed(result, Collect(csv, wanted, recs)) == Collect(csv, wanted, recs) by {
      if Collect(csv, wanted, recs).Ok? {
        assert [] + Collect(csv, wanted, recs).value == Collect(csv, wanted, recs).value;
      }
    }
    for i := 0 to |recs|
      invariant Collect(csv, wanted, recs) == Prefixed(result, Collect(csv, wanted, recs[i..]))
    {
      assert recs[i..][1..] == recs[i + 1..];
      if recs[i].Err? {
        return Err(recs[i].error);
      }
      var row := recs[i].value;
      var a := Column(row, csv.columnAccount);
      if a.Err? {
        return Err(a.error);
      }
      if a.value in wanted {
        var u := UserFrom(csv, a.value, row);
        if u.Err? {
          return Err(u.error);
        }
        PrefixedCons(result, u.value, Collect(csv, wanted, recs[i + 1..]));
        result := result + [u.value];
      }
    }
    assert recs[|recs|..] == [] && result + [] == result;
    return Ok(result);
  }

  /** `Ok(us)` with `done` in front; an error stays as it is. */
  function Prefixed(done: seq<UserData>, rest: Result<seq<UserData>, P.Error>): Result<seq<UserData>, P.Error> {
    match rest
    case Err(e) => Err(e)
    case Ok(us) => Ok(done + us)
  }

  lemma PrefixedCons(done: seq<UserData>, u: UserData, rest: Result<seq<UserData>, P.Error>)
    ensures Prefixed(done, Cons(u, rest)) == Prefixed(done + [u], rest)
  {
    if rest.Ok? {
      assert done + ([u] + rest.value) == done + [u] + rest.value;
    }
  }

  /**
   * The first user `bulk_request` returns is what `request` returns for
   * that account: both scans stop at the same row.
   */
  lemma {:induction false} BulkFirstIsRequest(csv: Csv, accounts: set<String>, recs: seq<Result<Row, P.Error>>)
    requires Collect(csv, accounts, recs).Ok? && Collect(csv, accounts, recs).value != []
    ensures Find(csv, Collect(csv, accounts, recs).value[0].account, recs) == Ok(Collect(csv, accounts, recs).value[0])
    decreases |recs|
  {
    var u := Collect(csv, accounts, recs).value[0];
    var row := recs[0].value;
    var a := Column(row, csv.columnAccount).value;
    if a in accounts {
      assert u == UserFrom(csv, a, row).value;
    } else {
      BulkFirstIsRequest(csv, accounts, recs[1..]);
      assert a != u.account;
    }
  }

  /**
   * `request_multiple`: two rows asked for in the opposite order come back
   * in file order.
   */
  lemma BulkFileOrder(csv: Csv, first: Row, second: Row, a1: String, a2: String)
    requires Column(first, csv.columnAccount) == Ok(a1) && UserFrom(csv, a1, first).Ok?
    requires Column(second, csv.columnAccount) == Ok(a2) && UserFrom(csv, a2, second).Ok?
    ensures Collect(csv, {a2, a1}, [Ok(first), Ok(second)])
         == Ok([UserFrom(csv, a1, first).value, UserFrom(csv, a2, second).value])
  {
    var wanted := {a2, a1};
    var u1, u2 := UserFrom(csv, a1, first).value, UserFrom(csv, a2, second).value;
    var none: seq<Result<Row, P.Error>> := [];
    var one: seq<Result<Row, P.Error>> := [Ok(second)];
    assert Collect(csv, wanted, none) == Ok([]);
    Collected(csv, wanted, second, none, a2);
    assert [Ok(second)] + none == one && [u2] + [] == [u2];
    assert Collect(csv, wanted, one) == Ok([u2]);
    Collected(csv, wanted, first, one, a1);
    assert [Ok(first)] + one == [Ok(first), Ok(second)];
    assert [u1] + [u2] == [u1, u2];
  }

  /** A requested row puts its user in front of the rest. */
  lemma Collected(csv: Csv, wanted: set<String>, row: Row, rest: seq<Result<Row, P.Error>>, a: String)
    requires Column(row, csv.columnAccount) == Ok(a) && a in wanted && UserFrom(csv, a, row).Ok?
    ensures Collect(csv, wanted, [Ok(row)] + rest) == Cons(UserFrom(csv, a, row).value, Collect(csv, wanted, rest))
  {
    assert ([Ok(row)] + rest)[1..] == rest;
  }

  /** `request_single`: with the default settings the account is column 0 and the names and role columns 1 to 3. */
  lemma DefaultColumns(row: Row, rest: seq<Result<Row, P.Error>>)
    requires |row| >= 4
    ensures RequestOutcome(DEFAULT, Trim(row[0]), Ok([Ok(row)] + rest))
         == Ok(UserData(Trim(row[0]), Trim(row[1]), Trim(row[2]), Trim(row[3])))
  {
    assert Records(DEFAULT, [Ok(row)] + rest)[0] == Ok(row);
  }
}
