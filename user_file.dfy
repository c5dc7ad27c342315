/**
 * The user file of the server: a CSV file without a header whose rows
 * hold account, forename, surname and role in the first four columns.
 * The CSV reader is not modelled: a file is what opening it gave, either
 * a reader failure or the list of its rows, each read or failed; the
 * failures are the reader's, converted into the program's errors.
 */
module UserFile {
  import opened Wrappers
  import opened Text
  import opened Ints
  import S = Schema
  import E = Errors
  import Q = SortedQueue

  type Row = seq<String>
  type Records = seq<Result<Row, E.CsvFailure>>

  /** What opening the file with the chosen delimiter gave. */
  type File = Result<Records, E.CsvFailure>

  const ACCOUNT: nat := 0
  const FORENAME: nat := 1
  const SURNAME: nat := 2
  const ROLE: nat := 3

  /** `get_i`: the column, trimmed, or `InvalidFormat` when the row is too short. */
  function Field(row: Row, i: nat): (r: Result<String, E.Error>)
    ensures r.Ok? <==> i < |row|
    ensures r.Ok? ==> r.value == Trim(row[i])
    ensures r.Err? ==> r.error == E.InvalidFormat
  {
    if i < |row| then Ok(Trim(row[i])) else Err(E.InvalidFormat)
  }

  /** `parse_record`: the first four columns trimmed; every user of the file may borrow. */
  function ParseRecord(row: Row): (r: Result<S.UserData, E.Error>)
    ensures r.Ok? <==> |row| > ROLE
    ensures r.Ok? ==> r.value == S.UserData(Trim(row[ACCOUNT]), Trim(row[FORENAME]), Trim(row[SURNAME]), Trim(row[ROLE]), true)
    ensures r.Err? ==> r.error == E.InvalidFormat
  {
    match Field(row, ACCOUNT)
    case Err(e) => Err(e)
    case Ok(account) =>
      match Field(row, FORENAME)
      case Err(e) => Err(e)
      case Ok(forename) =>
        match Field(row, SURNAME)
        case Err(e) => Err(e)
        case Ok(surname) =>
          match Field(row, ROLE)
          case Err(e) => Err(e)
          case Ok(role) => Ok(S.UserData(account, forename, surname, role, true))
  }

  /** `reader`: a delimiter outside ASCII is refused before the file is opened. */
  function Reader(delimiter: u8, file: File): (r: Result<Records, E.Error>)
    ensures delimiter >= 0x80 ==> r == Err(E.Arguments)
    ensures delimiter < 0x80 && file.Ok? ==> r == Ok(file.value)
    ensures delimiter < 0x80 && file.Err? ==> r == Err(E.FromCsv(file.error))
  {
    if delimiter >= 0x80 then Err(E.Arguments)
    else match file
      case Err(e) => Err(E.FromCsv(e))
      case Ok(recs) => Ok(recs)
  }

  // ------------------------------------------------------------ load_roles

  /** A row that was read and has both an account and a role column. */
  predicate RoleRow(rec: Result<Row, E.CsvFailure>) {
    rec.Ok? && |rec.value| > ROLE
  }

  /**
   * The loop of `load_roles` from the map built so far: an account seen
   * before keeps its role, and the first bad row ends it with its error.
   */
  function RolesFrom(pairs: map<String, String>, recs: Records): (r: Result<map<String, String>, E.Error>)
    ensures r.Ok? ==> forall a | a in pairs :: a in r.value && r.value[a] == pairs[a]
    ensures r.Ok? ==> forall i | 0 <= i < |recs| :: RoleRow(recs[i]) && Trim(recs[i].value[ACCOUNT]) in r.value
    decreases |recs|
  {
    if recs == [] then Ok(pairs)
    else match recs[0]
      case Err(e) => Err(E.FromCsv(e))
      case Ok(row) =>
        match Field(row, ACCOUNT)
        case Err(e) => Err(e)
        case Ok(account) =>
          match Field(row, ROLE)
          case Err(e) => Err(e)
          case Ok(role) =>
            var r := RolesFrom(if account in pairs then pairs else pairs[account := role], recs[1..]);
            assert r.Ok? ==> forall i | 1 <= i < |recs| :: recs[i] == recs[1..][i - 1];
            r
  }

  function Roles(delimiter: u8, file: File): Result<map<String, String>, E.Error> {
    match Reader(delimiter, file)
    case Err(e) => Err(e)
    case Ok(recs) => RolesFrom(map[], recs)
  }

  /** `load_roles`: one pass, inserting only accounts not seen before. */
  method LoadRoles(delimiter: u8, file: File) returns (r: Result<map<String, String>, E.Error>)
    ensures r == Roles(delimiter, file)
  {
    var reader := Reader(delimiter, file);
    if reader.Err? {
      return Err(reader.error);
    }
    var recs := reader.value;
    var pairs := map[];
    for i := 0 to |recs|
      invariant RolesFrom(map[], recs) == RolesFrom(pairs, recs[i..])
    {
      assert recs[i..][1..] == recs[i + 1..];
      if recs[i].Err? {
        return Err(E.FromCsv(recs[i].error));
      }
      var account := Field(recs[i].value, ACCOUNT);
      if account.Err? {
        return Err(account.error);
      }
      var role := Field(recs[i].value, ROLE);
      if role.Err? {
        return Err(role.error);
      }
      if account.value !in pairs {
        pairs := pairs[account.value := role.value];
      }
    }
    return Ok(pairs);
  }

  /** The first row of an account decides its role; later rows with the same account are ignored. */
  lemma {:induction false} RolesFirstWins(pairs: map<String, String>, recs: Records, k: nat)
    requires RolesFrom(pairs, recs).Ok? && k < |recs|
    requires Trim(recs[k].value[ACCOUNT]) !in pairs
    requires forall j | 0 <= j < k :: Trim(recs[j].value[ACCOUNT]) != Trim(recs[k].value[ACCOUNT])
    ensures RolesFrom(pairs, recs).value[Trim(recs[k].value[ACCOUNT])] == Trim(recs[k].value[ROLE])
    decreases k
  {
    assert RoleRow(recs[0]);
    var row := recs[0].value;
    var next := if Trim(row[ACCOUNT]) in pairs then pairs else pairs[Trim(row[ACCOUNT]) := Trim(row[ROLE])];
    assert RolesFrom(pairs, recs) == RolesFrom(next, recs[1..]);
    if k > 0 {
      assert recs[1..][k - 1] == recs[k];
      assert forall j | 0 <= j < k - 1 :: recs[1..][j] == recs[j + 1];
      RolesFirstWins(next, recs[1..], k - 1);
    }
  }

  // ------------------------------------------------------------ load_all

  /** `Ok(us)` with `done` in front; an error stays as it is. */
  function Prefixed<T>(done: seq<T>, rest: Result<seq<T>, E.Error>): Result<seq<T>, E.Error> {
    match rest
    case Err(e) => Err(e)
    case Ok(us) => Ok(done + us)
  }

  /** The users of the rows in file order, or the error of the first row that is unreadable or too short. */
  function UsersFrom(recs: Records): (r: Result<seq<S.UserData>, E.Error>)
    ensures r.Ok? ==> |r.value| == |recs|
    decreases |recs|
  {
    if recs == [] then Ok([])
    else match recs[0]
      case Err(e) => Err(E.FromCsv(e))
      case Ok(row) =>
        match ParseRecord(row)
        case Err(e) => Err(e)
        case Ok(u) =>
          var rest := UsersFrom(recs[1..]);
          if rest.Err? then Err(rest.error)
          else
            Ok([u] + rest.value)
  }

  /** Each user is the one its row, in the same position, was read as. */
  lemma {:induction false} UsersParsed(recs: Records, i: nat)
    requires UsersFrom(recs).Ok? && i < |recs|
    ensures Parsed(recs[i], UsersFrom(recs).value[i])
    decreases i
  {
    if i > 0 {
      assert recs[1..][i - 1] == recs[i];
      UsersParsed(recs[1..], i - 1);
    }
  }

  /** `u` is the user the row `rec` was read as. */
  predicate Parsed(rec: Result<Row, E.CsvFailure>, u: S.UserData) {
    rec.Ok? && ParseRecord(rec.value) == Ok(u)
  }

  /** Rows before the first bad one do not matter to the error. */
  lemma {:induction false} UsersFirstError(recs: Records, k: nat)
    requires k < |recs| && (recs[k].Err? || |recs[k].value| <= ROLE)
    requires forall j | 0 <= j < k :: recs[j].Ok? && |recs[j].value| > ROLE
    ensures UsersFrom(recs) == Err(if recs[k].Err? then E.FromCsv(recs[k].error) else E.InvalidFormat)
    decreases k
  {
    if k > 0 {
      assert forall j | 0 <= j < k - 1 :: recs[1..][j] == recs[j + 1];
      UsersFirstError(recs[1..], k - 1);
    }
  }

  function Users(delimiter: u8, file: File): Result<seq<S.UserData>, E.Error> {
    match Reader(delimiter, file)
    case Err(e) => Err(e)
    case Ok(recs) => UsersFrom(recs)
  }

  /** `load_all`. */
  method LoadAll(delimiter: u8, file: File) returns (r: Result<seq<S.UserData>, E.Error>)
    ensures r == Users(delimiter, file)
  {
    var reader := Reader(delimiter, file);
    if reader.Err? {
      return Err(reader.error);
    }
    var recs := reader.value;
    var users := [];
    assert recs[0..] == recs;
    assert Prefixed(users, UsersFrom(recs)) == UsersFrom(recs) by {
      if UsersFrom(recs).Ok? { assert [] + UsersFrom(recs).value == UsersFrom(recs).value; }
    }
    for i := 0 to |recs|
      invariant UsersFrom(recs) == Prefixed(users, UsersFrom(recs[i..]))
    {
      assert recs[i..][1..] == recs[i + 1..];
      if recs[i].Err? {
        return Err(E.FromCsv(recs[i].error));
      }
      var user := ParseRecord(recs[i].value);
      if user.Err? {
        return Err(user.error);
      }
      PrefixedAppend(users, user.value, UsersFrom(recs[i + 1..]));
      users := users + [user.value];
    }
    assert recs[|recs|..] == [] && users + [] == users;
    return Ok(users);
  }

  lemma PrefixedAppend<T>(done: seq<T>, u: T, rest: Result<seq<T>, E.Error>)
    ensures Prefixed(done, Prefixed([u], rest)) == Prefixed(done + [u], rest)
  {
    if rest.Ok? {
      assert done + ([u] + rest.value) == done + [u] + rest.value;
    }
  }

  // ------------------------------------------------------------ get

  /** The scan of `get`: the raw account column, untrimmed, must equal `account`. */
  function GetFrom(recs: Records, account: String): (r: Result<S.UserData, E.Error>)
    ensures r.Ok? ==> r.value.account == Trim(account)
    ensures (forall i | 0 <= i < |recs| :: recs[i].Ok? && (recs[i].value == [] || recs[i].value[ACCOUNT] != account))
              ==> r == Err(E.NothingFound)
    decreases |recs|
  {
    if recs == [] then Err(E.NothingFound)
    else match recs[0]
      case Err(e) => Err(E.FromCsv(e))
      case Ok(row) =>
        if row != [] && row[ACCOUNT] == account then ParseRecord(row) else GetFrom(recs[1..], account)
  }

  function Get(delimiter: u8, file: File, account: String): Result<S.UserData, E.Error> {
    match Reader(delimiter, file)
    case Err(e) => Err(e)
    case Ok(recs) => GetFrom(recs, account)
  }

  /** `get`: the first row whose account column is exactly `account`. */
  method GetUser(delimiter: u8, file: File, account: String) returns (r: Result<S.UserData, E.Error>)
    ensures r == Get(delimiter, file, account)
  {
    var reader := Reader(delimiter, file);
    if reader.Err? {
      return Err(reader.error);
    }
    var recs := reader.value;
    for i := 0 to |recs|
      invariant GetFrom(recs, account) == GetFrom(recs[i..], account)
    {
      assert recs[i..][1..] == recs[i + 1..];
      if recs[i].Err? {
        return Err(E.FromCsv(recs[i].error));
      }
      var row := recs[i].value;
      if row != [] && row[ACCOUNT] == account {
        return ParseRecord(row);
      }
    }
    return Err(E.NothingFound);
  }

  /** A row whose account carries whitespace around it is not found by its trimmed account. */
  lemma GetIsNotTrimmed(row: Row, account: String)
    requires |row| > ROLE && row[ACCOUNT] == " " + account
    ensures GetFrom([Ok(row)], account) == Err(E.NothingFound)
  {
    assert row[ACCOUNT] != account by {
      assert |row[ACCOUNT]| == |account| + 1;
    }
  }

  // ------------------------------------------------------------ search

  /** `Ord for str`: code point by code point, a proper prefix first. */
  function CompareText(a: String, b: String): Q.Ordering
    decreases |a|
  {
    if a == [] && b == [] then Q.Equal
    else if a == [] then Q.Less
    else if b == [] then Q.Greater
    else if a[0] < b[0] then Q.Less
    else if a[0] > b[0] then Q.Greater
    else CompareText(a[1..], b[1..])
  }

  lemma {:induction false} CompareTextFlip(a: String, b: String)
    ensures CompareText(a, b) == Q.Reverse(CompareText(b, a))
    decreases |a|
  {
    if a != [] && b != [] && a[0] == b[0] {
      CompareTextFlip(a[1..], b[1..]);
    }
  }

  lemma {:induction false} CompareTextTransitive(a: String, b: String, c: String)
    requires CompareText(a, b) != Q.Greater && CompareText(b, c) != Q.Greater
    ensures CompareText(a, c) != Q.Greater
    decreases |a|
  {
    if a != [] && b != [] && c != [] && a[0] == b[0] && b[0] == c[0] {
      CompareTextTransitive(a[1..], b[1..], c[1..]);
    }
  }

  lemma CompareTextEqual(a: String, b: String)
    ensures CompareText(a, b) == Q.Equal <==> a == b
    decreases |a|
  {
    if a != [] && b != [] && a[0] == b[0] {
      CompareTextEqual(a[1..], b[1..]);
      assert a == [a[0]] + a[1..] && b == [b[0]] + b[1..];
    }
  }

  /** The order of the search results: higher score first, then by account. */
  function ByScore(a: (nat, S.UserData), b: (nat, S.UserData)): Q.Ordering {
    if a.0 > b.0 then Q.Less
    else if a.0 < b.0 then Q.Greater
    else CompareText(a.1.account, b.1.account)
  }

  /** The search order is a total order, as the queue requires. */
  lemma ByScoreTotal()
    ensures Q.TotalOrder(ByScore)
  {
    forall a: (nat, S.UserData), b: (nat, S.UserData)
      ensures ByScore(a, b) == Q.Reverse(ByScore(b, a))
    {
      CompareTextFlip(a.1.account, b.1.account);
    }
    forall a: (nat, S.UserData), b: (nat, S.UserData), c: (nat, S.UserData) | Q.Le(ByScore, a, b) && Q.Le(ByScore, b, c)
      ensures Q.Le(ByScore, a, c)
    {
      if a.0 == b.0 && b.0 == c.0 {
        CompareTextTransitive(a.1.account, b.1.account, c.1.account);
      }
    }
  }

  /** The candidates with their scores: every user for a blank query, otherwise those scoring above zero. */
  function Kept(users: seq<S.UserData>, query: String, score: S.UserData -> nat): (r: seq<(nat, S.UserData)>)
    ensures |r| <= |users|
    decreases |users|
  {
    if users == [] then []
    else
      var u := users[|users| - 1];
      Kept(users[..|users| - 1], query, score) + Candidate(u, query, score)
  }

  /** What `search` pushes for one user. */
  function Candidate(u: S.UserData, query: String, score: S.UserData -> nat): seq<(nat, S.UserData)> {
    if query == [] then [(0, u)] else if score(u) > 0 then [(score(u), u)] else []
  }

  lemma KeptSnoc(users: seq<S.UserData>, u: S.UserData, query: String, score: S.UserData -> nat)
    ensures Kept(users + [u], query, score) == Kept(users, query, score) + Candidate(u, query, score)
  {
    assert (users + [u])[..|users|] == users;
  }

  function Min(a: nat, b: nat): nat { if a < b then a else b }

  /** The users of scored entries, in the same order. */
  function UsersOf(s: seq<(nat, S.UserData)>): (r: seq<S.UserData>)
    ensures |r| == |s| && forall i | 0 <= i < |s| :: r[i] == s[i].1
  {
    seq(|s|, i requires 0 <= i < |s| => s[i].1)
  }

  /**
   * `out` is the best `count` of `kept`: the users of the first `count`
   * entries of `kept` arranged in search order.
   */
  ghost predicate Selected(out: seq<S.UserData>, kept: seq<(nat, S.UserData)>, count: nat) {
    exists order: seq<(nat, S.UserData)> ::
      multiset(order) == multiset(kept) && Q.Ascending(ByScore, order)
      && out == UsersOf(order[..Min(count, |order|)])
  }

  /** As many users as asked for, or all candidates when there are fewer. */
  lemma SelectedLength(out: seq<S.UserData>, kept: seq<(nat, S.UserData)>, count: nat)
    requires Selected(out, kept, count)
    ensures |out| == Min(count, |kept|)
  {
    var order :| multiset(order) == multiset(kept) && Q.Ascending(ByScore, order)
      && out == UsersOf(order[..Min(count, |order|)]);
    assert |multiset(order)| == |multiset(kept)|;
  }

  /** In search order, every entry returned comes no later than every entry left out. */
  lemma SelectedFirst(order: seq<(nat, S.UserData)>, n: nat, i: nat, j: nat)
    requires Q.Ascending(ByScore, order) && i < n <= j < |order|
    ensures Q.Le(ByScore, order[..n][i], order[j])
  {
    assert order[..n][i] == order[i];
  }

  /**
   * `search`: the users of the file with their scores go into the sorted
   * queue, and the first `count` come out. The fuzzy matcher is the
   * parameter `score`.
   */
  method Search(delimiter: u8, file: File, search: String, count: nat, score: S.UserData -> nat)
    returns (r: Result<seq<S.UserData>, E.Error>)
    ensures Users(delimiter, file).Err? ==> r == Err(Users(delimiter, file).error)
    ensures Users(delimiter, file).Ok? ==> r.Ok? && Selected(r.value, Kept(Users(delimiter, file).value, Trim(search), score), count)
  {
    var reader := Reader(delimiter, file);
    if reader.Err? {
      return Err(reader.error);
    }
    var query := Trim(search);
    ByScoreTotal();
    var results := new Q.Sorted(ByScore);
    var users := PushAll(results, reader.value, query, score);
    if users.Err? {
      return Err(users.error);
    }
    var items := results.Drain();
    r := Ok(UsersOf(items[..Min(count, |items|)]));
  }

  /** The loop of `search`: every user read is pushed with its score, unless the query is not blank and the score is zero. */
  method PushAll(results: Q.Sorted<(nat, S.UserData)>, recs: Records, query: String, score: S.UserData -> nat)
    returns (r: Result<seq<S.UserData>, E.Error>)
    requires results.Valid() && results.cmp == ByScore && results.heap == []
    modifies results
    ensures results.Valid()
    ensures r == UsersFrom(recs)
    ensures r.Ok? ==> multiset(results.heap) == multiset(Kept(r.value, query, score))
  {
    var users: seq<S.UserData> := [];
    assert recs[0..] == recs;
    assert Prefixed(users, UsersFrom(recs)) == UsersFrom(recs) by {
      if UsersFrom(recs).Ok? { assert [] + UsersFrom(recs).value == UsersFrom(recs).value; }
    }
    for i := 0 to |recs|
      invariant results.Valid() && results.cmp == ByScore
      invariant UsersFrom(recs) == Prefixed(users, UsersFrom(recs[i..]))
      invariant multiset(results.heap) == multiset(Kept(users, query, score))
    {
      assert recs[i..][1..] == recs[i + 1..];
      if recs[i].Err? {
        return Err(E.FromCsv(recs[i].error));
      }
      var user := ParseRecord(recs[i].value);
      if user.Err? {
        return Err(user.error);
      }
      var u := user.value;
      KeptSnoc(users, u, query, score);
      if query != [] {
        var s := score(u);
        if s > 0 {
          results.Push((s, u));
        }
      } else {
        results.Push((0, u));
      }
      PrefixedAppend(users, u, UsersFrom(recs[i + 1..]));
      users := users + [u];
    }
    assert recs[|recs|..] == [] && users + [] == users;
    return Ok(users);
  }
}
