/**
 * The helpers of the browser client's API module: how a request's query
 * parameters become a query string, how an answer's body is read, and the
 * string values of the enumerations shared with the server.
 */
module ClientApi {
  import opened Wrappers
  import opened Text
  import opened JsValues
  import U = FormUrlencoded

  // ------------------------------------------------------------ query_str

  /**
   * The record `query_str` fills: for each key, in the order the loop
   * visits them, the key and its value's `toString()`, leaving out the
   * keys whose value is `null` or `undefined`.
   */
  function Kept(entries: seq<(String, Js)>): (r: seq<(String, String)>)
    ensures |r| <= |entries|
  {
    if entries == [] then []
    else
      var (key, value) := entries[|entries| - 1];
      Kept(entries[..|entries| - 1]) + (if IsNullish(value) then [] else [(key, ToString(value))])
  }

  /**
   * `query_str`: `''` for a falsy `params`; otherwise `?` followed by the
   * kept pairs serialized by `URLSearchParams`. The parameters are typed as
   * a record, so the value is an object, `null` or `undefined`; an object's
   * keys are distinct, which makes each assignment to the record a new key.
   */
  method QueryStr(params: Js) returns (r: String)
    requires params.Obj? || IsNullish(params)
    requires params.Obj? ==> DistinctKeys(params.entries)
    ensures IsNullish(params) ==> r == []
    ensures params.Obj? ==> r == ['?'] + U.Serialize(Kept(params.entries))
  {
    if !params.Obj? {
      return [];
    }
    var entries := params.entries;
    var data: seq<(String, String)> := [];
    var i := 0;
    while i < |entries|
      invariant 0 <= i <= |entries|
      invariant data == Kept(entries[..i])
    {
      var (key, value) := entries[i];
      assert entries[..i + 1][..i] == entries[..i];
      if !IsNullish(value) {
        data := data + [(key, ToString(value))];
      }
      i := i + 1;
    }
    assert entries[..i] == entries;
    r := ['?'] + U.Serialize(data);
  }

  /**
   * A key is in the record exactly when its value is neither `null` nor
   * `undefined`, and then with its value's `toString()`.
   */
  lemma {:induction false} KeptMembers(entries: seq<(String, Js)>, key: String, text: String)
    requires DistinctKeys(entries)
    ensures (key, text) in Kept(entries)
      <==> exists i | 0 <= i < |entries| :: entries[i].0 == key && !IsNullish(entries[i].1) && text == ToString(entries[i].1)
  {
    if entries != [] {
      var init := entries[..|entries| - 1];
      assert DistinctKeys(init) by {
        forall i, j | 0 <= i < j < |init| ensures init[i].0 != init[j].0 {
          assert init[i] == entries[i] && init[j] == entries[j];
        }
      }
      KeptMembers(init, key, text);
      if exists i | 0 <= i < |init| :: init[i].0 == key && !IsNullish(init[i].1) && text == ToString(init[i].1) {
        var i :| 0 <= i < |init| && init[i].0 == key && !IsNullish(init[i].1) && text == ToString(init[i].1);
        assert entries[i] == init[i];
      }
      if exists i | 0 <= i < |entries| :: entries[i].0 == key && !IsNullish(entries[i].1) && text == ToString(entries[i].1) {
        var i :| 0 <= i < |entries| && entries[i].0 == key && !IsNullish(entries[i].1) && text == ToString(entries[i].1);
        if i < |init| {
          assert init[i] == entries[i];
        }
      }
    }
  }

  /** The kept pairs keep the order of their keys: a later key comes after an earlier one. */
  lemma {:induction false} KeptOrder(entries: seq<(String, Js)>, i: nat, j: nat)
    requires i < j < |entries| && !IsNullish(entries[i].1) && !IsNullish(entries[j].1)
    ensures exists a, b | 0 <= a < b < |Kept(entries)| ::
      Kept(entries)[a] == (entries[i].0, ToString(entries[i].1)) && Kept(entries)[b] == (entries[j].0, ToString(entries[j].1))
  {
    var init := entries[..|entries| - 1];
    var kept := Kept(entries);
    if j < |entries| - 1 {
      KeptOrder(init, i, j);
      var a, b :| 0 <= a < b < |Kept(init)| && Kept(init)[a] == (init[i].0, ToString(init[i].1)) && Kept(init)[b] == (init[j].0, ToString(init[j].1));
      assert kept[a] == Kept(init)[a] && kept[b] == Kept(init)[b];
    } else {
      KeptContains(init, i);
      var a :| 0 <= a < |Kept(init)| && Kept(init)[a] == (init[i].0, ToString(init[i].1));
      assert kept[a] == Kept(init)[a];
      assert kept[|Kept(init)|] == (entries[j].0, ToString(entries[j].1));
    }
  }

  /** Every key with a value other than `null` and `undefined` has its pair in the record. */
  lemma {:induction false} KeptContains(entries: seq<(String, Js)>, i: nat)
    requires i < |entries| && !IsNullish(entries[i].1)
    ensures exists a | 0 <= a < |Kept(entries)| :: Kept(entries)[a] == (entries[i].0, ToString(entries[i].1))
  {
    var init := entries[..|entries| - 1];
    var kept := Kept(entries);
    if i < |entries| - 1 {
      KeptContains(init, i);
      var a :| 0 <= a < |Kept(init)| && Kept(init)[a] == (init[i].0, ToString(init[i].1));
      assert kept[a] == Kept(init)[a];
    } else {
      assert kept[|Kept(init)|] == (entries[i].0, ToString(entries[i].1));
    }
  }

  /**
   * What the server reads from the query string is exactly the kept pairs,
   * in order: empty strings, `0` and `false` among them, as `''`, `'0'` and
   * `'false'`.
   */
  lemma QueryReadBack(params: Js, r: String)
    requires params.Obj? && r == ['?'] + U.Serialize(Kept(params.entries))
    ensures r[0] == '?' && U.Parse(r[1..]) == Some(Kept(params.entries))
  {
    assert r[1..] == U.Serialize(Kept(params.entries));
    U.ParseSerialize(Kept(params.entries));
  }

  /** An object whose every value is `null` or `undefined` still yields the bare `?`. */
  lemma {:induction false} AllNullishBareMark(entries: seq<(String, Js)>)
    requires forall i | 0 <= i < |entries| :: IsNullish(entries[i].1)
    ensures ['?'] + U.Serialize(Kept(entries)) == "?"
  {
    AllNullishNothingKept(entries);
  }

  lemma {:induction false} AllNullishNothingKept(entries: seq<(String, Js)>)
    requires forall i | 0 <= i < |entries| :: IsNullish(entries[i].1)
    ensures Kept(entries) == []
  {
    if entries != [] {
      AllNullishNothingKept(entries[..|entries| - 1]);
    }
  }

  // ------------------------------------------------------------ fetch_api

  /** What JSON parsing of a body can give: a value (never `undefined`), or a syntax error. */
  datatype JsonFailure = SyntaxError

  /** The parts of a response `fetch_api` looks at, with the status it does not look at. */
  datatype Response = Response(status: nat, contentLength: Option<String>, json: Result<Js, JsonFailure>)

  /**
   * `fetch_api` after the request: a `Content-Length` of `'0'` gives
   * `undefined`; any other response is parsed as JSON, whose failure
   * rejects the promise. The status is never consulted.
   */
  function FetchApi(response: Response): (r: Result<Js, JsonFailure>)
    requires response.json.Ok? ==> !response.json.value.Undefined?
    ensures r == Ok(Undefined) <==> response.contentLength == Some("0")
    ensures response.contentLength != Some("0") ==> r == response.json
  {
    if response.contentLength == Some("0") then Ok(Undefined) else response.json
  }

  /**
   * An error answer (any status) whose body is the name of an error comes
   * back as a value like any other, and that value is the error's string:
   * the caller tells success from failure by the value alone.
   */
  lemma ErrorBodyIsValue(response: Response, e: Error)
    requires response.status >= 400 && response.contentLength != Some("0")
    requires response.json == Ok(Str(ErrorValue(e)))
    ensures FetchApi(response).Ok? && ErrorFromValue(FetchApi(response).value.s) == Some(e)
  {
    ErrorRoundTrip(e);
  }

  // --------------------------------------------------------- enumerations

  /** `BookState`: the lending state of a book; `StateNone` is the enumeration's `None`. */
  datatype BookState = StateNone | Borrowable | NotBorrowable | Borrowed | Reserved

  /** Each state's string value, which is its own name. */
  function BookStateValue(s: BookState): String {
    match s
    case StateNone => "None"
    case Borrowable => "Borrowable"
    case NotBorrowable => "NotBorrowable"
    case Borrowed => "Borrowed"
    case Reserved => "Reserved"
  }

  /** The state a string value names, if any. */
  function BookStateFromValue(v: String): (r: Option<BookState>)
    ensures r.Some? ==> BookStateValue(r.value) == v
  {
    if v == "None" then Some(StateNone)
    else if v == "Borrowable" then Some(Borrowable)
    else if v == "NotBorrowable" then Some(NotBorrowable)
    else if v == "Borrowed" then Some(Borrowed)
    else if v == "Reserved" then Some(Reserved)
    else None
  }

  /** Every state's value names it back, so no two states share a value. */
  lemma BookStateRoundTrip(s: BookState)
    ensures BookStateFromValue(BookStateValue(s)) == Some(s)
  {
  }

  /** `Error`: the error kinds the server answers with. */
  datatype Error =
    | Arguments
    | FileOpen
    | Network
    | InvalidFormat
    | NothingFound
    | ReferencedUser
    | ReferencedCategory
    | InvalidBook
    | InvalidUser
    | LendingUserMayNotBorrow
    | LendingBookNotBorrowable
    | LendingBookAlreadyBorrowed
    | LendingBookAlreadyBorrowedByUser
    | LendingBookNotBorrowed
    | LendingBookAlreadyReserved
    | LendingBookNotReserved
    | UnsupportedProjectVersion

  /** Each error's string value, which is its own name. */
  function ErrorValue(e: Error): String {
    match e
    case Arguments => "Arguments"
    case FileOpen => "FileOpen"
    case Network => "Network"
    case InvalidFormat => "InvalidFormat"
    case NothingFound => "NothingFound"
    case ReferencedUser => "ReferencedUser"
    case ReferencedCategory => "ReferencedCategory"
    case InvalidBook => "InvalidBook"
    case InvalidUser => "InvalidUser"
    case LendingUserMayNotBorrow => "LendingUserMayNotBorrow"
    case LendingBookNotBorrowable => "LendingBookNotBorrowable"
    case LendingBookAlreadyBorrowed => "LendingBookAlreadyBorrowed"
    case LendingBookAlreadyBorrowedByUser => "LendingBookAlreadyBorrowedByUser"
    case LendingBookNotBorrowed => "LendingBookNotBorrowed"
    case LendingBookAlreadyReserved => "LendingBookAlreadyReserved"
    case LendingBookNotReserved => "LendingBookNotReserved"
    case UnsupportedProjectVersion => "UnsupportedProjectVersion"
  }

  const ERRORS: seq<Error> := [
    Arguments, FileOpen, Network, InvalidFormat, NothingFound, ReferencedUser, ReferencedCategory,
    InvalidBook, InvalidUser, LendingUserMayNotBorrow, LendingBookNotBorrowable, LendingBookAlreadyBorrowed,
    LendingBookAlreadyBorrowedByUser, LendingBookNotBorrowed, LendingBookAlreadyReserved,
    LendingBookNotReserved, UnsupportedProjectVersion]

  /** The error a string value names, if any: the first in `ERRORS` whose value it is. */
  function ErrorFromValue(v: String): (r: Option<Error>)
    ensures r.Some? ==> ErrorValue(r.value) == v
  {
    FirstNamed(ERRORS, v)
  }

  function FirstNamed(errors: seq<Error>, v: String): (r: Option<Error>)
    ensures r.Some? ==> ErrorValue(r.value) == v && r.value in errors
    ensures r.None? ==> forall e | e in errors :: ErrorValue(e) != v
  {
    if errors == [] then None
    else if ErrorValue(errors[0]) == v then Some(errors[0])
    else FirstNamed(errors[1..], v)
  }

  /** Every error's value names it back, so no two errors share a value. */
  lemma ErrorRoundTrip(e: Error)
    ensures ErrorFromValue(ErrorValue(e)) == Some(e)
  {
    assert e in ERRORS;
    var r := ErrorFromValue(ErrorValue(e));
    assert r.Some?;
    ErrorValueInjective(r.value, e);
  }

  lemma ErrorValueInjective(a: Error, b: Error)
    requires ErrorValue(a) == ErrorValue(b)
    ensures a == b
  {
    var va, vb := ErrorValue(a), ErrorValue(b);
    assert |va| == |vb| && va[0] == vb[0];
    if |va| > 8 {
      assert va[8] == vb[8];
    }
    if |va| > 20 {
      assert va[20] == vb[20];
    }
  }
}
