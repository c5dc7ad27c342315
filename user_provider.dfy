/**
 * The object the user interface of the scripting API revision holds to
 * look users up in a CSV file: it owns the provider settings, exposes them
 * as properties, and trims the accounts it is asked for.
 */
module UserProviderApi {
  import opened Wrappers
  import opened Text
  import opened Ints
  import C = CsvUsers
  import P = ProviderApi

  /** Why a script value is not a delimiter: its length in bytes, and the one character expected. */
  datatype VariantError = InvalidLength(len: nat, expected: nat)

  /** `Delimiter::from_variant`: exactly one character, and an ASCII one. */
  function DelimiterFrom(s: String): (r: Result<u8, VariantError>)
    ensures r.Ok? <==> |s| == 1 && IsAscii(s[0])
    ensures r.Ok? ==> r.value < 0x80 && r.value as char == s[0]
    ensures r.Err? ==> r.error == InvalidLength(Utf8Len(s), 1)
  {
    if |s| == 1 && IsAscii(s[0]) then Ok(s[0] as int) else Err(InvalidLength(Utf8Len(s), 1))
  }

  /** `Delimiter::to_variant`: the byte read as UTF-8, lossily; a lone byte above 0x7F is not UTF-8 and reads as U+FFFD. */
  function DelimiterTo(d: u8): (r: String)
    ensures |r| == 1
  {
    if d < 0x80 then [d as char] else ['\U{FFFD}']
  }

  /** An ASCII delimiter survives the trip to the interface and back. */
  lemma DelimiterRoundTrip(d: u8)
    requires d < 0x80
    ensures DelimiterFrom(DelimiterTo(d)) == Ok(d)
  {
    assert DelimiterTo(d)[0] as int == d;
  }

  /** Every accepted text comes back unchanged. */
  lemma DelimiterTextRoundTrip(s: String)
    requires DelimiterFrom(s).Ok?
    ensures DelimiterTo(DelimiterFrom(s).value) == s
  {
  }

  /** Any other byte does not: the replacement character is three bytes long and is refused. */
  lemma DelimiterNonAscii(d: u8)
    requires d >= 0x80
    ensures DelimiterFrom(DelimiterTo(d)) == Err(InvalidLength(3, 1))
  {
    assert Utf8Len(DelimiterTo(d)) == Utf8Width('\U{FFFD}') + Utf8Len([]);
  }

  /** The four configurable columns. */
  datatype ColumnName = Account | Forename | Surname | Role

  class UserCsvProvider {
    var provider: C.Csv

    /** Delimiters only come from the interface, so they are ASCII. */
    ghost predicate Valid()
      reads this
    {
      provider.delimiter < 0x80
    }

    /** `new`: the default provider settings. */
    constructor()
      ensures Valid() && provider == C.DEFAULT
    {
      provider := C.DEFAULT;
    }

    /**
     * `request`: the account is trimmed; a blank one is refused with
     * `InvalidArguments` before the file is consulted.
     */
    function Request(account: String, file: C.File): (r: Result<C.UserData, P.Error>)
      reads this
      ensures Trim(account) == [] ==> r == Err(P.InvalidArguments)
      ensures Trim(account) != [] ==> r == C.RequestOutcome(provider, Trim(account), file)
    {
      var a := Trim(account);
      if a != [] then C.RequestOutcome(provider, a, file) else Err(P.InvalidArguments)
    }

    /** `bulk_request`: every account is trimmed before the lookup. */
    function BulkRequest(accounts: seq<String>, file: C.File): (r: Result<seq<C.UserData>, P.Error>)
      reads this
      ensures r == C.BulkOutcome(provider, TrimAll(accounts), file)
    {
      C.BulkOutcome(provider, TrimAll(accounts), file)
    }

    function GetPath(): (p: String)
      reads this
      ensures p == provider.path
    {
      provider.path
    }

    /** `set_path`: only the path changes. */
    method SetPath(path: String)
      modifies this
      ensures provider == old(provider).(path := path)
      ensures GetPath() == path
    {
      provider := provider.(path := path);
    }

    /** `get_delimiter`, as the interface receives it. */
    function GetDelimiter(): (d: String)
      reads this
      ensures Valid() ==> DelimiterFrom(d) == Ok(provider.delimiter)
    {
      assert provider.delimiter < 0x80 ==> DelimiterTo(provider.delimiter)[0] as int == provider.delimiter;
      DelimiterTo(provider.delimiter)
    }

    /**
     * Setting the `delimiter` property from the interface: the value is
     * converted first and, when it is not a single ASCII character, the
     * property is left as it was.
     */
    method SetDelimiter(value: String) returns (r: Result<(), VariantError>)
      requires Valid()
      modifies this
      ensures Valid()
      ensures r.Ok? <==> DelimiterFrom(value).Ok?
      ensures r.Ok? ==> provider == old(provider).(delimiter := DelimiterFrom(value).value) && GetDelimiter() == value
      ensures r.Err? ==> provider == old(provider) && r.error == DelimiterFrom(value).error
    {
      var d := DelimiterFrom(value);
      if d.Err? {
        return Err(d.error);
      }
      provider := provider.(delimiter := d.value);
      r := Ok(());
    }

    /** `get_column_*`: the index cast to `i64`. */
    function GetColumn(c: ColumnName): (v: i64)
      reads this
      ensures c == Account ==> v == AsI64(provider.columnAccount)
      ensures c == Forename ==> v == AsI64(provider.columnForename)
      ensures c == Surname ==> v == AsI64(provider.columnSurname)
      ensures c == Role ==> v == AsI64(provider.columnRole)
    {
      match c
      case Account => AsI64(provider.columnAccount)
      case Forename => AsI64(provider.columnForename)
      case Surname => AsI64(provider.columnSurname)
      case Role => AsI64(provider.columnRole)
    }

    /**
     * `set_column_*`: the value cast to `usize`, so a negative one becomes
     * an index no row has; the getter gives back exactly what was set, and
     * the other columns are untouched.
     */
    method SetColumn(c: ColumnName, v: i64)
      modifies this
      ensures GetColumn(c) == v
      ensures forall other: ColumnName | other != c :: GetColumn(other) == old(GetColumn(other))
      ensures provider.path == old(provider.path) && provider.delimiter == old(provider.delimiter)
      ensures provider.hasHeaders == old(provider.hasHeaders)
    {
      AsI64AsUsize(v);
      match c
      case Account => provider := provider.(columnAccount := AsUsize(v));
      case Forename => provider := provider.(columnForename := AsUsize(v));
      case Surname => provider := provider.(columnSurname := AsUsize(v));
      case Role => provider := provider.(columnRole := AsUsize(v));
    }
  }

  function TrimAll(accounts: seq<String>): (r: seq<String>)
    ensures |r| == |accounts|
    ensures forall i | 0 <= i < |accounts| :: r[i] == Trim(accounts[i])
  {
    seq(|accounts|, i requires 0 <= i < |accounts| => Trim(accounts[i]))
  }

  /** Asking with surrounding whitespace is asking for the trimmed account. */
  lemma RequestTrimmed(p: UserCsvProvider, account: String, file: C.File)
    ensures p.Request(account, file) == p.Request(Trim(account), file)
  {
    TrimIdempotent(account);
  }

  /** Every user `bulk_request` returns carries one of the requested accounts, trimmed. */
  lemma BulkAccountsRequested(p: UserCsvProvider, accounts: seq<String>, file: C.File)
    requires p.BulkRequest(accounts, file).Ok?
    ensures forall u | u in p.BulkRequest(accounts, file).value :: exists i | 0 <= i < |accounts| :: u.account == Trim(accounts[i])
  {
    var us := p.BulkRequest(accounts, file).value;
    var wanted := set a | a in TrimAll(accounts);
    forall u | u in us
      ensures exists i | 0 <= i < |accounts| :: u.account == Trim(accounts[i])
    {
      var k :| 0 <= k < |us| && us[k] == u;
      assert u.account in wanted;
      var i :| 0 <= i < |accounts| && TrimAll(accounts)[i] == u.account;
    }
  }
}
