/**
 * The MARC 21 reader of the scripting API revision: the same field scan
 * and record choice as the server's provider, but every `datafield`
 * below a record element is read, and an author name is taken apart at
 * every comma, its parts put in reverse order and trimmed.
 */
module Marc21 {
  import opened Wrappers
  import opened Text
  import M = MarcRecords
  import A = ApiErrors

  function Reversed<T>(s: seq<T>): (r: seq<T>)
    ensures |r| == |s|
    ensures forall i | 0 <= i < |s| :: r[i] == s[|s| - 1 - i]
  {
    seq(|s|, i requires 0 <= i < |s| => s[|s| - 1 - i])
  }

  function TrimAll(parts: seq<String>): (r: seq<String>)
    ensures |r| == |parts|
    ensures forall i | 0 <= i < |parts| :: r[i] == Trim(parts[i])
  {
    seq(|parts|, i requires 0 <= i < |parts| => Trim(parts[i]))
  }

  /**
   * `rsplit(',')`, each part trimmed, joined with single spaces: a name
   * without a comma is only trimmed.
   */
  function ReverseName(name: String): (r: String)
    ensures ',' !in name ==> r == Trim(name)
  {
    assert ',' !in name ==> Split(name, ',') == [name];
    Join(TrimAll(Reversed(Split(name, ','))), " ")
  }

  /** `"surname, forename"` becomes `"forename surname"` when neither half holds a comma. */
  lemma ReverseNameOf(surname: String, forename: String)
    requires ',' !in surname && ',' !in forename
    ensures ReverseName(surname + "," + forename) == Trim(forename) + " " + Trim(surname)
  {
    var parts := [surname, forename];
    assert parts[1..] == [forename];
    assert Join(parts, [',']) == surname + "," + forename;
    SplitJoin(parts, ',');
    var name := surname + "," + forename;
    assert Split(name, ',') == parts;
    assert Reversed(parts) == [forename, surname];
    var trimmed := TrimAll(Reversed(parts));
    assert trimmed == [Trim(forename), Trim(surname)];
    assert trimmed[1..] == [Trim(surname)];
    assert ReverseName(name) == Join(trimmed, " ");
  }

  lemma JoinThree(a: String, b: String, c: String, sep: String)
    ensures Join([a, b, c], sep) == a + sep + b + sep + c
  {
    var parts := [a, b, c];
    assert parts[1..] == [b, c] && parts[1..][1..] == [c];
    assert Join([c], sep) == c;
    assert Join([b, c], sep) == b + sep + c;
    assert Join(parts, sep) == a + sep + (b + sep + c);
  }

  /** With three parts all of them are turned around, so a middle part ends up in the middle. */
  lemma ReverseNameOfThree(a: String, b: String, c: String)
    requires ',' !in a && ',' !in b && ',' !in c
    ensures ReverseName(a + "," + b + "," + c) == Trim(c) + " " + Trim(b) + " " + Trim(a)
  {
    var parts := [a, b, c];
    JoinThree(a, b, c, [',']);
    SplitJoin(parts, ',');
    var name := a + "," + b + "," + c;
    assert Split(name, ',') == parts;
    var trimmed := TrimAll(Reversed(parts));
    assert trimmed == [Trim(c), Trim(b), Trim(a)];
    JoinThree(Trim(c), Trim(b), Trim(a), " ");
  }

  /** `parse_record`: the scan with names turned around at every comma. */
  function RecordOf(dfs: seq<M.Datafield>): M.Record {
    M.RecordOf(dfs, ReverseName)
  }

  /** Errors of the XML library become `InvalidFormat`; an answer without records, `NothingFound`. */
  function ErrorOf(f: M.Failure): A.Error {
    match f
    case BadXml => A.InvalidFormat
    case NoResult => A.NothingFound
  }

  /** `parse` on a response, as a value. */
  function Outcome(response: M.Response<seq<M.Datafield>>, isbn: String): (r: Result<M.BookData, A.Error>)
    ensures r == Err(A.InvalidFormat) <==> response.Malformed?
    ensures r == Err(A.NothingFound) <==> response.Document? && (response.records.None? || response.records.value == [])
    ensures r.Ok? ==> Some(r.value) == M.Select(M.ParseAll(response.records.value, RecordOf), isbn)
  {
    match M.Lookup(response, RecordOf, isbn)
    case Ok(d) => Ok(d)
    case Err(f) => Err(ErrorOf(f))
  }

  /** `parse`: the document, then the loop over the records. */
  method Parse(response: M.Response<seq<M.Datafield>>, isbn: String) returns (r: Result<M.BookData, A.Error>)
    ensures r == Outcome(response, isbn)
  {
    var found := M.Parse(response, RecordOf, isbn);
    r := if found.Ok? then Ok(found.value) else Err(ErrorOf(found.error));
  }
}
