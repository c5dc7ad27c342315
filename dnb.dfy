/**
 * The provider of the current server: a search on the catalogue service of
 * the Deutsche Nationalbibliothek answered with MARC 21 records. A record
 * element holds its MARC record under `recordData/record`; only the
 * `datafield` children of that element are read, and author names are
 * turned around at their first comma.
 */
module Dnb {
  import opened Wrappers
  import opened Text
  import M = MarcRecords
  import E = Errors

  /** A child of `records`: the datafields under its `recordData/record`, or `None` when either element is missing. */
  datatype SruRecord = SruRecord(record: Option<seq<M.Datafield>>)

  /**
   * `"surname, forename"` becomes `"forename surname"`: split at the first
   * comma, both halves trimmed; a name without a comma is kept as it is.
   */
  function SwapName(name: String): (r: String)
    ensures ',' !in name ==> r == name
  {
    match SplitOnce(name, ',')
    case None => name
    case Some((s, f)) => Trim(f) + " " + Trim(s)
  }

  /** The comma the name is split at is the first one: a surname free of commas moves behind everything after it. */
  lemma SwapNameOf(surname: String, forename: String)
    requires ',' !in surname
    ensures SwapName(surname + "," + forename) == Trim(forename) + " " + Trim(surname)
  {
    SplitOnceOf(surname, ',', forename);
  }

  /** `Record::parse`: a record element without `recordData/record` is the empty record. */
  function RecordOf(raw: SruRecord): (r: M.Record)
    ensures raw.record.None? ==> r == M.EMPTY_RECORD
    ensures raw.record.Some? ==> r == M.RecordOf(raw.record.value, SwapName)
  {
    match raw.record
    case None => M.EMPTY_RECORD
    case Some(dfs) => M.RecordOf(dfs, SwapName)
  }

  /** The XML error becomes `InvalidFormat`; an answer without records, `NothingFound`. */
  function ErrorOf(f: M.Failure): E.Error {
    match f
    case BadXml => E.InvalidFormat
    case NoResult => E.NothingFound
  }

  /** `parse_single` on a response, as a value. */
  function Single(response: M.Response<SruRecord>, isbn: String): (r: Result<M.BookData, E.Error>)
    ensures r == Err(E.InvalidFormat) <==> response.Malformed?
    ensures r == Err(E.NothingFound) <==> response.Document? && (response.records.None? || response.records.value == [])
    ensures r.Ok? ==> Some(r.value) == M.Select(M.ParseAll(response.records.value, RecordOf), isbn)
  {
    match M.Lookup(response, RecordOf, isbn)
    case Ok(d) => Ok(d)
    case Err(f) => Err(ErrorOf(f))
  }

  /** `parse_single`: the document, then the loop over the records. */
  method ParseSingle(response: M.Response<SruRecord>, isbn: String) returns (r: Result<M.BookData, E.Error>)
    ensures r == Single(response, isbn)
  {
    var found := M.Parse(response, RecordOf, isbn);
    r := if found.Ok? then Ok(found.value) else Err(ErrorOf(found.error));
  }

  /**
   * A record element without `recordData/record` still counts as the first
   * result: when no record lists the ISBN and it comes first, the answer is
   * empty book data rather than `NothingFound`.
   */
  lemma EmptyFirstRecordWins(raws: seq<SruRecord>, isbn: String)
    requires raws != [] && raws[0].record.None?
    requires forall i | 0 <= i < |raws| :: isbn !in RecordOf(raws[i]).isbns
    ensures Single(M.Document(Some(raws)), isbn) == Ok(M.BookData([], [], []))
  {
    var records := M.ParseAll(raws, RecordOf);
    assert forall j | 0 <= j < |records| :: isbn !in records[j].isbns;
  }

  /** The first record that lists the ISBN is the answer, wherever it stands. */
  lemma MatchWins(raws: seq<SruRecord>, isbn: String, k: nat)
    requires k < |raws| && isbn in RecordOf(raws[k]).isbns
    requires forall j | 0 <= j < k :: isbn !in RecordOf(raws[j]).isbns
    ensures Single(M.Document(Some(raws)), isbn) == Ok(RecordOf(raws[k]).data)
  {
    var records := M.ParseAll(raws, RecordOf);
    assert isbn in records[k].isbns;
    assert forall j | 0 <= j < k :: isbn !in records[j].isbns;
  }
}
