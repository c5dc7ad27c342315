/**
 * The provider object of the scripting API revision: it holds the access
 * token of the catalogue service and reads the answer with the MARC 21
 * reader of that revision.
 */
module BookDnb {
  import opened Wrappers
  import opened Text
  import M = MarcRecords
  import P = ProviderApi
  import Marc21

  /** The provider settings: the access token. */
  datatype Dnb = Dnb(token: String)

  /**
   * `DNB::request`: without a token the answer is a network error and no
   * request is made; otherwise a failed request passes its error on and an
   * answer is parsed. The request itself is the parameter `fetch`.
   */
  function Request(dnb: Dnb, isbn: String, fetch: Result<M.Response<seq<M.Datafield>>, P.Error>): (r: Result<M.BookData, P.Error>)
    ensures dnb.token == [] ==> r == Err(P.NetworkError)
    ensures dnb.token != [] && fetch.Err? ==> r == Err(fetch.error)
    ensures dnb.token != [] && fetch.Ok? ==> r.Ok? == Marc21.Outcome(fetch.value, isbn).Ok?
    ensures dnb.token != [] && fetch.Ok? && r.Ok? ==> r.value == Marc21.Outcome(fetch.value, isbn).value
    ensures dnb.token != [] && fetch.Ok? && r.Err? ==> r.error == P.Api(Marc21.Outcome(fetch.value, isbn).error)
  {
    if dnb.token == [] then Err(P.NetworkError)
    else match fetch
      case Err(e) => Err(e)
      case Ok(response) =>
        match Marc21.Outcome(response, isbn)
        case Ok(d) => Ok(d)
        case Err(e) => Err(P.Api(e))
  }

  /** With a token, a well-formed answer whose first record lists the ISBN gives that record's data. */
  lemma FirstRecordMatches(token: String, isbn: String, raws: seq<seq<M.Datafield>>)
    requires token != [] && raws != [] && isbn in Marc21.RecordOf(raws[0]).isbns
    ensures Request(Dnb(token), isbn, Ok(M.Document(Some(raws)))) == Ok(Marc21.RecordOf(raws[0]).data)
  {
    assert M.ParseAll(raws, Marc21.RecordOf)[0] == Marc21.RecordOf(raws[0]);
  }
}
