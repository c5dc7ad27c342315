/**
 * The error type of the web server: a plain enumeration serialised by its
 * variant name, and the conversions into it from the failures of the
 * libraries the server calls. The log messages the conversions write are
 * not modelled.
 */
module Errors {
  import opened Text

  datatype Error =
    | Arguments
    | Logic
    | FileNotFound
    | FileOpen
    | SQL
    | Network
    | InvalidFormat
    | NothingFound
    | InvalidBook
    | InvalidUser
    | LendingUserMayNotBorrow
    | LendingBookNotBorrowable
    | LendingBookAlreadyBorrowed
    | LendingBookAlreadyBorrowedByUser
    | LendingBookNotBorrowed
    | LendingBookAlreadyReserved
    | UnsupportedProjectVersion

  /** The failures of the SQL driver, as far as the conversion tells them apart. */
  datatype SqlFailure = QueryReturnedNoRows | OtherSqlFailure

  /** `From<rusqlite::Error>`: a query without rows is "nothing found", anything else an SQL error. */
  function FromSql(e: SqlFailure): (r: Error)
    ensures r == NothingFound <==> e == QueryReturnedNoRows
    ensures r == SQL <==> e != QueryReturnedNoRows
  {
    if e == QueryReturnedNoRows then NothingFound else SQL
  }

  /** The kinds of `std::io::ErrorKind` the conversion distinguishes; `OtherKind` stands for all the rest. */
  datatype IoKind =
    | NotFound
    | ConnectionRefused
    | ConnectionReset
    | ConnectionAborted
    | NotConnected
    | AddrInUse
    | AddrNotAvailable
    | OtherKind

  predicate IsConnectionKind(k: IoKind) {
    k in {ConnectionRefused, ConnectionReset, ConnectionAborted, NotConnected, AddrInUse, AddrNotAvailable}
  }

  /** `From<std::io::Error>`: by kind. */
  function FromIo(k: IoKind): (r: Error)
    ensures r in {FileNotFound, Network, FileOpen}
    ensures r == FileNotFound <==> k == NotFound
    ensures r == Network <==> IsConnectionKind(k)
    ensures r == FileOpen <==> k == OtherKind
  {
    match k
    case NotFound => FileNotFound
    case OtherKind => FileOpen
    case _ => Network
  }

  /** The failures of the CSV reader: an I/O failure carries its kind. */
  datatype CsvFailure = CsvIo(kind: IoKind) | CsvMalformed

  /** `From<csv::Error>`: I/O failures are converted like any I/O error, all others are a format error. */
  function FromCsv(e: CsvFailure): (r: Error)
    ensures e.CsvIo? ==> r == FromIo(e.kind)
    ensures e.CsvMalformed? ==> r == InvalidFormat
  {
    match e
    case CsvIo(k) => FromIo(k)
    case CsvMalformed => InvalidFormat
  }

  /** A CSV failure is a format error exactly when it is not an I/O failure. */
  lemma CsvFormatOnlyWhenMalformed(e: CsvFailure)
    ensures FromCsv(e) == InvalidFormat <==> e.CsvMalformed?
  {
  }

  /** `From<reqwest::Error>`. */
  const FROM_REQUEST: Error := Network
  /** `From<roxmltree::Error>`. */
  const FROM_XML: Error := InvalidFormat
  /** `From<std::convert::Infallible>` (never called: the source type has no values). */
  const FROM_INFALLIBLE: Error := Arguments

  /** The variant's name, which is its JSON serialisation between quotes. */
  function Name(e: Error): String {
    match e
    case Arguments => "Arguments"
    case Logic => "Logic"
    case FileNotFound => "FileNotFound"
    case FileOpen => "FileOpen"
    case SQL => "SQL"
    case Network => "Network"
    case InvalidFormat => "InvalidFormat"
    case NothingFound => "NothingFound"
    case InvalidBook => "InvalidBook"
    case InvalidUser => "InvalidUser"
    case LendingUserMayNotBorrow => "LendingUserMayNotBorrow"
    case LendingBookNotBorrowable => "LendingBookNotBorrowable"
    case LendingBookAlreadyBorrowed => "LendingBookAlreadyBorrowed"
    case LendingBookAlreadyBorrowedByUser => "LendingBookAlreadyBorrowedByUser"
    case LendingBookNotBorrowed => "LendingBookNotBorrowed"
    case LendingBookAlreadyReserved => "LendingBookAlreadyReserved"
    case UnsupportedProjectVersion => "UnsupportedProjectVersion"
  }

  /** A response: the HTTP status and the JSON body. */
  datatype Response = Response(status: int, body: String)

  /** `into_response`: every error is a 500 whose body is the quoted variant name. */
  function IntoResponse(e: Error): (r: Response)
  {
    Response(500, ['"'] + Name(e) + ['"'])
  }

  /** No two variants share a name, so the client can tell every error from its body. */
  lemma NameInjective(a: Error, b: Error)
    ensures Name(a) == Name(b) ==> a == b
  {
  }

  lemma IntoResponseInjective(a: Error, b: Error)
    ensures IntoResponse(a) == IntoResponse(b) ==> a == b
  {
    if IntoResponse(a) == IntoResponse(b) {
      var body := IntoResponse(a).body;
      assert Name(a) == body[1..|body| - 1];
      assert Name(b) == body[1..|body| - 1];
      NameInjective(a, b);
    }
  }
}
