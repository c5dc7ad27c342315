/**
 * The error type of the scripting API: a C-like enumeration whose
 * discriminants are the integers the user interface receives, and the
 * conversions into it from the errors of the libraries the core calls.
 */
module ApiErrors {
  import opened Wrappers

  datatype Error =
    | Arguments
    | Logic
    | NoProject
    | FileNotFound
    | FileOpen
    | SQL
    | Network
    | InvalidFormat
    | NothingFound
    | InvalidBook
    | InvalidISBN
    | InvalidUser
    | LendingUserMayNotBorrow
    | LendingBookNotBorrowable
    | LendingBookAlreadyBorrowed
    | LendingBookAlreadyBorrowedByUser
    | LendingBookNotBorrowed
    | LendingBookAlreadyReserved
    | UnsupportedProjectVersion

  /** `Error::UnsupportedProjectVersion as i64`, the largest discriminant. */
  const MAX_DISCRIMINANT: int := 18

  /** `*self as i64`: the discriminant sent to the user interface. */
  function ToVariant(e: Error): (r: int)
    ensures 0 <= r <= MAX_DISCRIMINANT
  {
    match e
    case Arguments => 0
    case Logic => 1
    case NoProject => 2
    case FileNotFound => 3
    case FileOpen => 4
    case SQL => 5
    case Network => 6
    case InvalidFormat => 7
    case NothingFound => 8
    case InvalidBook => 9
    case InvalidISBN => 10
    case InvalidUser => 11
    case LendingUserMayNotBorrow => 12
    case LendingBookNotBorrowable => 13
    case LendingBookAlreadyBorrowed => 14
    case LendingBookAlreadyBorrowedByUser => 15
    case LendingBookNotBorrowed => 16
    case LendingBookAlreadyReserved => 17
    case UnsupportedProjectVersion => 18
  }

  /** `from_variant` on an integer: the `transmute` accepts exactly the discriminant range, anything else is `Unspecified` (`None`). */
  function FromVariant(v: int): (r: Option<Error>)
    ensures r.Some? <==> 0 <= v <= MAX_DISCRIMINANT
  {
    if 0 <= v <= MAX_DISCRIMINANT then Some(Discriminant(v)) else None
  }

  /** The variant whose discriminant is `v`. */
  function Discriminant(v: int): Error
    requires 0 <= v <= MAX_DISCRIMINANT
  {
    if v == 0 then Arguments
    else if v == 1 then Logic
    else if v == 2 then NoProject
    else if v == 3 then FileNotFound
    else if v == 4 then FileOpen
    else if v == 5 then SQL
    else if v == 6 then Network
    else if v == 7 then InvalidFormat
    else if v == 8 then NothingFound
    else if v == 9 then InvalidBook
    else if v == 10 then InvalidISBN
    else if v == 11 then InvalidUser
    else if v == 12 then LendingUserMayNotBorrow
    else if v == 13 then LendingBookNotBorrowable
    else if v == 14 then LendingBookAlreadyBorrowed
    else if v == 15 then LendingBookAlreadyBorrowedByUser
    else if v == 16 then LendingBookNotBorrowed
    else if v == 17 then LendingBookAlreadyReserved
    else UnsupportedProjectVersion
  }

  /** Sending an error and reading it back gives the same error. */
  lemma FromToVariant(e: Error)
    ensures FromVariant(ToVariant(e)) == Some(e)
  {
  }

  /** Every accepted integer is the discriminant of the error it decodes to. */
  lemma ToFromVariant(v: int)
    requires 0 <= v <= MAX_DISCRIMINANT
    ensures ToVariant(FromVariant(v).value) == v
  {
  }

  /** Distinct errors are sent as distinct integers. */
  lemma ToVariantInjective(a: Error, b: Error)
    ensures ToVariant(a) == ToVariant(b) ==> a == b
  {
  }

  /** The foreign errors that have a conversion into the API error. */
  datatype Foreign = Rusqlite | Infallible | Io | Roxmltree

  /** The `From` implementations of the API error. */
  function FromForeign(f: Foreign): (r: Error)
    ensures f == Rusqlite <==> r == SQL
    ensures f == Infallible <==> r == Arguments
    ensures f == Io <==> r == FileOpen
    ensures f == Roxmltree <==> r == InvalidFormat
  {
    match f
    case Rusqlite => SQL
    case Infallible => Arguments
    case Io => FileOpen
    case Roxmltree => InvalidFormat
  }
}
