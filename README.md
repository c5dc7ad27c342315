# schiller-lib, modelled in Dafny

schiller-lib is the catalogue and lending software of a school library. A
database holds the media (books), their authors, the users and the
categories, together with the project settings. Books are lent to users,
returned, reserved and released. New book ids come from the first author's
surname and the category. Book data is fetched from the catalogue service of
the Deutsche Nationalbibliothek as MARC 21 records. User data is read from a
CSV file. The web server guards its pages with OAuth sessions. A browser
client talks to the server's JSON API.

The repository holds several revisions of the backend side by side: the
current server (axum and JSON), an older Godot scripting API built on
SQLite, and the SQLite project format of releases before 0.9. Each file is
modelled against its own revision, with its own error enumeration.

The model has one Dafny module per core source file:

- `Isbn`: the ISBN normaliser. An input is filtered to digit values and
  accepted by the ISBN-10 or the ISBN-13 check-digit rule of ISO 2108.
- `Rental` and `Lending`: the row updates and the lending state machine.
  Lend, return, reserve and release each check their conditions in a fixed
  order. Each is then specified by a pure step that names the outcome and
  the `UPDATE` statements it runs. The steps are proved against the
  in-memory record and the table row.
- `Books`, `MediumTable`, `UserTable`, `CategoryTable` and `Statistics`: the
  catalogue tables. The SQL tables are a `Schema.Database` class whose
  fields are sequences of rows, with primary keys as uniqueness invariants.
  Adding, updating and deleting are methods on it. They cover validation,
  renames carried into referencing rows, clean-up of orphaned rows, id
  generation, search and counting.
- `SettingsStore` and `Legacy`: the settings key/value codec and the old
  SQLite format with its patches.
- `SemVer`, `Import` and `Structure`: project versions, the version window,
  and migration.
- `SortedQueue`: the container that hands items back smallest first.
- `MarcRecords`, `Dnb`, `Marc21` and `BookDnb`: MARC 21 record extraction
  for the three book providers.
- `CsvUsers`, `UserProviderApi` and `UserFile`: the CSV user lookups.
- `Base64` and `Auth`: the session cookie codec of section 4 of RFC 4648,
  and the session table with expiry.
- `Errors`, `ApiErrors`, `ProviderApi`, `ProjectApi` and `ApiDate`: the
  error conversions, the project object and the date object of the
  scripting API.
- `JsValues`, `FormUrlencoded`, `ClientApi` and `ClientIndex`: the browser
  client's query string, its reading of answers, its enumeration values,
  and its structural equality. The query string follows the
  `application/x-www-form-urlencoded` serializer of section 5.2 of the
  WHATWG URL Standard.
- `Wrappers`, `Text`, `Ints`, `Dates`, `Sql` and `Schema`: shared helpers.
  These cover Rust's string functions, fixed-width integers and casts,
  chrono's calendar, the parts of SQLite the queries rely on, and the
  database tables.

Code that changes state step by step is modelled as methods with loops and
invariants, proved against a specification function. The other members are
lemmas about those functions. The queue, the database, the project, the
date object, the session table and the user provider are classes.

## Model

| member | source | states |
|---|---|---|
| Isbn.ValuesBounds | src/isbn.rs:6-15 | the filter keeps at most as many values as there are characters, each at most 10 |
| Isbn.ValuesOfChar | src/isbn.rs:8-14 | a digit keeps its value, `X` and `x` become 10, every other character is dropped |
| Isbn.Checksum13 | src/isbn.rs:40-46 | on digit values the ISBN-13 check value is a digit: `400 - sum` never underflows |
| Isbn.IsbnStr | src/isbn.rs:48-52 | one printed character per value |
| Isbn.IsbnStrChars | src/isbn.rs:48-52 | each printed character stands for its value, and `X` exactly for 10 |
| Isbn.ValuesConcat | src/isbn.rs:6-15 | the filter distributes over concatenation |
| Isbn.ValuesOfIsbnStr | src/isbn.rs:6-52 | filtering the printed form gives the values back |
| Isbn.IsbnStrOfValues | src/isbn.rs:6-52 | a string of digits and upper-case `X` is its own stripped form |
| Isbn.ParseOutcome | src/isbn.rs:4-22 | both outcomes carry the stripped string; `Ok` exactly when the values form a valid ISBN-10 or ISBN-13 |
| Isbn.ParseIdempotent | src/isbn.rs:4-22 | parsing the stripped string gives the same outcome again |
| Isbn.Checksum10Range | src/isbn.rs:32-50 | the ISBN-10 check value lies in 0..10 and prints as `X` exactly when it is 10 |
| Isbn.Is10XOnlyLast | src/isbn.rs:24-26 | a valid ISBN-10 has `X` only in its check position |
| Isbn.Is13NoX | src/isbn.rs:28-30 | any `X` makes thirteen values invalid |
| Isbn.Is10IffIsoRule | src/isbn.rs:24-38 | valid ISBN-10 exactly when the first nine are digits and the weighted sum 1..10 is divisible by 11 (ISO 2108) |
| Isbn.Is13IffIsoRule | src/isbn.rs:28-46 | valid ISBN-13 exactly when all are digits and the alternating 1/3 sum is divisible by 10 (ISO 2108) |
| Isbn.ParseDropsSeparator | src/isbn.rs:6-15 | inserting a character other than a digit or `X`/`x` never changes the outcome |
| Isbn.ValuesSkip | src/isbn.rs:6-15 | a dropped character at any position can be removed beforehand |
| Isbn.Vector10 | src/isbn.rs:17-26 | a ten-character candidate of digits and `X` is accepted exactly when the ISBN-10 rule holds on its characters |
| Isbn.Vector13 | src/isbn.rs:17-30 | a thirteen-digit candidate is accepted exactly when the ISBN-13 rule holds on its characters |
| Isbn.Hyphenated10 | src/isbn.rs:6-15 | a hyphenated ISBN-10 filters like its digits alone |
| Isbn.Hyphenated13 | src/isbn.rs:6-15 | a hyphen after the EAN prefix is dropped |
| Isbn.VectorEmpty | src/isbn.rs:60 | the empty input is rejected with the empty string |
| Isbn.VectorBadChecksum | src/isbn.rs:61 | ten digits with a wrong check digit are rejected, stripped |
| Isbn.VectorIsbn10Hyphens | src/isbn.rs:62 | `3-440-03914-5` is accepted as `3440039145` |
| Isbn.VectorIsbn13Hyphen | src/isbn.rs:63 | `978-3923923410` is accepted without its hyphen |
| Isbn.VectorIsbn13B | src/isbn.rs:64 | `9781338099133` is accepted |
| Isbn.VectorIsbn10X | src/isbn.rs:65 | a check value of 10 printed as `X` is accepted |
| Isbn.VectorTwoX | src/isbn.rs:66 | an `X` before the check position is rejected |
| ApiDate.WithFields | src/api/date.rs:70-88 | `with_year`/`with_month`/`with_day` give a date exactly when the changed fields form a valid calendar date |
| ApiDate.DateObject.constructor | src/api/date.rs:20-24 | the object starts at today's date, which is a parameter |
| ApiDate.DateObject.GetIso | src/api/date.rs:46-48 | the `%Y-%m-%d` text parses back to the stored date |
| ApiDate.DateObject.SetIso | src/api/date.rs:50-105 | a text that parses as `%Y-%m-%d` becomes the date; otherwise `Logic` is returned and the date is kept |
| ApiDate.DateObject.SetYear | src/api/date.rs:69-73 | the year is cast to `i32`; an invalid result leaves the date unchanged; an in-range valid year reads back |
| ApiDate.DateObject.SetMonth | src/api/date.rs:78-82 | the month is cast to `u32`; an invalid result leaves the date unchanged; a valid month reads back |
| ApiDate.DateObject.SetDay | src/api/date.rs:87-91 | the day is cast to `u32`; an invalid result leaves the date unchanged; a valid day reads back |
| ApiDate.DateObject.DaysUntilToday | src/api/date.rs:95-97 | adding the result to the stored date gives today; zero exactly on the same day, positive exactly when today is later |
| ApiErrors.ToVariant | src/api/error.rs:9-82 | every error is sent as an integer between 0 and the last discriminant |
| ApiErrors.FromVariant | src/api/error.rs:64-75 | an integer is accepted exactly when it lies in the discriminant range |
| ApiErrors.FromToVariant | src/api/error.rs:64-82 | sending an error and reading it back gives the same error |
| ApiErrors.ToFromVariant | src/api/error.rs:64-82 | every accepted integer is the discriminant of the error it decodes to |
| ApiErrors.ToVariantInjective | src/api/error.rs:9-82 | distinct errors are sent as distinct integers |
| ApiErrors.FromForeign | src/api/error.rs:36-62 | SQL, infallible-conversion, I/O and XML failures map one-to-one to `SQL`, `Arguments`, `FileOpen` and `InvalidFormat` |
| Errors.FromSql | src/error.rs:36-46 | a query without rows is `NothingFound`, every other SQL failure is `SQL` |
| Errors.FromIo | src/error.rs:53-69 | `NotFound` is `FileNotFound`, the six connection kinds are `Network`, every other kind is `FileOpen` |
| Errors.FromCsv | src/error.rs:76-86 | a CSV I/O failure converts like any I/O failure; every other CSV failure is `InvalidFormat` |
| Errors.CsvFormatOnlyWhenMalformed | src/error.rs:76-86 | a CSV failure is `InvalidFormat` exactly when it is not an I/O failure |
| Errors.NameInjective | src/error.rs:12-34 | no two errors serialise to the same name |
| Errors.IntoResponseInjective | src/error.rs:94-100 | every error becomes a status-500 answer, and the answer identifies the error |
| SemVer.SplitN | src/db/migrate.rs:86 | `splitn(3, '.')`: at most three pieces; only the last may contain a dot, and only when all three were used |
| SemVer.SplitN3Of | src/db/migrate.rs:86 | three pieces, the first two without dots, come back as they were joined |
| SemVer.ParseBytes | src/db/migrate.rs:87-89 | the collection succeeds exactly when every piece parses as a byte, and then holds those bytes in order |
| SemVer.ParseDisplay | src/db/migrate.rs:82-102 | every printed version parses back to itself |
| SemVer.ParseRejectsFourParts | src/db/migrate.rs:84-160 | a fourth part stays in the third piece, which then does not parse |
| SemVer.ParseRejectsShort | src/db/migrate.rs:90-159 | fewer than three pieces are rejected |
| SemVer.ParseExamples | src/db/migrate.rs:155 | `0.9.22` parses |
| SemVer.ParseLargestExample | src/db/migrate.rs:157 | `255.255.255` parses |
| SemVer.ParseRejectExamples | src/db/migrate.rs:159-163 | `10` and `..` are rejected |
| SemVer.LessRank | src/db/migrate.rs:79-80 | the derived order is the numeric order of the base-256 number the three bytes spell |
| SemVer.LessTotal | src/db/migrate.rs:79-80 | the derived order is a strict total order |
| SemVer.UnquoteJson | src/db/migrate.rs:123-134 | a string accepted from JSON is one whose JSON form is the input |
| SemVer.Deserialize | src/db/migrate.rs:117-144 | a version is read from JSON exactly by parsing the unquoted string |
| SemVer.DeserializeSerialize | src/db/migrate.rs:104-144 | a version written to JSON reads back unchanged |
| SemVer.UnquoteJsonString | src/db/migrate.rs:104-128 | a text without quotes or backslashes survives quoting and unquoting |
| Rental.Apply | src/db/rental.rs:3-14 | each statement assigns exactly its columns: borrower and deadline, both blanked, the reservation, or the reservation blanked; the id never changes |
| Rental.Update | src/db/rental.rs:3-14 | an `update ... where id=?` changes exactly the rows with that id, keeps their id, and leaves every other row as it was |
| Rental.UpdateKeepsKeys | src/db/rental.rs:3-14 | the statements never touch the key, so the ids stay unique and the same |
| Rental.UpdateUnknown | src/db/rental.rs:3-14 | an unknown id changes nothing |
| Rental.RevokeIdempotent | src/db/rental.rs:6-8 | revoking twice is revoking once |
| Rental.ReleaseIdempotent | src/db/rental.rs:12-14 | releasing twice is releasing once |
| Rental.RentalLend | src/db/rental.rs:20-29 | sets borrower and deadline of the medium with that id; nothing else in the database changes |
| Rental.RentalRevoke | src/db/rental.rs:32-39 | blanks borrower and deadline of the medium with that id; nothing else changes |
| Rental.RentalReserve | src/db/rental.rs:42-50 | sets the reservation of the medium with that id; nothing else changes |
| Rental.RentalRelease | src/db/rental.rs:53-60 | blanks the reservation of the medium with that id; nothing else changes |
| Lending.ApplyRow | src/db/lending.rs:6-17 | the statements run on one record never change its id |
| Lending.ApplyAllRow | src/db/lending.rs:6-17 | the table row of the book and the in-memory record change in step; rows with other ids keep their contents |
| Lending.ApplyAllKeys | src/db/lending.rs:6-17 | the statements never change ids, so they stay unique and the same |
| Lending.ApplyAllConcat | src/db/lending.rs:58-85 | running two lists of statements in turn is running their concatenation |
| Lending.LendStep | src/db/lending.rs:51-90 | the four checks in source order with their errors; success exactly when the user may borrow, the book is borrowable, any reservation is the user's and any loan is to the user; the record then has the user as borrower with the deadline and no reservation; a reserver blocked by another loan leaves the reservation released |
| Lending.ReturnStep | src/db/lending.rs:93-106 | fails with `LogicError` exactly when the book is not lent; otherwise blanks borrower and deadline |
| Lending.ReserveStep | src/db/lending.rs:109-134 | the five checks in source order with their errors; success exactly when the book is borrowable, unreserved and lent to someone else; the reservation is then the user's |
| Lending.ReleaseStep | src/db/lending.rs:137-149 | fails with `LogicError` exactly when there is no reservation; otherwise blanks it |
| Lending.Renewal | src/db/lending.rs:65-88 | lending to the current borrower succeeds and only moves the deadline |
| Lending.LendToReserverWhileBorrowed | src/db/lending.rs:58-68 | lending to the reserver while another user holds the book fails with `LendingBookAlreadyBorrowed`, yet the reservation has been released |
| Lending.LendThenReturn | src/db/lending.rs:51-106 | a successful loan can be returned, leaving the book neither lent nor reserved |
| Lending.ReserveThenRelease | src/db/lending.rs:109-149 | releasing a fresh reservation restores the record |
| Lending.ReserverLendsAfterReturn | src/db/lending.rs:51-134 | after a reservation and a return, lending to the reserver succeeds and clears the reservation |
| Lending.Deadline | src/db/lending.rs:70-71 | present exactly when today plus the number of days is a date chrono represents (otherwise the addition panics), and then parses back to that date |
| Lending.LendOutcome | src/db/lending.rs:51-90 | with a deadline, the answer and statements of `LendStep`; without one (the addition panics), a panic exactly when the four checks pass, after a reservation of the user has been released, and otherwise the checks' error |
| Lending.LendRefusedAnyDeadline | src/db/lending.rs:52-54 | a user who may not borrow is refused with `LendingUserMayNotBorrow` whatever the loan duration, even one past chrono's range |
| Lending.Execute | src/db/lending.rs:79-147 | the statements update the table and the record alike; no other table changes |
| Lending.Lend | src/db/lending.rs:51-90 | result (or panic), record and table are those of `LendOutcome` with the deadline from today; no other table changes |
| Lending.ReturnBack | src/db/lending.rs:93-106 | result, record and table are those of `ReturnStep` |
| Lending.Reserve | src/db/lending.rs:109-134 | result, record and table are those of `ReserveStep` |
| Lending.ReleaseBook | src/db/lending.rs:137-149 | result, record and table are those of `ReleaseStep` |
| Lending.FindUser | src/db/lending.rs:44 | the joined user row exists exactly when some user has the borrower's account, and has that account |
| Lending.OverdueRows | src/db/lending.rs:18-48 | the joined rows are exactly the overdue media whose borrower has an account, each with that user |
| Lending.OverdueBooks | src/db/lending.rs:28-166 | each joined row is read as a book whose medium columns are the row's and whose authors are the medium's joined author names split at `,`, with the same user |
| Lending.Overdues | src/db/lending.rs:18-155 | a permutation of the joined rows, read with their authors, ordered by role and account |
| Lending.OverduesListed | src/db/lending.rs:18-155 | a pair is listed exactly when the book's medium is overdue, its borrower has an account, its authors are the medium's joined author names split at `,`, and the user is that account's |
| UserTable.Search | src/db/user.rs:7-77 | every user matching in one of the four columns is listed, as `DBUser::read` reads it, and nothing else; never more rows than users |
| UserTable.MatchesLiteral | src/db/user.rs:15-18 | for text without LIKE wildcards, a user matches exactly when one of account, forename, surname or role contains it, ignoring ASCII case |
| UserTable.AppendFreshUser | src/db/user.rs:21-23 | inserting a row with a free account keeps the account key unique |
| UserTable.Add | src/db/user.rs:80-91 | a free account appends exactly the written row; a taken account fails with `SQLError` and changes nothing; the other tables stay |
| UserTable.UpdateUsers | src/db/user.rs:24-26 | the row of the previous account takes the new values, every other row stays |
| UserTable.UpdateUsersKeys | src/db/user.rs:24-26 | an update that does not rename onto another existing account keeps the account key unique |
| UserTable.RenameBorrower | src/db/user.rs:27-29 | exactly the media lent to the previous account are now lent to the new one |
| UserTable.RenameReservation | src/db/user.rs:30-32 | exactly the media reserved by the previous account are now reserved by the new one |
| UserTable.Rename | src/db/user.rs:108-122 | both renames keep every medium id, so the medium key stays unique |
| UserTable.RenameMovesReferences | src/db/user.rs:108-122 | after a rename no medium refers to the previous account; former references point to the new account and others are untouched |
| UserTable.RenameSame | src/db/user.rs:94-125 | updating a user without changing the account leaves every medium as it was |
| UserTable.Update | src/db/user.rs:94-125 | a rename onto another existing account fails and rolls back; otherwise the user row and every borrower and reservation follow the new account |
| UserTable.RemoveUser | src/db/user.rs:34-36 | exactly the rows of other accounts remain, and the account is gone |
| UserTable.ClearReservations | src/db/user.rs:38 | exactly the reservations naming no existing account are cleared |
| UserTable.ClearBorrowersAsWritten | src/db/user.rs:39 | as written: the borrower is cleared on every medium whose reservation names no existing account |
| UserTable.ClearBorrowers | src/db/user.rs:39 | as intended: exactly the borrowers naming no existing account are cleared |
| UserTable.ClearReferences | src/db/user.rs:37-40 | the corrected cleanup keeps every medium id, so the medium key stays unique |
| UserTable.ClearReferencesNoDangling | src/db/user.rs:37-128 | after the corrected cleanup every borrower and reservation is empty or an existing account |
| UserTable.ClearReferencesKeepsValid | src/db/user.rs:37-128 | the corrected cleanup keeps every loan and reservation of an account that still exists |
| UserTable.ClearReferencesAsWritten | src/db/user.rs:37-40 | as written: ids kept, no dangling reservation, and every medium whose reservation is not an account loses its borrower |
| UserTable.ClearAsWrittenDropsValidLoan | src/db/user.rs:39 | as written, a medium lent to the existing user `alice` without a reservation loses its borrower, which the corrected cleanup keeps |
| UserTable.Delete | src/db/user.rs:129-142 | the user row goes and the cleanup runs as written (lines 37-40), so reservations naming no account are blanked and so is the borrower of every medium whose reservation names no account; the other tables stay |
| UserTable.DeleteIntended | src/db/user.rs:129-142 | as intended: the user row goes and the corrected cleanup runs, leaving no reference to a missing account and keeping those of existing ones; the other tables stay |
| Books.ReadBook | src/db/book.rs:143-164 | a result row is read as the medium's columns plus its joined author column split at `,` |
| Books.ReadBookAuthors | src/db/book.rs:155-158 | author names without a comma, joined, read back as the same names in order |
| Books.IsValidNotBlank | src/db/book.rs:137-140 | a book is valid exactly when neither its id nor its title is blank |
| Books.StoredIsbn | src/db/book.rs:295-299 | a blank ISBN is stored as empty text; any other as the digits `isbn::parse` keeps, accepted or not |
| Books.StrippedTrimmed | src/db/book.rs:296-305 | the text `isbn::parse` keeps has nothing left to trim |
| Books.NewRow | src/db/book.rs:90-313 | the inserted row holds the trimmed fields, the stored ISBN, and no borrower, deadline or reservation |
| Books.AddAuthors | src/db/book.rs:94-319 | afterwards exactly the old author rows plus one row per trimmed name under the book id exist; the (name, medium) key stays unique |
| Books.AppendFreshRow | src/db/book.rs:90-92 | a row whose id is free keeps the medium key unique |
| Books.InsertAuthors | src/db/book.rs:316-319 | the author loop inserts what `AddAuthors` describes |
| Books.Add | src/db/book.rs:290-322 | an invalid book gives `InvalidBook`; a taken id gives an SQL error and rolls back; otherwise the new row and its authors are added and nothing else changes |
| Books.UpdatedRow | src/db/book.rs:97-101 | the listed columns take the new trimmed values while borrower, deadline and reservation stay |
| Books.UpdateMedia | src/db/book.rs:97-351 | only the row with the previous id changes |
| Books.Repoint | src/db/book.rs:102-104 | every author row of the previous id now names the new id, none keeps the old one, and other rows stay |
| Books.RepointSame | src/db/book.rs:102-104 | re-pointing to the same id changes nothing |
| Books.UpdateMediaKeys | src/db/book.rs:97-101 | an update that does not collide with another id keeps the medium key unique |
| Books.Update | src/db/book.rs:324-359 | a blank previous id or an invalid book gives `InvalidBook`; a key collision rolls back; otherwise the row is updated and the authors follow when the previous id differs from the id as given |
| Books.UpdateMovesAuthors | src/db/book.rs:353-356 | after a rename the authors are found under the new id and none under the old |
| Books.Delete | src/db/book.rs:361-376 | a blank id gives `InvalidBook`; otherwise the row goes and with it every author row left without a medium |
| Books.DeleteLeavesNoOrphans | src/db/book.rs:105-374 | after a delete every author row refers to an existing medium, and none to the deleted id |
| Books.ParseYearRange | src/db/book.rs:185-206 | both bounds fit in 16 bits, and a blank text gives the whole range 0..65535 |
| Books.YearRangePrinted | src/db/book.rs:197-200 | `a-b` of two years in range reads back as `(a, b)` |
| Books.YearRangeSingle | src/db/book.rs:201-203 | a single year in range gives the one-year range |
| Books.YearRangeOpenEnd | src/db/book.rs:199 | an unreadable upper bound defaults to 65535 |
| Books.StateToInt | src/db/book.rs:208-238 | a state converts to an integer in 0..3 |
| Books.StateFromInt | src/db/book.rs:223-232 | 1, 2 and 3 name their states and every other integer gives `None` |
| Books.StateRoundTrip | src/db/book.rs:223-244 | a state survives the conversion to an integer and back |
| Books.StateIntRoundTrip | src/db/book.rs:223-244 | exactly the integers 0..3 survive the conversion to a state and back |
| Books.UserPattern | src/db/book.rs:261-268 | the trimmed user when given, else `_%` for borrowed-or-reserved, else `%` |
| Books.SearchAdvanced | src/db/book.rs:59-288 | exactly the media satisfying every condition of the advanced search are listed |
| Books.SearchBorrowableState | src/db/book.rs:87-285 | searching for borrowable (not borrowable) books lists only borrowable (not borrowable) ones |
| Books.FlagPattern | src/db/book.rs:87-285 | the `1` and `0` patterns match only the matching flag |
| Books.SearchBorrowedOrReserved | src/db/book.rs:86-266 | without a user, borrowed-or-reserved lists only media that are lent or reserved |
| Books.SearchAnyUser | src/db/book.rs:86-267 | without a user and any other state the user condition admits every medium |
| Books.SearchUserContains | src/db/book.rs:86-263 | with a user without wildcards the condition is containment in borrower or reservation |
| Books.LikeSomeChar | src/db/book.rs:86-265 | the pattern built from `_%` matches exactly the non-empty texts |
| Books.BaseLetter | src/db/book.rs:405-406 | `ß` becomes `S` and ASCII characters stay |
| Books.Letters | src/db/book.rs:405-409 | at most as many letters as characters, all upper-case ASCII; an upper-case ASCII word stays whole |
| Books.Surname | src/db/book.rs:401-404 | the part after the last space, or the whole name when there is none |
| Books.Abbreviation | src/db/book.rs:411-423 | one to four upper-case letters, a prefix of the surname's letters when it has any |
| Books.IdPrefix | src/db/book.rs:400-425 | the category (`XXXX` when empty), a space and the abbreviation |
| Books.AbbreviationOfSurname | src/db/book.rs:401-404 | only the surname counts |
| Books.LettersAscii | src/db/book.rs:407-408 | a surname of ASCII letters is kept whole, upper-cased |
| Books.AbbreviationAbedi | src/db/book.rs:435-436 | `Abedi` and `Äbedi` both abbreviate to `ABED` |
| Books.LettersBaeumer | src/db/book.rs:405-409 | the letters of `äumer` are `AUMER` |
| Books.AbbreviationBaeumer | src/db/book.rs:441-443 | `Bäumer` abbreviates to `BAUM` |
| Books.AbbreviationUmlauts | src/db/book.rs:438-439 | `äÖü` gives `AOU` and `äÖüß` gives `AOUS` |
| Books.IdPrefixOf | src/db/book.rs:400-425 | the prefix of a first name and surname is the category or `XXXX`, a space and the surname's abbreviation |
| Books.IdPrefixExamples | src/db/book.rs:435-444 | the documented prefixes for Abedi and Äbedi, with and without a category |
| Books.IdPrefixBaeumerExample | src/db/book.rs:440-443 | the category is used as given, without upper-casing |
| Books.IdPrefixWordExamples | src/db/book.rs:437-439 | no letters give `XXXX`; umlauts lose their marks and `ß` becomes `S` |
| Books.AbbreviationOfCapitals | src/db/book.rs:421-424 | an upper-case ASCII surname abbreviates to its first four letters |
| Books.CastPrinted | src/db/book.rs:111-113 | a printed number after a space casts back to the number |
| Books.CastAfterTab | src/db/book.rs:111-113 | leading white space other than a space is skipped too: a tab and `7` cast to 7 |
| Books.MaxSuffix | src/db/book.rs:111-116 | `NULL` exactly when no id matches the prefix; otherwise the largest cast suffix of a matching id |
| Books.KeepsIdAsWritten | src/db/book.rs:385-387 | the byte-slice test panics exactly when the byte after the prefix is inside a multi-byte character |
| Books.KeepsIdShape | src/db/book.rs:385-387 | as intended, the id is kept exactly when it is the prefix, a space and more text |
| Books.KeepsIdAsWrittenAgrees | src/db/book.rs:385-387 | where the test as written does not panic it agrees with the intended one |
| Books.KeepsIdAsWrittenPanics | src/db/book.rs:385-387 | the prefix followed by one non-ASCII character makes the test as written panic |
| Books.KeepsIdAsWrittenPanicsExample | src/db/book.rs:385-387 | for example the id `FANT ABEDé` with prefix `FANT ABED` |
| Books.GenerateId | src/db/book.rs:379-398 | as intended, with the character test `KeepsId` in place of the byte slice that panics (see Findings): the only failure is an SQL error |
| Books.GenerateIdFresh | src/db/book.rs:379-398 | a newly numbered id is not the id of any medium |
| Books.NumberedIdFresh | src/db/book.rs:112-397 | one more than the largest number under a prefix is not in use |
| Books.NumberedIdMatches | src/db/book.rs:112-397 | a numbered id matches its prefix pattern and casts back to its number |
| MediumTable.ReplaceChars | src/db/medium.rs:226-229 | each character of the set is replaced by the given one and every other character stays |
| MediumTable.KeepAlphabetic | src/db/medium.rs:230 | only ASCII letters remain, and a text made only of ASCII letters stays whole |
| MediumTable.Replaced | src/db/medium.rs:226-229 | the replacement chain keeps the length |
| MediumTable.ReplacedHead | src/db/medium.rs:226-231 | on each character the chain keeps a letter exactly when the decomposition of the later revision does, and the same upper-case letter |
| MediumTable.AuthorLettersAgree | src/db/medium.rs:225-231 | the replacement chain gives the same letters as the decomposition of the later revision |
| MediumTable.IdPrefix | src/db/medium.rs:224-240 | the category as given, a space, and the same abbreviation as the later revision |
| MediumTable.IdPrefixExamples | src/db/medium.rs:247-248 | the documented prefixes for Abedi and Äbedi |
| MediumTable.IdPrefixBaeumerExample | src/db/medium.rs:251-254 | `Bäumer` in `RErk` gives `RErk BAUM` |
| MediumTable.IdPrefixWordExamples | src/db/medium.rs:249-250 | no letters give `XXXX`; umlauts become their base letters |
| MediumTable.IdPrefixEmptyCategory | src/db/medium.rs:235-239 | an empty category is not replaced, so the prefix starts with the space, unlike the later revision's `XXXX` |
| MediumTable.MaxText | src/db/medium.rs:53-55 | `NULL` exactly when no id matches the prefix; otherwise the suffix of a matching id |
| MediumTable.MaxTextIsMax | src/db/medium.rs:53-55 | the maximum bounds every matching suffix in text order |
| MediumTable.MaxTextNineTen | src/db/medium.rs:54 | with suffixes `9` and `10` the text maximum is `9` |
| MediumTable.MaxNumberNineTen | src/db/medium.rs:54-219 | with ids ending in `9` and `10` the number read is 9 |
| MediumTable.GenerateIdAsWritten | src/db/medium.rs:196-221 | panics exactly when the byte slice after the prefix does; a new id starts with the prefix and a space |
| Ints.WrappingInc | src/db/medium.rs:219 | `+ 1` on `i64` without an overflow check: one more below `i64::MAX`, `i64::MIN` at `i64::MAX`, and congruent to one more modulo 2^64 |
| MediumTable.GenerateIdAsWrittenNumbered | src/db/medium.rs:213-220 | an id that is not kept is numbered one past the text maximum, or `i64::MIN` when that maximum is `i64::MAX` |
| MediumTable.GenerateIdAsWrittenCollides | src/db/medium.rs:53-220 | with media `<prefix> 9` and `<prefix> 10` the id proposed is `<prefix> 10`, which is taken |
| MediumTable.AbediPrefix | src/db/medium.rs:196-240 | an Abedi title in `FANT` has the prefix `FANT ABED` |
| MediumTable.GenerateId | src/db/medium.rs:196-221 | as intended: a kept id is returned unchanged; a new id starts with the prefix and a space and is not the id of any medium |
| MediumTable.ReadRow | src/db/medium.rs:75-99 | the row is read back with its columns, and the joined authors split at `,` |
| MediumTable.Search | src/db/medium.rs:6-114 | every medium matching in one of six columns is listed and nothing else |
| MediumTable.MatchesLiteral | src/db/medium.rs:24-29 | for text without wildcards a medium matches exactly when one of the six columns contains it, ignoring ASCII case |
| MediumTable.SearchEmptyText | src/db/medium.rs:24-29 | the empty text lists every medium |
| MediumTable.ReadRowAuthors | src/db/medium.rs:17-93 | author names without commas read back as they were joined |
| MediumTable.ReadRowNoAuthors | src/db/medium.rs:17-93 | a medium without authors reads back with one empty author name |
| MediumTable.NewRow | src/db/medium.rs:32-34 | the new row has the given id and no borrower, deadline or reservation |
| MediumTable.AddAuthors | src/db/medium.rs:36-141 | exactly the old author rows plus one per name under the medium id; the key stays unique |
| MediumTable.AddAuthorsCollapses | src/db/medium.rs:36-38 | a repeated author name gives a single row |
| MediumTable.Add | src/db/medium.rs:116-144 | a free id adds the row and its authors; a taken id fails with `SQLError` and changes nothing |
| MediumTable.UpdatedRow | src/db/medium.rs:39-41 | the given values with the lending columns kept |
| MediumTable.UpdateMedia | src/db/medium.rs:39-41 | only the row with the previous id changes |
| MediumTable.UpdateMediaKeys | src/db/medium.rs:39-41 | an update that does not collide keeps the medium key unique |
| MediumTable.Update | src/db/medium.rs:146-176 | a key collision fails with `SQLError` and rolls back; otherwise the row is updated and the authors follow a changed id |
| MediumTable.Delete | src/db/medium.rs:178-193 | the row goes, and every author row left without a medium |
| CategoryTable.List | src/db/category.rs:6-56 | every category exactly once, ordered by section and then id |
| CategoryTable.ListMembers | src/db/category.rs:52-56 | listing neither loses nor invents a category |
| CategoryTable.Add | src/db/category.rs:10-68 | fails with `SQLError` and changes nothing exactly when the id is taken; otherwise appends the row |
| CategoryTable.UpdateCategories | src/db/category.rs:14-16 | only the row with the given id takes the new values |
| CategoryTable.UpdateCategoriesKeys | src/db/category.rs:14-16 | without a clash the id key stays unique, the new id is present exactly when the old or the new one was, and a changed old id is gone |
| CategoryTable.Recategorize | src/db/category.rs:18-20 | exactly the media of the previous category move to the new one |
| CategoryTable.References | src/db/category.rs:26-115 | at most the number of media, and zero exactly when no medium is in the category |
| CategoryTable.RecategorizeReferences | src/db/category.rs:18-91 | after a rename the old id has no references, the new id has them all, and every other count stays |
| CategoryTable.RecategorizeKeepsKeys | src/db/category.rs:18-20 | media ids are untouched, so their key stays unique |
| CategoryTable.Update | src/db/category.rs:70-95 | a clash with an existing id fails and rolls back; otherwise the row is rewritten and, when the id changes, the media follow |
| CategoryTable.UpdateKeepsResolved | src/db/category.rs:70-95 | a successful rename keeps every medium's category present in the table |
| CategoryTable.RemoveCategory | src/db/category.rs:22-24 | exactly the rows with other ids remain, and the id is gone |
| CategoryTable.Delete | src/db/category.rs:97-105 | the row goes without any check of the media that refer to it |
| CategoryTable.DeleteKeepsResolved | src/db/category.rs:97-115 | removing a category keeps every medium's category present exactly when it has no references |
| Statistics.CountWhere | src/db/stats.rs:8-13 | at most the number of rows; zero exactly when no row qualifies and all exactly when every row does |
| Statistics.CountWhereMonotone | src/db/stats.rs:11-13 | a weaker condition never counts fewer rows |
| Statistics.DistinctNames | src/db/stats.rs:9 | exactly the author names that occur, at most one per author row |
| Statistics.Compute | src/db/stats.rs:6-26 | books and users are the table sizes; overdues never exceed borrows, and borrows and reservations never exceed books |
| Statistics.EmptyCounts | src/db/stats.rs:11-13 | nothing borrowed means nothing overdue; an empty library counts zero everywhere |
| Statistics.DistinctNamesExample | src/db/stats.rs:9 | an author of several media is counted once |
| Statistics.Query | src/db/stats.rs:46-53 | the query always yields its single row of counts |
| SettingsStore.Default | src/db/settings.rs:51-70 | every text field present, a 28-day loan, `,` as the user delimiter and every other text empty |
| SettingsStore.DurationNotText | src/db/settings.rs:12-25 | the duration key is not one of the thirteen text keys |
| SettingsStore.Set | src/db/settings.rs:76-96 | a known text key replaces its field; the duration takes the value when it parses as `i64` and keeps the previous one otherwise; `version` and unknown keys change nothing |
| SettingsStore.FromIter | src/db/settings.rs:73-99 | the loop gives the fold of the pairs over the defaults |
| SettingsStore.FoldComplete | src/db/settings.rs:73-99 | whatever the pairs, exactly the text fields remain present |
| SettingsStore.FoldAppend | src/db/settings.rs:75-97 | one more pair is one more step |
| SettingsStore.FoldIgnoresUnknown | src/db/settings.rs:77-95 | `version` and unknown keys are skipped wherever they appear |
| SettingsStore.FoldLaterWins | src/db/settings.rs:75-97 | of two pairs with the same key the later one wins |
| SettingsStore.FoldKeepsDuration | src/db/settings.rs:78-81 | an unparseable duration leaves the previous one in place |
| SettingsStore.Overlay | src/db/settings.rs:6-138 | every stored known key overrides its field, other fields stay, and no field appears or disappears |
| SettingsStore.MapOfKeys | src/db/settings.rs:6-8 | a key is in the table exactly when some row carries it |
| SettingsStore.OverlayStep | src/db/settings.rs:75-97 | a step on a key the rest of the table does not hold commutes into the table |
| SettingsStore.FoldRows | src/db/settings.rs:135-138 | folding the rows of a table, in any order, gives the table's overlay since each key occurs once |
| SettingsStore.Fetch | src/db/settings.rs:135-138 | complete settings, equal to the fold of the rows in whatever order they are read |
| SettingsStore.Trimmed | src/db/settings.rs:115-127 | every text field trimmed, the duration and the key set kept |
| SettingsStore.TrimmedDefault | src/db/settings.rs:51-70 | the defaults have nothing to trim |
| SettingsStore.Written | src/db/settings.rs:10-128 | one row per text field, trimmed, and the duration in decimal |
| SettingsStore.WrittenKeys | src/db/settings.rs:10-26 | for complete settings the rows are the fourteen keys of the statement |
| SettingsStore.Update | src/db/settings.rs:112-133 | the fourteen rows replace their keys in the table and nothing else changes |
| SettingsStore.FetchAfterUpdate | src/db/settings.rs:112-138 | writing and reading back gives the settings with trimmed texts, whatever else the table held |
| SettingsStore.OverlayWritten | src/db/settings.rs:112-138 | every known key is overwritten by the written rows |
| SettingsStore.ParseI64Printed | src/db/settings.rs:80-114 | the decimal form of a duration parses back to it |
| Legacy.Default | src/db/legacy.rs:152-169 | every text field present and empty, and a 28-day loan |
| Legacy.DurationNotText | src/db/legacy.rs:129-150 | the duration key is not one of the text keys |
| Legacy.Set | src/db/legacy.rs:129-150 | a known text key replaces its field; the duration takes the value when it parses and keeps the previous one otherwise; `version` and unknown keys change nothing |
| Legacy.SetIgnoresVersion | src/db/legacy.rs:132 | the stored version is not a setting |
| Legacy.SetOneField | src/db/legacy.rs:136-146 | setting a text field changes that field and no other |
| Legacy.FromIter | src/db/legacy.rs:171-179 | the loop gives the fold of the pairs over the defaults |
| Legacy.FoldComplete | src/db/legacy.rs:171-179 | whatever the pairs, exactly the text fields remain present |
| Legacy.FoldAppend | src/db/legacy.rs:174-176 | one more pair is one more step |
| Legacy.FoldLaterWins | src/db/legacy.rs:174-176 | of two pairs with the same key the later one wins |
| Legacy.FoldKeepsDuration | src/db/legacy.rs:133-135 | an unparseable duration leaves the previous one in place |
| Legacy.FoldIgnoresUnknown | src/db/legacy.rs:132-147 | `version`, the user-file keys and any unknown key are skipped |
| Legacy.Convert | src/db/legacy.rs:187-211 | duration, mail fields and the three templates carried over; the last reminder is the stored date, or today when it does not parse |
| Legacy.ConvertReminder | src/db/legacy.rs:191-192 | a stored reminder date in `%Y-%m-%d` form survives the conversion |
| Legacy.ConvertDefault | src/db/legacy.rs:152-211 | untouched defaults convert to empty templates and today's date |
| Legacy.ReadAuthors | src/db/legacy.rs:67-248 | the parts joined with `,` give the column back, and there is at least one |
| Legacy.ReadAuthorsOfNames | src/db/legacy.rs:244-248 | names without commas come back as they were joined |
| Legacy.ReadNoAuthors | src/db/legacy.rs:67-248 | a medium without authors reads as one empty name |
| Legacy.ConvertBook | src/db/legacy.rs:256-280 | fails exactly on a non-empty deadline that does not parse; otherwise authors joined with `, `, a borrower exactly when there is a deadline, a reservation exactly when it is non-empty |
| Legacy.ConvertLentBook | src/db/legacy.rs:269-276 | a lent book keeps its borrower and the date its deadline names |
| Legacy.ConvertAuthorsColumn | src/db/legacy.rs:244-268 | a row whose authors have no commas converts to those names separated by `, ` |
| Legacy.FillRoles | src/db/legacy.rs:431-439 | exactly the users with an empty role get `-`; every user then has a role |
| Legacy.FillRolesKeepsAccounts | src/db/legacy.rs:431-439 | accounts are untouched, so their key stays unique |
| Legacy.FillRolesIdempotent | src/db/legacy.rs:431-439 | applying the patch twice is applying it once |
| Legacy.DropUserFile | src/db/legacy.rs:441-453 | exactly the `user.path` and `user.delimiter` rows go; every other row stays |
| Legacy.ApplyNewerCurrent | src/db/legacy.rs:380-407 | a project at 0.8.4 or later gets no patch |
| Legacy.ApplyNewerAll | src/db/legacy.rs:380-407 | a 0.7 project gets all three patches, in order |
| Legacy.ApplyNewerRolesAndKeys | src/db/legacy.rs:380-407 | a project from 0.8.0 up to before 0.8.3 gets the last two |
| Legacy.ApplyNewerKeepsAccounts | src/db/legacy.rs:402-407 | no patch touches an account |
| Legacy.MigrationWindow | src/db/legacy.rs:375-413 | a project is refused exactly when its version lies outside 0.7.0 up to the new version |
| Legacy.MigrationReports | src/db/legacy.rs:408-410 | a success stores the new version and reports whether it differs from the stored one |
| Legacy.MigrationAccepted | src/db/legacy.rs:401-410 | an accepted project commits the patched tables with the new version |
| Legacy.OutcomeKeepsAccounts | src/db/legacy.rs:388-414 | a migration keeps the account key of `user` unique |
| Legacy.MigrateTables | src/db/legacy.rs:388-414 | the transaction yields the described outcome and tables |
| Legacy.Migrate | src/db/legacy.rs:388-414 | the project's tables change only on success, and other tables are untouched |
| Legacy.RunPatches | src/db/legacy.rs:402-407 | the loop applies every patch newer than the stored version, in table order |
| Structure.ParseVersion | src/db/structure.rs:104-120 | accepted exactly when the text splits into two or three parts that all read as bytes; three parts are major, minor and patch, two are minor and patch of major 0 |
| Structure.ParseVersionExtends | src/db/structure.rs:104-120 | every three-part version the strict parser accepts reads the same here |
| Structure.ParseVersionDisplay | src/db/structure.rs:104-126 | every printed version parses back to itself |
| Structure.ParseVersionTwoParts | src/db/structure.rs:114-115 | two bytes are minor and patch of major 0 |
| Structure.ParseVersionTwoPartExample | src/db/structure.rs:215 | `3.55` is 0.3.55 |
| Structure.ParseVersionOnePartExample | src/db/structure.rs:222 | a single number is rejected |
| Structure.ParseVersionFourParts | src/db/structure.rs:107-223 | four parts are rejected |
| Structure.ParseVersionNegative | src/db/structure.rs:224-225 | a negative part is rejected |
| Structure.PatchPlaceholders | src/db/structure.rs:194-202 | the old placeholders of every mail template row are rewritten; every other row and the key set stay |
| Structure.ReplacePlaceholdersAbsent | src/db/structure.rs:197 | a text without the old placeholders stays as it is |
| Structure.MailTemplateKeys | src/db/structure.rs:198 | every `mail.<name>.subject` and `mail.<name>.content` key is a template key |
| Structure.MailHostNotTemplate | src/db/structure.rs:198-295 | `mail.host` is not a template key, so the patch leaves it alone |
| Structure.Unescape | src/db/structure.rs:158 | a text without backslashes unescapes to itself |
| Structure.UnescapeEscape | src/db/structure.rs:158 | unescaping undoes the doubling of backslashes |
| Structure.UnescapeEscapedBackslash | src/db/structure.rs:158 | an escaped backslash unescapes to one backslash |
| Structure.UnescapePlain | src/db/structure.rs:158 | any other character stands for itself |
| Structure.UnescapeExamples | src/db/structure.rs:247-260 | a bare `\|` and the escape `|` both give `\|` |
| Structure.TokenAt | src/db/structure.rs:168 | a captured token is non-empty and made of word characters |
| Structure.TokenSearch | src/db/structure.rs:132-168 | the result is empty or the group of a match at some position, made of word characters |
| Structure.TokenSearchFinds | src/db/structure.rs:166-169 | a medium URL carrying a token yields exactly that token |
| Structure.RenameSetting | src/db/structure.rs:143-171 | each old key becomes its new name with the value kept; keys that are not old names pass through unchanged |
| Structure.SpecialKeysNotRenamed | src/db/structure.rs:144-169 | the three keys whose values are rewritten are not plain renames |
| Structure.RenameSpecial | src/db/structure.rs:156-169 | the delimiter is unescaped (kept when that fails), the user file resolved (kept when that fails), and the medium URL reduced to its token |
| Structure.RenamedKeysKnown | src/db/structure.rs:143-171 | every renamed old key is one the settings reader knows |
| Structure.RenameAll | src/db/structure.rs:186-189 | one rename per property, in order |
| Structure.RenameSettingsPatch | src/db/structure.rs:174-192 | the renamed properties folded into the defaults are written over the settings table |
| Structure.ApplyNewerCurrent | src/db/structure.rs:15-87 | a project at 0.8.0 or later gets no patch |
| Structure.ApplyNewerPlaceholdersOnly | src/db/structure.rs:15-87 | a project from 0.6.3 on gets only the placeholder rewrite |
| Structure.ApplyNewerBoth | src/db/structure.rs:15-183 | an older project gets both patches in order, and fails with `FileOpen` without its properties file |
| Structure.ApplyNewerPair | src/db/structure.rs:82-87 | two patches run in order and the first error stops the run |
| Structure.MigrationWindow | src/db/structure.rs:10-93 | apart from a missing properties file, a project is refused exactly when its version lies outside 0.6.2 up to the new version |
| Structure.ApplyNewerFailsOnlyOnFile | src/db/structure.rs:82-183 | a patch run can fail only on an unreadable properties file |
| Structure.MigrationCurrent | src/db/structure.rs:68-94 | opening a current project changes nothing and reports no update |
| Structure.Migrate | src/db/structure.rs:66-94 | the settings table changes only on success, and every other table stays |
| Structure.RunPatches | src/db/structure.rs:82-87 | the loop applies every patch newer than the stored version, in table order, stopping at the first error |
| Structure.Create | src/db/structure.rs:20-64 | a new project has empty tables and a settings table holding the version and the default settings |
| Structure.CreatedSettingsAreDefault | src/db/structure.rs:231-244 | the settings read back from a new project are the defaults |
| Import.ImportFile | src/db/migrate.rs:18-37 | the file loads exactly when its version reads and lies in the window and loading succeeds; a version outside the window gives `UnsupportedProjectVersion` |
| Import.SupportedRank | src/db/migrate.rs:18-31 | the window in numbers: the version's base-256 rank lies between those of 0.9.0 and the build |
| Import.ImportOwnVersion | src/db/migrate.rs:29-34 | a file written by this build is loaded whenever the build is 0.9.0 or newer |
| Import.ImportRefused | src/db/migrate.rs:31-37 | versions older than 0.9.0 or newer than the build are refused whatever the file holds |
| Import.ImportRefusesSqliteEra | src/db/migrate.rs:18-37 | the 0.8.x versions are below the window |
| Import.TransferLoop | src/db/migrate.rs:52-57 | the loop adds item by item, keeping the target after a failed addition |
| Import.TransferConcat | src/db/migrate.rs:52-57 | transferring two runs is transferring the first, then the second onto the result |
| Import.SkipThenContinue | src/db/migrate.rs:54-72 | an item that fails leaves no trace on the rest of the transfer |
| Import.TransferAllRefused | src/db/migrate.rs:54-56 | items that all fail leave the target as it was |
| Import.TransferKeeps | src/db/migrate.rs:52-74 | whatever a successful addition preserves holds of the transferred target |
| Import.ConvertAll | src/db/migrate.rs:68-69 | the conversion panics exactly when one book's conversion does; otherwise every book converted in order |
| Import.FromDb | src/db/migrate.rs:42-77 | the three loops give the described transfer outcome |
| Import.BooksLoop | src/db/migrate.rs:68-74 | the books loop converts then adds each book, ending everything when a conversion panics |
| Import.ConvertAllAborts | src/db/migrate.rs:68-69 | one book that cannot convert makes the whole conversion panic |
| Import.FromDbAborts | src/db/migrate.rs:42-77 | the transfer panics exactly when every query succeeds and some book has a deadline that is not a date |
| Import.FromDbKeeps | src/db/migrate.rs:42-77 | a transferred project has the old settings converted, and every table keeps what its `add` keeps |
| Import.FromDbSkipsUser | src/db/migrate.rs:60-65 | a refused user is skipped and the users after it transfer as if it were absent |
| SortedQueue.Reverse | src/db/sorted.rs:55-58 | `Less` and `Greater` swap and `Equal` stays |
| SortedQueue.MinIndex | src/db/sorted.rs:27-58 | a position of an item no item of the sequence is smaller than |
| SortedQueue.RemoveAt | src/db/sorted.rs:27-29 | one item fewer, and exactly that item missing from the multiset |
| SortedQueue.Sorted.constructor | src/db/sorted.rs:13-18 | an empty container for the comparison |
| SortedQueue.Sorted.Push | src/db/sorted.rs:20-25 | the item joins the held multiset and the length grows by one |
| SortedQueue.Sorted.Pop | src/db/sorted.rs:27-58 | `None` when empty; otherwise an item no held item is smaller than, taken out of the multiset |
| SortedQueue.Sorted.Len | src/db/sorted.rs:31-33 | the number of held items |
| SortedQueue.Sorted.IsEmpty | src/db/sorted.rs:35-37 | empty exactly when the length is zero |
| SortedQueue.Sorted.SizeHint | src/db/sorted.rs:85-88 | both bounds equal the number of items left |
| SortedQueue.Sorted.Drain | src/db/sorted.rs:40-84 | iterating yields every held item exactly once, in non-decreasing order, and leaves the container empty |
| SortedQueue.AfterLowest | src/db/sorted.rs:79-84 | taking out the lowest item keeps what was yielded ascending and no later than what is left |
| MarcRecords.FindCode | src/provider/marc21.rs:105-108 | the position of the first subfield with the code, or none when no subfield has it |
| MarcRecords.SubfieldText | src/provider/marc21.rs:105-111 | the text of the first subfield with the code, without control characters; none when no subfield has the code or that first one has no text |
| MarcRecords.Found | src/provider/marc21.rs:69-86 | an optional text pushed onto a list adds at most one item |
| MarcRecords.Reformat | src/provider/marc21.rs:94-101 | every author name rewritten, in order, none added or lost |
| MarcRecords.ParseRecord | src/provider/marc21.rs:60-103 | the scan and the in-place rewriting give the described record |
| MarcRecords.CollectSnoc | src/provider/marc21.rs:63-90 | one more field adds its own list entries at the end |
| MarcRecords.StepLists | src/provider/marc21.rs:67-89 | the lists one datafield contributes to |
| MarcRecords.FieldsLists | src/provider/marc21.rs:63-90 | the ISBNs are the 020 and 024 `$a` texts, the authors the 100 `$a` texts and the persons the 700 `$a` texts, each in document order |
| MarcRecords.RecordLists | src/provider/marc21.rs:60-103 | a record's ISBNs are its 020/024 `$a` texts; its authors come from 100 `$a`, or from 700 `$a` when there is none |
| MarcRecords.NoPublisher | src/provider/marc21.rs:87 | fields other than 264 with a `$b` leave the publisher alone |
| MarcRecords.LastPublisher | src/provider/marc21.rs:87 | the publisher is the `$b` of the last 264 field that has one |
| MarcRecords.NoTitle | src/provider/marc21.rs:73-84 | only 245 fields touch the title |
| MarcRecords.LastTitle | src/provider/marc21.rs:73-84 | the title comes from the last 245 field when it has a `$a` |
| MarcRecords.TitleRule | src/provider/marc21.rs:25-84 | the part is appended exactly when the title is shorter than 16 bytes and the part is present and non-empty |
| MarcRecords.LongTitleKept | src/provider/marc21.rs:25-76 | a title of 16 bytes or more never gets its part |
| MarcRecords.ShortTitleGetsPart | src/provider/marc21.rs:76-82 | a title under 16 bytes gets a non-empty part appended after ` - ` |
| MarcRecords.EragonTitle | src/provider/marc21.rs:131-144 | `Eragon` is short, so its part is appended |
| MarcRecords.FirstMatch | src/provider/marc21.rs:42 | the first record that lists the ISBN, or none when no record does |
| MarcRecords.Select | src/provider/marc21.rs:34-51 | the data of the first record that lists the ISBN; without one, the first record's; with no record, nothing |
| MarcRecords.ParseAll | src/provider/marc21.rs:40-41 | every raw record parsed, in order |
| MarcRecords.SelectFirst | src/provider/marc21.rs:40-48 | the early-return loop gives the selected record |
| MarcRecords.Lookup | src/provider/marc21.rs:31-52 | malformed XML fails as such; no `records` element or an empty one gives nothing found; otherwise the selected data |
| MarcRecords.Parse | src/provider/marc21.rs:31-52 | the document and the record loop give the described lookup |
| Marc21.Reversed | src/provider/marc21.rs:97 | the parts in reverse order |
| Marc21.TrimAll | src/provider/marc21.rs:98 | every part trimmed |
| Marc21.ReverseName | src/provider/marc21.rs:96-100 | a name without a comma is only trimmed |
| Marc21.ReverseNameOf | src/provider/marc21.rs:94-100 | `surname, forename` becomes `forename surname` |
| Marc21.ReverseNameOfThree | src/provider/marc21.rs:96-100 | with three parts all of them are turned around |
| Marc21.Outcome | src/provider/marc21.rs:31-52 | malformed XML gives `InvalidFormat`, no records `NothingFound`, otherwise the selected record |
| Marc21.Parse | src/provider/marc21.rs:31-52 | the loop gives that outcome |
| Dnb.SwapName | src/provider/dnb.rs:182-187 | a name without a comma is kept as it is |
| Dnb.SwapNameOf | src/provider/dnb.rs:182-187 | split at the first comma, `surname, forename` becomes `forename surname` with both halves trimmed |
| Dnb.RecordOf | src/provider/dnb.rs:119-189 | a record element without `recordData/record` is the empty record; otherwise the scanned fields with names swapped |
| Dnb.Single | src/provider/dnb.rs:91-111 | malformed XML gives `InvalidFormat`, no records `NothingFound`, otherwise the selected record |
| Dnb.ParseSingle | src/provider/dnb.rs:91-111 | the loop gives that outcome |
| Dnb.EmptyFirstRecordWins | src/provider/dnb.rs:104-130 | an empty first record element counts as a result, so the answer is empty book data rather than `NothingFound` |
| Dnb.MatchWins | src/provider/dnb.rs:100-103 | the first record that lists the ISBN is the answer, wherever it stands |
| BookDnb.Request | src/provider/book/dnb.rs:15-23 | without a token the answer is a network error; a failed request passes its error on; an answer is parsed |
| BookDnb.FirstRecordMatches | src/provider/book/dnb.rs:52-73 | a well-formed answer whose first record lists the ISBN gives that record's data |
| CsvUsers.Column | src/provider/user/csv.rs:48-59 | a configured column exists exactly when the row is long enough; it is trimmed; otherwise `InvalidArguments` |
| CsvUsers.UserFrom | src/provider/user/csv.rs:46-60 | a row gives a user exactly when it has the forename, surname and role columns, each trimmed |
| CsvUsers.Find | src/provider/user/csv.rs:38-64 | a found user carries the requested account; when every row is read and differs, `NothingFound` |
| CsvUsers.FindFirst | src/provider/user/csv.rs:38-61 | the first row whose trimmed account matches decides, provided every row before it was read and differs |
| CsvUsers.Request | src/provider/user/csv.rs:32-65 | the loop with its early returns gives the described lookup |
| CsvUsers.Collect | src/provider/user/csv.rs:76-99 | no more users than rows, and every user has one of the requested accounts |
| CsvUsers.BulkRequest | src/provider/user/csv.rs:67-102 | the one-pass loop gives the described collection |
| CsvUsers.BulkFirstIsRequest | src/provider/user/csv.rs:38-99 | the first user of a bulk request is what a single request for its account returns |
| CsvUsers.BulkFileOrder | src/provider/user/csv.rs:155-172 | users asked for in the opposite order come back in file order |
| CsvUsers.Collected | src/provider/user/csv.rs:82-98 | a requested row puts its user in front of the rest |
| CsvUsers.DefaultColumns | src/provider/user/csv.rs:17-153 | with the default settings the account is column 0 and forename, surname and role columns 1 to 3 |
| UserProviderApi.DelimiterFrom | src/api/user_provider.rs:8-20 | accepted exactly when the text is one ASCII character, giving its byte; otherwise `InvalidLength` with the UTF-8 length and 1 |
| UserProviderApi.DelimiterTo | src/api/user_provider.rs:22-27 | one character |
| UserProviderApi.DelimiterRoundTrip | src/api/user_provider.rs:8-27 | an ASCII delimiter survives the trip to the interface and back |
| UserProviderApi.DelimiterTextRoundTrip | src/api/user_provider.rs:8-27 | every accepted text comes back unchanged |
| UserProviderApi.DelimiterNonAscii | src/api/user_provider.rs:11-25 | a byte above 0x7F becomes U+FFFD, three bytes long, and is refused |
| UserProviderApi.UserCsvProvider.constructor | src/api/user_provider.rs:47-51 | the default provider settings |
| UserProviderApi.UserCsvProvider.Request | src/api/user_provider.rs:53-61 | a blank account is `InvalidArguments`; otherwise the file lookup of the trimmed account |
| UserProviderApi.UserCsvProvider.BulkRequest | src/api/user_provider.rs:63-71 | the file lookup of every account, trimmed |
| UserProviderApi.UserCsvProvider.GetPath | src/api/user_provider.rs:108-110 | the configured path |
| UserProviderApi.UserCsvProvider.SetPath | src/api/user_provider.rs:112-114 | only the path changes, and reads back as set |
| UserProviderApi.UserCsvProvider.GetDelimiter | src/api/user_provider.rs:116-118 | the text the interface receives converts back to the stored delimiter |
| UserProviderApi.UserCsvProvider.SetDelimiter | src/api/user_provider.rs:82-122 | an accepted text sets the delimiter and reads back as set; a refused one leaves everything as it was |
| UserProviderApi.UserCsvProvider.GetColumn | src/api/user_provider.rs:124-150 | each column index cast to `i64` |
| UserProviderApi.UserCsvProvider.SetColumn | src/api/user_provider.rs:128-154 | the value cast to `usize`; the getter gives back exactly what was set and nothing else changes |
| UserProviderApi.TrimAll | src/api/user_provider.rs:69 | every account trimmed, in order |
| UserProviderApi.RequestTrimmed | src/api/user_provider.rs:55 | asking with surrounding whitespace is asking for the trimmed account |
| UserProviderApi.BulkAccountsRequested | src/api/user_provider.rs:63-71 | every user returned carries one of the requested accounts, trimmed |
| UserFile.Field | src/provider/user.rs:17-23 | a column exists exactly when the row is long enough; it is trimmed; otherwise `InvalidFormat` |
| UserFile.ParseRecord | src/provider/user.rs:41-49 | a row of at least four columns gives its trimmed columns as a user who may borrow; a shorter one `InvalidFormat` |
| UserFile.Reader | src/provider/user.rs:102-110 | a non-ASCII delimiter is refused with `Arguments` before the file is opened; otherwise the file or its error |
| UserFile.RolesFrom | src/provider/user.rs:30-37 | every account seen before keeps its role, and every row has its trimmed account in the result |
| UserFile.LoadRoles | src/provider/user.rs:26-39 | the loop gives the described map |
| UserFile.RolesFirstWins | src/provider/user.rs:34-36 | the first row of an account decides its role |
| UserFile.UsersFrom | src/provider/user.rs:55-57 | one user per row |
| UserFile.UsersParsed | src/provider/user.rs:55-57 | each user is the one its row, in the same position, was read as |
| UserFile.UsersFirstError | src/provider/user.rs:55-57 | the first bad row's error is the answer |
| UserFile.LoadAll | src/provider/user.rs:52-59 | the loop gives the described users |
| UserFile.GetFrom | src/provider/user.rs:64-70 | a found user carries the trimmed account; when no row's raw account column equals it, `NothingFound` |
| UserFile.GetUser | src/provider/user.rs:62-71 | the loop gives the described lookup |
| UserFile.GetIsNotTrimmed | src/provider/user.rs:66 | an account column with whitespace around it is not found by the trimmed account |
| UserFile.CompareTextFlip | src/provider/user.rs:82 | comparing the other way round gives the reverse order |
| UserFile.CompareTextTransitive | src/provider/user.rs:82 | the text order is transitive |
| UserFile.CompareTextEqual | src/provider/user.rs:82 | texts compare equal exactly when they are equal |
| UserFile.ByScoreTotal | src/provider/user.rs:79-83 | higher score first, then by account, is a total order |
| UserFile.Kept | src/provider/user.rs:84-94 | no more candidates than users |
| UserFile.SelectedLength | src/provider/user.rs:95-99 | as many users as asked for, or all candidates when there are fewer |
| UserFile.SelectedFirst | src/provider/user.rs:95-99 | every user returned comes no later in search order than every user left out |
| UserFile.Search | src/provider/user.rs:74-100 | a file error passes on; otherwise the first `count` candidates in search order |
| UserFile.PushAll | src/provider/user.rs:84-94 | every user read is pushed with its score, unless the query is not blank and the score is zero; a bad row ends it with its error |
| Base64.CharOf | src/server/auth.rs:159-161 | an alphabet character is never the padding character |
| Base64.ValueOf | src/server/auth.rs:144-148 | a character with a value is that value's character; padding has none |
| Base64.ValueOfCharOf | src/server/auth.rs:144-161 | every 6-bit value reads back from its character |
| Base64.EncodeLength | src/server/auth.rs:159-161 | four characters for every started group of three bytes |
| Base64.DecodeGroup | src/server/auth.rs:144-148 | four alphabet characters decode to their three bytes in front of what the rest decodes to |
| Base64.DecodeChars | src/server/auth.rs:144-148 | the characters of four values decode to their block |
| Base64.EncodeBlockStep | src/server/auth.rs:144-161 | one full block in front of bytes that survive the round trip survives too |
| Base64.DecodeEncode | src/server/auth.rs:144-161 | decoding an encoding gives the bytes back |
| Base64.EncodeDecode | src/server/auth.rs:144-161 | only canonical text decodes: encoding what was decoded gives the text back |
| Base64.OnlyAlphabet | src/server/auth.rs:159-161 | an encoding holds only alphabet characters and padding |
| Auth.ToCookie | src/server/auth.rs:135-161 | the cookie of a 32-byte session is 44 characters |
| Auth.FromCookie | src/server/auth.rs:144-158 | accepted exactly when the text is Base64 of exactly 32 bytes; every refusal is `Network` |
| Auth.CookieRoundTrip | src/server/auth.rs:144-161 | every session survives the trip through its cookie |
| Auth.CookieCanonical | src/server/auth.rs:144-161 | an accepted cookie is exactly the cookie of the session it names |
| Auth.SplitHeader | src/server/auth.rs:224-227 | the header splits at its first `=` and first `;` into name, value and attributes |
| Auth.SetCookieValue | src/server/auth.rs:28-229 | the cookie value of the `Set-Cookie` header, between the first `=` and the first `;`, is the session's cookie |
| Auth.Check | src/server/auth.rs:266-281 | the login is granted exactly when the cookie names a stored session whose expiry is not before `now`; it is that session's login |
| Auth.CheckAsWritten | src/server/auth.rs:273-276 | as written, a request gets no answer exactly when its cookie names a stored session past its expiry, the case in which the intended check removes a session; every other request gets the intended answer |
| Auth.ExpiredNeverAnswered | src/server/auth.rs:273-276 | as written, a stored session past its expiry and not yet swept never gets an answer |
| Auth.Checked | src/server/auth.rs:273-277 | the check removes at most one entry and changes none |
| Auth.Swept | src/server/auth.rs:45-61 | exactly the sessions expiring after `now` are kept, unchanged |
| Auth.LoggedOut | src/server/auth.rs:181-190 | no cookie leaves the table alone; a cookie that is not a session is `Network`; nothing is added or changed |
| Auth.NewSessionLifetime | src/server/auth.rs:30-280 | a new session is accepted with its cookie until its expiry second, seven days on, and refused after it |
| Auth.ExpiredRemoved | src/server/auth.rs:274-277 | as intended (see Findings): an expired session is refused and removed by the request that finds it |
| Auth.SweepInvisible | src/server/auth.rs:57-280 | a sweep changes no later answer |
| Auth.LogoutEnds | src/server/auth.rs:185-274 | after logging out, the cookie no longer opens a session |
| Auth.OAuthState.constructor | src/server/auth.rs:98-102 | no sessions yet |
| Auth.OAuthState.Authorized | src/server/auth.rs:220-241 | the session is stored with the login and an expiry seven days on; the `Set-Cookie` header is returned unless the session was already stored |
| Auth.OAuthState.Sweep | src/server/auth.rs:45-61 | the table becomes the swept table |
| Auth.OAuthState.Logout | src/server/auth.rs:181-190 | the table becomes the logged-out table, or stays as it was with the error |
| Auth.FromRequestParts | src/server/auth.rs:253-281 | as intended (see Findings): without OAuth everyone is the empty login; with it, the answer of the check, an expired session being removed |
| ProjectApi.Project.constructor | src/api/project.rs:18-24 | no project open |
| ProjectApi.Project.GetDb | src/api/project.rs:27-29 | the database when one is open, `NoProject` otherwise |
| ProjectApi.Project.Close | src/api/project.rs:89-92 | database and cached settings dropped |
| ProjectApi.Project.Open | src/api/project.rs:59-65 | a failed open leaves the project closed with the error; otherwise the database is held, its settings cached, and whether it was migrated returned |
| ProjectApi.Project.Create | src/api/project.rs:69-75 | a failed create leaves the project closed with the error; otherwise the new database is held and its settings cached |
| ProjectApi.Project.Path | src/api/project.rs:79-85 | the file of the open project, or the empty string |
| ProjectApi.Project.SettingsGet | src/api/project.rs:257-259 | the cached settings, `NoProject` while closed |
| ProjectApi.Project.SettingsUpdate | src/api/project.rs:263-269 | while closed, `NoProject` and nothing changes; otherwise the cache holds the settings with every text trimmed, as a fresh read gives |
| ProjectApi.Project.Cache | src/api/project.rs:267 | only the cache changes, to the settings read back |
| ProjectApi.WriteAndReload | src/api/project.rs:265-267 | the settings read back after the write are the written settings trimmed |
| ProjectApi.ClosedAnswers | src/api/project.rs:27-259 | a closed project answers `NoProject` to every database call and to the settings, and has an empty path |
| ProjectApi.OpenSettingsFresh | src/api/project.rs:59-269 | while a project is open, the cached settings are what reading the database would give |
| JsValues.StrictEquals | lib-view/src/lib/index.ts:2-3 | `===` on a non-object operand: true only for equal values, and for every equal pair except NaN |
| JsValues.Lookup | lib-view/src/lib/index.ts:14 | a property the object lacks reads as `undefined` |
| JsValues.LookupOwn | lib-view/src/lib/index.ts:13-14 | every property of an object reads back as its own value |
| JsValues.LookupFound | lib-view/src/lib/index.ts:14 | a present property is found under its name |
| JsValues.NumberToString | lib-view/src/lib/api.ts:300 | a number prints as non-empty text; the text reads back as an integer exactly when the number is an exact integer, and then as that integer |
| JsValues.ToStringEmpty | lib-view/src/lib/api.ts:300 | only the empty string prints as nothing; `false`, `0` and NaN do not |
| ClientIndex.KeysEqualAll | lib-view/src/lib/index.ts:13-19 | the loop with early exit holds exactly when every key compares equal |
| ClientIndex.ObjectsEqual | lib-view/src/lib/index.ts:6-19 | two objects are equal exactly when they have as many keys and each key of the first holds, recursively, what the second holds under it, a missing key reading as `undefined` |
| ClientIndex.PrimitiveEqual | lib-view/src/lib/index.ts:2-4 | when either side is not an object or is `null`, equality is `===` |
| ClientIndex.NotSymmetric | lib-view/src/lib/index.ts:6-19 | `{x: undefined}` equals `{y: 1}`, but not the other way round |
| ClientIndex.NaNNotReflexive | lib-view/src/lib/index.ts:2-14 | NaN equals nothing, alone or inside an object |
| ClientIndex.Reflexive | lib-view/src/lib/index.ts:1-20 | every value without NaN equals itself |
| ClientIndex.KeysPresent | lib-view/src/lib/index.ts:9-17 | when no property holds `undefined`, equal objects have the same keys |
| FormUrlencoded.CharBytes | lib-view/src/lib/api.ts:302 | the UTF-8 encoding of a character is as long as its width |
| FormUrlencoded.Utf8Encode | lib-view/src/lib/api.ts:302 | the encoding of a text is as long as its UTF-8 length |
| FormUrlencoded.Utf8EncodeConcat | lib-view/src/lib/api.ts:302 | encoding distributes over concatenation |
| FormUrlencoded.DecodeFirst | lib-view/src/lib/api.ts:302 | a decoded character takes at least one byte and no more than there are |
| FormUrlencoded.DecodeCharBytes | lib-view/src/lib/api.ts:302 | each character's encoding decodes back to it, whatever follows |
| FormUrlencoded.Utf8RoundTrip | lib-view/src/lib/api.ts:302 | decoding undoes encoding |
| FormUrlencoded.Utf8EncodeAscii | lib-view/src/lib/api.ts:302 | an ASCII text encodes to its own code points |
| FormUrlencoded.HexDigit | lib-view/src/lib/api.ts:302 | a hexadecimal digit is ASCII |
| FormUrlencoded.HexValue | lib-view/src/lib/api.ts:302 | a hexadecimal digit's value is below 16 |
| FormUrlencoded.EncodeByte | lib-view/src/lib/api.ts:302 | a byte's encoding is ASCII without `&` or `=` |
| FormUrlencoded.PercentEncode | lib-view/src/lib/api.ts:302 | an encoding is ASCII without `&` or `=` |
| FormUrlencoded.EncodeText | lib-view/src/lib/api.ts:302 | an encoded text holds no `&` and no `=` |
| FormUrlencoded.PlusToSpace | lib-view/src/lib/api.ts:302 | every `+` byte becomes a space, every other byte stays |
| FormUrlencoded.DecodeByte | lib-view/src/lib/api.ts:302 | one byte's encoding reads back as the byte, whatever follows |
| FormUrlencoded.PercentRoundTrip | lib-view/src/lib/api.ts:302 | percent-decoding undoes percent-encoding |
| FormUrlencoded.TextRoundTrip | lib-view/src/lib/api.ts:302 | every text survives serialization and parsing, spaces, `+`, `&`, `=`, `%` and non-ASCII characters included |
| FormUrlencoded.EncodePair | lib-view/src/lib/api.ts:302 | an encoded pair holds no `&` |
| FormUrlencoded.EncodePairs | lib-view/src/lib/api.ts:302 | every pair encoded, in order |
| FormUrlencoded.ParseEncodedPair | lib-view/src/lib/api.ts:302 | one encoded pair reads back as itself |
| FormUrlencoded.ParseEncodedPieces | lib-view/src/lib/api.ts:302 | encoded pairs read back as themselves, in order |
| FormUrlencoded.ParseSerialize | lib-view/src/lib/api.ts:302 | parsing the serialized pairs gives back every pair, in order |
| ClientApi.Kept | lib-view/src/lib/api.ts:298-301 | no more pairs than properties |
| ClientApi.QueryStr | lib-view/src/lib/api.ts:296-305 | `''` for `null` or `undefined`; for an object, `?` followed by the kept pairs serialized |
| ClientApi.KeptMembers | lib-view/src/lib/api.ts:299-300 | a key is kept exactly when its value is neither `null` nor `undefined`, and then with its value's text |
| ClientApi.KeptOrder | lib-view/src/lib/api.ts:299-300 | kept pairs keep the order of their keys |
| ClientApi.KeptContains | lib-view/src/lib/api.ts:299-300 | every key with a value other than `null` and `undefined` has its pair kept |
| ClientApi.QueryReadBack | lib-view/src/lib/api.ts:296-305 | the server reads back from the query exactly the kept pairs, in order, empty strings, `0` and `false` included |
| ClientApi.AllNullishBareMark | lib-view/src/lib/api.ts:297-302 | an object whose every value is `null` or `undefined` yields the bare `?` |
| ClientApi.AllNullishNothingKept | lib-view/src/lib/api.ts:299-300 | nothing is kept from such an object |
| ClientApi.FetchApi | lib-view/src/lib/api.ts:281-294 | `undefined` exactly when the `Content-Length` is `'0'`; otherwise the JSON body or its parse failure |
| ClientApi.ErrorBodyIsValue | lib-view/src/lib/api.ts:279-294 | an error answer comes back as a value like any other, the error's string |
| ClientApi.BookStateFromValue | lib-view/src/lib/api.ts:175-196 | a state found for a value has that value |
| ClientApi.BookStateRoundTrip | lib-view/src/lib/api.ts:175-196 | every state's value names it back |
| ClientApi.ErrorFromValue | lib-view/src/lib/api.ts:205-274 | an error found for a value has that value |
| ClientApi.FirstNamed | lib-view/src/lib/api.ts:205-274 | the error found is in the list and has the value; none found means no error in the list has it |
| ClientApi.ErrorRoundTrip | lib-view/src/lib/api.ts:205-274 | every error's value names it back |
| ClientApi.ErrorValueInjective | lib-view/src/lib/api.ts:205-274 | no two errors share a value |

## Left out

- HTTP routing, serving and the network: the DNB and browser `fetch` calls are parameters, and their answers enter as values. `Dnb.query` is not part of this model.
- OAuth: the code exchange, random session generation, the `RwLock` around the session table and the `tokio` timer are not modelled. The session, the login and the current time are parameters.
- Locking: the `RwLock` itself is not modelled. Where the extractor asks for the write lock while holding the read guard, the request is taken to get no answer (see Findings); the rest of the model uses the intended order, read guard released first.
- Session expiry: `now + SESSION_EXPIRE_SEC` is not checked for overflow past `u64`.
- Base64 decoding: the 40-byte output buffer of `from_cookie` is not modelled. Longer input is refused either way.
- Cookie headers: the parse of the `Cookie` header is represented as the `SESSION` cookie value, or its absence.
- Clock: `today`, `now` and `date('now')` are parameters.
- SQL engine: tables are sequences of rows and transactions are compute-then-commit, so a failed statement leaves the database as it was. `LIKE` is modelled with `%`, `_` and ASCII case folding, without an `ESCAPE` clause; for a needle without wildcards, `LIKE '%x%'` is case-insensitive substring containment. The order of rows without `order by` is abstract.
- SQL errors: an `SQLError` from SQLite itself is not modelled. Only primary-key clashes fail.
- Statistics.Query: the `SQLError` path for a missing row cannot happen, since an aggregate query always yields one row, so the query always succeeds.
- ProjectApi.Project.SettingsUpdate: a write or read-back failure cannot happen in the model, so the update always succeeds while a project is open.
- ProjectApi.Project.Open: reading the settings after opening cannot fail in the model.
- Opening and creating project files: `Database::open` and `create` are file-system work, and their outcomes are parameters. The file-existence checks are not modelled.
- Project metadata: `version` and `about` return the package constants and are not modelled.
- Settings: the settings table is held by key. `PKG_VERSION` is a parameter.
- Legacy conversions: the `unwrap` of a book's deadline panics on a deadline that does not parse; the model gives `None` there. The settings conversion `as _` of the loan duration is taken as exact.
- Structure: `unescape` is modelled for the simple escapes and `\uXXXX`. The pattern `accessToken~(\w+)/` is a leftmost match with ASCII word characters. Resolving the user file against the project directory is the `resolve` parameter. The old properties file enters as its list of key/value pairs.
- SemVer: the JSON form of a version is a string literal without escape sequences, which a version never needs; escaped spellings of a version are refused.
- Import: the choice between a `.db` and a JSON project file, and the reading of the JSON file, are parameters.
- Floating point: `parse_costs` and the DM-to-EUR rounding in the three MARC readers are not modelled. The price is not part of the model's book data.
- Unicode: NFC normalisation is the identity. NFD is modelled only for umlauts and `ß`. Control characters are removed by code point.
- XML: a record is the list of its `datafield` elements in document order. Whether they are children or deeper descendants of the record element is not distinguished.
- MARC readers: the `parse`, `parse_record` and `subfield` functions of `src/provider/book/dnb.rs` are textually those of `src/provider/marc21.rs`, so both share the `Marc21` and `MarcRecords` model.
- Provider errors: `NetworkError` and `InvalidArguments` come from an older revision of `api::Error`, modelled in `ProviderApi`.
- CSV: the reader is a parameter. A file is the list of its rows, each read or failed. With headers on, the first row is dropped, whatever it holds.
- Fuzzy search: the fuzzy matcher of `src/fuzzy.rs` is the parameter `score`. Its `u32` score is a `nat`.
- Godot variants: the `delimiter` property is converted from and to a string only; a variant of another type is not modelled.
- SortedQueue.Sorted.Pop: the binary heap is a sequence plus a scan for a minimum. Which of several tied minima comes out is left open, where the heap fixes one.
- JavaScript values: functions, symbols and big integers are not modelled. Numbers are integers, NaN and the infinities; fractions and `-0` are not modelled.
- JsValues.ToString: `toString` of arrays is not modelled.
- JsValues.NumberToString: numbers are NaN, the infinities and the integers of magnitude at most 2^53, which a double holds exactly and which print as plain decimals. Fractions and larger doubles, which print with a point or in exponent form from 10^21 on, are not modelled.
- Property reads: properties inherited through the prototype chain are not modelled.
- UTF-8: the parser decodes strictly where the URL Standard substitutes U+FFFD. The serializer never produces malformed input. Lone surrogates are not modelled.
- JsValues.StrictEquals: two objects are compared by identity, which values do not carry, so `===` is modelled only when at least one operand is not an object.
- ClientApi.QueryStr: the object's keys are distinct, as in every JavaScript object.
- Query strings: the code keeps empty strings in the query and drops only `null` and `undefined`. The model follows the code.
- Logging: the log messages of the error conversions are not modelled.
- Integer overflow: the `+ 1` after the `i64` read in `medium_generate_id` is modelled as a release build computes it, wrapping `i64::MAX` around to `i64::MIN` (`Ints.WrappingInc`). A debug build panics there instead.
- Out of scope: e-mail and SMTP, the Godot registration glue, the row-decoding glue, the UI, the build and the entry points.

## Findings

| source | as written | input that shows it | evidently intended | confidence | as-written member | corrected member |
|---|---|---|---|---|---|---|
| src/db/book.rs:385-387 | the id is sliced by bytes at `prefix.len()`, which panics when that byte is inside a multi-byte character | prefix `FANT ABED`, id `FANT ABEDé` | keep the id exactly when it is the prefix, a space and more text; any other id gets a new number | not executed | Books.KeepsIdAsWritten | Books.KeepsId |
| src/db/medium.rs:53-55, 213-220 | the highest number in use is the text maximum of the id suffixes, so `9` beats `10` | media `<prefix> 9` and `<prefix> 10`: the id proposed is `<prefix> 10`, which is taken | number one past the numeric maximum, giving an unused id | not executed | MediumTable.GenerateIdAsWritten | MediumTable.GenerateId |
| src/db/user.rs:39 | the borrower is cleared where the reservation names no user; after line 38 every empty reservation qualifies | a book lent to existing user `alice` without a reservation loses its borrower when any user is deleted | clear the borrower where the borrower names no user | not executed | UserTable.ClearReferencesAsWritten | UserTable.ClearReferences |
| src/server/auth.rs:273-276 | the write lock on the session table is requested while the read guard of the lookup is still alive, which blocks for good or panics | a request carrying a stored session whose expiry has passed but that the daily sweep has not yet removed | release the read guard, then remove the session and redirect to the login | not executed | Auth.CheckAsWritten | Auth.Check |
