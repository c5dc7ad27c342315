/**
 * The medium table of the revision built on the `sqlite` crate: the id
 * prefix made by a chain of character replacements, the generation of an
 * unused id, adding, updating and deleting a medium with its author rows,
 * and the simple search over six columns. Values are stored as given,
 * without trimming or validation.
 */
module MediumTable {
  import opened Wrappers
  import opened Text
  import opened Schema
  import Sql
  import Books
  import Ints

  /** `DBMedium`: a medium row together with its author names. */
  datatype DBMedium = DBMedium(
    id: String,
    isbn: String,
    title: String,
    publisher: String,
    year: int,
    costs: real,
    note: String,
    borrowable: bool,
    category: String,
    authors: seq<String>,
    borrower: String,
    deadline: String,
    reservation: String)

  // ------------------------------------------------------------ id prefix

  /** `str::replace(chars, to)`: every character of the set replaced by `to`. */
  function ReplaceChars(s: String, from: set<char>, to: char): (r: String)
    ensures |r| == |s|
    ensures forall i | 0 <= i < |s| :: r[i] == if s[i] in from then to else s[i]
  {
    if s == [] then [] else [if s[0] in from then to else s[0]] + ReplaceChars(s[1..], from, to)
  }

  /** `replace(|x| !x.is_ascii_alphabetic(), "")`. */
  function KeepAlphabetic(s: String): (r: String)
    ensures |r| <= |s|
    ensures forall i | 0 <= i < |r| :: IsAsciiAlphabetic(r[i])
    ensures (forall i | 0 <= i < |s| :: IsAsciiAlphabetic(s[i])) ==> r == s
  {
    if s == [] then []
    else if IsAsciiAlphabetic(s[0]) then [s[0]] + KeepAlphabetic(s[1..])
    else KeepAlphabetic(s[1..])
  }

  /** The umlauts and 'ß' replaced by their base letters, one replacement after the other. */
  function Replaced(s: String): (r: String)
    ensures |r| == |s|
  {
    ReplaceChars(ReplaceChars(ReplaceChars(ReplaceChars(s, {'ä', 'Ä'}, 'A'), {'ö', 'Ö'}, 'O'), {'ü', 'Ü'}, 'U'), {'ß'}, 'S')
  }

  /** The letters the replacement chain and the filter keep, upper-cased. */
  function AuthorLetters(surname: String): String {
    UpperAscii(KeepAlphabetic(Replaced(surname)))
  }

  /** What the chain does to one character, against the decomposition of the later revision. */
  lemma ReplacedHead(s: String)
    requires s != []
    ensures Replaced(s)[1..] == Replaced(s[1..])
    ensures IsAsciiAlphabetic(Replaced(s)[0]) <==> IsAsciiAlphabetic(Books.BaseLetter(s[0]))
    ensures IsAsciiAlphabetic(Replaced(s)[0]) ==> ToAsciiUpper(Replaced(s)[0]) == ToAsciiUpper(Books.BaseLetter(s[0]))
  {
  }

  /**
   * The replacement chain keeps the same letters as the decomposition of
   * the later revision, under the model's NFD, which decomposes only the
   * umlauts and maps `ß` to `S` (see `Books.BaseLetter`); for other
   * accented letters the two revisions differ.
   */
  lemma {:induction false} AuthorLettersAgree(s: String)
    ensures AuthorLetters(s) == Books.Letters(s)
  {
    if s != [] {
      AuthorLettersAgree(s[1..]);
      ReplacedHead(s);
      var t := Replaced(s);
      if IsAsciiAlphabetic(t[0]) {
        var k := KeepAlphabetic(t[1..]);
        assert KeepAlphabetic(t) == [t[0]] + k;
        assert UpperAscii([t[0]] + k) == [ToAsciiUpper(t[0])] + UpperAscii(k);
      }
    }
  }

  /**
   * `id_prefix`: the category as given, a space, and the abbreviation of
   * the text after the last space of the author: the same abbreviation as
   * the later revision, but the category is not replaced when empty.
   */
  function IdPrefix(author: String, category: String): (r: String)
    ensures r == category + " " + Books.Abbreviation(author)
  {
    var surname := match FindLastChar(author, ' ') case Some(i) => author[i + 1..] case None => author;
    assert surname == Books.Surname(author);
    var letters := AuthorLetters(surname);
    AuthorLettersAgree(surname);
    var abbreviation := if letters == [] then "XXXX" else if |letters| <= 4 then letters else letters[..4];
    category + " " + abbreviation
  }

  /** The prefixes `id_prefix` is documented to produce. */
  lemma IdPrefixExamples()
    ensures IdPrefix("Isabel" + " " + "Abedi", "FANT") == "FANT" + " " + "ABED"
    ensures IdPrefix("Isabel" + " " + "Äbedi", "FANT") == "FANT" + " " + "ABED"
  {
    Books.AbbreviationOfSurname("Isabel", "Abedi");
    Books.AbbreviationOfSurname("Isabel", "Äbedi");
    Books.AbbreviationAbedi();
  }

  lemma IdPrefixBaeumerExample()
    ensures IdPrefix("Remigius" + " " + "Bäumer", "RErk") == "RErk" + " " + "BAUM"
  {
    var author := "Remigius" + " " + "Bäumer";
    Books.AbbreviationOfSurname("Remigius", "Bäumer");
    Books.AbbreviationBaeumer();
    assert Books.Abbreviation(author) == "BAUM";
  }

  lemma IdPrefixWordExamples()
    ensures IdPrefix("", "FANT") == "FANT" + " " + "XXXX"
    ensures IdPrefix("äÖü", "FANT") == "FANT" + " " + "AOU"
  {
    Books.AbbreviationUmlauts();
  }

  /** An empty category stays empty: the prefix then starts with the space. */
  lemma IdPrefixEmptyCategory(author: String)
    ensures IdPrefix(author, "") == " " + Books.Abbreviation(author)
    ensures Books.IdPrefix(author, "") == "XXXX" + IdPrefix(author, "")
  {
    var a := Books.Abbreviation(author);
    assert Books.IdPrefix(author, "") == "XXXX" + " " + a;
    assert "" + " " + a == " " + a;
    assert "XXXX" + " " + a == "XXXX" + (" " + a);
  }

  // ------------------------------------------------------------ unused id

  /** The characters of the id from position `n` on, counted from 0. */
  function Substr(id: String, n: nat): String {
    if n <= |id| then id[n..] else []
  }

  /** The part `medium_generate_id` reads the number from: what follows the prefix, counted in bytes, and one more character. */
  function NumberText(id: String, prefix: String): String {
    Substr(id, Utf8Len(prefix) + 1)
  }

  /**
   * The greatest of the suffixes after the prefix and a space, compared as
   * TEXT over the ids that start with the prefix; `None` (SQL `NULL`) when
   * no id does.
   */
  function MaxText(media: seq<Medium>, prefix: String): (r: Option<String>)
    ensures r.None? <==> forall m | m in media :: !Sql.Like(m.id, prefix + "%")
    ensures r.Some? ==> exists m | m in media && Sql.Like(m.id, prefix + "%") :: NumberText(m.id, prefix) == r.value
  {
    if media == [] then None
    else
      var rest := MaxText(media[1..], prefix);
      assert forall m :: m in media <==> m == media[0] || m in media[1..];
      if !Sql.Like(media[0].id, prefix + "%") then rest
      else
        var v := NumberText(media[0].id, prefix);
        match rest
        case None => Some(v)
        case Some(w) => if Sql.TextLe(v, w) then Some(w) else Some(v)
  }

  /** The maximum is an upper bound of every matching suffix in text order. */
  lemma {:induction false} MaxTextIsMax(media: seq<Medium>, prefix: String, m: Medium)
    requires m in media && Sql.Like(m.id, prefix + "%")
    ensures MaxText(media, prefix).Some? && Sql.TextLe(NumberText(m.id, prefix), MaxText(media, prefix).value)
  {
    var v := NumberText(media[0].id, prefix);
    var rest := MaxText(media[1..], prefix);
    if m == media[0] {
      if rest.Some? && Sql.TextLe(v, rest.value) {
      } else {
        Sql.TextLeTotal(v, v);
      }
    } else {
      MaxTextIsMax(media[1..], prefix, m);
      if Sql.Like(media[0].id, prefix + "%") && !Sql.TextLe(v, rest.value) {
        Sql.TextLeTotal(v, rest.value);
        Sql.TextLeTrans(NumberText(m.id, prefix), rest.value, v);
      }
    }
  }

  /** `stmt.read::<i64>(0)`: the text read as an integer, 0 for `NULL`. */
  function MaxNumberAsWritten(media: seq<Medium>, prefix: String): Ints.i64 {
    match MaxText(media, prefix)
    case None => 0
    case Some(t) => Books.CastInteger(t)
  }

  /** The prefix of a medium: its first author and its category. */
  function PrefixOf(m: DBMedium): String {
    IdPrefix(if m.authors == [] then [] else m.authors[0], m.category)
  }

  /**
   * `medium_generate_id` as written: a kept id, or the prefix with one more
   * than the maximum suffix taken as text, the `i64` addition wrapping
   * around. `None` is the panic of the byte slice after the prefix.
   */
  function GenerateIdAsWritten(media: seq<Medium>, m: DBMedium): (r: Option<String>)
    ensures r.None? <==> Books.KeepsIdAsWritten(m.id, PrefixOf(m)).None?
    ensures r.Some? && r.value != m.id ==> IsPrefix(PrefixOf(m) + " ", r.value)
  {
    var prefix := PrefixOf(m);
    var keeps := Books.KeepsIdAsWritten(m.id, prefix);
    if keeps.None? then None
    else if keeps.value then Some(m.id)
    else
      var id := prefix + " " + IntToString(Ints.WrappingInc(MaxNumberAsWritten(media, prefix)));
      assert id[..|prefix + " "|] == prefix + " ";
      Some(id)
  }

  /** A medium row with only an id. */
  function RowWithId(id: String): Medium {
    Medium(id, [], [], [], 0, 0.0, [], true, [], [], [], [])
  }

  lemma MaxTextTwo(a: String, b: String, prefix: String)
    requires Sql.Like(a, prefix + "%") && Sql.Like(b, prefix + "%")
    requires !Sql.TextLe(NumberText(a, prefix), NumberText(b, prefix))
    ensures MaxText([RowWithId(a), RowWithId(b)], prefix) == Some(NumberText(a, prefix))
  {
    var media := [RowWithId(a), RowWithId(b)];
    assert media[1..] == [RowWithId(b)];
    assert media[1..][1..] == [];
  }

  lemma NumberTextAfter(prefix: String, rest: String)
    requires forall i | 0 <= i < |prefix| :: IsAscii(prefix[i])
    ensures Sql.Like(prefix + " " + rest, prefix + "%")
    ensures NumberText(prefix + " " + rest, prefix) == rest
  {
    Utf8LenAscii(prefix);
    Sql.LikeOwnPrefix(prefix, " " + rest);
    assert prefix + " " + rest == prefix + (" " + rest);
    assert (prefix + " " + rest)[|prefix| + 1..] == rest;
  }

  /** Under an ASCII prefix the suffixes "9" and "10" compare as text, and "9" is the greater. */
  lemma MaxTextNineTen(prefix: String)
    requires forall i | 0 <= i < |prefix| :: IsAscii(prefix[i])
    ensures MaxText([RowWithId(prefix + " " + "9"), RowWithId(prefix + " " + "10")], prefix) == Some("9")
  {
    NumberTextAfter(prefix, "9");
    NumberTextAfter(prefix, "10");
    assert !Sql.TextLe("9", "10");
    MaxTextTwo(prefix + " " + "9", prefix + " " + "10", prefix);
  }

  lemma CastNine()
    ensures Books.CastInteger("9") == 9
  {
    assert Books.SpacePrefix("9") == 0;
    assert "9"[0..] == "9";
    assert Books.DigitRun("9") == 1;
    assert "9"[..1] == "9";
    assert "9"[..0] == [];
    assert DigitsValue("9") == 9;
  }

  /**
   * For any medium without an id whose prefix is ASCII, with the media
   * "<prefix> 9" and "<prefix> 10" the id proposed is "<prefix> 10", which
   * is already taken.
   */
  lemma GenerateIdAsWrittenCollides(m: DBMedium)
    requires m.id == [] && forall i | 0 <= i < |PrefixOf(m)| :: IsAscii(PrefixOf(m)[i])
    ensures var p := PrefixOf(m);
      var media := [RowWithId(p + " " + "9"), RowWithId(p + " " + "10")];
      GenerateIdAsWritten(media, m) == Some(p + " " + "10") && HasMedium(media, p + " " + "10")
  {
    var p := PrefixOf(m);
    var media := [RowWithId(p + " " + "9"), RowWithId(p + " " + "10")];
    MaxNumberNineTen(p);
    TenPrinted();
    PrefixNotEmpty(m);
    EmptyIdNotKept(p);
    GenerateIdAsWrittenNumbered(media, m);
    assert media[1].id == p + " " + "10";
  }

  lemma MaxNumberNineTen(prefix: String)
    requires forall i | 0 <= i < |prefix| :: IsAscii(prefix[i])
    ensures MaxNumberAsWritten([RowWithId(prefix + " " + "9"), RowWithId(prefix + " " + "10")], prefix) == 9
  {
    MaxTextNineTen(prefix);
    CastNine();
  }

  lemma TenPrinted()
    ensures IntToString(10) == "10"
  {
  }

  /** An id that is not kept is numbered. */
  lemma GenerateIdAsWrittenNumbered(media: seq<Medium>, m: DBMedium)
    requires Books.KeepsIdAsWritten(m.id, PrefixOf(m)) == Some(false)
    ensures MaxNumberAsWritten(media, PrefixOf(m)) < Ints.TWO_63 - 1 ==>
      GenerateIdAsWritten(media, m) == Some(PrefixOf(m) + " " + IntToString(MaxNumberAsWritten(media, PrefixOf(m)) + 1))
    ensures MaxNumberAsWritten(media, PrefixOf(m)) == Ints.TWO_63 - 1 ==>
      GenerateIdAsWritten(media, m) == Some(PrefixOf(m) + " " + IntToString(-Ints.TWO_63))
  {
    var n := MaxNumberAsWritten(media, PrefixOf(m));
    assert GenerateIdAsWritten(media, m) == Some(PrefixOf(m) + " " + IntToString(Ints.WrappingInc(n)));
  }

  lemma PrefixNotEmpty(m: DBMedium)
    ensures |PrefixOf(m)| > 0
  {
  }

  lemma EmptyIdNotKept(prefix: String)
    requires |prefix| > 0
    ensures Books.KeepsIdAsWritten([], prefix) == Some(false)
  {
  }

  /** An Abedi title in FANT: the prefix is "FANT ABED". */
  lemma AbediPrefix()
    ensures PrefixOf(DBMedium([], [], [], [], 0, 0.0, [], true, "FANT", ["Abedi"], [], [], [])) == "FANT" + " " + "ABED"
  {
    Books.AbbreviationAbedi();
  }

  /**
   * The id generation as evidently intended, and as the later revision of
   * `generate_id` does it: the test on characters instead of bytes, and the
   * numeric maximum of the suffixes cast to integers instead of the
   * maximum of the texts. A negative maximum is an error there as here.
   */
  function GenerateId(media: seq<Medium>, m: DBMedium): (r: Result<String, DbError>)
    ensures Books.KeepsId(m.id, PrefixOf(m)) ==> r == Ok(m.id)
    ensures r.Ok? && r.value != m.id ==> IsPrefix(PrefixOf(m) + " ", r.value)
    ensures r.Ok? && r.value != m.id && Books.MaxSuffix(media, PrefixOf(m)).UnwrapOr(0) < 0x7FFF_FFFF_FFFF_FFFF
      ==> !HasMedium(media, r.value)
  {
    var prefix := PrefixOf(m);
    if Books.KeepsId(m.id, prefix) then Ok(m.id)
    else
      var max := Books.MaxSuffix(media, prefix).UnwrapOr(0);
      if max < 0 then Err(SQLError)
      else
        var id := Books.NumberedId(prefix, max);
        assert id[..|prefix + " "|] == prefix + " ";
        if max < 0x7FFF_FFFF_FFFF_FFFF then Books.NumberedIdFresh(media, prefix, max); Ok(id)
        else Ok(id)
  }

  // ------------------------------------------------------------ search

  /** `medium_search`: the text occurs, as a LIKE pattern, in one of six columns. */
  predicate Matches(m: Medium, authors: String, text: String) {
    var p := "%" + text + "%";
    Sql.Like(m.id, p) || Sql.Like(m.isbn, p) || Sql.Like(m.title, p)
    || Sql.Like(m.publisher, p) || Sql.Like(m.note, p) || Sql.Like(authors, p)
  }

  /** `DBMedium::read`: a result row, the joined author names split at ','. */
  function ReadRow(m: Medium, authors: String): (r: DBMedium)
    ensures r.id == m.id && r.title == m.title && r.borrower == m.borrower && r.reservation == m.reservation
    ensures r.authors == Split(authors, ',')
  {
    DBMedium(m.id, m.isbn, m.title, m.publisher, m.year, m.costs, m.note, m.borrowable, m.category,
      Split(authors, ','), m.borrower, m.deadline, m.reservation)
  }

  /** The authors as joined by `group_concat`, `''` for none. */
  function AuthorsText(authors: seq<Author>, id: String): String {
    Join(AuthorNames(authors, id), ",")
  }

  /** The rows `medium_search` yields, in table order. */
  function Search(media: seq<Medium>, authors: seq<Author>, text: String): (r: seq<DBMedium>)
    ensures |r| <= |media|
    ensures forall m | m in media && Matches(m, AuthorsText(authors, m.id), text) :: ReadRow(m, AuthorsText(authors, m.id)) in r
    ensures forall x | x in r :: exists m | m in media :: Matches(m, AuthorsText(authors, m.id), text) && x == ReadRow(m, AuthorsText(authors, m.id))
  {
    if media == [] then []
    else
      var rest := Search(media[1..], authors, text);
      assert forall m :: m in media <==> m == media[0] || m in media[1..];
      var m := media[0];
      if Matches(m, AuthorsText(authors, m.id), text) then [ReadRow(m, AuthorsText(authors, m.id))] + rest else rest
  }

  /** A text without wildcards matches when one of the six columns contains it, ignoring ASCII case. */
  lemma MatchesLiteral(m: Medium, authors: String, text: String)
    requires Sql.Literal(text)
    ensures Matches(m, authors, text) <==>
      LikeContains(m.id, text) || LikeContains(m.isbn, text) || LikeContains(m.title, text)
      || LikeContains(m.publisher, text) || LikeContains(m.note, text) || LikeContains(authors, text)
  {
    Sql.LikeInfix(m.id, text);
    Sql.LikeInfix(m.isbn, text);
    Sql.LikeInfix(m.title, text);
    Sql.LikeInfix(m.publisher, text);
    Sql.LikeInfix(m.note, text);
    Sql.LikeInfix(authors, text);
  }

  /** The empty search text lists every medium. */
  lemma SearchEmptyText(media: seq<Medium>, authors: seq<Author>, m: Medium)
    requires m in media
    ensures ReadRow(m, AuthorsText(authors, m.id)) in Search(media, authors, "")
  {
    assert "%" + "" + "%" == "%%";
    Books.LikeTwoAny(m.id);
  }

  /** Author names without commas read back as they were joined. */
  lemma ReadRowAuthors(m: Medium, names: seq<String>)
    requires names != [] && forall i | 0 <= i < |names| :: ',' !in names[i]
    ensures ReadRow(m, Join(names, ",")).authors == names
  {
    SplitJoin(names, ',');
  }

  /** A medium without authors reads back with one empty author name. */
  lemma ReadRowNoAuthors(m: Medium)
    ensures ReadRow(m, "").authors == [""]
  {
    assert SplitOnce("", ',').None?;
  }

  // ------------------------------------------------------------ add, update, delete

  /** The new row: the given values and an empty borrower, deadline and reservation. */
  function NewRow(m: DBMedium): (r: Medium)
    ensures r.id == m.id && r.borrower == [] && r.deadline == [] && r.reservation == []
  {
    Medium(m.id, m.isbn, m.title, m.publisher, m.year, m.costs, m.note, m.borrowable, m.category, [], [], [])
  }

  /** The author rows `medium_add` inserts: one per name in order, names as given, a repeated pair being ignored. */
  function AddAuthors(authors: seq<Author>, names: seq<String>, id: String): (r: seq<Author>)
    ensures forall a :: a in r <==> a in authors || (a.medium == id && a.name in names)
    ensures UniqueAuthors(authors) ==> UniqueAuthors(r)
    decreases |names|
  {
    if names == [] then authors
    else
      var init := names[..|names| - 1];
      assert forall n :: n in names <==> n in init || n == names[|names| - 1];
      InsertOrIgnore(AddAuthors(authors, init, id), Author(names[|names| - 1], id))
  }

  lemma AddAuthorsNext(authors: seq<Author>, names: seq<String>, i: nat, id: String)
    requires i < |names|
    ensures AddAuthors(authors, names[..i + 1], id) == InsertOrIgnore(AddAuthors(authors, names[..i], id), Author(names[i], id))
  {
    assert names[..i + 1][..i] == names[..i];
  }

  /** Repeated author names collapse into one row. */
  lemma AddAuthorsCollapses(authors: seq<Author>, name: String, id: String)
    ensures AddAuthors(authors, [name, name], id) == AddAuthors(authors, [name], id)
  {
    assert [name, name][..1] == [name];
    assert [name][..0] == [];
  }

  /** `medium_add`: a free id gives a new row and the author rows; a taken id fails and changes nothing. */
  method Add(db: Database, medium: DBMedium) returns (r: Result<(), DbError>)
    requires db.Valid()
    modifies db
    ensures db.Valid()
    ensures HasMedium(old(db.media), medium.id) ==> r == Err(SQLError) && db.media == old(db.media) && db.authors == old(db.authors)
    ensures !HasMedium(old(db.media), medium.id) ==>
      r == Ok(()) && db.media == old(db.media) + [NewRow(medium)] && db.authors == AddAuthors(old(db.authors), medium.authors, medium.id)
    ensures db.users == old(db.users) && db.categories == old(db.categories) && db.meta == old(db.meta)
  {
    if HasMedium(db.media, medium.id) {
      // the primary key of `medium` rejects the insert and the transaction is dropped
      return Err(SQLError);
    }
    Books.AppendFreshRow(db.media, NewRow(medium));
    db.media := db.media + [NewRow(medium)];
    var i := 0;
    while i < |medium.authors|
      invariant 0 <= i <= |medium.authors|
      invariant db.Valid()
      invariant db.media == old(db.media) + [NewRow(medium)]
      invariant db.authors == AddAuthors(old(db.authors), medium.authors[..i], medium.id)
      invariant db.users == old(db.users) && db.categories == old(db.categories) && db.meta == old(db.meta)
    {
      AddAuthorsNext(old(db.authors), medium.authors, i, medium.id);
      db.authors := InsertOrIgnore(db.authors, Author(medium.authors[i], medium.id));
      i := i + 1;
    }
    assert medium.authors[..i] == medium.authors;
    r := Ok(());
  }

  /** The row a medium update writes: the given values; the lending columns stay. */
  function UpdatedRow(row: Medium, m: DBMedium): (r: Medium)
    ensures r == NewRow(m).(borrower := row.borrower, deadline := row.deadline, reservation := row.reservation)
  {
    row.(id := m.id, isbn := m.isbn, title := m.title, publisher := m.publisher, year := m.year,
      costs := m.costs, note := m.note, borrowable := m.borrowable, category := m.category)
  }

  function UpdateMedia(media: seq<Medium>, previous: String, m: DBMedium): (r: seq<Medium>)
    ensures |r| == |media|
    ensures forall i | 0 <= i < |media| :: r[i] == if media[i].id == previous then UpdatedRow(media[i], m) else media[i]
  {
    seq(|media|, i requires 0 <= i < |media| => if media[i].id == previous then UpdatedRow(media[i], m) else media[i])
  }

  /** Renaming the row onto the id of another row violates the primary key. */
  predicate MediaClash(media: seq<Medium>, previous: String, m: DBMedium) {
    m.id != previous && HasMedium(media, previous) && HasMedium(media, m.id)
  }

  lemma UpdateMediaKeys(media: seq<Medium>, previous: String, m: DBMedium)
    requires UniqueMediumIds(media) && !MediaClash(media, previous, m)
    ensures UniqueMediumIds(UpdateMedia(media, previous, m))
  {
    var r := UpdateMedia(media, previous, m);
    forall i, j | 0 <= i < j < |r|
      ensures r[i].id != r[j].id
    {
      if media[i].id == previous || media[j].id == previous {
        assert HasMedium(media, previous);
      }
    }
  }

  /**
   * `medium_update`: the row with the previous id takes the given values,
   * and when the id changes the author rows follow it. A collision with an
   * existing key aborts the transaction.
   */
  method Update(db: Database, previousId: String, medium: DBMedium) returns (r: Result<(), DbError>)
    requires db.Valid()
    modifies db
    ensures db.Valid()
    ensures r.Err? ==> r.error == SQLError && db.media == old(db.media) && db.authors == old(db.authors)
    ensures var authors := if previousId != medium.id then Books.Repoint(old(db.authors), previousId, medium.id) else old(db.authors);
      if MediaClash(old(db.media), previousId, medium) || !UniqueAuthors(authors) then r.Err?
      else r == Ok(()) && db.media == UpdateMedia(old(db.media), previousId, medium) && db.authors == authors
    ensures db.users == old(db.users) && db.categories == old(db.categories) && db.meta == old(db.meta)
  {
    if MediaClash(db.media, previousId, medium) {
      return Err(SQLError);
    }
    var media := UpdateMedia(db.media, previousId, medium);
    var authors := db.authors;
    if previousId != medium.id {
      authors := Books.Repoint(authors, previousId, medium.id);
      if !UniqueAuthors(authors) {
        // the primary key of `author` rejects the update; the transaction is dropped
        return Err(SQLError);
      }
    }
    UpdateMediaKeys(db.media, previousId, medium);
    db.media, db.authors := media, authors;
    r := Ok(());
  }

  /** `medium_delete`: the row goes, and every author row left without a medium. */
  method Delete(db: Database, id: String) returns (r: Result<(), DbError>)
    requires db.Valid()
    modifies db
    ensures db.Valid() && r == Ok(())
    ensures db.media == RemoveMedium(old(db.media), id) && db.authors == DropOrphans(old(db.authors), db.media)
    ensures db.users == old(db.users) && db.categories == old(db.categories) && db.meta == old(db.meta)
  {
    db.media := RemoveMedium(db.media, id);
    db.authors := DropOrphans(db.authors, db.media);
    r := Ok(());
  }
}
