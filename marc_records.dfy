/**
 * What the book providers read from a MARC 21 bibliographic record: the
 * fields 020 and 024 (ISBN and EAN), 245 (title and part), 100 (main
 * author), 700 (further persons) and 264 (publisher), and the choice of
 * which record of a search response describes the book asked for.
 *
 * The XML is abstracted away: a record is the list of its `datafield`
 * elements in document order, each with its optional `tag` attribute and
 * its `subfield` children; a response is either malformed or a document
 * that may contain a `records` element.
 */
module MarcRecords {
  import opened Wrappers
  import opened Text

  /** A `subfield` element: its `code` attribute and its text, each possibly absent. */
  datatype Subfield = Subfield(code: Option<String>, text: Option<String>)

  /** A `datafield` element: its `tag` attribute and its `subfield` children. */
  datatype Datafield = Datafield(tag: Option<String>, subfields: seq<Subfield>)

  const ISBN_COSTS_TAG: String := "020"
  const ISBN_CODE: String := "a"
  const EAN_TAG: String := "024"
  const EAN_CODE: String := "a"
  const TITLE_TAG: String := "245"
  const TITLE_CODE: String := "a"
  const SUBTITLE_CODE: String := "p"
  const AUTHOR_TAG: String := "100"
  const AUTHOR_CODE: String := "a"
  const PERSON_TAG: String := "700"
  const PERSON_CODE: String := "a"
  const PUBLISHER_TAG: String := "264"
  const PUBLISHER_CODE: String := "b"

  /** A title shorter than this many UTF-8 bytes gets its part ($p) appended. */
  const SHORT_TITLE_LEN: nat := 16

  /** The book data a provider hands back (the price is not modelled). */
  datatype BookData = BookData(title: String, authors: seq<String>, publisher: String)

  /** One parsed record: the ISBNs it lists and its book data. */
  datatype Record = Record(isbns: seq<String>, data: BookData)

  /** `Record::default()`. */
  const EMPTY_RECORD: Record := Record([], BookData([], [], []))

  // ------------------------------------------------------------ subfields

  /** Position of the first subfield whose code is `code`. */
  function FindCode(sfs: seq<Subfield>, code: String): (r: Option<nat>)
    ensures r.Some? ==> r.value < |sfs| && sfs[r.value].code == Some(code)
    ensures r.Some? ==> forall j | 0 <= j < r.value :: sfs[j].code != Some(code)
    ensures r.None? ==> forall j | 0 <= j < |sfs| :: sfs[j].code != Some(code)
  {
    if sfs == [] then None
    else if sfs[0].code == Some(code) then Some(0)
    else match FindCode(sfs[1..], code)
      case None => None
      case Some(k) => Some(k + 1)
  }

  /** A subfield's text with the control characters removed. */
  function Cleaned(text: Option<String>): Option<String> {
    match text
    case None => None
    case Some(t) => Some(RemoveControl(t))
  }

  /**
   * `subfield`: the text of the first subfield carrying `code`, free of
   * control characters; `None` when no subfield has the code or the first
   * one has no text (a later one with text is not looked at).
   */
  function SubfieldText(df: Datafield, code: String): (r: Option<String>)
    ensures r.Some? ==> forall i | 0 <= i < |r.value| :: !IsControl(r.value[i])
    ensures (forall j | 0 <= j < |df.subfields| :: df.subfields[j].code != Some(code)) ==> r == None
    ensures forall k | 0 <= k < |df.subfields| && df.subfields[k].code == Some(code)
                       && (forall j | 0 <= j < k :: df.subfields[j].code != Some(code)) ::
              r == Cleaned(df.subfields[k].text)
  {
    match FindCode(df.subfields, code)
    case None => None
    case Some(k) => Cleaned(df.subfields[k].text)
  }

  // ------------------------------------------------------------ the field scan

  /** The title after a 245 field: its $a replaces the title, then a short title gets `" - "` and a non-empty $p. */
  function Titled(title: String, df: Datafield): String {
    var t := SubfieldText(df, TITLE_CODE).UnwrapOr(title);
    if Utf8Len(t) < SHORT_TITLE_LEN then
      match SubfieldText(df, SUBTITLE_CODE)
      case Some(p) => if p != [] then t + " - " + p else t
      case None => t
    else t
  }

  /** What `parse_record` has gathered so far. */
  datatype Scan = Scan(isbns: seq<String>, title: String, authors: seq<String>, persons: seq<String>, publisher: String)

  const START: Scan := Scan([], [], [], [], [])

  /** An optional text as a list of at most one text. */
  function Found(o: Option<String>): (r: seq<String>)
    ensures |r| <= 1
  {
    match o
    case None => []
    case Some(t) => [t]
  }

  /** One datafield's effect; a field without a tag, or with any other tag, changes nothing. */
  function Step(st: Scan, df: Datafield): Scan {
    match df.tag
    case None => st
    case Some(tag) =>
      if tag == ISBN_COSTS_TAG then st.(isbns := st.isbns + Found(SubfieldText(df, ISBN_CODE)))
      else if tag == EAN_TAG then st.(isbns := st.isbns + Found(SubfieldText(df, EAN_CODE)))
      else if tag == TITLE_TAG then st.(title := Titled(st.title, df))
      else if tag == AUTHOR_TAG then st.(authors := st.authors + Found(SubfieldText(df, AUTHOR_CODE)))
      else if tag == PERSON_TAG then st.(persons := st.persons + Found(SubfieldText(df, PERSON_CODE)))
      else if tag == PUBLISHER_TAG then st.(publisher := SubfieldText(df, PUBLISHER_CODE).UnwrapOr(st.publisher))
      else st
  }

  /** The scan over the datafields in document order. */
  function Fields(st: Scan, dfs: seq<Datafield>): Scan
    decreases |dfs|
  {
    if dfs == [] then st else Step(Fields(st, dfs[..|dfs| - 1]), dfs[|dfs| - 1])
  }

  /**
   * Reference reading of the list fields: the `code` subfield texts of the
   * fields whose tag is one of `tags`, in document order.
   */
  function Collect(dfs: seq<Datafield>, tags: set<String>, code: String): seq<String> {
    if dfs == [] then [] else Part(dfs[0], tags, code) + Collect(dfs[1..], tags, code)
  }

  /** The `code` subfield text of one field, when its tag is one of `tags`. */
  function Part(df: Datafield, tags: set<String>, code: String): seq<String> {
    if df.tag.Some? && df.tag.value in tags then Found(SubfieldText(df, code)) else []
  }

  /** The author list after the fallback and the name rewriting. */
  function Reformat(reorder: String -> String, names: seq<String>): (r: seq<String>)
    ensures |r| == |names|
    ensures forall i | 0 <= i < |names| :: r[i] == reorder(names[i])
  {
    seq(|names|, i requires 0 <= i < |names| => reorder(names[i]))
  }

  /**
   * `parse_record`: the scanned fields, with the 700 persons standing in
   * for the authors when no 100 author was found, and every author name
   * rewritten by the provider's `reorder`.
   */
  function RecordOf(dfs: seq<Datafield>, reorder: String -> String): Record {
    var st := Fields(START, dfs);
    Record(st.isbns, BookData(st.title, Reformat(reorder, if st.authors == [] then st.persons else st.authors), st.publisher))
  }

  /** `parse_record` as the providers write it: one pass over the fields, then the names rewritten in place. */
  method ParseRecord(dfs: seq<Datafield>, reorder: String -> String) returns (r: Record)
    ensures r == RecordOf(dfs, reorder)
  {
    var isbns, title, authors, persons, publisher := [], [], [], [], [];
    for i := 0 to |dfs|
      invariant Fields(START, dfs[..i]) == Scan(isbns, title, authors, persons, publisher)
    {
      assert dfs[..i + 1][..i] == dfs[..i];
      var df := dfs[i];
      if df.tag.Some? {
        var tag := df.tag.value;
        if tag == ISBN_COSTS_TAG {
          var t := SubfieldText(df, ISBN_CODE);
          if t.Some? { isbns := isbns + [t.value]; }
        } else if tag == EAN_TAG {
          var t := SubfieldText(df, EAN_CODE);
          if t.Some? { isbns := isbns + [t.value]; }
        } else if tag == TITLE_TAG {
          var t := SubfieldText(df, TITLE_CODE);
          if t.Some? { title := t.value; }
          if Utf8Len(title) < SHORT_TITLE_LEN {
            var p := SubfieldText(df, SUBTITLE_CODE);
            if p.Some? && p.value != [] {
              title := title + " - " + p.value;
            }
          }
        } else if tag == AUTHOR_TAG {
          var t := SubfieldText(df, AUTHOR_CODE);
          if t.Some? { authors := authors + [t.value]; }
        } else if tag == PERSON_TAG {
          var t := SubfieldText(df, PERSON_CODE);
          if t.Some? { persons := persons + [t.value]; }
        } else if tag == PUBLISHER_TAG {
          var t := SubfieldText(df, PUBLISHER_CODE);
          if t.Some? { publisher := t.value; }
        }
      }
    }
    assert dfs[..|dfs|] == dfs;
    if authors == [] {
      authors := persons;
    }
    ghost var names := authors;
    for i := 0 to |authors|
      invariant |authors| == |names|
      invariant forall j | 0 <= j < i :: authors[j] == reorder(names[j])
      invariant forall j | i <= j < |authors| :: authors[j] == names[j]
    {
      authors := authors[i := reorder(authors[i])];
    }
    assert authors == Reformat(reorder, names);
    r := Record(isbns, BookData(title, authors, publisher));
  }

  // ------------------------------------------------------------ what the scan keeps

  lemma {:induction false} CollectSnoc(dfs: seq<Datafield>, df: Datafield, tags: set<String>, code: String)
    ensures Collect(dfs + [df], tags, code) == Collect(dfs, tags, code) + Part(df, tags, code)
  {
    if dfs == [] {
      assert [df][1..] == [];
    } else {
      assert (dfs + [df])[1..] == dfs[1..] + [df];
      CollectSnoc(dfs[1..], df, tags, code);
    }
  }

  /** The list fields one datafield contributes to. */
  lemma StepLists(st: Scan, df: Datafield)
    ensures Step(st, df).isbns == st.isbns + Part(df, {ISBN_COSTS_TAG, EAN_TAG}, ISBN_CODE)
    ensures Step(st, df).authors == st.authors + Part(df, {AUTHOR_TAG}, AUTHOR_CODE)
    ensures Step(st, df).persons == st.persons + Part(df, {PERSON_TAG}, PERSON_CODE)
  {
  }

  /**
   * The ISBNs are the 020 $a and 024 $a texts, the authors the 100 $a
   * texts and the persons the 700 $a texts, each in document order.
   */
  lemma {:induction false} FieldsLists(st: Scan, dfs: seq<Datafield>)
    ensures Fields(st, dfs).isbns == st.isbns + Collect(dfs, {ISBN_COSTS_TAG, EAN_TAG}, ISBN_CODE)
    ensures Fields(st, dfs).authors == st.authors + Collect(dfs, {AUTHOR_TAG}, AUTHOR_CODE)
    ensures Fields(st, dfs).persons == st.persons + Collect(dfs, {PERSON_TAG}, PERSON_CODE)
    decreases |dfs|
  {
    if dfs != [] {
      var init, last := dfs[..|dfs| - 1], dfs[|dfs| - 1];
      assert dfs == init + [last];
      FieldsLists(st, init);
      StepLists(Fields(st, init), last);
      CollectSnoc(init, last, {ISBN_COSTS_TAG, EAN_TAG}, ISBN_CODE);
      CollectSnoc(init, last, {AUTHOR_TAG}, AUTHOR_CODE);
      CollectSnoc(init, last, {PERSON_TAG}, PERSON_CODE);
    }
  }

  /** A record's ISBNs are its 020/024 $a texts; its authors come from 100 $a, or from 700 $a when there is none. */
  lemma RecordLists(dfs: seq<Datafield>, reorder: String -> String)
    ensures RecordOf(dfs, reorder).isbns == Collect(dfs, {ISBN_COSTS_TAG, EAN_TAG}, ISBN_CODE)
    ensures Collect(dfs, {AUTHOR_TAG}, AUTHOR_CODE) != [] ==>
              RecordOf(dfs, reorder).data.authors == Reformat(reorder, Collect(dfs, {AUTHOR_TAG}, AUTHOR_CODE))
    ensures Collect(dfs, {AUTHOR_TAG}, AUTHOR_CODE) == [] ==>
              RecordOf(dfs, reorder).data.authors == Reformat(reorder, Collect(dfs, {PERSON_TAG}, PERSON_CODE))
  {
    var st := Fields(START, dfs);
    FieldsLists(START, dfs);
    assert st.isbns == Collect(dfs, {ISBN_COSTS_TAG, EAN_TAG}, ISBN_CODE);
    assert st.authors == Collect(dfs, {AUTHOR_TAG}, AUTHOR_CODE);
    assert st.persons == Collect(dfs, {PERSON_TAG}, PERSON_CODE);
  }

  /** Fields that are not 264 fields with a $b leave the publisher alone. */
  lemma {:induction false} NoPublisher(st: Scan, dfs: seq<Datafield>)
    requires forall j | 0 <= j < |dfs| :: dfs[j].tag == Some(PUBLISHER_TAG) ==> SubfieldText(dfs[j], PUBLISHER_CODE).None?
    ensures Fields(st, dfs).publisher == st.publisher
    decreases |dfs|
  {
    if dfs != [] {
      NoPublisher(st, dfs[..|dfs| - 1]);
    }
  }

  /** The publisher is the $b of the last 264 field that has one. */
  lemma {:induction false} LastPublisher(st: Scan, dfs: seq<Datafield>, k: nat)
    requires k < |dfs| && dfs[k].tag == Some(PUBLISHER_TAG) && SubfieldText(dfs[k], PUBLISHER_CODE).Some?
    requires forall j | k < j < |dfs| :: dfs[j].tag == Some(PUBLISHER_TAG) ==> SubfieldText(dfs[j], PUBLISHER_CODE).None?
    ensures Fields(st, dfs).publisher == SubfieldText(dfs[k], PUBLISHER_CODE).value
    decreases |dfs|
  {
    if k < |dfs| - 1 {
      LastPublisher(st, dfs[..|dfs| - 1], k);
    }
  }

  /** Only 245 fields touch the title. */
  lemma {:induction false} NoTitle(st: Scan, dfs: seq<Datafield>)
    requires forall j | 0 <= j < |dfs| :: dfs[j].tag != Some(TITLE_TAG)
    ensures Fields(st, dfs).title == st.title
    decreases |dfs|
  {
    if dfs != [] {
      NoTitle(st, dfs[..|dfs| - 1]);
    }
  }

  /** The title comes from the last 245 field when that field has a $a; earlier titles are forgotten. */
  lemma {:induction false} LastTitle(st: Scan, dfs: seq<Datafield>, k: nat)
    requires k < |dfs| && dfs[k].tag == Some(TITLE_TAG) && SubfieldText(dfs[k], TITLE_CODE).Some?
    requires forall j | k < j < |dfs| :: dfs[j].tag != Some(TITLE_TAG)
    ensures Fields(st, dfs).title == Titled([], dfs[k])
    decreases |dfs|
  {
    var init := dfs[..|dfs| - 1];
    if k < |dfs| - 1 {
      LastTitle(st, init, k);
      StepOtherTitle(Fields(st, init), dfs[|dfs| - 1]);
    } else {
      TitledOwn(Fields(st, init).title, dfs[k]);
    }
  }

  /** A field other than 245 leaves the title alone. */
  lemma StepOtherTitle(st: Scan, df: Datafield)
    requires df.tag != Some(TITLE_TAG)
    ensures Step(st, df).title == st.title
  {
  }

  /** A 245 field with a $a replaces the title, whatever it was. */
  lemma TitledOwn(title: String, df: Datafield)
    requires SubfieldText(df, TITLE_CODE).Some?
    ensures Titled(title, df) == Titled([], df)
  {
  }

  /**
   * The part is appended exactly when the title is shorter than 16 bytes
   * and the part is present and non-empty; otherwise the title is the $a
   * (or the earlier title, when there is no $a).
   */
  lemma TitleRule(title: String, df: Datafield)
    ensures var t := SubfieldText(df, TITLE_CODE).UnwrapOr(title);
            var p := SubfieldText(df, SUBTITLE_CODE);
            if Utf8Len(t) < SHORT_TITLE_LEN && p.Some? && p.value != []
            then Titled(title, df) == t + " - " + p.value
            else Titled(title, df) == t
  {
  }

  /** A title of 16 bytes or more never gets its part, however long the part. */
  lemma LongTitleKept(title: String, df: Datafield, a: String)
    requires SubfieldText(df, TITLE_CODE) == Some(a) && Utf8Len(a) >= SHORT_TITLE_LEN
    ensures Titled(title, df) == a
  {
  }

  /** A title under 16 bytes gets a non-empty part appended. */
  lemma ShortTitleGetsPart(title: String, df: Datafield, a: String, p: String)
    requires SubfieldText(df, TITLE_CODE) == Some(a) && Utf8Len(a) < SHORT_TITLE_LEN
    requires SubfieldText(df, SUBTITLE_CODE) == Some(p) && p != []
    ensures Titled(title, df) == a + " - " + p
  {
  }

  /**
   * The title `parse_single_record` expects: "Eragon" is 6 bytes long, so
   * its part ("Das Vermächtnis der Drachenreiter") is appended.
   */
  lemma EragonTitle(df: Datafield, part: String)
    requires SubfieldText(df, TITLE_CODE) == Some("Eragon")
    requires SubfieldText(df, SUBTITLE_CODE) == Some(part) && part != []
    ensures Titled([], df) == "Eragon" + " - " + part
  {
    var t: String := "Eragon";
    assert forall i | 0 <= i < |t| :: IsAscii(t[i]);
    Utf8LenAscii(t);
    ShortTitleGetsPart([], df, t, part);
  }

  // ------------------------------------------------------------ choosing the record

  /** The first record listing `isbn` among its ISBNs. */
  function FirstMatch(records: seq<Record>, isbn: String): (r: Option<nat>)
    ensures r.Some? ==> r.value < |records| && isbn in records[r.value].isbns
    ensures r.Some? ==> forall j | 0 <= j < r.value :: isbn !in records[j].isbns
    ensures r.None? ==> forall j | 0 <= j < |records| :: isbn !in records[j].isbns
  {
    if records == [] then None
    else if isbn in records[0].isbns then Some(0)
    else match FirstMatch(records[1..], isbn)
      case None => None
      case Some(k) => Some(k + 1)
  }

  /**
   * The data of the first record listing `isbn` exactly; without such a
   * record, the data of the first record; with no record, nothing.
   */
  function Select(records: seq<Record>, isbn: String): (r: Option<BookData>)
    ensures r.None? <==> records == []
    ensures forall i | 0 <= i < |records| && isbn in records[i].isbns
                       && (forall j | 0 <= j < i :: isbn !in records[j].isbns) ::
              r == Some(records[i].data)
    ensures (forall j | 0 <= j < |records| :: isbn !in records[j].isbns) && records != [] ==>
              r == Some(records[0].data)
  {
    match FirstMatch(records, isbn)
    case Some(i) => Some(records[i].data)
    case None => if records == [] then None else Some(records[0].data)
  }

  /** Every raw record parsed. */
  function ParseAll<R>(raws: seq<R>, parse: R -> Record): (r: seq<Record>)
    ensures |r| == |raws|
    ensures forall i | 0 <= i < |raws| :: r[i] == parse(raws[i])
  {
    seq(|raws|, i requires 0 <= i < |raws| => parse(raws[i]))
  }

  /**
   * The loop of `parse`: records are parsed one at a time, the first that
   * lists `isbn` is returned at once, and the first record's data is kept
   * in case none does.
   */
  method SelectFirst<R>(raws: seq<R>, parse: R -> Record, isbn: String) returns (r: Option<BookData>)
    ensures r == Select(ParseAll(raws, parse), isbn)
  {
    var first: Option<BookData> := None;
    for i := 0 to |raws|
      invariant forall j | 0 <= j < i :: isbn !in parse(raws[j]).isbns
      invariant first == if i == 0 then None else Some(parse(raws[0]).data)
    {
      var record := parse(raws[i]);
      if isbn in record.isbns {
        return Some(record.data);
      }
      if first.None? {
        first := Some(record.data);
      }
    }
    return first;
  }

  // ------------------------------------------------------------ a response

  /** A search response: XML that does not parse, or a document that may hold a `records` element. */
  datatype Response<R> = Malformed | Document(records: Option<seq<R>>)

  /** Why no book data came out of a response. */
  datatype Failure = BadXml | NoResult

  /**
   * `parse`: malformed XML fails as such; a document without a `records`
   * element, or with an empty one, yields nothing; otherwise the selected
   * record's data.
   */
  function Lookup<R>(response: Response<R>, parse: R -> Record, isbn: String): (r: Result<BookData, Failure>)
    ensures r == Err(BadXml) <==> response.Malformed?
    ensures r == Err(NoResult) <==> response.Document? && (response.records.None? || response.records.value == [])
    ensures r.Ok? ==> response.Document? && response.records.Some?
                      && Some(r.value) == Select(ParseAll(response.records.value, parse), isbn)
  {
    match response
    case Malformed => Err(BadXml)
    case Document(None) => Err(NoResult)
    case Document(Some(raws)) =>
      match Select(ParseAll(raws, parse), isbn)
      case None => Err(NoResult)
      case Some(d) => Ok(d)
  }

  /** `parse` as written: the document, then the record loop. */
  method Parse<R>(response: Response<R>, parse: R -> Record, isbn: String) returns (r: Result<BookData, Failure>)
    ensures r == Lookup(response, parse, isbn)
  {
    match response
    case Malformed => r := Err(BadXml);
    case Document(records) =>
      if records.None? {
        r := Err(NoResult);
      } else {
        var found := SelectFirst(records.value, parse, isbn);
        r := if found.Some? then Ok(found.value) else Err(NoResult);
      }
  }
}
