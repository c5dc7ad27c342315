/**
 * The category table: listing ordered by section and id, adding, renaming
 * (carrying the media along) and deleting categories, and counting the
 * media that refer to a category.
 */
module CategoryTable {
  import opened Wrappers
  import opened Text
  import opened Schema
  import Sql

  /** The `order by section, id` key. */
  function ListKey(c: Category): (String, String) {
    (c.section, c.id)
  }

  /** `category_list`: every category, ordered by section and then id. */
  function List(categories: seq<Category>): (r: seq<Category>)
    ensures Sql.SortedBy(r, ListKey)
    ensures multiset(r) == multiset(categories)
  {
    Sql.SortBy(categories, ListKey)
  }

  /** Listing neither loses nor invents a category. */
  lemma ListMembers(categories: seq<Category>, c: Category)
    ensures c in List(categories) <==> c in categories
  {
    var r := List(categories);
    assert c in r <==> c in multiset(r);
    assert c in categories <==> c in multiset(categories);
  }

  /** `category_add`: one appended row; an existing id violates the primary key. */
  method Add(db: Database, c: Category) returns (r: Result<(), DbError>)
    requires db.Valid()
    modifies db
    ensures db.Valid()
    ensures r.Err? <==> HasCategory(old(db.categories), c.id)
    ensures r.Err? ==> r.error == SQLError && db.categories == old(db.categories)
    ensures r.Ok? ==> db.categories == old(db.categories) + [c]
    ensures db.media == old(db.media) && db.authors == old(db.authors) && db.users == old(db.users) && db.meta == old(db.meta)
  {
    if exists i | 0 <= i < |db.categories| :: db.categories[i].id == c.id {
      return Err(SQLError);
    }
    var cs := db.categories + [c];
    assert forall i | 0 <= i < |cs| - 1 :: cs[i].id != c.id;
    db.categories := cs;
    r := Ok(());
  }

  /** The row with the previous id takes the new id, name and section. */
  function UpdateCategories(categories: seq<Category>, id: String, c: Category): (r: seq<Category>)
    ensures |r| == |categories|
    ensures forall i | 0 <= i < |r| :: r[i] == if categories[i].id == id then c else categories[i]
  {
    seq(|categories|, i requires 0 <= i < |categories| => if categories[i].id == id then c else categories[i])
  }

  /** The rename runs into an existing key: the row exists and the new id is already taken by another row. */
  predicate CategoryClash(categories: seq<Category>, id: String, c: Category) {
    c.id != id && HasCategory(categories, id) && HasCategory(categories, c.id)
  }

  /** Without a clash the primary key stays unique; the new id is present exactly when the old one was. */
  lemma UpdateCategoriesKeys(categories: seq<Category>, id: String, c: Category)
    requires UniqueCategoryIds(categories) && !CategoryClash(categories, id, c)
    ensures UniqueCategoryIds(UpdateCategories(categories, id, c))
    ensures HasCategory(UpdateCategories(categories, id, c), c.id) <==> HasCategory(categories, id) || HasCategory(categories, c.id)
    ensures c.id != id ==> (HasCategory(UpdateCategories(categories, id, c), id) <==> false)
  {
    var r := UpdateCategories(categories, id, c);
    if HasCategory(categories, id) {
      var k :| 0 <= k < |categories| && categories[k].id == id;
      assert r[k].id == c.id;
    }
    if HasCategory(categories, c.id) && !HasCategory(categories, id) {
      var k :| 0 <= k < |categories| && categories[k].id == c.id;
      assert r[k] == categories[k];
    }
  }

  /** Moves every medium of one category to another. */
  function Recategorize(media: seq<Medium>, previous: String, id: String): (r: seq<Medium>)
    ensures |r| == |media|
    ensures forall i | 0 <= i < |r| ::
      r[i] == if media[i].category == previous then media[i].(category := id) else media[i]
  {
    if media == [] then []
    else
      var m := if media[0].category == previous then media[0].(category := id) else media[0];
      [m] + Recategorize(media[1..], previous, id)
  }

  /** `category_references`: the number of media in the category. */
  function References(media: seq<Medium>, id: String): (r: nat)
    ensures r <= |media|
    ensures r == 0 <==> forall i | 0 <= i < |media| :: media[i].category != id
  {
    if media == [] then 0
    else (if media[0].category == id then 1 else 0) + References(media[1..], id)
  }

  /**
   * Renaming a category leaves no medium behind: the old id has no references
   * any more, the new id gains all of them, and every other category keeps its count.
   */
  lemma {:induction false} RecategorizeReferences(media: seq<Medium>, previous: String, id: String, other: String)
    requires previous != id && other != previous && other != id
    ensures References(Recategorize(media, previous, id), previous) == 0
    ensures References(Recategorize(media, previous, id), id) == References(media, previous) + References(media, id)
    ensures References(Recategorize(media, previous, id), other) == References(media, other)
  {
    if media != [] {
      var r := Recategorize(media, previous, id);
      RecategorizeReferences(media[1..], previous, id, other);
      assert r[1..] == Recategorize(media[1..], previous, id);
    }
  }

  /** Media ids are never touched by a rename. */
  lemma RecategorizeKeepsKeys(media: seq<Medium>, previous: String, id: String)
    requires UniqueMediumIds(media)
    ensures UniqueMediumIds(Recategorize(media, previous, id))
  {
    var r := Recategorize(media, previous, id);
    assert forall i | 0 <= i < |r| :: r[i].id == media[i].id;
  }

  /** Every medium's category is a row of the category table. */
  predicate Resolved(media: seq<Medium>, categories: seq<Category>) {
    forall i | 0 <= i < |media| :: HasCategory(categories, media[i].category)
  }

  /** `category_update`: rewrites the row and, when the id changes, the media referring to it. */
  method Update(db: Database, id: String, c: Category) returns (r: Result<(), DbError>)
    requires db.Valid()
    modifies db
    ensures db.Valid()
    ensures r.Err? <==> CategoryClash(old(db.categories), id, c)
    ensures r.Err? ==> r.error == SQLError && db.categories == old(db.categories) && db.media == old(db.media)
    ensures r.Ok? ==> db.categories == UpdateCategories(old(db.categories), id, c)
    ensures r.Ok? ==> db.media == if id != c.id then Recategorize(old(db.media), id, c.id) else old(db.media)
    ensures db.authors == old(db.authors) && db.users == old(db.users) && db.meta == old(db.meta)
  {
    if c.id != id && HasCategory(db.categories, id) && HasCategory(db.categories, c.id) {
      return Err(SQLError);
    }
    UpdateCategoriesKeys(db.categories, id, c);
    db.categories := UpdateCategories(db.categories, id, c);
    if id != c.id {
      RecategorizeKeepsKeys(db.media, id, c.id);
      db.media := Recategorize(db.media, id, c.id);
    }
    r := Ok(());
  }

  /** A successful rename of an existing category keeps every medium's category resolvable. */
  lemma UpdateKeepsResolved(media: seq<Medium>, categories: seq<Category>, id: String, c: Category)
    requires UniqueCategoryIds(categories) && !CategoryClash(categories, id, c) && HasCategory(categories, id)
    requires Resolved(media, categories)
    ensures Resolved(if id != c.id then Recategorize(media, id, c.id) else media, UpdateCategories(categories, id, c))
  {
    var cs := UpdateCategories(categories, id, c);
    var ms := if id != c.id then Recategorize(media, id, c.id) else media;
    UpdateCategoriesKeys(categories, id, c);
    forall i | 0 <= i < |ms| ensures HasCategory(cs, ms[i].category) {
      if ms[i].category != c.id {
        var k :| 0 <= k < |categories| && categories[k].id == media[i].category;
        assert media[i].category != id;
        assert cs[k] == categories[k];
      }
    }
  }

  /** The category rows without the given id, in order. */
  function RemoveCategory(categories: seq<Category>, id: String): (r: seq<Category>)
    ensures forall c :: c in r <==> c in categories && c.id != id
    ensures !HasCategory(r, id)
    ensures UniqueCategoryIds(categories) ==> UniqueCategoryIds(r)
  {
    if categories == [] then []
    else
      var rest := RemoveCategory(categories[1..], id);
      assert forall c :: c in categories <==> c == categories[0] || c in categories[1..];
      if categories[0].id == id then rest
      else
        assert forall k | 0 <= k < |rest| :: rest[k] in categories[1..];
        assert UniqueCategoryIds(categories) ==> forall k | 1 <= k < |categories| :: categories[k].id != categories[0].id;
        [categories[0]] + rest
  }

  /** `category_delete`: removes the row without looking at the media that refer to it. */
  method Delete(db: Database, id: String) returns (r: Result<(), DbError>)
    requires db.Valid()
    modifies db
    ensures db.Valid() && r.Ok?
    ensures db.categories == RemoveCategory(old(db.categories), id)
    ensures db.media == old(db.media) && db.authors == old(db.authors) && db.users == old(db.users) && db.meta == old(db.meta)
  {
    db.categories := RemoveCategory(db.categories, id);
    r := Ok(());
  }

  /**
   * The caller's obligation that deletion relies on: removing an unreferenced
   * category keeps every medium resolvable, and removing a referenced one does not.
   */
  lemma DeleteKeepsResolved(media: seq<Medium>, categories: seq<Category>, id: String)
    requires Resolved(media, categories)
    ensures Resolved(media, RemoveCategory(categories, id)) <==> References(media, id) == 0
  {
    var cs := RemoveCategory(categories, id);
    if References(media, id) == 0 {
      forall i | 0 <= i < |media| ensures HasCategory(cs, media[i].category) {
        var k :| 0 <= k < |categories| && categories[k].id == media[i].category;
        assert categories[k] in cs;
        var j :| 0 <= j < |cs| && cs[j] == categories[k];
      }
    } else {
      var i :| 0 <= i < |media| && media[i].category == id;
      assert !HasCategory(cs, media[i].category);
    }
  }
}
