/**
 * The unchecked row updates beneath lending: each sets or blanks lending
 * columns of the `medium` row with a given id, with no precondition on the
 * row's current state.
 */
module Rental {
  import opened Wrappers
  import opened Text
  import opened Schema

  /** The four statements that change the loan columns of one medium. */
  datatype Change =
    | SetLend(account: String, deadline: String)
    | Revoke
    | SetReserve(account: String)
    | Release

  /** The columns one statement assigns in a matching row. */
  function Apply(c: Change, m: Medium): (r: Medium)
    ensures r.id == m.id
    ensures c.SetLend? ==> r == m.(borrower := c.account, deadline := c.deadline)
    ensures c.Revoke? ==> r == m.(borrower := [], deadline := [])
    ensures c.SetReserve? ==> r == m.(reservation := c.account)
    ensures c.Release? ==> r == m.(reservation := [])
  {
    match c
    case SetLend(account, deadline) => m.(borrower := account, deadline := deadline)
    case Revoke => m.(borrower := [], deadline := [])
    case SetReserve(account) => m.(reservation := account)
    case Release => m.(reservation := [])
  }

  /** Runs one statement over the table: rows with the id change, all others stay. */
  function Update(media: seq<Medium>, id: String, c: Change): (r: seq<Medium>)
    ensures |r| == |media|
    ensures forall i | 0 <= i < |media| :: r[i] == if media[i].id == id then Apply(c, media[i]) else media[i]
  {
    seq(|media|, i requires 0 <= i < |media| => if media[i].id == id then Apply(c, media[i]) else media[i])
  }

  /** The statements never touch the key, so the primary key stays unique. */
  lemma UpdateKeepsKeys(media: seq<Medium>, id: String, c: Change)
    requires UniqueMediumIds(media)
    ensures UniqueMediumIds(Update(media, id, c)) && MediumIds(Update(media, id, c)) == MediumIds(media)
  {
    var r := Update(media, id, c);
    assert forall i | 0 <= i < |r| :: r[i].id == media[i].id;
    assert MediumIds(r) == MediumIds(media) by {
      forall x ensures x in MediumIds(r) <==> x in MediumIds(media) {
        if x in MediumIds(media) {
          var i :| 0 <= i < |media| && media[i].id == x;
          assert r[i].id == x;
        }
      }
    }
  }

  /** An unknown id changes nothing. */
  lemma UpdateUnknown(media: seq<Medium>, id: String, c: Change)
    requires !HasMedium(media, id)
    ensures Update(media, id, c) == media
  {
  }

  /** Blanking twice is blanking once. */
  lemma RevokeIdempotent(media: seq<Medium>, id: String)
    ensures Update(Update(media, id, Revoke), id, Revoke) == Update(media, id, Revoke)
  {
  }

  lemma ReleaseIdempotent(media: seq<Medium>, id: String)
    ensures Update(Update(media, id, Release), id, Release) == Update(media, id, Release)
  {
  }

  /** `rental_lend`. */
  method RentalLend(db: Database, id: String, account: String, deadline: String) returns (r: Result<(), DbError>)
    requires db.Valid()
    modifies db
    ensures db.Valid() && r.Ok?
    ensures db.media == Update(old(db.media), id, SetLend(account, deadline))
    ensures db.authors == old(db.authors) && db.users == old(db.users) && db.categories == old(db.categories) && db.meta == old(db.meta)
  {
    UpdateKeepsKeys(db.media, id, SetLend(account, deadline));
    db.media := Update(db.media, id, SetLend(account, deadline));
    r := Ok(());
  }

  /** `rental_revoke`. */
  method RentalRevoke(db: Database, id: String) returns (r: Result<(), DbError>)
    requires db.Valid()
    modifies db
    ensures db.Valid() && r.Ok?
    ensures db.media == Update(old(db.media), id, Revoke)
    ensures db.authors == old(db.authors) && db.users == old(db.users) && db.categories == old(db.categories) && db.meta == old(db.meta)
  {
    UpdateKeepsKeys(db.media, id, Revoke);
    db.media := Update(db.media, id, Revoke);
    r := Ok(());
  }

  /** `rental_reserve`. */
  method RentalReserve(db: Database, id: String, account: String) returns (r: Result<(), DbError>)
    requires db.Valid()
    modifies db
    ensures db.Valid() && r.Ok?
    ensures db.media == Update(old(db.media), id, SetReserve(account))
    ensures db.authors == old(db.authors) && db.users == old(db.users) && db.categories == old(db.categories) && db.meta == old(db.meta)
  {
    UpdateKeepsKeys(db.media, id, SetReserve(account));
    db.media := Update(db.media, id, SetReserve(account));
    r := Ok(());
  }

  /** `rental_release`. */
  method RentalRelease(db: Database, id: String) returns (r: Result<(), DbError>)
    requires db.Valid()
    modifies db
    ensures db.Valid() && r.Ok?
    ensures db.media == Update(old(db.media), id, Release)
    ensures db.authors == old(db.authors) && db.users == old(db.users) && db.categories == old(db.categories) && db.meta == old(db.meta)
  {
    UpdateKeepsKeys(db.media, id, Release);
    db.media := Update(db.media, id, Release);
    r := Ok(());
  }
}
