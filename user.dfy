/**
 * The user table of the revision built on the `sqlite` crate: the simple
 * search over four columns, adding, updating (with the borrower and
 * reservation references following a renamed account) and deleting a
 * user, after which references to accounts that no longer exist are
 * cleared.
 */
module UserTable {
  import opened Wrappers
  import opened Text
  import opened Schema
  import Sql

  // ------------------------------------------------------------ search

  /** `user_search`: the text occurs, as a LIKE pattern, in account, forename, surname or role. */
  predicate Matches(u: User, text: String) {
    var p := "%" + text + "%";
    Sql.Like(u.account, p) || Sql.Like(u.forename, p) || Sql.Like(u.surname, p) || Sql.Like(u.role, p)
  }

  /** The users `user_search` yields, in table order, as `DBUser::read` reads them. */
  function Search(users: seq<User>, text: String): (r: seq<UserData>)
    ensures |r| <= |users|
    ensures forall u | u in users && Matches(u, text) :: ReadUser(u) in r
    ensures forall x | x in r :: exists u | u in users :: Matches(u, text) && x == ReadUser(u)
  {
    if users == [] then []
    else
      var rest := Search(users[1..], text);
      assert forall u :: u in users <==> u == users[0] || u in users[1..];
      if Matches(users[0], text) then [ReadUser(users[0])] + rest else rest
  }

  /** A text without wildcards matches when one of the four columns contains it, ignoring ASCII case. */
  lemma MatchesLiteral(u: User, text: String)
    requires Sql.Literal(text)
    ensures Matches(u, text) <==>
      LikeContains(u.account, text) || LikeContains(u.forename, text) || LikeContains(u.surname, text) || LikeContains(u.role, text)
  {
    Sql.LikeInfix(u.account, text);
    Sql.LikeInfix(u.forename, text);
    Sql.LikeInfix(u.surname, text);
    Sql.LikeInfix(u.role, text);
  }

  // ------------------------------------------------------------ add

  lemma AppendFreshUser(users: seq<User>, u: User)
    requires UniqueAccounts(users) && !HasAccount(users, u.account)
    ensures UniqueAccounts(users + [u])
  {
  }

  /** `user_add`: a free account gives a new row, `may_borrow` stored as 1 or 0; a taken one fails. */
  method Add(db: Database, user: UserData) returns (r: Result<(), DbError>)
    requires db.Valid()
    modifies db
    ensures db.Valid()
    ensures HasAccount(old(db.users), user.account) ==> r == Err(SQLError) && db.users == old(db.users)
    ensures !HasAccount(old(db.users), user.account) ==> r == Ok(()) && db.users == old(db.users) + [WriteUser(user)]
    ensures db.media == old(db.media) && db.authors == old(db.authors) && db.categories == old(db.categories) && db.meta == old(db.meta)
  {
    if HasAccount(db.users, user.account) {
      // the primary key of `user` rejects the insert
      return Err(SQLError);
    }
    AppendFreshUser(db.users, WriteUser(user));
    db.users := db.users + [WriteUser(user)];
    r := Ok(());
  }

  // ------------------------------------------------------------ update

  /** The row of the previous account takes the new values. */
  function UpdateUsers(users: seq<User>, previous: String, user: UserData): (r: seq<User>)
    ensures |r| == |users|
    ensures forall i | 0 <= i < |users| :: r[i] == if users[i].account == previous then WriteUser(user) else users[i]
  {
    seq(|users|, i requires 0 <= i < |users| => if users[i].account == previous then WriteUser(user) else users[i])
  }

  /** Renaming the account onto another existing account violates the primary key. */
  predicate AccountClash(users: seq<User>, previous: String, account: String) {
    account != previous && HasAccount(users, previous) && HasAccount(users, account)
  }

  lemma UpdateUsersKeys(users: seq<User>, previous: String, user: UserData)
    requires UniqueAccounts(users) && !AccountClash(users, previous, user.account)
    ensures UniqueAccounts(UpdateUsers(users, previous, user))
  {
    var r := UpdateUsers(users, previous, user);
    forall i, j | 0 <= i < j < |r|
      ensures r[i].account != r[j].account
    {
      if users[i].account == previous || users[j].account == previous {
        assert HasAccount(users, previous);
      }
    }
  }

  /** Every loan to the previous account moves to the new one. */
  function RenameBorrower(media: seq<Medium>, previous: String, account: String): (r: seq<Medium>)
    ensures |r| == |media|
    ensures forall i | 0 <= i < |media| :: r[i] == if media[i].borrower == previous then media[i].(borrower := account) else media[i]
  {
    seq(|media|, i requires 0 <= i < |media| => if media[i].borrower == previous then media[i].(borrower := account) else media[i])
  }

  /** Every reservation of the previous account moves to the new one. */
  function RenameReservation(media: seq<Medium>, previous: String, account: String): (r: seq<Medium>)
    ensures |r| == |media|
    ensures forall i | 0 <= i < |media| :: r[i] == if media[i].reservation == previous then media[i].(reservation := account) else media[i]
  {
    seq(|media|, i requires 0 <= i < |media| => if media[i].reservation == previous then media[i].(reservation := account) else media[i])
  }

  /** Both references follow the account; the medium ids stay. */
  function Rename(media: seq<Medium>, previous: String, account: String): (r: seq<Medium>)
    ensures |r| == |media|
    ensures forall i | 0 <= i < |media| :: r[i].id == media[i].id
    ensures UniqueMediumIds(media) ==> UniqueMediumIds(r)
  {
    RenameReservation(RenameBorrower(media, previous, account), previous, account)
  }

  /** After a rename no medium refers to the previous account, and every former reference points to the new one. */
  lemma RenameMovesReferences(media: seq<Medium>, previous: String, account: String, i: nat)
    requires previous != account && i < |media|
    ensures Rename(media, previous, account)[i].borrower != previous
    ensures Rename(media, previous, account)[i].reservation != previous
    ensures media[i].borrower == previous ==> Rename(media, previous, account)[i].borrower == account
    ensures media[i].reservation == previous ==> Rename(media, previous, account)[i].reservation == account
    ensures media[i].borrower != previous ==> Rename(media, previous, account)[i].borrower == media[i].borrower
  {
  }

  /** An update that keeps the account changes no medium. */
  lemma RenameSame(media: seq<Medium>, account: String)
    ensures Rename(media, account, account) == media
  {
  }

  /**
   * `user_update`: the row with the previous account takes the given
   * values, then borrowers and reservations of the previous account are
   * renamed. A collision with an existing account aborts the transaction.
   */
  method Update(db: Database, previousAccount: String, user: UserData) returns (r: Result<(), DbError>)
    requires db.Valid()
    modifies db
    ensures db.Valid()
    ensures AccountClash(old(db.users), previousAccount, user.account) ==>
      r == Err(SQLError) && db.users == old(db.users) && db.media == old(db.media)
    ensures !AccountClash(old(db.users), previousAccount, user.account) ==>
      r == Ok(()) && db.users == UpdateUsers(old(db.users), previousAccount, user)
      && db.media == Rename(old(db.media), previousAccount, user.account)
    ensures db.authors == old(db.authors) && db.categories == old(db.categories) && db.meta == old(db.meta)
  {
    if AccountClash(db.users, previousAccount, user.account) {
      return Err(SQLError);
    }
    UpdateUsersKeys(db.users, previousAccount, user);
    db.users := UpdateUsers(db.users, previousAccount, user);
    db.media := RenameBorrower(db.media, previousAccount, user.account);
    db.media := RenameReservation(db.media, previousAccount, user.account);
    r := Ok(());
  }

  // ------------------------------------------------------------ delete

  /** The user rows without the given account. */
  function RemoveUser(users: seq<User>, account: String): (r: seq<User>)
    ensures forall u :: u in r <==> u in users && u.account != account
    ensures !HasAccount(r, account)
    ensures UniqueAccounts(users) ==> UniqueAccounts(r)
  {
    if users == [] then []
    else
      var rest := RemoveUser(users[1..], account);
      assert forall u :: u in users <==> u == users[0] || u in users[1..];
      if users[0].account == account then rest
      else
        assert forall k | 0 <= k < |rest| :: rest[k] in users[1..];
        assert UniqueAccounts(users) ==> forall k | 1 <= k < |users| :: users[k].account != users[0].account;
        [users[0]] + rest
  }

  /** The first clean-up statement: every reservation naming no account is blanked. */
  function ClearReservations(media: seq<Medium>, accounts: set<String>): (r: seq<Medium>)
    ensures |r| == |media|
    ensures forall i | 0 <= i < |media| :: r[i] == if media[i].reservation !in accounts then media[i].(reservation := []) else media[i]
  {
    seq(|media|, i requires 0 <= i < |media| => if media[i].reservation !in accounts then media[i].(reservation := []) else media[i])
  }

  /**
   * The second clean-up statement as written: the borrower is blanked
   * wherever the reservation names no account.
   */
  function ClearBorrowersAsWritten(media: seq<Medium>, accounts: set<String>): (r: seq<Medium>)
    ensures |r| == |media|
    ensures forall i | 0 <= i < |media| :: r[i] == if media[i].reservation !in accounts then media[i].(borrower := []) else media[i]
  {
    seq(|media|, i requires 0 <= i < |media| => if media[i].reservation !in accounts then media[i].(borrower := []) else media[i])
  }

  /**
   * The second clean-up statement as evidently intended: the borrower is
   * blanked wherever the borrower names no account.
   */
  function ClearBorrowers(media: seq<Medium>, accounts: set<String>): (r: seq<Medium>)
    ensures |r| == |media|
    ensures forall i | 0 <= i < |media| :: r[i] == if media[i].borrower !in accounts then media[i].(borrower := []) else media[i]
  {
    seq(|media|, i requires 0 <= i < |media| => if media[i].borrower !in accounts then media[i].(borrower := []) else media[i])
  }

  /** The cleanup after a delete, with the corrected second statement. */
  function ClearReferences(media: seq<Medium>, accounts: set<String>): (r: seq<Medium>)
    ensures |r| == |media|
    ensures forall i | 0 <= i < |media| :: r[i].id == media[i].id
    ensures UniqueMediumIds(media) ==> UniqueMediumIds(r)
  {
    ClearBorrowers(ClearReservations(media, accounts), accounts)
  }

  /** After the cleanup every borrower and every reservation is an account or empty. */
  lemma ClearReferencesNoDangling(media: seq<Medium>, accounts: set<String>, i: nat)
    requires i < |media|
    ensures var m := ClearReferences(media, accounts)[i];
      (m.borrower == [] || m.borrower in accounts) && (m.reservation == [] || m.reservation in accounts)
  {
  }

  /** The cleanup keeps every loan and reservation of an account that still exists. */
  lemma ClearReferencesKeepsValid(media: seq<Medium>, accounts: set<String>, i: nat)
    requires i < |media|
    ensures media[i].borrower in accounts ==> ClearReferences(media, accounts)[i].borrower == media[i].borrower
    ensures media[i].reservation in accounts ==> ClearReferences(media, accounts)[i].reservation == media[i].reservation
  {
  }

  /**
   * The cleanup as written drops the loan of any medium without a
   * reservation, even when the borrower still exists: here a medium lent
   * to "alice", who is a user, loses its borrower.
   */
  lemma ClearAsWrittenDropsValidLoan(m: Medium)
    requires m.borrower == "alice" && m.reservation == []
    ensures var accounts := {"alice"};
      ClearReferencesAsWritten([m], accounts)[0].borrower == []
      && ClearReferences([m], accounts)[0].borrower == "alice"
  {
    assert [] !in {"alice"};
  }

  /** The cleanup after a delete as written: both statements select on the reservation. */
  function ClearReferencesAsWritten(media: seq<Medium>, accounts: set<String>): (r: seq<Medium>)
    ensures |r| == |media|
    ensures forall i | 0 <= i < |media| :: r[i].id == media[i].id
    ensures UniqueMediumIds(media) ==> UniqueMediumIds(r)
    ensures forall i | 0 <= i < |media| :: r[i].reservation == [] || r[i].reservation in accounts
    ensures [] !in accounts ==> forall i | 0 <= i < |media| :: media[i].reservation !in accounts ==> r[i].borrower == []
  {
    ClearBorrowersAsWritten(ClearReservations(media, accounts), accounts)
  }

  /**
   * `user_delete` as written: the row goes; then every reservation of an
   * account that no longer exists is cleared, and the borrower of every
   * medium whose reservation names no account (after the first statement,
   * every medium without a reservation) is cleared too.
   */
  method Delete(db: Database, account: String) returns (r: Result<(), DbError>)
    requires db.Valid()
    modifies db
    ensures db.Valid() && r == Ok(())
    ensures db.users == RemoveUser(old(db.users), account)
    ensures db.media == ClearReferencesAsWritten(old(db.media), Accounts(db.users))
    ensures !HasAccount(db.users, account)
    ensures db.authors == old(db.authors) && db.categories == old(db.categories) && db.meta == old(db.meta)
  {
    db.users := RemoveUser(db.users, account);
    var accounts := Accounts(db.users);
    db.media := ClearReservations(db.media, accounts);
    db.media := ClearBorrowersAsWritten(db.media, accounts);
    r := Ok(());
  }

  /**
   * `user_delete` as evidently intended: the second statement clears the
   * borrowers that name no account, so loans and reservations of the
   * remaining users survive.
   */
  method DeleteIntended(db: Database, account: String) returns (r: Result<(), DbError>)
    requires db.Valid()
    modifies db
    ensures db.Valid() && r == Ok(())
    ensures db.users == RemoveUser(old(db.users), account)
    ensures db.media == ClearReferences(old(db.media), Accounts(db.users))
    ensures !HasAccount(db.users, account)
    ensures db.authors == old(db.authors) && db.categories == old(db.categories) && db.meta == old(db.meta)
  {
    db.users := RemoveUser(db.users, account);
    var accounts := Accounts(db.users);
    db.media := ClearReservations(db.media, accounts);
    db.media := ClearBorrowers(db.media, accounts);
    r := Ok(());
  }
}
