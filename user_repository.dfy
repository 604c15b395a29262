/** The user table. Queries are functions of the table's rows; the writes
    (create, update, soft-delete, restore, role change) are methods of
    `UserStore`, which rewrite its rows in place. Every query except the
    unscoped ones sees only rows that are not soft-deleted. */
module UserRepository {
  import opened Entity
  import opened Tables
  import opened Text

  /** Row ids increase down the table, as `Create` assigns them, so table
      order is primary-key order, the order `First` reads rows in. */
  predicate IdsIncrease(rows: seq<User>)
  {
    forall i, j :: 0 <= i < j < |rows| ==> rows[i].id < rows[j].id
  }

  // ---------------------------------------------------------------------
  // Queries

  /** `GetByUsername`: the first visible row with that username. */
  function GetByUsername(rows: seq<User>, username: string): (r: Result<User>)
    ensures r.Ok? ==> r.value in rows && UserVisible(r.value) && r.value.username == username
    ensures r.Err? <==> forall u :: u in rows && UserVisible(u) ==> u.username != username
    ensures r.Err? ==> r.error == RecordNotFound
  {
    match First(rows, (u: User) => UserVisible(u) && u.username == username)
    case None => Err(RecordNotFound)
    case Some(u) => Ok(u)
  }

  /** `GetByIdentifier`: the first visible row whose email or username is the
      identifier. */
  function GetByIdentifier(rows: seq<User>, identifier: string): (r: Result<User>)
    ensures r.Ok? ==> r.value in rows && UserVisible(r.value)
                      && (r.value.email == identifier || r.value.username == identifier)
    ensures r.Err? <==> forall u :: u in rows && UserVisible(u) ==> u.email != identifier && u.username != identifier
    ensures r.Err? ==> r.error == RecordNotFound
    ensures r.Ok? ==> exists i :: && 0 <= i < |rows| && rows[i] == r.value
                                  && forall j :: 0 <= j < i ==>
                                       !(UserVisible(rows[j]) && (rows[j].email == identifier || rows[j].username == identifier))
  {
    match First(rows, (u: User) => UserVisible(u) && (u.email == identifier || u.username == identifier))
    case None => Err(RecordNotFound)
    case Some(u) => Ok(u)
  }

  /** `ExistUser`: a count of visible rows with the email, then, if that was
      zero, a count of visible rows with the username. */
  function ExistUser(rows: seq<User>, email: string, username: string): (r: bool)
    ensures r <==> || (exists u :: u in rows && UserVisible(u) && u.email == email)
                   || (exists u :: u in rows && UserVisible(u) && u.username == username)
  {
    if Any(rows, (u: User) => UserVisible(u) && u.email == email) then true
    else Any(rows, (u: User) => UserVisible(u) && u.username == username)
  }

  /** The row limit of the prefix searches: 10 unless a positive limit is given. */
  function SearchLimit(limit: int): (n: nat)
    ensures n >= 1
    ensures limit > 0 ==> n == limit
  {
    if limit <= 0 then 10 else limit
  }

  predicate PrefixMatch(u: User, prefix: string)
  {
    HasPrefixFold(u.username, prefix)
  }

  /** `SearchByUsernamePrefix`: at most `SearchLimit(limit)` visible users
      whose username starts with `prefix`, ignoring case, in table order. */
  function SearchByUsernamePrefix(rows: seq<User>, prefix: string, limit: int): (r: seq<User>)
    ensures |r| <= SearchLimit(limit)
    ensures forall u :: u in r ==> u in rows && UserVisible(u) && PrefixMatch(u, prefix)
    ensures |r| < SearchLimit(limit) ==>
              forall u :: u in rows && UserVisible(u) && PrefixMatch(u, prefix) ==> u in r
  {
    Take(Where(rows, (u: User) => UserVisible(u) && PrefixMatch(u, prefix)), SearchLimit(limit))
  }

  /** `SearchByUsernamePrefixWithOptions`: the same search, run unscoped when
      `includeDeleted` is set. */
  function SearchByUsernamePrefixWithOptions(rows: seq<User>, prefix: string, limit: int, includeDeleted: bool)
    : (r: seq<User>)
    ensures |r| <= SearchLimit(limit)
    ensures forall u :: u in r ==> u in rows && (includeDeleted || UserVisible(u)) && PrefixMatch(u, prefix)
    ensures |r| < SearchLimit(limit) ==>
              forall u :: u in rows && (includeDeleted || UserVisible(u)) && PrefixMatch(u, prefix) ==> u in r
  {
    Take(Where(rows, (u: User) => (includeDeleted || UserVisible(u)) && PrefixMatch(u, prefix)), SearchLimit(limit))
  }

  /** Without `includeDeleted` the option search is the plain search. */
  lemma SearchWithoutDeletedIsPlain(rows: seq<User>, prefix: string, limit: int)
    ensures SearchByUsernamePrefixWithOptions(rows, prefix, limit, false) == SearchByUsernamePrefix(rows, prefix, limit)
  {
    WhereExtensional(rows, (u: User) => (false || UserVisible(u)) && PrefixMatch(u, prefix),
                           (u: User) => UserVisible(u) && PrefixMatch(u, prefix));
  }

  // ---------------------------------------------------------------------
  // The table and its writes

  /** The unique indexes on `username` and `email`: they cover every row,
      soft-deleted ones included. */
  ghost predicate UniqueKeys(rows: seq<User>)
  {
    forall i, j :: 0 <= i < j < |rows| ==> rows[i].username != rows[j].username && rows[i].email != rows[j].email
  }

  /** No row other than the one at `skip` holds `username` or `email`
      (`skip == |rows|` checks every row). */
  predicate KeysFreeExcept(rows: seq<User>, skip: nat, username: string, email: string)
  {
    forall j :: 0 <= j < |rows| && j != skip ==> rows[j].username != username && rows[j].email != email
  }

  predicate UpdateTarget(u: User, oldUsername: string)
  {
    UserVisible(u) && u.username == oldUsername
  }

  /** The columns `Update` writes: username, email and password. */
  function Rewritten(u: User, src: User): User
  {
    u.(username := src.username, email := src.email, password := src.password)
  }

  /** The rows after soft-deleting the visible row with the username. */
  function DeletedUsers(rows: seq<User>, username: string, now: Time): (r: seq<User>)
    ensures |r| == |rows|
  {
    UpdateWhere(rows, (u: User) => UserVisible(u) && u.username == username, (u: User) => u.(deletedAt := Some(now)))
  }

  /** The rows after the unscoped restore of the username. */
  function RestoredUsers(rows: seq<User>, username: string): (r: seq<User>)
    ensures |r| == |rows|
  {
    UpdateWhere(rows, (u: User) => u.username == username, (u: User) => u.(deletedAt := None))
  }

  /** The rows after setting the role of the visible row with the username. */
  function RoledUsers(rows: seq<User>, username: string, role: string): (r: seq<User>)
    ensures |r| == |rows|
  {
    UpdateWhere(rows, (u: User) => UserVisible(u) && u.username == username, (u: User) => u.(role := role))
  }

  /** A deleted user can no longer be found by username; every other row is
      untouched. */
  lemma DeleteHidesUser(rows: seq<User>, username: string, now: Time)
    ensures GetByUsername(DeletedUsers(rows, username, now), username) == Err(RecordNotFound)
    ensures forall i :: 0 <= i < |rows| && rows[i].username != username ==> DeletedUsers(rows, username, now)[i] == rows[i]
  {
    var d := DeletedUsers(rows, username, now);
    forall u | u in d && UserVisible(u)
      ensures u.username != username
    {
      var i :| 0 <= i < |d| && d[i] == u;
    }
  }

  /** Restoring a user undoes deleting it, provided none of its rows was
      already deleted. */
  lemma RestoreUndoesUserDelete(rows: seq<User>, username: string, now: Time)
    requires forall u :: u in rows && u.username == username ==> UserVisible(u)
    ensures RestoredUsers(DeletedUsers(rows, username, now), username) == rows
  {
    var r := RestoredUsers(DeletedUsers(rows, username, now), username);
    forall i | 0 <= i < |rows|
      ensures r[i] == rows[i]
    {
      assert rows[i] in rows;
    }
  }

  /** After a restore that succeeded, the user can be found again, deleted
      or not before. */
  lemma RestoreMakesVisible(rows: seq<User>, username: string)
    requires exists u :: u in rows && u.username == username
    ensures GetByUsername(RestoredUsers(rows, username), username).Ok?
  {
    var u :| u in rows && u.username == username;
    var i :| 0 <= i < |rows| && rows[i] == u;
    assert RestoredUsers(rows, username)[i] in RestoredUsers(rows, username);
  }

  /** The new username or email of `user` is held by a row other than the
      one `Update` rewrites. */
  predicate UpdateClash(rows: seq<User>, oldUsername: string, user: User)
  {
    exists i :: 0 <= i < |rows| && UpdateTarget(rows[i], oldUsername) && !KeysFreeExcept(rows, i, user.username, user.email)
  }

  /** The rows after `Update` went through. */
  function RewrittenUsers(rows: seq<User>, oldUsername: string, user: User): (r: seq<User>)
    ensures |r| == |rows|
  {
    UpdateWhere(rows, (u: User) => UpdateTarget(u, oldUsername), (u: User) => Rewritten(u, user))
  }

  /** An update that goes through keeps both unique indexes intact. */
  lemma RewriteKeepsKeysUnique(rows: seq<User>, oldUsername: string, user: User)
    requires UniqueKeys(rows) && !UpdateClash(rows, oldUsername, user)
    ensures UniqueKeys(RewrittenUsers(rows, oldUsername, user))
  {
    var r := RewrittenUsers(rows, oldUsername, user);
    forall i, j | 0 <= i < j < |r|
      ensures r[i].username != r[j].username && r[i].email != r[j].email
    {
      if UpdateTarget(rows[i], oldUsername) {
        assert !UpdateTarget(rows[j], oldUsername);
        assert KeysFreeExcept(rows, i, user.username, user.email);
      } else if UpdateTarget(rows[j], oldUsername) {
        assert KeysFreeExcept(rows, j, user.username, user.email);
      }
    }
  }

  class UserStore {
    var rows: seq<User>
    var nextId: nat

    ghost predicate Valid()
      reads this
    {
      && nextId >= 1
      && UniqueKeys(rows)
      && (forall i :: 0 <= i < |rows| ==> 0 < rows[i].id < nextId)
      && IdsIncrease(rows)
    }

    constructor ()
      ensures Valid() && rows == [] && nextId == 1
    {
      rows := [];
      nextId := 1;
    }

    /** `Create`: inserts the row with the next id; the unique indexes refuse
        a username or email that any row, deleted or not, already holds. */
    method Create(user: User) returns (r: Outcome)
      requires Valid()
      modifies this
      ensures Valid()
      ensures r == if KeysFreeExcept(old(rows), |old(rows)|, user.username, user.email) then Pass else Fail(UniqueViolation)
      ensures r.Pass? ==> rows == old(rows) + [user.(id := old(nextId))] && nextId == old(nextId) + 1
      ensures r.Fail? ==> rows == old(rows) && nextId == old(nextId)
    {
      if !KeysFreeExcept(rows, |rows|, user.username, user.email) {
        return Fail(UniqueViolation);
      }
      rows := rows + [user.(id := nextId)];
      nextId := nextId + 1;
      r := Pass;
    }

    /** `Update`: rewrites username, email and password of the visible row
        named `oldUsername`; role, followers, id and deletion state stay.
        A clash with the unique indexes changes nothing; no matching row is
        not an error. */
    method Update(oldUsername: string, user: User) returns (r: Outcome)
      requires Valid()
      modifies this
      ensures Valid() && nextId == old(nextId)
      ensures r == if UpdateClash(old(rows), oldUsername, user) then Fail(UniqueViolation) else Pass
      ensures rows == if r.Fail? then old(rows) else RewrittenUsers(old(rows), oldUsername, user)
    {
      var found := FirstIndex(rows, (u: User) => UpdateTarget(u, oldUsername));
      if found.None? {
        assert rows == RewrittenUsers(rows, oldUsername, user);
        return Pass;
      }
      var i := found.value;
      forall k | 0 <= k < |rows| && UpdateTarget(rows[k], oldUsername)
        ensures k == i
      {
      }
      if !KeysFreeExcept(rows, i, user.username, user.email) {
        return Fail(UniqueViolation);
      }
      RewriteKeepsKeysUnique(rows, oldUsername, user);
      rows := RewrittenUsers(rows, oldUsername, user);
      r := Pass;
    }

    /** `Delete`: fails if no visible row has the username; otherwise stamps
        `deleted_at` on that row and touches nothing else. */
    method Delete(username: string, now: Time) returns (r: Outcome)
      requires Valid()
      modifies this
      ensures Valid() && nextId == old(nextId)
      ensures r == if GetByUsername(old(rows), username).Ok? then Pass else Fail(RecordNotFound)
      ensures rows == if r.Fail? then old(rows) else DeletedUsers(old(rows), username, now)
    {
      var found := GetByUsername(rows, username);
      if found.Err? {
        return Fail(found.error);
      }
      rows := DeletedUsers(rows, username, now);
      r := Pass;
    }

    /** `Restore` (unscoped): clears `deleted_at` on the row with the
        username whatever its deletion state; fails only if no row at all has
        the username. */
    method Restore(username: string) returns (r: Outcome)
      requires Valid()
      modifies this
      ensures Valid() && nextId == old(nextId)
      ensures r == if exists u :: u in old(rows) && u.username == username then Pass else Fail(RecordNotFound)
      ensures rows == RestoredUsers(old(rows), username)
    {
      var affected := Any(rows, (u: User) => u.username == username);
      rows := RestoredUsers(rows, username);
      r := if affected then Pass else Fail(RecordNotFound);
    }

    /** `SetRole`: sets the role of the visible row with the username. */
    method SetRole(username: string, role: string)
      requires Valid()
      modifies this
      ensures Valid() && nextId == old(nextId)
      ensures rows == RoledUsers(old(rows), username, role)
    {
      rows := RoledUsers(rows, username, role);
    }
  }
}
