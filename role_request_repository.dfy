/** The role-request table: a user asks for a role, an admin approves or
    rejects the request. Listings are ordered newest first. Approval also
    promotes the requesting user to admin in the user table. */
module RoleRequestRepository {
  import opened Entity
  import opened Tables
  import UserRepository

  // ---------------------------------------------------------------------
  // Newest-first order (`ORDER BY created_at DESC`)

  ghost predicate NewestFirstOrder(s: seq<RoleRequest>)
  {
    forall i, j :: 0 <= i < j < |s| ==> s[i].createdAt >= s[j].createdAt
  }

  /** Inserts `x` into a newest-first sequence, before the first request
      that is not newer than it. */
  function Insert(x: RoleRequest, s: seq<RoleRequest>): (r: seq<RoleRequest>)
    requires NewestFirstOrder(s)
    ensures NewestFirstOrder(r)
    ensures multiset(r) == multiset(s) + multiset{x}
    ensures |r| == |s| + 1 && (r[0] == x || (s != [] && r[0] == s[0]))
  {
    if s == [] || x.createdAt >= s[0].createdAt then [x] + s
    else
      var t := Insert(x, s[1..]);
      assert s == [s[0]] + s[1..];
      [s[0]] + t
  }

  /** The requests ordered newest first. */
  function NewestFirst(s: seq<RoleRequest>): (r: seq<RoleRequest>)
    ensures NewestFirstOrder(r)
    ensures multiset(r) == multiset(s)
  {
    if s == [] then []
    else
      assert s == [s[0]] + s[1..];
      Insert(s[0], NewestFirst(s[1..]))
  }

  lemma NewestFirstSameRequests(s: seq<RoleRequest>)
    ensures forall x :: x in NewestFirst(s) <==> x in s
  {
    forall x
      ensures x in NewestFirst(s) <==> x in s
    {
      assert x in NewestFirst(s) <==> x in multiset(NewestFirst(s));
      assert x in s <==> x in multiset(s);
    }
  }

  /** Filtering keeps the newest-first order. */
  lemma {:induction false} WhereKeepsOrder(s: seq<RoleRequest>, p: RoleRequest -> bool)
    requires NewestFirstOrder(s)
    ensures NewestFirstOrder(Where(s, p))
  {
    if s != [] {
      WhereKeepsOrder(s[1..], p);
      var w := Where(s[1..], p);
      forall j | 0 <= j < |w|
        ensures s[0].createdAt >= w[j].createdAt
      {
        assert w[j] in s[1..];
      }
    }
  }

  // ---------------------------------------------------------------------
  // Queries

  /** `LatestByUser`: the newest request of the user. */
  function LatestByUser(rows: seq<RoleRequest>, username: string): (r: Result<RoleRequest>)
    ensures r.Ok? ==> && r.value in rows && r.value.username == username
                      && forall x :: x in rows && x.username == username ==> r.value.createdAt >= x.createdAt
    ensures r.Err? <==> forall x :: x in rows ==> x.username != username
    ensures r.Err? ==> r.error == RecordNotFound
  {
    var sorted := NewestFirst(rows);
    NewestFirstSameRequests(rows);
    match FirstIndex(sorted, (x: RoleRequest) => x.username == username)
    case None =>
      assert forall x :: x in rows ==> x.username != username by {
        forall x | x in rows ensures x.username != username {
          var j :| 0 <= j < |sorted| && sorted[j] == x;
        }
      }
      Err(RecordNotFound)
    case Some(i) =>
      assert forall x :: x in rows && x.username == username ==> sorted[i].createdAt >= x.createdAt by {
        forall x | x in rows && x.username == username ensures sorted[i].createdAt >= x.createdAt {
          var j :| 0 <= j < |sorted| && sorted[j] == x;
          assert i <= j;
        }
      }
      Ok(sorted[i])
  }

  /** The row limit of `List`: 100 unless a positive limit is given. */
  function ListLimit(limit: int): (n: nat)
    ensures n >= 1
    ensures limit > 0 ==> n == limit
  {
    if limit <= 0 then 100 else limit
  }

  predicate StatusMatches(x: RoleRequest, status: string)
  {
    status == "" || x.status == status
  }

  /** `List`: the requests with the status (every request for an empty
      status), newest first, at most `ListLimit(limit)` of them. */
  function List(rows: seq<RoleRequest>, status: string, limit: int): (r: seq<RoleRequest>)
    ensures |r| <= ListLimit(limit)
    ensures NewestFirstOrder(r)
    ensures forall x :: x in r ==> x in rows && StatusMatches(x, status)
    ensures |r| < ListLimit(limit) ==> forall x :: x in rows && StatusMatches(x, status) ==> x in r
    ensures forall x, y :: x in rows && StatusMatches(x, status) && x !in r && y in r ==> y.createdAt >= x.createdAt
  {
    NewestFirstSameRequests(rows);
    var w := Where(NewestFirst(rows), (x: RoleRequest) => StatusMatches(x, status));
    WhereKeepsOrder(NewestFirst(rows), (x: RoleRequest) => StatusMatches(x, status));
    TakeKeepsNewest(w, ListLimit(limit));
    Take(w, ListLimit(limit))
  }

  /** The first `n` requests of a newest-first list are at least as new as
      every request left behind. */
  lemma TakeKeepsNewest(w: seq<RoleRequest>, n: nat)
    requires NewestFirstOrder(w)
    ensures forall x, y :: x in w && x !in Take(w, n) && y in Take(w, n) ==> y.createdAt >= x.createdAt
  {
    var r := Take(w, n);
    forall x, y | x in w && x !in r && y in r
      ensures y.createdAt >= x.createdAt
    {
      var j :| 0 <= j < |w| && w[j] == x;
      var i :| 0 <= i < |r| && r[i] == y;
      assert w[i] == y;
    }
  }

  /** `GetByID`: the request with the id. */
  function GetByID(rows: seq<RoleRequest>, id: nat): (r: Result<RoleRequest>)
    ensures r.Ok? ==> r.value in rows && r.value.id == id
    ensures r.Err? <==> forall x :: x in rows ==> x.id != id
    ensures r.Err? ==> r.error == RecordNotFound
  {
    match First(rows, (x: RoleRequest) => x.id == id)
    case None => Err(RecordNotFound)
    case Some(x) => Ok(x)
  }

  // ---------------------------------------------------------------------
  // Decisions

  predicate PendingWithId(x: RoleRequest, id: nat)
  {
    x.id == id && x.status == RoleReqPending
  }

  /** The requests after deciding request `id`: only a pending request is
      decided; it takes the status, the deciding admin and the time. */
  function DecidedRows(rows: seq<RoleRequest>, id: nat, status: string, admin: string, now: Time)
    : (r: seq<RoleRequest>)
    ensures |r| == |rows|
  {
    UpdateWhere(rows, (x: RoleRequest) => PendingWithId(x, id),
                (x: RoleRequest) => x.(status := status, decidedBy := Some(admin), decidedAt := Some(now)))
  }

  /** A decided request is final: deciding again changes nothing. */
  lemma DecidedIsFinal(rows: seq<RoleRequest>, id: nat, status: string, admin: string, now: Time)
    requires forall x :: x in rows && x.id == id ==> x.status != RoleReqPending
    ensures DecidedRows(rows, id, status, admin, now) == rows
  {
    var d := DecidedRows(rows, id, status, admin, now);
    forall i | 0 <= i < |rows|
      ensures d[i] == rows[i]
    {
      assert rows[i] in rows;
    }
  }

  /** Deciding a pending request leaves it decided, with the admin recorded. */
  lemma DecidingPendingRecordsAdmin(rows: seq<RoleRequest>, i: nat, status: string, admin: string, now: Time)
    requires i < |rows| && rows[i].status == RoleReqPending
    ensures var d := DecidedRows(rows, rows[i].id, status, admin, now);
            d[i].status == status && d[i].decidedBy == Some(admin) && d[i].decidedAt == Some(now)
            && d[i].username == rows[i].username && d[i].requestedRole == rows[i].requestedRole
  {
  }

  /** The user table after `Approve` as written: the user named by request
      `id` becomes admin whenever that request exists, whatever its status. */
  function PromotedAsWritten(users: seq<User>, requests: seq<RoleRequest>, id: nat): (r: seq<User>)
    ensures |r| == |users|
  {
    match GetByID(requests, id)
    case Err(_) => users
    case Ok(x) => UserRepository.RoledUsers(users, x.username, RoleAdmin)
  }

  /** The user table after the corrected approval: the user named by request
      `id` becomes admin only when that request was pending. */
  function PromotedIfPending(users: seq<User>, requests: seq<RoleRequest>, id: nat): (r: seq<User>)
    ensures |r| == |users|
  {
    match First(requests, (x: RoleRequest) => PendingWithId(x, id))
    case None => users
    case Some(x) => UserRepository.RoledUsers(users, x.username, RoleAdmin)
  }

  /** `Approve` as written promotes the requester of an already rejected
      request: the request stays rejected, yet the user becomes admin. */
  lemma ApproveAsWrittenPromotesRejected()
    ensures var requests := [RoleRequest(1, "bob", RoleAdmin, RoleReqRejected, "", Some("root"), Some(5), 1)];
            var users := [User(7, "bob", "bob@example.org", "h", RoleReader, [], None)];
            && DecidedRows(requests, 1, RoleReqApproved, "eve", 9) == requests
            && PromotedAsWritten(users, requests, 1)[0].role == RoleAdmin
  {
    var requests := [RoleRequest(1, "bob", RoleAdmin, RoleReqRejected, "", Some("root"), Some(5), 1)];
    var users := [User(7, "bob", "bob@example.org", "h", RoleReader, [], None)];
    DecidedIsFinal(requests, 1, RoleReqApproved, "eve", 9);
  }

  /** The corrected approval changes a user's role only if the request was
      pending, and then exactly the requester's visible row becomes admin. */
  lemma PromotedIfPendingOnlyPending(users: seq<User>, requests: seq<RoleRequest>, id: nat)
    ensures (forall x :: x in requests ==> !PendingWithId(x, id)) ==> PromotedIfPending(users, requests, id) == users
    ensures forall x :: x in requests && PendingWithId(x, id) && (forall y :: y in requests && y.id == id ==> y == x) ==>
              forall i :: 0 <= i < |users| ==>
                PromotedIfPending(users, requests, id)[i].role
                  == if UserVisible(users[i]) && users[i].username == x.username then RoleAdmin else users[i].role
  {
  }

  // ---------------------------------------------------------------------
  // The table

  class RoleRequestStore {
    var rows: seq<RoleRequest>
    var nextId: nat

    ghost predicate Valid()
      reads this
    {
      && nextId >= 1
      && (forall i :: 0 <= i < |rows| ==> 0 < rows[i].id < nextId)
      && (forall i, j :: 0 <= i < j < |rows| ==> rows[i].id != rows[j].id)
    }

    constructor ()
      ensures Valid() && rows == [] && nextId == 1
    {
      rows := [];
      nextId := 1;
    }

    /** `Create`: stores the request under the next id, stamped with the
        creation time; an empty status takes the column default, pending. */
    method Create(request: RoleRequest, now: Time)
      requires Valid()
      modifies this
      ensures Valid()
      ensures rows == old(rows) + [request.(id := old(nextId), createdAt := now,
                                            status := if request.status == "" then RoleReqPending else request.status)]
      ensures nextId == old(nextId) + 1
    {
      var status := if request.status == "" then RoleReqPending else request.status;
      rows := rows + [request.(id := nextId, createdAt := now, status := status)];
      nextId := nextId + 1;
    }

    /** `Approve` as written: decides request `id` as approved if it is
        pending, then promotes the user the request names, whether or not
        the request was pending. */
    method Approve(id: nat, admin: string, now: Time, users: UserRepository.UserStore)
      requires Valid() && users.Valid()
      modifies this, users
      ensures Valid() && users.Valid() && nextId == old(nextId) && users.nextId == old(users.nextId)
      ensures rows == DecidedRows(old(rows), id, RoleReqApproved, admin, now)
      ensures users.rows == PromotedAsWritten(old(users.rows), old(rows), id)
    {
      var before := rows;
      rows := DecidedRows(rows, id, RoleReqApproved, admin, now);
      var target := GetByID(before, id);
      if target.Ok? {
        users.SetRole(target.value.username, RoleAdmin);
      }
    }

    /** The corrected approval: the user is promoted only when the request
        was pending and has just been approved. */
    method ApprovePending(id: nat, admin: string, now: Time, users: UserRepository.UserStore)
      requires Valid() && users.Valid()
      modifies this, users
      ensures Valid() && users.Valid() && nextId == old(nextId) && users.nextId == old(users.nextId)
      ensures rows == DecidedRows(old(rows), id, RoleReqApproved, admin, now)
      ensures users.rows == PromotedIfPending(old(users.rows), old(rows), id)
    {
      var pending := First(rows, (x: RoleRequest) => PendingWithId(x, id));
      rows := DecidedRows(rows, id, RoleReqApproved, admin, now);
      if pending.Some? {
        users.SetRole(pending.value.username, RoleAdmin);
      }
    }

    /** `Reject`: decides request `id` as rejected if it is pending. */
    method Reject(id: nat, admin: string, now: Time)
      requires Valid()
      modifies this
      ensures Valid() && nextId == old(nextId)
      ensures rows == DecidedRows(old(rows), id, RoleReqRejected, admin, now)
    {
      rows := DecidedRows(rows, id, RoleReqRejected, admin, now);
    }
  }
}
