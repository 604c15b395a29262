/** The decisions the identity endpoints take before they call the service:
    who the target account is, which callers are refused, and how the path
    and query strings are read. Response shaping and status codes are not
    modelled; a refusal only says why. */
module AuthHandler {
  import opened Entity
  import opened Text
  import opened Request
  import UserRepository
  import RoleRequestRepository
  import AuthService

  // ---------------------------------------------------------------------
  // Register and login

  /** The registration role as the service sees it: surrounding white space
      removed and ASCII letters lower-cased. */
  function NormalizeRole(role: string): (r: string)
    ensures |r| <= |role|
    ensures forall i :: 0 <= i < |r| ==> !('A' <= r[i] <= 'Z')
    ensures r == [] || (!IsSpace(r[0]) && !IsSpace(r[|r| - 1]))
    ensures exists i, j ::
              && 0 <= i <= j <= |role| && r == Lower(role[i..j])
              && (forall k :: 0 <= k < i ==> IsSpace(role[k]))
              && (forall k :: j <= k < |role| ==> IsSpace(role[k]))
  {
    LowerOfTrim(role);
    Lower(TrimSpace(role))
  }

  /** Lower-casing the trim of `role` is lower-casing the infix of `role`
      that the trim keeps. */
  lemma LowerOfTrim(role: string)
    ensures |TrimSpace(role)| <= |role|
    ensures exists i, j ::
              && 0 <= i <= j <= |role| && Lower(TrimSpace(role)) == Lower(role[i..j])
              && (forall k :: 0 <= k < i ==> IsSpace(role[k]))
              && (forall k :: j <= k < |role| ==> IsSpace(role[k]))
  {
    var t := TrimSpace(role);
    var i, j :| && 0 <= i <= j <= |role| && t == role[i..j]
                && (forall k :: 0 <= k < i ==> IsSpace(role[k]))
                && (forall k :: j <= k < |role| ==> IsSpace(role[k]));
    assert Lower(t) == Lower(role[i..j]);
  }

  /** A string without white space at either end is its own trim. */
  lemma TrimmedIsFixed(s: string)
    requires s == [] || (!IsSpace(s[0]) && !IsSpace(s[|s| - 1]))
    ensures TrimSpace(s) == s
  {
    assert TrimLeft(s) == s;
    assert TrimRight(s) == s;
  }

  /** Normalizing a normalized role changes nothing. */
  lemma NormalizeRoleIdempotent(role: string)
    ensures NormalizeRole(NormalizeRole(role)) == NormalizeRole(role)
  {
    var n := NormalizeRole(role);
    TrimmedIsFixed(n);
    LowerIsFixed(n);
    assert NormalizeRole(n) == Lower(TrimSpace(n));
  }

  /** A string without upper-case ASCII letters is its own lower-casing. */
  lemma LowerIsFixed(s: string)
    requires forall i :: 0 <= i < |s| ==> !('A' <= s[i] <= 'Z')
    ensures Lower(s) == s
  {
    forall i | 0 <= i < |s|
      ensures LowerChar(s[i]) == s[i]
    {
    }
  }

  /** `Register`: an unreadable body is refused; otherwise the service gets
      the request with its role normalized. */
  function RegisterGate(body: Option<AuthService.RegisterRequest>): (r: Gate<AuthService.RegisterRequest>)
    ensures body.None? <==> r == Refuse(InvalidInput)
    ensures r.Call? ==> r.arg == body.value.(role := NormalizeRole(body.value.role))
  {
    match body
    case None => Refuse(InvalidInput)
    case Some(req) => Call(req.(role := NormalizeRole(req.role)))
  }

  /** The success reply says the admin request was forwarded to the admins
      exactly when the normalized role is `admin`. */
  function RegisterNotice(req: AuthService.RegisterRequest): (adminNotice: bool)
    ensures adminNotice <==> req.role == RoleAdmin
  {
    req.role == RoleAdmin
  }

  /** Asking for `admin` in any spelling the handler accepts registers a
      `reader` and shows the notice. */
  lemma AdminRequestRegistersReader(users: seq<User>, body: AuthService.RegisterRequest, hashed: Option<string>)
    requires NormalizeRole(body.role) == RoleAdmin
    requires AuthService.RegisterCheck(users, RegisterGate(Some(body)).arg, hashed).Ok?
    ensures AuthService.RegisterCheck(users, RegisterGate(Some(body)).arg, hashed).value.role == RoleReader
    ensures RegisterNotice(RegisterGate(Some(body)).arg)
  {
  }

  /** `Login`: an unreadable body is refused; otherwise the identifier and
      password go to the service as sent. */
  function LoginGate(body: Option<(string, string)>): (r: Gate<(string, string)>)
    ensures body.None? <==> r == Refuse(InvalidInput)
    ensures r.Call? ==> r.arg == body.value
  {
    match body
    case None => Refuse(InvalidInput)
    case Some(credentials) => Call(credentials)
  }

  // ---------------------------------------------------------------------
  // The account an endpoint acts on

  /** Target resolution of `UpdateUser` and `DeleteUser`: a missing token is
      refused first, then an empty path name; an admin may act on any
      account, anyone else only on their own. */
  function ResolveTarget(token: Token, param: string): (r: Gate<string>)
    ensures token.username == "" <==> r == Refuse(Unauthorized)
    ensures r == Refuse(UsernameRequired) <==> token.username != "" && TrimSpace(param) == ""
    ensures r == Refuse(Forbidden) <==>
              token.username != "" && TrimSpace(param) != "" && token.role != RoleAdmin && token.username != TrimSpace(param)
    ensures r.Call? ==> r.arg == TrimSpace(param) && r.arg != ""
    ensures r.Call? && token.role != RoleAdmin ==> r.arg == token.username
  {
    if token.username == "" then Refuse(Unauthorized)
    else
      var target := TrimSpace(param);
      if target == "" then Refuse(UsernameRequired)
      else if token.role != RoleAdmin then
        if token.username != target then Refuse(Forbidden) else Call(token.username)
      else Call(target)
  }

  /** `UpdateUser`: the resolved target, then the body. */
  function UpdateUserGate(token: Token, param: string, body: Option<AuthService.UpdateRequest>)
    : (r: Gate<(string, AuthService.UpdateRequest)>)
    ensures ResolveTarget(token, param).Refuse? ==> r == Refuse(ResolveTarget(token, param).why)
    ensures ResolveTarget(token, param).Call? && body.None? ==> r == Refuse(InvalidInput)
    ensures r.Call? <==> ResolveTarget(token, param).Call? && body.Some?
    ensures r.Call? ==> r.arg == (ResolveTarget(token, param).arg, body.value)
  {
    match ResolveTarget(token, param)
    case Refuse(why) => Refuse(why)
    case Call(target) =>
      match body
      case None => Refuse(InvalidInput)
      case Some(req) => Call((target, req))
  }

  /** `DeleteUser`: the resolved target. */
  function DeleteUserGate(token: Token, param: string): (r: Gate<string>)
    ensures r == ResolveTarget(token, param)
  {
    ResolveTarget(token, param)
  }

  /** A caller who is not an admin can soft-delete no account but their own:
      every row under another name is left as it was. */
  lemma NonAdminDeletesOnlySelf(users: seq<User>, token: Token, param: string, now: Time)
    requires token.role != RoleAdmin && DeleteUserGate(token, param).Call?
    ensures forall i :: 0 <= i < |users| && users[i].username != token.username ==>
              UserRepository.DeletedUsers(users, DeleteUserGate(token, param).arg, now)[i] == users[i]
  {
    UserRepository.DeleteHidesUser(users, DeleteUserGate(token, param).arg, now);
  }

  /** A caller who is not an admin can update no account but their own. */
  lemma NonAdminUpdatesOnlySelf(token: Token, param: string, body: Option<AuthService.UpdateRequest>)
    requires token.role != RoleAdmin && UpdateUserGate(token, param, body).Call?
    ensures UpdateUserGate(token, param, body).arg.0 == token.username
  {
  }

  /** `GetMe`, `UpdateMe` and `DeleteMe`: the token's own account, after
      refusing a missing token. */
  function MeGate(token: Token): (r: Gate<string>)
    ensures token.username == "" <==> r == Refuse(Unauthorized)
    ensures r.Call? ==> r.arg == token.username
  {
    if token.username == "" then Refuse(Unauthorized) else Call(token.username)
  }

  /** `UpdateMe`: the token's account, then the body. */
  function UpdateMeGate(token: Token, body: Option<AuthService.UpdateRequest>)
    : (r: Gate<(string, AuthService.UpdateRequest)>)
    ensures token.username == "" <==> r == Refuse(Unauthorized)
    ensures token.username != "" && body.None? <==> r == Refuse(InvalidInput)
    ensures r.Call? ==> r.arg == (token.username, body.value)
  {
    match MeGate(token)
    case Refuse(why) => Refuse(why)
    case Call(me) =>
      match body
      case None => Refuse(InvalidInput)
      case Some(req) => Call((me, req))
  }

  /** `GetUserByUsername`: unlike the other endpoints, the path name is
      checked before the token; the service gets the trimmed path name and
      the token name. */
  function GetUserByUsernameGate(token: Token, param: string): (r: Gate<(string, string)>)
    ensures TrimSpace(param) == "" <==> r == Refuse(UsernameRequired)
    ensures r == Refuse(Unauthorized) <==> TrimSpace(param) != "" && token.username == ""
    ensures r.Call? ==> r.arg == (TrimSpace(param), token.username)
  {
    var target := TrimSpace(param);
    if target == "" then Refuse(UsernameRequired)
    else if token.username == "" then Refuse(Unauthorized)
    else Call((target, token.username))
  }

  // ---------------------------------------------------------------------
  // Search

  /** The arguments `SearchUsers` hands on: viewer, prefix, limit and the
      deleted-users flag. */
  datatype SearchArgs = SearchArgs(viewer: string, prefix: string, limit: int, includeDeleted: bool)

  /** A query value that `Atoi` rejects at its first character: neither a
      digit nor a sign. */
  predicate NotANumber(v: string)
  {
    v != "" && !IsDigit(v[0]) && v[0] != '+' && v[0] != '-'
  }

  /** `SearchUsers`: the trimmed `search` query, the `limit` query read by
      `Atoi` with `10` as default, and `include_deleted` only for `true` or
      `1`, with no role check. */
  function SearchGate(token: Token, search: string, limit: string, includeDeleted: string): (r: SearchArgs)
    ensures r.includeDeleted <==> includeDeleted == "true" || includeDeleted == "1"
    ensures r.prefix == TrimSpace(search) && r.viewer == token.username
    ensures limit == "" ==> r.limit == 10
    ensures Atoi(limit).ok ==> r.limit == Atoi(limit).value
  {
    AtoiTen();
    SearchArgs(token.username, TrimSpace(search), Atoi(QueryOr(limit, "10")).value,
               includeDeleted == "true" || includeDeleted == "1")
  }

  /** The search keeps the positive number `Atoi` reads from `limit` and
      falls back to ten rows otherwise: for a number below one, for a value
      that does not start like a number, and for any malformed value short
      enough that its digits cannot overflow. A malformed value whose
      leading digits already pass the 64-bit range is read as the largest
      64-bit integer instead. */
  lemma SearchLimitFallsBackToTen(token: Token, search: string, limit: string, includeDeleted: string)
    ensures UserRepository.SearchLimit(SearchGate(token, search, limit, includeDeleted).limit) ==
              if limit != "" && Atoi(limit).value > 0 then Atoi(limit).value else 10
    ensures NotANumber(limit) ==> UserRepository.SearchLimit(SearchGate(token, search, limit, includeDeleted).limit) == 10
    ensures SignedDecimal(limit).Some? && SignedDecimal(limit).value <= 0 ==>
              UserRepository.SearchLimit(SearchGate(token, search, limit, includeDeleted).limit) == 10
    ensures SignedDecimal(limit).None? && |limit| <= 19 ==>
              UserRepository.SearchLimit(SearchGate(token, search, limit, includeDeleted).limit) == 10
  {
    AtoiSpec(limit);
    if SignedDecimal(limit).None? && |limit| <= 19 {
      AtoiShortMalformed(limit);
    }
  }

  // ---------------------------------------------------------------------
  // Admin-only endpoints

  /** `RestoreUser`: only an admin, and only with a non-empty path name. */
  function RestoreUserGate(token: Token, param: string): (r: Gate<string>)
    ensures token.role != RoleAdmin <==> r == Refuse(Forbidden)
    ensures r.Call? <==> token.role == RoleAdmin && TrimSpace(param) != ""
    ensures token.role == RoleAdmin && TrimSpace(param) == "" ==> r == Refuse(UsernameRequired)
    ensures r.Call? ==> r.arg == TrimSpace(param)
  {
    if token.role != RoleAdmin then Refuse(Forbidden)
    else
      var target := TrimSpace(param);
      if target == "" then Refuse(UsernameRequired) else Call(target)
  }

  /** `RequestAdminRole`: the token's account and the body's reason; an
      unreadable body leaves the reason empty. */
  function RequestAdminRoleGate(token: Token, reason: Option<string>): (r: Gate<(string, string)>)
    ensures token.username == "" <==> r == Refuse(Unauthorized)
    ensures r.Call? ==> r.arg.0 == token.username
    ensures r.Call? ==> r.arg.1 == (if reason.Some? then reason.value else "")
  {
    if token.username == "" then Refuse(Unauthorized)
    else Call((token.username, if reason.Some? then reason.value else ""))
  }

  /** The `limit` of the role-request list: `Atoi` of the query with `100`
      as default, and `100` again for anything not positive. */
  function ListLimitQuery(limit: string): (n: int)
    ensures n > 0
    ensures Atoi(limit).ok && Atoi(limit).value > 0 ==> n == Atoi(limit).value
    ensures limit == "" || NotANumber(limit) ==> n == 100
    ensures SignedDecimal(limit).Some? && SignedDecimal(limit).value <= 0 ==> n == 100
    ensures SignedDecimal(limit).None? && |limit| <= 19 ==> n == 100
    ensures !Atoi(limit).ok && limit != "" && Atoi(limit).value > 0 ==> n == MaxInt64
  {
    AtoiSpec(limit);
    assert SignedDecimal(limit).None? && |limit| <= 19 ==> Atoi(limit).value == 0 by {
      if SignedDecimal(limit).None? && |limit| <= 19 {
        AtoiShortMalformed(limit);
      }
    }
    var parsed := Atoi(QueryOr(limit, "100")).value;
    if parsed <= 0 then 100 else parsed
  }

  /** `ListRoleRequests`: only an admin; the status filter as sent. */
  function ListRoleRequestsGate(token: Token, status: string, limit: string): (r: Gate<(string, int)>)
    ensures token.role != RoleAdmin <==> r == Refuse(Forbidden)
    ensures r.Call? ==> r.arg == (status, ListLimitQuery(limit))
  {
    if token.role != RoleAdmin then Refuse(Forbidden) else Call((status, ListLimitQuery(limit)))
  }

  /** The handler's limit is already one the repository keeps as it is. */
  lemma ListLimitAgrees(limit: string)
    ensures RoleRequestRepository.ListLimit(ListLimitQuery(limit)) == ListLimitQuery(limit)
  {
  }

  /** `ApproveRoleRequest` and `RejectRoleRequest`: only an admin, and only
      for an id that `ParseUint` reads as a positive number; the deciding
      admin is the token's account. */
  function DecideGate(token: Token, idParam: string): (r: Gate<(nat, string)>)
    ensures token.role != RoleAdmin <==> r == Refuse(Forbidden)
    ensures r.Call? <==>
              && token.role == RoleAdmin && idParam != [] && AllDigits(idParam)
              && 0 < DecimalValue(idParam) <= MaxUint64
    ensures r.Call? ==> r.arg == (DecimalValue(idParam), token.username)
  {
    ParseUintSpec(idParam);
    if token.role != RoleAdmin then Refuse(Forbidden)
    else match ParseUint(idParam)
      case Value(id) => if id == 0 then Refuse(InvalidId) else Call((id, token.username))
      case _ => Refuse(InvalidId)
  }
}
