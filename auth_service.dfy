/** The identity service: registration, login, profile lookup and search,
    profile update with the blog-owner rename cascade, and soft-delete.
    Password hashing and comparison are opaque: a hash arrives as a
    parameter (`None` when hashing failed) and comparison is the `matches`
    parameter. The clock is the `now` parameter; a token is its claims. */
module AuthService {
  import opened Entity
  import opened Tables
  import opened ViewModel
  import UserRepository
  import BlogRepository

  datatype RegisterRequest = RegisterRequest(username: string, email: string, password: string, role: string)

  datatype RegisterResponse = RegisterResponse(username: string, email: string, role: string)

  /** The claims a login token carries. */
  datatype Claims = Claims(username: string, userId: nat, role: string, exp: Time)

  datatype LoginResponse = LoginResponse(token: Claims, id: nat, username: string, email: string)

  datatype UpdateRequest = UpdateRequest(username: string, email: string, password: string)

  datatype UpdateResponse = UpdateResponse(id: nat, username: string, email: string, role: string)

  /** A login token is valid for 24 hours. */
  const TokenLifetime: int := 24 * 60 * 60

  // ---------------------------------------------------------------------
  // Register

  /** The role registration stores: `admin` is held back as `reader`; every
      other role string is kept. */
  function StoredRole(role: string): (r: string)
    ensures r != RoleAdmin
    ensures role != RoleAdmin ==> r == role
    ensures role == RoleAdmin ==> r == RoleReader
  {
    if role == RoleWriter then RoleWriter
    else if role == RoleReader then RoleReader
    else if role == RoleAdmin then RoleReader
    else role
  }

  /** Storing a stored role again changes nothing. */
  lemma StoredRoleIdempotent(role: string)
    ensures StoredRole(StoredRole(role)) == StoredRole(role)
  {
  }

  /** The decision of `Register`: the user row to insert, or why not. The
      duplicate check comes first, then hashing, then the empty role. */
  function RegisterCheck(users: seq<User>, req: RegisterRequest, hashed: Option<string>): (r: Result<User>)
    ensures r == Err(EmailOrUsernameExists) <==> UserRepository.ExistUser(users, req.email, req.username)
    ensures r == Err(HashingFailed) <==> !UserRepository.ExistUser(users, req.email, req.username) && hashed.None?
    ensures r == Err(RoleRequired) <==>
              !UserRepository.ExistUser(users, req.email, req.username) && hashed.Some? && req.role == ""
    ensures r.Ok? <==> !UserRepository.ExistUser(users, req.email, req.username) && hashed.Some? && req.role != ""
    ensures r.Ok? ==> r.value == User(0, req.username, req.email, hashed.value, StoredRole(req.role), [], None)
  {
    if UserRepository.ExistUser(users, req.email, req.username) then Err(EmailOrUsernameExists)
    else if hashed.None? then Err(HashingFailed)
    else if req.role == "" then Err(RoleRequired)
    else Ok(User(0, req.username, req.email, hashed.value, StoredRole(req.role), [], None))
  }

  /** `Register`: inserts the checked row and answers with the stored role. */
  method Register(users: UserRepository.UserStore, req: RegisterRequest, hashed: Option<string>)
    returns (r: Result<RegisterResponse>)
    requires users.Valid()
    modifies users
    ensures users.Valid()
    ensures RegisterCheck(old(users.rows), req, hashed).Err? ==>
              r == Err(RegisterCheck(old(users.rows), req, hashed).error) && users.rows == old(users.rows)
    ensures RegisterCheck(old(users.rows), req, hashed).Ok? ==>
              var row := RegisterCheck(old(users.rows), req, hashed).value;
              if UserRepository.KeysFreeExcept(old(users.rows), |old(users.rows)|, req.username, req.email) then
                && r == Ok(RegisterResponse(req.username, req.email, StoredRole(req.role)))
                && users.rows == old(users.rows) + [row.(id := old(users.nextId))]
              else r == Err(UniqueViolation) && users.rows == old(users.rows)
    ensures r.Ok? ==> r.value.role != RoleAdmin && r.value.role == users.rows[|users.rows| - 1].role
  {
    var check := RegisterCheck(users.rows, req, hashed);
    if check.Err? {
      return Err(check.error);
    }
    var stored := users.Create(check.value);
    if stored.Fail? {
      return Err(stored.error);
    }
    r := Ok(RegisterResponse(req.username, req.email, check.value.role));
  }

  /** Once an email is registered, a second registration with it fails,
      whatever username it uses. */
  lemma SecondRegistrationSameEmailFails(users: seq<User>, row: User, req: RegisterRequest, hashed: Option<string>)
    requires UserVisible(row) && row.email == req.email
    ensures RegisterCheck(users + [row], req, hashed) == Err(EmailOrUsernameExists)
  {
    assert row in users + [row];
  }

  // ---------------------------------------------------------------------
  // Login and profile lookup

  /** `Login`: looks the identifier up as email or username, compares the
      password, and issues a token for 24 hours from `now`. */
  function Login(users: seq<User>, identifier: string, password: string, matches: (string, string) -> bool, now: Time)
    : (r: Result<LoginResponse>)
    ensures r.Err? ==> r.error == UserNotFound || r.error == InvalidPassword
    ensures r == Err(UserNotFound) <==>
              forall u :: u in users && UserVisible(u) ==> u.email != identifier && u.username != identifier
    ensures r == Err(InvalidPassword) <==>
              && UserRepository.GetByIdentifier(users, identifier).Ok?
              && !matches(UserRepository.GetByIdentifier(users, identifier).value.password, password)
    ensures r.Ok? ==> && r.value.token.exp == now + TokenLifetime
                      && exists u :: && u in users && UserVisible(u)
                                     && (u.email == identifier || u.username == identifier)
                                     && matches(u.password, password)
                                     && r.value.token == Claims(u.username, u.id, u.role, now + TokenLifetime)
                                     && r.value.id == u.id && r.value.username == u.username && r.value.email == u.email
    ensures r.Ok? ==> && UserRepository.GetByIdentifier(users, identifier).Ok?
                      && var u := UserRepository.GetByIdentifier(users, identifier).value;
                         r.value == LoginResponse(Claims(u.username, u.id, u.role, now + TokenLifetime), u.id, u.username, u.email)
  {
    match UserRepository.GetByIdentifier(users, identifier)
    case Err(_) => Err(UserNotFound)
    case Ok(user) =>
      if user.deletedAt.Some? then Err(UserDeleted)
      else if !matches(user.password, password) then Err(InvalidPassword)
      else Ok(LoginResponse(Claims(user.username, user.id, user.role, now + TokenLifetime), user.id, user.username, user.email))
  }

  /** A user whose every row is soft-deleted cannot log in, even with the
      right password; the error is "user not found". */
  lemma DeletedUserCannotLogIn(users: seq<User>, identifier: string, password: string,
                               matches: (string, string) -> bool, now: Time)
    requires forall u :: u in users && (u.email == identifier || u.username == identifier) ==> !UserVisible(u)
    ensures Login(users, identifier, password, matches, now) == Err(UserNotFound)
  {
  }

  /** `GetUserVMByUsername`: the profile of the target; the caller's name is
      taken but never consulted. */
  function GetUserVMByUsername(users: seq<User>, paramUsername: string, tokenUsername: string): (r: Result<UserVM>)
    ensures paramUsername == "" <==> r == Err(InvalidUsername)
    ensures r.Err? ==> r.error == InvalidUsername || r.error == UserNotFound
    ensures paramUsername != "" ==>
              match UserRepository.GetByUsername(users, paramUsername)
              case Err(_) => r == Err(UserNotFound)
              case Ok(u) => r == Ok(ToUserVM(u))
  {
    if paramUsername == "" then Err(InvalidUsername)
    else match UserRepository.GetByUsername(users, paramUsername)
      case Err(_) => Err(UserNotFound)
      case Ok(tokenUser) =>
        if tokenUser.deletedAt.Some? then Err(TargetDeleted)
        else match UserRepository.GetByUsername(users, paramUsername)
          case Err(e) => Err(e)
          case Ok(user) => Ok(ToUserVM(user))
  }

  /** Who asks makes no difference to the profile lookup. */
  lemma ProfileIgnoresCaller(users: seq<User>, target: string, caller1: string, caller2: string)
    ensures GetUserVMByUsername(users, target, caller1) == GetUserVMByUsername(users, target, caller2)
  {
  }

  // ---------------------------------------------------------------------
  // Search

  /** `SearchUsers`: no prefix, no results; otherwise the profile of each
      user the prefix search finds, appended one at a time. */
  method SearchUsers(users: UserRepository.UserStore, prefix: string, limit: int) returns (r: seq<UserVM>)
    ensures prefix == "" ==> r == []
    ensures prefix != "" ==> r == ProjectUsers(UserRepository.SearchByUsernamePrefix(users.rows, prefix, limit))
    ensures |r| <= UserRepository.SearchLimit(limit)
    ensures forall v :: v in r ==> exists u :: && u in users.rows && UserVisible(u)
                                               && UserRepository.PrefixMatch(u, prefix) && v == ToUserVM(u)
  {
    if |prefix| == 0 {
      return [];
    }
    var found := UserRepository.SearchByUsernamePrefix(users.rows, prefix, limit);
    r := [];
    for i := 0 to |found|
      invariant r == ProjectUsers(found[..i])
    {
      assert found[..i + 1] == found[..i] + [found[i]];
      r := r + [ToUserVM(found[i])];
    }
    assert found[..|found|] == found;
    forall v | v in r
      ensures exists u :: && u in users.rows && UserVisible(u) && UserRepository.PrefixMatch(u, prefix) && v == ToUserVM(u)
    {
      var k :| 0 <= k < |r| && r[k] == v;
      assert found[k] in found;
    }
  }

  // ---------------------------------------------------------------------
  // Update

  /** The partial update: each non-empty field of the request overwrites
      the user's; the password arrives already hashed. */
  function PatchUser(u: User, req: UpdateRequest, password: string): (r: User)
    ensures r.id == u.id && r.role == u.role && r.followers == u.followers && r.deletedAt == u.deletedAt
  {
    var u1 := if req.username != "" then u.(username := req.username) else u;
    var u2 := if req.email != "" then u1.(email := req.email) else u1;
    if req.password != "" then u2.(password := password) else u2
  }

  /** An empty request leaves the user as it is, and patching twice with the
      same request is patching once. */
  lemma PatchUserProperties(u: User, req: UpdateRequest, password: string)
    ensures PatchUser(u, UpdateRequest("", "", ""), password) == u
    ensures PatchUser(PatchUser(u, req, password), req, password) == PatchUser(u, req, password)
    ensures req.username != "" ==> PatchUser(u, req, password).username == req.username
    ensures req.username == "" ==> PatchUser(u, req, password).username == u.username
    ensures req.email != "" ==> PatchUser(u, req, password).email == req.email
    ensures req.email == "" ==> PatchUser(u, req, password).email == u.email
    ensures req.password != "" ==> PatchUser(u, req, password).password == password
    ensures req.password == "" ==> PatchUser(u, req, password).password == u.password
  {
  }

  /** The decision of `UpdateUser`: the patched user, or why not. Hashing a
      new password comes first, then the lookup, then the duplicate check,
      which also refuses the target's own current username or email. */
  function UpdateCheck(users: seq<User>, username: string, req: UpdateRequest, hashed: Option<string>)
    : (r: Result<User>)
    ensures r != Err(UserDeleted)
    ensures req.password != "" && hashed.None? <==> r == Err(HashingFailed)
    ensures r == Err(UserNotFound) <==>
              !(req.password != "" && hashed.None?) && UserRepository.GetByUsername(users, username).Err?
    ensures r == Err(EmailOrUsernameExists) <==>
              && !(req.password != "" && hashed.None?) && UserRepository.GetByUsername(users, username).Ok?
              && UserRepository.ExistUser(users, req.email, req.username)
    ensures r.Ok? <==> && !(req.password != "" && hashed.None?) && UserRepository.GetByUsername(users, username).Ok?
                       && !UserRepository.ExistUser(users, req.email, req.username)
    ensures r.Ok? ==> r.value == PatchUser(UserRepository.GetByUsername(users, username).value, req,
                                           if req.password != "" then hashed.value else "")
  {
    if req.password != "" && hashed.None? then Err(HashingFailed)
    else
      var password := if req.password != "" then hashed.value else req.password;
      match UserRepository.GetByUsername(users, username)
      case Err(_) => Err(UserNotFound)
      case Ok(user) =>
        if UserRepository.ExistUser(users, req.email, req.username) then Err(EmailOrUsernameExists)
        else if user.deletedAt.Some? then Err(UserDeleted)
        else Ok(PatchUser(user, req, password))
  }

  /** Asking to keep one's own username while changing the email is
      refused: the duplicate check finds the user itself. */
  lemma OwnUsernameIsTaken(users: seq<User>, username: string, req: UpdateRequest, hashed: Option<string>)
    requires UserRepository.GetByUsername(users, username).Ok?
    requires req.username == username
    requires req.password == "" || hashed.Some?
    ensures UpdateCheck(users, username, req, hashed) == Err(EmailOrUsernameExists)
  {
    assert UserRepository.GetByUsername(users, username).value in users;
  }

  /** `UpdateUser`: patches the user; if the username changes, first moves
      the user's blogs to the new name, then writes the user row. The unique
      indexes can still refuse that write (a soft-deleted user holds the
      name), and the blogs then stay renamed. */
  method UpdateUser(users: UserRepository.UserStore, blogs: BlogRepository.BlogStore, username: string,
                    req: UpdateRequest, hashed: Option<string>) returns (r: Result<UpdateResponse>)
    requires users.Valid() && blogs.Valid()
    modifies users, blogs
    ensures users.Valid() && blogs.Valid()
    ensures UpdateCheck(old(users.rows), username, req, hashed).Err? ==>
              && r == Err(UpdateCheck(old(users.rows), username, req, hashed).error)
              && users.rows == old(users.rows) && blogs.rows == old(blogs.rows)
    ensures UpdateCheck(old(users.rows), username, req, hashed).Ok? ==>
              var p := UpdateCheck(old(users.rows), username, req, hashed).value;
              && blogs.rows == (if p.username != username then BlogRepository.RenamedRows(old(blogs.rows), username, p.username)
                                else old(blogs.rows))
              && (if UserRepository.UpdateClash(old(users.rows), username, p) then
                    r == Err(UniqueViolation) && users.rows == old(users.rows)
                  else
                    && r == Ok(UpdateResponse(p.id, p.username, p.email, p.role))
                    && users.rows == UserRepository.RewrittenUsers(old(users.rows), username, p))
  {
    var check := UpdateCheck(users.rows, username, req, hashed);
    if check.Err? {
      return Err(check.error);
    }
    var user := check.value;
    var oldUsername := UserRepository.GetByUsername(users.rows, username).value.username;
    if oldUsername != user.username {
      blogs.UpdateAuthorUsername(oldUsername, user.username);
    }
    var resp := UpdateResponse(user.id, user.username, user.email, user.role);
    var stored := users.Update(username, user);
    if stored.Fail? {
      return Err(stored.error);
    }
    r := Ok(resp);
  }

  /** The cascade can outlive a refused user write: alice renames herself to
      the name of soft-deleted bob; her blog moves to "bob", then the unique
      index refuses her row. */
  lemma RenameCascadeCanOutliveRefusedWrite()
    ensures var alice := User(1, "alice", "a@x", "h", RoleWriter, [], None);
            var bob := User(2, "bob", "b@x", "h", RoleReader, [], Some(5));
            var users := [alice, bob];
            var post := Blog(1, Content("T", "B", 1, "alice", "post", true, "live"), "t", "c", None);
            var req := UpdateRequest("bob", "", "");
            && UpdateCheck(users, "alice", req, None) == Ok(alice.(username := "bob"))
            && UserRepository.UpdateClash(users, "alice", alice.(username := "bob"))
            && BlogRepository.RenamedRows([post], "alice", "bob")[0].content.username == "bob"
  {
    var alice := User(1, "alice", "a@x", "h", RoleWriter, [], None);
    var bob := User(2, "bob", "b@x", "h", RoleReader, [], Some(5));
    var users := [alice, bob];
    assert UserRepository.UpdateTarget(users[0], "alice");
    assert users[1].username == "bob";
    assert !UserRepository.KeysFreeExcept(users, 0, "bob", "a@x");
  }

  // ---------------------------------------------------------------------
  // Delete

  /** The decision of `DeleteUser`. */
  function DeleteCheck(users: seq<User>, username: string): (r: Outcome)
    ensures r.Pass? <==> username != "" && UserRepository.GetByUsername(users, username).Ok?
    ensures r.Fail? ==> r.error == (if username == "" then InvalidUsername else UserNotFound)
  {
    if username == "" then Fail(InvalidUsername)
    else match UserRepository.GetByUsername(users, username)
      case Err(_) => Fail(UserNotFound)
      case Ok(user) => if user.deletedAt.Some? then Fail(UserDeleted) else Pass
  }

  /** `DeleteUser`: soft-deletes the user. */
  method DeleteUser(users: UserRepository.UserStore, username: string, now: Time) returns (r: Outcome)
    requires users.Valid()
    modifies users
    ensures users.Valid() && users.nextId == old(users.nextId)
    ensures r == DeleteCheck(old(users.rows), username)
    ensures users.rows == if r.Pass? then UserRepository.DeletedUsers(old(users.rows), username, now) else old(users.rows)
  {
    r := DeleteCheck(users.rows, username);
    if r.Fail? {
      return;
    }
    r := users.Delete(username, now);
  }

  /** Deleting is not idempotent: deleting the same user again fails, with
      "user not found". */
  lemma DeleteTwiceFails(users: seq<User>, username: string, now: Time)
    requires DeleteCheck(users, username).Pass?
    ensures DeleteCheck(UserRepository.DeletedUsers(users, username, now), username) == Fail(UserNotFound)
  {
    UserRepository.DeleteHidesUser(users, username, now);
  }
}
