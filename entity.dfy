/** Records of the three tables (users, blogs, role requests), the role and
    request-status constants, and the error kinds the stores and services report. */
module Entity {

  datatype Option<T> = None | Some(value: T)

  /** Seconds on the server clock; every operation that stamps a row takes the
      current time as a parameter. */
  type Time = int

  const RoleAdmin: string := "admin"
  const RoleReader: string := "reader"
  const RoleWriter: string := "writer"

  const RoleReqPending: string := "pending"
  const RoleReqApproved: string := "approved"
  const RoleReqRejected: string := "rejected"

  /** A user row. `role` is a free string column: registration may store any
      non-empty role string. `deletedAt` is the soft-delete marker. */
  datatype User = User(
    id: nat,
    username: string,
    email: string,
    password: string,
    role: string,
    followers: seq<string>,
    deletedAt: Option<Time>)

  /** The embedded content block of a blog; `username` is the owner, linked to
      the user table by string equality only. */
  datatype Content = Content(
    title: string,
    body: string,
    authorId: int,
    username: string,
    kind: string,
    isApproved: bool,
    status: string)

  datatype Blog = Blog(
    id: nat,
    content: Content,
    tags: string,
    category: string,
    deletedAt: Option<Time>)

  datatype RoleRequest = RoleRequest(
    id: nat,
    username: string,
    requestedRole: string,
    status: string,
    reason: string,
    decidedBy: Option<string>,
    decidedAt: Option<Time>,
    createdAt: Time)

  /** One constructor per distinct failure the core reports. */
  datatype Error =
    // store-level failures
    | RecordNotFound        // no row matched a lookup or a restore
    | InvalidEscape         // a title with a malformed percent-escape
    | UniqueViolation       // the unique index on users.username / users.email
    // blog service
    | InvalidUsername
    | UserNotFound
    | NotAuthorizedToCreate
    | DuplicateBody
    | EmptyTitle
    | EmptyType
    | EmptyBody
    | InvalidAuthorId
    | EmptyStatus
    | EmptyTags
    | EmptyCategory
    | InvalidTitle
    | BlogNotFound
    | NotAuthorizedToUpdate
    | NotAuthorizedToDelete
    | BlogAlreadyDeleted
    | InvalidToken
    | NotAuthorizedToViewDeleted
    | BlogNotApproved
    | OnlyAdminCanApprove
    | OnlyAdminCanRestore
    // auth service
    | EmailOrUsernameExists
    | HashingFailed
    | RoleRequired
    | UserDeleted
    | InvalidPassword
    | TargetDeleted

  datatype Result<T> = Ok(value: T) | Err(error: Error)

  /** The outcome of a store write that returns only an error. */
  datatype Outcome = Pass | Fail(error: Error)

  /** GORM's default scope: a query that is not `Unscoped()` sees only rows
      whose `deleted_at` is NULL. */
  predicate UserVisible(u: User) { u.deletedAt.None? }

  predicate BlogVisible(b: Blog) { b.deletedAt.None? }

  predicate IsAdminRole(role: string) { role == RoleAdmin }
}
