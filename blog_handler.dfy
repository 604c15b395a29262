/** The decisions the blog endpoints take before they call the blog
    service: the required path parameters and token username, how the
    `include_deleted` query is read, and the approval flag. */
module BlogHandler {
  import opened Entity
  import opened Tables
  import opened Text
  import opened ViewModel
  import opened Request
  import BlogRepository
  import BlogService

  /** `CreateBlog`: the body is read first, then the token username. */
  function CreateBlogGate(token: Token, body: Option<BlogService.BlogForm>): (r: Gate<(BlogService.BlogForm, string)>)
    ensures body.None? <==> r == Refuse(InvalidInput)
    ensures body.Some? && token.username == "" <==> r == Refuse(InvalidTokenUsername)
    ensures r.Call? ==> r.arg == (body.value, token.username)
  {
    match body
    case None => Refuse(InvalidInput)
    case Some(form) => if token.username == "" then Refuse(InvalidTokenUsername) else Call((form, token.username))
  }

  /** `UpdateBlog`: the title, then the token username, then the body. */
  function UpdateBlogGate(token: Token, title: string, body: Option<BlogService.BlogForm>)
    : (r: Gate<(string, string, BlogService.BlogForm)>)
    ensures title == "" <==> r == Refuse(TitleRequired)
    ensures title != "" && token.username == "" <==> r == Refuse(InvalidTokenUsername)
    ensures r.Call? <==> title != "" && token.username != "" && body.Some?
    ensures title != "" && token.username != "" && body.None? ==> r == Refuse(InvalidInput)
    ensures r.Call? ==> r.arg == (title, token.username, body.value)
  {
    if title == "" then Refuse(TitleRequired)
    else if token.username == "" then Refuse(InvalidTokenUsername)
    else match body
      case None => Refuse(InvalidInput)
      case Some(form) => Call((title, token.username, form))
  }

  /** `DeleteBlog` and `GetBlogByTitle`: the title, then the token username. */
  function TitleGate(token: Token, title: string): (r: Gate<(string, string)>)
    ensures title == "" <==> r == Refuse(TitleRequired)
    ensures r.Call? <==> title != "" && token.username != ""
    ensures title != "" && token.username == "" ==> r == Refuse(InvalidTokenUsername)
    ensures r.Call? ==> r.arg == (title, token.username)
  {
    if title == "" then Refuse(TitleRequired)
    else if token.username == "" then Refuse(InvalidTokenUsername)
    else Call((title, token.username))
  }

  // ---------------------------------------------------------------------
  // Listings

  /** `GetAllBlogs`: deleted blogs are asked for only when the query is
      exactly `true` or `1` and the token role is `admin`. */
  function GetAllBlogsGate(token: Token, includeDeleted: string): (r: Gate<(string, bool)>)
    ensures token.username == "" <==> r == Refuse(InvalidTokenUsername)
    ensures r.Call? ==> r.arg.0 == token.username
    ensures r.Call? ==> (r.arg.1 <==> (includeDeleted == "true" || includeDeleted == "1") && token.role == RoleAdmin)
  {
    if token.username == "" then Refuse(InvalidTokenUsername)
    else Call((token.username, (includeDeleted == "true" || includeDeleted == "1") && token.role == RoleAdmin))
  }

  /** `GetBlogsByAuthor` reads the flag case-insensitively and also accepts
      `yes`; the role is left to the service. */
  predicate AuthorFlag(includeDeleted: string)
  {
    var v := Lower(includeDeleted);
    v == "1" || v == "true" || v == "yes"
  }

  /** `GetBlogsByAuthor`: the path username, then the token username. */
  function GetBlogsByAuthorGate(token: Token, param: string, includeDeleted: string)
    : (r: Gate<(string, string, bool)>)
    ensures param == "" <==> r == Refuse(UsernameRequired)
    ensures param != "" && token.username == "" <==> r == Refuse(InvalidTokenUsername)
    ensures r.Call? ==> r.arg == (param, token.username, AuthorFlag(includeDeleted))
  {
    if param == "" then Refuse(UsernameRequired)
    else if token.username == "" then Refuse(InvalidTokenUsername)
    else Call((param, token.username, AuthorFlag(includeDeleted)))
  }

  /** The per-author flag accepts every value the all-blogs flag accepts, and
      more: `TRUE` and `yes` count there but not in the all-blogs listing. */
  lemma AuthorFlagAcceptsMore(v: string)
    ensures v == "true" || v == "1" ==> AuthorFlag(v)
    ensures AuthorFlag("TRUE") && AuthorFlag("yes")
  {
    assert Lower("true") == "true";
    assert Lower("TRUE") == "true";
    assert Lower("yes") == "yes";
    assert Lower("1") == "1";
  }

  /** `GetBlogsByAuthorIncludeDeleted`: only the path username is checked;
      the token is never looked at. */
  function DeletedByAuthorGate(token: Token, param: string): (r: Gate<string>)
    ensures param == "" <==> r == Refuse(UsernameRequired)
    ensures r.Call? ==> r.arg == param
  {
    if param == "" then Refuse(UsernameRequired) else Call(param)
  }

  /** Through the all-blogs endpoint a deleted blog reaches only a caller
      whose token role and stored role are both `admin`. */
  lemma DeletedListedOnlyForAdmins(users: seq<User>, blogs: seq<Blog>, token: Token, includeDeleted: string, v: BlogVM)
    requires GetAllBlogsGate(token, includeDeleted).Call?
    requires var a := GetAllBlogsGate(token, includeDeleted).arg;
             BlogService.GetAllBlogsWithOptions(users, blogs, a.0, a.1).Ok?
    requires var a := GetAllBlogsGate(token, includeDeleted).arg;
             v in BlogService.GetAllBlogsWithOptions(users, blogs, a.0, a.1).value
    requires v.deletedAt.Some?
    ensures token.role == RoleAdmin
    ensures IsAdminRole(BlogService.Caller(users, token.username).value.role)
  {
    var a := GetAllBlogsGate(token, includeDeleted).arg;
    var role := BlogService.Caller(users, a.0).value.role;
    var rows := Where(blogs, (b: Blog) => BlogService.ShownInAll(role, b, a.1));
    ProjectBlogsMembership(rows, v);
    var b :| b in rows && ToBlogVM(b) == v;
    assert BlogService.ShownInAll(role, b, a.1);
  }

  /** Through the deleted-blogs endpoint any authenticated caller, here a
      reader, gets another author's deleted, unapproved blog. */
  lemma ReaderReachesDeletedDraft()
    ensures var bob := Blog(1, Content("T", "B", 2, "bob", "post", false, "draft"), "t", "c", Some(3));
            var gate := DeletedByAuthorGate(Token("alice", RoleReader), "bob");
            && gate.Call?
            && BlogService.GetBlogsByAuthorIncludeDeleted([bob], gate.arg) == Ok([ToBlogVM(bob)])
  {
    BlogService.IncludeDeletedShowsUnapprovedToAnyone();
  }

  // ---------------------------------------------------------------------
  // Moderation

  /** The two moderation routes that share one service call. */
  datatype ApprovalRoute = ApproveRoute | UnapproveRoute

  /** `ApproveBlog` passes `true`, `UnapproveBlog` passes `false`. */
  function ApprovalFlag(route: ApprovalRoute): (approved: bool)
    ensures approved <==> route == ApproveRoute
  {
    match route
    case ApproveRoute => true
    case UnapproveRoute => false
  }

  /** `ApproveBlog`, `UnapproveBlog` and `RestoreBlog` check nothing
      themselves: title and token username go to the service as they are. */
  function ModerationGate(token: Token, title: string): (r: Gate<(string, string)>)
    ensures r == Call((title, token.username))
  {
    Call((title, token.username))
  }
}
