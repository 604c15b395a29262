/** The blog service: who may create, change, moderate and see which blogs.
    The decisions are functions of the user and blog tables; the operations
    that write the blog table are methods over the stores, each carrying out
    the decision its function makes. */
module BlogService {
  import opened Entity
  import opened Tables
  import opened Text
  import opened ViewModel
  import UserRepository
  import BlogRepository

  /** The fields a caller submits to create or update a blog. */
  datatype BlogForm = BlogForm(title: string, body: string, kind: string, tags: string, category: string, status: string)

  datatype BlogUpdateResponse = BlogUpdateResponse(
    username: string, title: string, body: string, kind: string, tags: string, category: string, status: string)

  // ---------------------------------------------------------------------
  // The policy, stated on its own

  /** Only writers and admins author blogs. */
  predicate MayAuthor(role: string) { role == RoleAdmin || role == RoleWriter }

  /** Update and delete: the owner or an admin. */
  predicate MayModify(role: string, caller: string, owner: string) { IsAdminRole(role) || caller == owner }

  /** The all-blogs listing: approved blogs for everyone, every blog for an
      admin; deleted blogs only for an admin who asks for them. */
  predicate ShownInAll(role: string, b: Blog, includeDeleted: bool)
  {
    && (BlogVisible(b) || (includeDeleted && IsAdminRole(role)))
    && (b.content.isApproved || IsAdminRole(role))
  }

  /** The per-author listing: the author's blogs; unapproved ones only for
      the author or an admin; deleted ones only when asked for. */
  predicate ShownForAuthor(viewer: string, role: string, author: string, b: Blog, includeDeleted: bool)
  {
    && BlogRepository.OwnedBy(b, author)
    && (BlogVisible(b) || includeDeleted)
    && (b.content.isApproved || viewer == author || IsAdminRole(role))
  }

  /** The caller, looked up by the token username. */
  function Caller(users: seq<User>, username: string): Result<User>
  {
    UserRepository.GetByUsername(users, username)
  }

  // ---------------------------------------------------------------------
  // Listings and lookup

  /** `GetAllBlogsWithOptions`: the all-blogs listing for the caller. */
  function GetAllBlogsWithOptions(users: seq<User>, blogs: seq<Blog>, username: string, includeDeleted: bool)
    : (r: Result<seq<BlogVM>>)
    ensures r.Err? <==> Caller(users, username).Err?
    ensures r.Err? ==> r.error == UserNotFound
    ensures r.Ok? ==>
              r.value == ProjectBlogs(Where(blogs, (b: Blog) => ShownInAll(Caller(users, username).value.role, b, includeDeleted)))
  {
    match Caller(users, username)
    case Err(_) => Err(UserNotFound)
    case Ok(user) =>
      var shown := (b: Blog) => ShownInAll(user.role, b, includeDeleted);
      if IsAdminRole(user.role) then
        if includeDeleted then
          WhereAll(blogs, shown);
          Ok(ProjectBlogs(BlogRepository.GetAllIncludeDeleted(blogs)))
        else
          WhereExtensional(blogs, BlogVisible, shown);
          Ok(ProjectBlogs(BlogRepository.GetAll(blogs)))
      else
        WhereExtensional(blogs, (b: Blog) => BlogVisible(b) && b.content.isApproved, shown);
        Ok(ProjectBlogs(BlogRepository.GetAllTrueApproved(blogs)))
  }

  /** `GetAllBlogs`: the all-blogs listing without deleted blogs. */
  function GetAllBlogs(users: seq<User>, blogs: seq<Blog>, username: string): (r: Result<seq<BlogVM>>)
    ensures r == GetAllBlogsWithOptions(users, blogs, username, false)
  {
    match Caller(users, username)
    case Err(_) => Err(UserNotFound)
    case Ok(user) =>
      if !IsAdminRole(user.role) then Ok(ProjectBlogs(BlogRepository.GetAllTrueApproved(blogs)))
      else Ok(ProjectBlogs(BlogRepository.GetAll(blogs)))
  }

  /** `GetBlogsByAuthor`: the blogs of `paramUsername` as the caller
      `tokenUsername` may see them. */
  function GetBlogsByAuthor(users: seq<User>, blogs: seq<Blog>, paramUsername: string, tokenUsername: string,
                            includeDeleted: bool): (r: Result<seq<BlogVM>>)
    ensures paramUsername == "" ==> r == Err(InvalidUsername)
    ensures paramUsername != "" && tokenUsername == "" ==> r == Err(InvalidToken)
    ensures paramUsername != "" && tokenUsername != "" && Caller(users, tokenUsername).Err? ==> r == Err(UserNotFound)
    ensures r == Err(NotAuthorizedToViewDeleted) <==>
              && paramUsername != "" && tokenUsername != "" && Caller(users, tokenUsername).Ok?
              && includeDeleted && tokenUsername != paramUsername && !IsAdminRole(Caller(users, tokenUsername).value.role)
    ensures r.Ok? <==> && paramUsername != "" && tokenUsername != "" && Caller(users, tokenUsername).Ok?
                       && (!includeDeleted || tokenUsername == paramUsername || IsAdminRole(Caller(users, tokenUsername).value.role))
    ensures r.Ok? ==> r.value == ProjectBlogs(Where(blogs, (b: Blog) =>
                        ShownForAuthor(tokenUsername, Caller(users, tokenUsername).value.role, paramUsername, b, includeDeleted)))
  {
    if paramUsername == "" then Err(InvalidUsername)
    else if tokenUsername == "" then Err(InvalidToken)
    else match Caller(users, tokenUsername)
      case Err(_) => Err(UserNotFound)
      case Ok(user) =>
        var shown := (b: Blog) => ShownForAuthor(tokenUsername, user.role, paramUsername, b, includeDeleted);
        if includeDeleted then
          if tokenUsername != paramUsername && !IsAdminRole(user.role) then Err(NotAuthorizedToViewDeleted)
          else
            WhereExtensional(blogs, (b: Blog) => BlogRepository.OwnedBy(b, paramUsername), shown);
            Ok(ProjectBlogs(BlogRepository.GetBlogsByAuthorIncludeDeleted(blogs, paramUsername)))
        else if tokenUsername == paramUsername || IsAdminRole(user.role) then
          WhereExtensional(blogs, (b: Blog) => BlogVisible(b) && BlogRepository.OwnedBy(b, paramUsername), shown);
          Ok(ProjectBlogs(BlogRepository.GetBlogsByAuthor(blogs, paramUsername)))
        else
          WhereExtensional(blogs, (b: Blog) => BlogVisible(b) && b.content.isApproved && BlogRepository.OwnedBy(b, paramUsername), shown);
          Ok(ProjectBlogs(BlogRepository.GetBlogsByAuthorTrueApproved(blogs, paramUsername)))
  }

  /** `GetBlogsByAuthorIncludeDeleted` as written: every blog of the author,
      deleted and unapproved ones included, whoever asks. */
  function GetBlogsByAuthorIncludeDeleted(blogs: seq<Blog>, username: string): (r: Result<seq<BlogVM>>)
    ensures username == "" <==> r == Err(InvalidUsername)
    ensures r.Ok? ==> r.value == ProjectBlogs(Where(blogs, (b: Blog) => BlogRepository.OwnedBy(b, username)))
    ensures r.Ok? ==> forall b :: b in blogs && BlogRepository.OwnedBy(b, username) ==> ToBlogVM(b) in r.value
    ensures r.Ok? ==> forall v :: v in r.value ==> v.username == username
  {
    if username == "" then Err(InvalidUsername)
    else
      var rows := BlogRepository.GetBlogsByAuthorIncludeDeleted(blogs, username);
      assert forall b :: b in rows ==> ToBlogVM(b) in ProjectBlogs(rows) by {
        forall b | b in rows ensures ToBlogVM(b) in ProjectBlogs(rows) {
          var i :| 0 <= i < |rows| && rows[i] == b;
          assert ProjectBlogs(rows)[i] == ToBlogVM(b);
        }
      }
      assert forall v :: v in ProjectBlogs(rows) ==> v.username == username by {
        forall v | v in ProjectBlogs(rows) ensures v.username == username {
          ProjectBlogsMembership(rows, v);
        }
      }
      Ok(ProjectBlogs(rows))
  }

  /** The same endpoint behind the include-deleted gate of the per-author
      listing: only the author or an admin sees deleted or unapproved blogs. */
  function GetBlogsByAuthorIncludeDeletedGuarded(users: seq<User>, blogs: seq<Blog>, paramUsername: string,
                                                 tokenUsername: string): (r: Result<seq<BlogVM>>)
    ensures r.Ok? ==> && Caller(users, tokenUsername).Ok?
                      && forall v :: v in r.value ==>
                           v.isApproved || v.username == tokenUsername || IsAdminRole(Caller(users, tokenUsername).value.role)
    ensures r.Ok? ==> Caller(users, tokenUsername).Ok?
                      && (paramUsername == tokenUsername || IsAdminRole(Caller(users, tokenUsername).value.role))
    ensures r.Ok? <==> && paramUsername != "" && tokenUsername != "" && Caller(users, tokenUsername).Ok?
                       && (paramUsername == tokenUsername || IsAdminRole(Caller(users, tokenUsername).value.role))
    ensures r.Ok? ==> r == GetBlogsByAuthorIncludeDeleted(blogs, paramUsername)
  {
    var r := GetBlogsByAuthor(users, blogs, paramUsername, tokenUsername, true);
    if r.Ok? then
      ListedViewsObeyAuthorRule(users, blogs, paramUsername, tokenUsername, true);
      WhereExtensional(blogs, (b: Blog) => BlogRepository.OwnedBy(b, paramUsername),
                       (b: Blog) => ShownForAuthor(tokenUsername, Caller(users, tokenUsername).value.role, paramUsername, b, true));
      r
    else r
  }

  /** Every view the per-author listing returns is approved, the viewer's
      own, or returned to an admin. */
  lemma ListedViewsObeyAuthorRule(users: seq<User>, blogs: seq<Blog>, paramUsername: string, tokenUsername: string,
                                  includeDeleted: bool)
    requires GetBlogsByAuthor(users, blogs, paramUsername, tokenUsername, includeDeleted).Ok?
    ensures forall v :: v in GetBlogsByAuthor(users, blogs, paramUsername, tokenUsername, includeDeleted).value ==>
              v.isApproved || v.username == tokenUsername || IsAdminRole(Caller(users, tokenUsername).value.role)
    ensures includeDeleted ==> paramUsername == tokenUsername || IsAdminRole(Caller(users, tokenUsername).value.role)
  {
    var role := Caller(users, tokenUsername).value.role;
    var rows := Where(blogs, (b: Blog) => ShownForAuthor(tokenUsername, role, paramUsername, b, includeDeleted));
    forall v | v in ProjectBlogs(rows)
      ensures v.isApproved || v.username == tokenUsername || IsAdminRole(role)
    {
      ProjectBlogsMembership(rows, v);
    }
  }

  /** The unguarded endpoint shows a reader another author's unapproved,
      deleted blog. */
  lemma IncludeDeletedShowsUnapprovedToAnyone()
    ensures var bob := Blog(1, Content("T", "B", 2, "bob", "post", false, "draft"), "t", "c", Some(3));
            GetBlogsByAuthorIncludeDeleted([bob], "bob") == Ok([ToBlogVM(bob)])
  {
    var bob := Blog(1, Content("T", "B", 2, "bob", "post", false, "draft"), "t", "c", Some(3));
    assert BlogRepository.GetBlogsByAuthorIncludeDeleted([bob], "bob") == [bob];
    assert ProjectBlogs([bob]) == [ToBlogVM(bob)];
  }

  /** `GetBlogByTitle`: one blog by its URL-encoded title. The owner and an
      admin get the first blog with the title whatever its approval; anyone
      else only an approved one. */
  function GetBlogByTitle(users: seq<User>, blogs: seq<Blog>, title: string, username: string): (r: Result<BlogVM>)
    ensures title == "" ==> r == Err(InvalidTitle)
    ensures title != "" && Caller(users, username).Err? ==> r == Err(UserNotFound)
    ensures r.Ok? ==> && Caller(users, username).Ok? && QueryUnescape(title).Some?
                      && exists b :: && b in blogs && BlogVisible(b) && BlogRepository.TitleIs(b, QueryUnescape(title).value)
                                     && r.value == ToBlogVM(b)
                                     && (b.content.isApproved || BlogRepository.OwnedBy(b, username)
                                         || IsAdminRole(Caller(users, username).value.role))
    ensures r == Err(BlogNotFound) <==>
              title != "" && Caller(users, username).Ok? && BlogRepository.GetBlogByTitle(blogs, title).Err?
    ensures title != "" && Caller(users, username).Ok? && BlogRepository.GetBlogByTitle(blogs, title).Ok?
            && (BlogRepository.OwnedBy(BlogRepository.GetBlogByTitle(blogs, title).value, username)
                || IsAdminRole(Caller(users, username).value.role)) ==>
              r == Ok(ToBlogVM(BlogRepository.GetBlogByTitle(blogs, title).value))
    ensures r == Err(BlogNotApproved) <==>
              && title != "" && Caller(users, username).Ok? && BlogRepository.GetBlogByTitle(blogs, title).Ok?
              && !BlogRepository.OwnedBy(BlogRepository.GetBlogByTitle(blogs, title).value, username)
              && !IsAdminRole(Caller(users, username).value.role)
              && BlogRepository.GetBlogByTitleTrueApproved(blogs, title).Err?
    ensures title != "" && Caller(users, username).Ok? && BlogRepository.GetBlogByTitleTrueApproved(blogs, title).Ok? ==> r.Ok?
    ensures && title != "" && Caller(users, username).Ok? && BlogRepository.GetBlogByTitle(blogs, title).Ok?
            && !BlogRepository.OwnedBy(BlogRepository.GetBlogByTitle(blogs, title).value, username)
            && !IsAdminRole(Caller(users, username).value.role)
            && BlogRepository.GetBlogByTitleTrueApproved(blogs, title).Ok? ==>
              r == Ok(ToBlogVM(BlogRepository.GetBlogByTitleTrueApproved(blogs, title).value))
  {
    if title == "" then Err(InvalidTitle)
    else match Caller(users, username)
      case Err(_) => Err(UserNotFound)
      case Ok(user) =>
        match BlogRepository.GetBlogByTitle(blogs, title)
        case Err(_) => Err(BlogNotFound)
        case Ok(blog) =>
          if blog.content.username == username then Ok(ToBlogVM(blog))
          else if IsAdminRole(user.role) then Ok(ToBlogVM(blog))
          else match BlogRepository.GetBlogByTitleTrueApproved(blogs, title)
            case Err(_) => Err(BlogNotApproved)
            case Ok(b2) => Ok(ToBlogVM(b2))
  }

  /** No listing or lookup of the policy shows a non-admin another user's
      unapproved blog. */
  lemma UnapprovedHiddenFromOthers(users: seq<User>, blogs: seq<Blog>, viewer: string, author: string, title: string,
                                   includeDeleted: bool)
    requires Caller(users, viewer).Ok? && !IsAdminRole(Caller(users, viewer).value.role)
    ensures forall v :: v in GetAllBlogsWithOptions(users, blogs, viewer, includeDeleted).value ==> v.isApproved
    ensures GetBlogsByAuthor(users, blogs, author, viewer, includeDeleted).Ok? ==>
              forall v :: v in GetBlogsByAuthor(users, blogs, author, viewer, includeDeleted).value ==>
                v.isApproved || v.username == viewer
    ensures GetBlogByTitle(users, blogs, title, viewer).Ok? ==>
              GetBlogByTitle(users, blogs, title, viewer).value.isApproved
              || GetBlogByTitle(users, blogs, title, viewer).value.username == viewer
  {
    var role := Caller(users, viewer).value.role;
    var rows := Where(blogs, (b: Blog) => ShownInAll(role, b, includeDeleted));
    forall v | v in ProjectBlogs(rows)
      ensures v.isApproved
    {
      ProjectBlogsMembership(rows, v);
    }
    if GetBlogsByAuthor(users, blogs, author, viewer, includeDeleted).Ok? {
      ListedViewsObeyAuthorRule(users, blogs, author, viewer, includeDeleted);
    }
  }

  // ---------------------------------------------------------------------
  // Create

  /** The field checks of `CreateBlog`, in the order they are made. */
  function FieldChecks(form: BlogForm, authorId: nat): seq<(bool, Error)>
  {
    [(form.title == "", EmptyTitle), (form.kind == "", EmptyType), (form.body == "", EmptyBody),
     (authorId == 0, InvalidAuthorId), (form.status == "", EmptyStatus), (form.tags == "", EmptyTags),
     (form.category == "", EmptyCategory)]
  }

  /** The error of the first check that fails, if any. */
  function FirstFailure(checks: seq<(bool, Error)>): (r: Option<Error>)
    ensures r.None? <==> forall i :: 0 <= i < |checks| ==> !checks[i].0
  {
    match FirstIndex(checks, (c: (bool, Error)) => c.0)
    case None => None
    case Some(i) => Some(checks[i].1)
  }

  /** The decision of `CreateBlog`: the row to insert, or why not. */
  function CreateCheck(users: seq<User>, blogs: seq<Blog>, form: BlogForm, username: string): (r: Result<Blog>)
    ensures username == "" ==> r == Err(InvalidUsername)
    ensures username != "" && Caller(users, username).Err? ==> r == Err(UserNotFound)
    ensures r == Err(NotAuthorizedToCreate) <==>
              username != "" && Caller(users, username).Ok? && !MayAuthor(Caller(users, username).value.role)
    ensures r == Err(DuplicateBody) <==>
              && username != "" && Caller(users, username).Ok? && MayAuthor(Caller(users, username).value.role)
              && BlogRepository.ExistBody(blogs, form.body)
    ensures r.Ok? ==>
              var author := Caller(users, username).value;
              && username != "" && Caller(users, username).Ok? && MayAuthor(author.role)
              && r.value.content.username == username && r.value.content.authorId == author.id
              && (r.value.content.isApproved <==> IsAdminRole(author.role))
              && BlogVisible(r.value)
              && r.value.content.title == form.title && r.value.content.body == form.body
              && r.value.content.kind == form.kind && r.value.content.status == form.status
              && r.value.tags == form.tags && r.value.category == form.category
  {
    if username == "" then Err(InvalidUsername)
    else match Caller(users, username)
      case Err(_) => Err(UserNotFound)
      case Ok(user) =>
        if user.role != RoleAdmin && user.role != RoleWriter then Err(NotAuthorizedToCreate)
        else if BlogRepository.ExistBody(blogs, form.body) then Err(DuplicateBody)
        else if form.title == "" then Err(EmptyTitle)
        else if form.kind == "" then Err(EmptyType)
        else if form.body == "" then Err(EmptyBody)
        else if user.id == 0 then Err(InvalidAuthorId)
        else if form.status == "" then Err(EmptyStatus)
        else if form.tags == "" then Err(EmptyTags)
        else if form.category == "" then Err(EmptyCategory)
        else
          var blog := Blog(0, Content(form.title, form.body, user.id, username, form.kind, false, form.status),
                           form.tags, form.category, None);
          Ok(if user.role == RoleAdmin then blog.(content := blog.content.(isApproved := true)) else blog)
  }

  /** The index of a check that fails while every earlier one passes is the
      one `FirstFailure` reports. */
  lemma FirstFailureAt(checks: seq<(bool, Error)>, k: nat)
    requires k < |checks| && checks[k].0
    requires forall j :: 0 <= j < k ==> !checks[j].0
    ensures FirstFailure(checks) == Some(checks[k].1)
  {
  }

  /** Once the caller may author and the body is new, `CreateBlog` reports
      the first empty field in the order title, type, body, author id,
      status, tags, category, and succeeds only if there is none. */
  lemma CreateCheckOrder(users: seq<User>, blogs: seq<Blog>, form: BlogForm, username: string)
    requires username != "" && Caller(users, username).Ok? && MayAuthor(Caller(users, username).value.role)
    requires !BlogRepository.ExistBody(blogs, form.body)
    ensures match FirstFailure(FieldChecks(form, Caller(users, username).value.id))
            case None => CreateCheck(users, blogs, form, username).Ok?
            case Some(e) => CreateCheck(users, blogs, form, username) == Err(e)
  {
    var checks := FieldChecks(form, Caller(users, username).value.id);
    if form.title == "" {
      FirstFailureAt(checks, 0);
    } else if form.kind == "" {
      FirstFailureAt(checks, 1);
    } else if form.body == "" {
      FirstFailureAt(checks, 2);
    } else if Caller(users, username).value.id == 0 {
      FirstFailureAt(checks, 3);
    } else if form.status == "" {
      FirstFailureAt(checks, 4);
    } else if form.tags == "" {
      FirstFailureAt(checks, 5);
    } else if form.category == "" {
      FirstFailureAt(checks, 6);
    }
  }

  /** With every stored user id positive, the author-id check never fails. */
  lemma CreateNeverInvalidAuthorId(users: seq<User>, blogs: seq<Blog>, form: BlogForm, username: string)
    requires forall u :: u in users ==> u.id > 0
    ensures CreateCheck(users, blogs, form, username) != Err(InvalidAuthorId)
  {
  }

  /** `CreateBlog`: inserts the row `CreateCheck` builds. */
  method CreateBlog(users: UserRepository.UserStore, blogs: BlogRepository.BlogStore, form: BlogForm, username: string)
    returns (r: Outcome)
    requires blogs.Valid()
    modifies blogs
    ensures blogs.Valid()
    ensures match CreateCheck(users.rows, old(blogs.rows), form, username)
            case Err(e) => r == Fail(e) && blogs.rows == old(blogs.rows) && blogs.nextId == old(blogs.nextId)
            case Ok(b) => r == Pass && blogs.rows == old(blogs.rows) + [b.(id := old(blogs.nextId))]
  {
    var check := CreateCheck(users.rows, blogs.rows, form, username);
    if check.Err? {
      return Fail(check.error);
    }
    blogs.Create(check.value);
    r := Pass;
  }

  // ---------------------------------------------------------------------
  // Update

  /** The decision of `UpdateBlog`: the blog to update, or why not. */
  function UpdateCheck(users: seq<User>, blogs: seq<Blog>, title: string, username: string, form: BlogForm)
    : (r: Result<Blog>)
    ensures title == "" <==> r == Err(InvalidTitle)
    ensures r == Err(BlogNotFound) <==> title != "" && BlogRepository.GetBlogByTitle(blogs, title).Err?
    ensures r == Err(UserNotFound) <==>
              title != "" && BlogRepository.GetBlogByTitle(blogs, title).Ok? && Caller(users, username).Err?
    ensures r == Err(NotAuthorizedToUpdate) <==>
              && title != "" && BlogRepository.GetBlogByTitle(blogs, title).Ok? && Caller(users, username).Ok?
              && !MayModify(Caller(users, username).value.role, username,
                            BlogRepository.GetBlogByTitle(blogs, title).value.content.username)
    ensures r == Err(DuplicateBody) <==>
              && title != "" && BlogRepository.GetBlogByTitle(blogs, title).Ok? && Caller(users, username).Ok?
              && MayModify(Caller(users, username).value.role, username,
                           BlogRepository.GetBlogByTitle(blogs, title).value.content.username)
              && BlogRepository.ExistBody(blogs, form.body)
    ensures r == Err(EmptyTitle) <==>
              && title != "" && BlogRepository.GetBlogByTitle(blogs, title).Ok? && Caller(users, username).Ok?
              && MayModify(Caller(users, username).value.role, username,
                           BlogRepository.GetBlogByTitle(blogs, title).value.content.username)
              && !BlogRepository.ExistBody(blogs, form.body) && form.title == ""
    ensures r == Err(EmptyBody) <==>
              && title != "" && BlogRepository.GetBlogByTitle(blogs, title).Ok? && Caller(users, username).Ok?
              && MayModify(Caller(users, username).value.role, username,
                           BlogRepository.GetBlogByTitle(blogs, title).value.content.username)
              && !BlogRepository.ExistBody(blogs, form.body) && form.title != "" && form.body == ""
    ensures r.Ok? <==>
              && title != "" && BlogRepository.GetBlogByTitle(blogs, title).Ok? && Caller(users, username).Ok?
              && MayModify(Caller(users, username).value.role, username,
                           BlogRepository.GetBlogByTitle(blogs, title).value.content.username)
              && !BlogRepository.ExistBody(blogs, form.body) && form.title != "" && form.body != ""
    ensures r.Ok? ==> BlogRepository.GetBlogByTitle(blogs, title) == Ok(r.value)
  {
    if title == "" then Err(InvalidTitle)
    else match BlogRepository.GetBlogByTitle(blogs, title)
      case Err(_) => Err(BlogNotFound)
      case Ok(blog) =>
        match Caller(users, username)
        case Err(_) => Err(UserNotFound)
        case Ok(user) =>
          if user.role != RoleAdmin && username != blog.content.username then Err(NotAuthorizedToUpdate)
          else if BlogRepository.ExistBody(blogs, form.body) then Err(DuplicateBody)
          else if form.title == "" then Err(EmptyTitle)
          else if form.body == "" then Err(EmptyBody)
          else Ok(blog)
  }

  /** A blog cannot be saved with the body it already has: the duplicate
      check finds the blog itself. */
  lemma UnchangedBodyIsDuplicate(users: seq<User>, blogs: seq<Blog>, title: string, username: string, form: BlogForm)
    requires BlogRepository.GetBlogByTitle(blogs, title).Ok?
    requires form.body == BlogRepository.GetBlogByTitle(blogs, title).value.content.body
    ensures UpdateCheck(users, blogs, title, username, form).Err?
  {
  }

  /** `UpdateBlog`: rebuilds the content from the form (the owner is not
      carried over into the rebuilt content), writes it over every visible
      blog with the decoded title and answers with the rebuilt fields. */
  method UpdateBlog(users: UserRepository.UserStore, blogs: BlogRepository.BlogStore, title: string, username: string,
                    form: BlogForm) returns (r: Result<BlogUpdateResponse>)
    requires blogs.Valid()
    modifies blogs
    ensures blogs.Valid() && blogs.nextId == old(blogs.nextId)
    ensures UpdateCheck(users.rows, old(blogs.rows), title, username, form).Err? ==>
              r == Err(UpdateCheck(users.rows, old(blogs.rows), title, username, form).error)
              && blogs.rows == old(blogs.rows)
    ensures UpdateCheck(users.rows, old(blogs.rows), title, username, form).Ok? ==>
              && QueryUnescape(title).Some?
              && r == Ok(BlogUpdateResponse("", form.title, form.body, form.kind, form.tags, form.category, form.status))
              && blogs.rows == BlogRepository.UpdatedRows(old(blogs.rows), QueryUnescape(title).value,
                                 Blog(0, Content(form.title, form.body, 0, "", form.kind, false, form.status),
                                      form.tags, form.category, None))
  {
    var check := UpdateCheck(users.rows, blogs.rows, title, username, form);
    if check.Err? {
      return Err(check.error);
    }
    var blog := check.value;
    blog := blog.(content := Content(form.title, form.body, 0, "", form.kind, false, form.status));
    blog := blog.(tags := form.tags);
    blog := blog.(category := form.category);
    var resp := BlogUpdateResponse(blog.content.username, blog.content.title, blog.content.body, blog.content.kind,
                                   blog.tags, blog.category, blog.content.status);
    ghost var before := blogs.rows;
    var stored := blogs.Update(title, blog);
    ghost var src := Blog(0, Content(form.title, form.body, 0, "", form.kind, false, form.status),
                          form.tags, form.category, None);
    assert forall b :: BlogRepository.Overwritten(b, blog) == BlogRepository.Overwritten(b, src);
    assert blogs.rows == BlogRepository.UpdatedRows(before, QueryUnescape(title).value, src);
    r := Ok(resp);
  }

  /** Every row a write changed belongs to someone the caller may modify. */
  predicate WritesOnlyPermitted(users: seq<User>, username: string, before: seq<Blog>, after: seq<Blog>)
    requires |before| == |after|
  {
    && Caller(users, username).Ok?
    && forall j :: 0 <= j < |before| && after[j] != before[j] ==>
         MayModify(Caller(users, username).value.role, username, before[j].content.username)
  }

  // The example of the lemmas below: a writer who owns one of two blogs
  // titled "T".
  const alice := User(1, "alice", "a@x", "h", RoleWriter, [], None)
  const mine := Blog(1, Content("T", "A", 1, "alice", "post", true, "live"), "t", "c", None)
  const theirs := Blog(2, Content("T", "B", 2, "bob", "post", true, "live"), "t", "c", None)
  const newForm := BlogForm("T", "C", "post", "t", "c", "live")
  const newContent := Blog(0, Content("T", "C", 0, "", "post", false, "live"), "t", "c", None)

  /** The ownership check of update and delete looks at the first visible
      blog with the title, which is the writer's own, and lets both through. */
  lemma TitleCheckSeesFirstRowOnly()
    ensures UpdateCheck([alice], [mine, theirs], "T", "alice", newForm) == Ok(mine)
    ensures DeleteCheck([alice], [mine, theirs], "T", "alice") == Ok(mine)
  {
    QueryUnescapePlain("T");
    assert Utf8("T") == [0x54];
    assert BlogRepository.TitleIs(mine, Utf8("T"));
    assert BlogRepository.GetBlogByTitle([mine, theirs], "T") == Ok(mine);
    assert Caller([alice], "alice") == Ok(alice);
    assert mine in [mine, theirs] && theirs in [mine, theirs];
    assert !BlogRepository.ExistBody([mine, theirs], "C");
  }

  /** The store then writes every visible blog with the title, the other
      owner's included: after the check passes, update and delete change a
      row the writer may not modify. */
  lemma TitleWriteReachesOtherOwners()
    ensures UpdateCheck([alice], [mine, theirs], "T", "alice", newForm).Ok?
    ensures DeleteCheck([alice], [mine, theirs], "T", "alice").Ok?
    ensures QueryUnescape("T") == Some(Utf8("T"))
    ensures !WritesOnlyPermitted([alice], "alice", [mine, theirs],
                                 BlogRepository.UpdatedRows([mine, theirs], Utf8("T"), newContent))
    ensures !WritesOnlyPermitted([alice], "alice", [mine, theirs], BlogRepository.DeletedRows([mine, theirs], Utf8("T"), 5))
  {
    TitleCheckSeesFirstRowOnly();
    QueryUnescapePlain("T");
    var rows := [mine, theirs];
    assert Utf8("T") == [0x54];
    assert BlogRepository.TitleIs(theirs, Utf8("T"));
    assert Caller([alice], "alice") == Ok(alice);
    assert BlogRepository.UpdatedRows(rows, Utf8("T"), newContent)[1] != theirs;
    assert BlogRepository.DeletedRows(rows, Utf8("T"), 5)[1] != theirs;
  }

  /** Written against the checked row's id instead, update and delete
      change only that row, which the check has just found the caller may
      modify. */
  lemma CheckedRowWritesOnlyPermitted(users: seq<User>, blogs: seq<Blog>, title: string, username: string,
                                      form: BlogForm, src: Blog, now: Time)
    requires BlogRepository.IdsIncrease(blogs)
    ensures UpdateCheck(users, blogs, title, username, form).Ok? ==>
              WritesOnlyPermitted(users, username, blogs,
                BlogRepository.UpdatedRowById(blogs, UpdateCheck(users, blogs, title, username, form).value.id, src))
    ensures DeleteCheck(users, blogs, title, username).Ok? ==>
              WritesOnlyPermitted(users, username, blogs,
                BlogRepository.DeletedRowById(blogs, DeleteCheck(users, blogs, title, username).value.id, now))
  {
    var found := BlogRepository.GetBlogByTitle(blogs, title);
    if found.Ok? {
      var i :| 0 <= i < |blogs| && blogs[i] == found.value;
      BlogRepository.ByIdWritesOneRow(blogs, i, src, now);
    }
  }

  // ---------------------------------------------------------------------
  // Delete, approve, restore

  /** The decision of `DeleteBlog`: the blog to delete, or why not. */
  function DeleteCheck(users: seq<User>, blogs: seq<Blog>, title: string, username: string): (r: Result<Blog>)
    ensures title == "" <==> r == Err(InvalidTitle)
    ensures r == Err(BlogNotFound) <==> title != "" && BlogRepository.GetBlogByTitle(blogs, title).Err?
    ensures r != Err(BlogAlreadyDeleted)
    ensures r == Err(UserNotFound) <==>
              title != "" && BlogRepository.GetBlogByTitle(blogs, title).Ok? && Caller(users, username).Err?
    ensures r == Err(NotAuthorizedToDelete) <==>
              && title != "" && BlogRepository.GetBlogByTitle(blogs, title).Ok? && Caller(users, username).Ok?
              && !MayModify(Caller(users, username).value.role, username,
                            BlogRepository.GetBlogByTitle(blogs, title).value.content.username)
    ensures r.Ok? <==>
              && title != "" && BlogRepository.GetBlogByTitle(blogs, title).Ok? && Caller(users, username).Ok?
              && MayModify(Caller(users, username).value.role, username,
                           BlogRepository.GetBlogByTitle(blogs, title).value.content.username)
    ensures r.Ok? ==> BlogRepository.GetBlogByTitle(blogs, title) == Ok(r.value)
  {
    if title == "" then Err(InvalidTitle)
    else match BlogRepository.GetBlogByTitle(blogs, title)
      case Err(_) => Err(BlogNotFound)
      case Ok(blog) =>
        if blog.deletedAt.Some? then Err(BlogAlreadyDeleted)
        else match Caller(users, username)
          case Err(_) => Err(UserNotFound)
          case Ok(user) =>
            if user.role != RoleAdmin && username != blog.content.username then Err(NotAuthorizedToDelete)
            else Ok(blog)
  }

  /** `DeleteBlog`: soft-deletes every visible blog with the decoded title
      and returns that title. */
  method DeleteBlog(users: UserRepository.UserStore, blogs: BlogRepository.BlogStore, title: string, username: string,
                    now: Time) returns (r: Result<seq<Byte>>)
    requires blogs.Valid()
    modifies blogs
    ensures blogs.Valid() && blogs.nextId == old(blogs.nextId)
    ensures DeleteCheck(users.rows, old(blogs.rows), title, username).Err? ==>
              r == Err(DeleteCheck(users.rows, old(blogs.rows), title, username).error) && blogs.rows == old(blogs.rows)
    ensures DeleteCheck(users.rows, old(blogs.rows), title, username).Ok? ==>
              && QueryUnescape(title).Some? && r == Ok(QueryUnescape(title).value)
              && blogs.rows == BlogRepository.DeletedRows(old(blogs.rows), QueryUnescape(title).value, now)
  {
    var check := DeleteCheck(users.rows, blogs.rows, title, username);
    if check.Err? {
      return Err(check.error);
    }
    r := blogs.Delete(title, now);
  }

  /** The decision of `ApproveBlog` and `RestoreBlog`: only an admin, owner
      or not, moderates. `denied` is the error a non-admin gets. */
  function ModerateCheck(users: seq<User>, title: string, username: string, denied: Error): (r: Outcome)
    ensures r.Pass? <==> title != "" && Caller(users, username).Ok? && IsAdminRole(Caller(users, username).value.role)
    ensures title == "" ==> r == Fail(InvalidTitle)
    ensures title != "" && Caller(users, username).Err? ==> r == Fail(UserNotFound)
    ensures title != "" && Caller(users, username).Ok? && !IsAdminRole(Caller(users, username).value.role) ==>
              r == Fail(denied)
  {
    if title == "" then Fail(InvalidTitle)
    else match Caller(users, username)
      case Err(_) => Fail(UserNotFound)
      case Ok(user) => if user.role != RoleAdmin then Fail(denied) else Pass
  }

  /** `ApproveBlog`: an admin sets the approval flag of every visible blog
      with the decoded title; the blog must exist. */
  method ApproveBlog(users: UserRepository.UserStore, blogs: BlogRepository.BlogStore, title: string, username: string,
                     approved: bool) returns (r: Outcome)
    requires blogs.Valid()
    modifies blogs
    ensures blogs.Valid() && blogs.nextId == old(blogs.nextId)
    ensures r.Pass? <==> ModerateCheck(users.rows, title, username, OnlyAdminCanApprove).Pass?
                         && BlogRepository.GetBlogByTitle(old(blogs.rows), title).Ok?
    ensures ModerateCheck(users.rows, title, username, OnlyAdminCanApprove).Fail? ==>
              r == ModerateCheck(users.rows, title, username, OnlyAdminCanApprove)
    ensures ModerateCheck(users.rows, title, username, OnlyAdminCanApprove).Pass? &&
            BlogRepository.GetBlogByTitle(old(blogs.rows), title).Err? ==>
              r == Fail(BlogNotFound)
    ensures r.Fail? ==> blogs.rows == old(blogs.rows)
    ensures r.Pass? ==> && QueryUnescape(title).Some?
                        && blogs.rows == BlogRepository.ApprovalRows(old(blogs.rows), QueryUnescape(title).value, approved)
  {
    r := ModerateCheck(users.rows, title, username, OnlyAdminCanApprove);
    if r.Fail? {
      return;
    }
    var found := BlogRepository.GetBlogByTitle(blogs.rows, title);
    if found.Err? {
      return Fail(BlogNotFound);
    }
    r := blogs.SetApproval(title, approved);
  }

  /** `RestoreBlog`: an admin clears the deletion of every blog with the
      decoded title; the store reports a title no row has. */
  method RestoreBlog(users: UserRepository.UserStore, blogs: BlogRepository.BlogStore, title: string, username: string)
    returns (r: Outcome)
    requires blogs.Valid()
    modifies blogs
    ensures blogs.Valid() && blogs.nextId == old(blogs.nextId)
    ensures ModerateCheck(users.rows, title, username, OnlyAdminCanRestore).Fail? ==>
              r == ModerateCheck(users.rows, title, username, OnlyAdminCanRestore) && blogs.rows == old(blogs.rows)
    ensures ModerateCheck(users.rows, title, username, OnlyAdminCanRestore).Pass? && QueryUnescape(title).Some? ==>
              && blogs.rows == BlogRepository.RestoredRows(old(blogs.rows), QueryUnescape(title).value)
              && (r.Pass? <==> exists b :: b in old(blogs.rows) && BlogRepository.TitleIs(b, QueryUnescape(title).value))
    ensures ModerateCheck(users.rows, title, username, OnlyAdminCanRestore).Pass? && QueryUnescape(title).None? ==>
              r == Fail(InvalidEscape) && blogs.rows == old(blogs.rows)
    ensures r.Pass? ==> ModerateCheck(users.rows, title, username, OnlyAdminCanRestore).Pass?
  {
    r := ModerateCheck(users.rows, title, username, OnlyAdminCanRestore);
    if r.Fail? {
      return;
    }
    r := blogs.Restore(title);
  }

  /** Approval is what puts a blog in front of readers: after an admin
      approves a title, every visible blog with that title is in a reader's
      all-blogs listing; after unapproving it, none is. */
  lemma ApprovalDecidesReaderListing(users: seq<User>, blogs: seq<Blog>, t: seq<Byte>, reader: string, approved: bool)
    requires Caller(users, reader).Ok? && !IsAdminRole(Caller(users, reader).value.role)
    ensures var a := BlogRepository.ApprovalRows(blogs, t, approved);
            forall i :: 0 <= i < |blogs| && BlogVisible(blogs[i]) && BlogRepository.TitleIs(blogs[i], t) ==>
              (ToBlogVM(a[i]) in GetAllBlogs(users, a, reader).value <==> approved)
  {
    var a := BlogRepository.ApprovalRows(blogs, t, approved);
    var role := Caller(users, reader).value.role;
    var rows := Where(a, (b: Blog) => ShownInAll(role, b, false));
    forall i | 0 <= i < |blogs| && BlogVisible(blogs[i]) && BlogRepository.TitleIs(blogs[i], t)
      ensures ToBlogVM(a[i]) in ProjectBlogs(rows) <==> approved
    {
      ProjectBlogsMembership(rows, ToBlogVM(a[i]));
      if approved {
        assert a[i] in a;
      }
    }
  }
}
