/** The views the services return: a blog without its row id and author id,
    and a user profile without its credentials. */
module ViewModel {
  import opened Entity

  datatype BlogVM = BlogVM(
    title: string,
    body: string,
    kind: string,
    username: string,
    tags: string,
    category: string,
    isApproved: bool,
    status: string,
    deletedAt: Option<Time>)

  /** The profile of a user: no password and no deletion state. */
  datatype UserVM = UserVM(
    id: nat,
    username: string,
    email: string,
    role: string,
    followers: seq<string>)

  /** `ToBlogVM`: the view of one blog row. */
  function ToBlogVM(b: Blog): (r: BlogVM)
    ensures r.isApproved == b.content.isApproved && r.username == b.content.username
    ensures r.deletedAt == b.deletedAt
    ensures r.title == b.content.title && r.body == b.content.body && r.kind == b.content.kind
    ensures r.status == b.content.status && r.tags == b.tags && r.category == b.category
  {
    BlogVM(b.content.title, b.content.body, b.content.kind, b.content.username,
           b.tags, b.category, b.content.isApproved, b.content.status, b.deletedAt)
  }

  /** The row with its hidden columns (row id and author id) cleared. */
  function Shown(b: Blog): Blog
  {
    b.(id := 0, content := b.content.(authorId := 0))
  }

  /** Two rows have the same view exactly when they differ at most in the
      row id and the author id. */
  lemma ToBlogVMExposes(a: Blog, b: Blog)
    ensures ToBlogVM(a) == ToBlogVM(b) <==> Shown(a) == Shown(b)
  {
    if ToBlogVM(a) == ToBlogVM(b) {
      assert Shown(a).content == Shown(b).content;
    }
  }

  /** The views of a list of rows, position by position. */
  function ProjectBlogs(blogs: seq<Blog>): (r: seq<BlogVM>)
    ensures |r| == |blogs|
    ensures forall i :: 0 <= i < |blogs| ==> r[i] == ToBlogVM(blogs[i])
  {
    seq(|blogs|, i requires 0 <= i < |blogs| => ToBlogVM(blogs[i]))
  }

  /** Projecting keeps exactly the rows' views: a view is listed iff some
      listed row has it. */
  lemma ProjectBlogsMembership(blogs: seq<Blog>, v: BlogVM)
    ensures v in ProjectBlogs(blogs) <==> exists b :: b in blogs && ToBlogVM(b) == v
  {
    var p := ProjectBlogs(blogs);
    if v in p {
      var i :| 0 <= i < |p| && p[i] == v;
      assert blogs[i] in blogs;
    }
  }

  /** `ToBlogVMs`: fills a slice of the same length with the view of each
      row, in order. */
  method ToBlogVMs(blogs: seq<Blog>) returns (r: seq<BlogVM>)
    ensures r == ProjectBlogs(blogs)
  {
    var vms := new BlogVM[|blogs|];
    for i := 0 to |blogs|
      invariant forall k :: 0 <= k < i ==> vms[k] == ToBlogVM(blogs[k])
    {
      vms[i] := ToBlogVM(blogs[i]);
    }
    r := vms[..];
  }

  /** `ToUserVM`: the profile of a user row. */
  function ToUserVM(u: User): (r: UserVM)
    ensures r.id == u.id && r.username == u.username && r.email == u.email && r.role == u.role
    ensures r.followers == u.followers
  {
    UserVM(u.id, u.username, u.email, u.role, u.followers)
  }

  /** The profiles of a list of users, position by position. */
  function ProjectUsers(users: seq<User>): (r: seq<UserVM>)
    ensures |r| == |users|
    ensures forall i :: 0 <= i < |users| ==> r[i] == ToUserVM(users[i])
  {
    seq(|users|, i requires 0 <= i < |users| => ToUserVM(users[i]))
  }
}
