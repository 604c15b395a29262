/** The blog table. A title given to the store arrives URL-encoded and is
    percent-decoded before it is compared; a malformed escape is reported as
    `InvalidEscape`. Queries are functions of the rows; writes are methods of
    `BlogStore`, each tied to a function that computes the new rows. */
module BlogRepository {
  import opened Entity
  import opened Tables
  import opened Text

  /** The title column compared with a decoded title: byte for byte, since
      the decoded title is a Go string of bytes. */
  predicate TitleIs(b: Blog, t: seq<Byte>) { Utf8(b.content.title) == t }

  predicate OwnedBy(b: Blog, username: string) { b.content.username == username }

  // ---------------------------------------------------------------------
  // Listing queries

  /** `GetAll`: every visible blog, approved or not. */
  function GetAll(rows: seq<Blog>): (r: seq<Blog>)
    ensures forall b :: b in r <==> b in rows && BlogVisible(b)
  {
    Where(rows, BlogVisible)
  }

  /** `GetAllTrueApproved`: the visible approved blogs. */
  function GetAllTrueApproved(rows: seq<Blog>): (r: seq<Blog>)
    ensures forall b :: b in r <==> b in rows && BlogVisible(b) && b.content.isApproved
  {
    Where(rows, (b: Blog) => BlogVisible(b) && b.content.isApproved)
  }

  /** `GetAllIncludeDeleted` (unscoped): every row. */
  function GetAllIncludeDeleted(rows: seq<Blog>): (r: seq<Blog>)
    ensures forall b :: b in r <==> b in rows
  {
    rows
  }

  /** `GetBlogsByAuthor`: the visible blogs of one owner, approved or not. */
  function GetBlogsByAuthor(rows: seq<Blog>, username: string): (r: seq<Blog>)
    ensures forall b :: b in r <==> b in rows && BlogVisible(b) && OwnedBy(b, username)
  {
    Where(rows, (b: Blog) => BlogVisible(b) && OwnedBy(b, username))
  }

  /** `GetBlogsByAuthorTrueApproved`: the visible approved blogs of one owner. */
  function GetBlogsByAuthorTrueApproved(rows: seq<Blog>, username: string): (r: seq<Blog>)
    ensures forall b :: b in r <==> b in rows && BlogVisible(b) && b.content.isApproved && OwnedBy(b, username)
  {
    Where(rows, (b: Blog) => BlogVisible(b) && b.content.isApproved && OwnedBy(b, username))
  }

  /** `GetBlogsByAuthorIncludeDeleted` (unscoped): every row of one owner. */
  function GetBlogsByAuthorIncludeDeleted(rows: seq<Blog>, username: string): (r: seq<Blog>)
    ensures forall b :: b in r <==> b in rows && OwnedBy(b, username)
  {
    Where(rows, (b: Blog) => OwnedBy(b, username))
  }

  /** The approved listing is the plain listing filtered once more. */
  lemma {:induction false} ApprovedIsFilteredAll(rows: seq<Blog>)
    ensures GetAllTrueApproved(rows) == Where(GetAll(rows), (b: Blog) => b.content.isApproved)
  {
    WhereWhere(rows, BlogVisible, (b: Blog) => b.content.isApproved,
               (b: Blog) => BlogVisible(b) && b.content.isApproved);
  }

  // ---------------------------------------------------------------------
  // Lookups by title

  /** `GetBlogByTitle`: the first visible row whose title is the decoded title. */
  function GetBlogByTitle(rows: seq<Blog>, title: string): (r: Result<Blog>)
    ensures QueryUnescape(title).None? ==> r == Err(InvalidEscape)
    ensures r.Ok? ==> && QueryUnescape(title).Some? && r.value in rows && BlogVisible(r.value)
                      && TitleIs(r.value, QueryUnescape(title).value)
    ensures QueryUnescape(title).Some? ==>
              (r.Err? <==> forall b :: b in rows && BlogVisible(b) ==> !TitleIs(b, QueryUnescape(title).value))
    ensures QueryUnescape(title).Some? && r.Err? ==> r.error == RecordNotFound
    ensures r.Ok? ==> exists i :: && 0 <= i < |rows| && rows[i] == r.value
                                  && forall j :: 0 <= j < i ==>
                                       !(BlogVisible(rows[j]) && TitleIs(rows[j], QueryUnescape(title).value))
  {
    match QueryUnescape(title)
    case None => Err(InvalidEscape)
    case Some(t) =>
      match First(rows, (b: Blog) => BlogVisible(b) && TitleIs(b, t))
      case None => Err(RecordNotFound)
      case Some(b) => Ok(b)
  }

  /** `GetBlogByTitleTrueApproved`: the first visible approved row with the
      decoded title. */
  function GetBlogByTitleTrueApproved(rows: seq<Blog>, title: string): (r: Result<Blog>)
    ensures QueryUnescape(title).None? ==> r == Err(InvalidEscape)
    ensures r.Ok? ==> && QueryUnescape(title).Some? && r.value in rows && BlogVisible(r.value)
                      && r.value.content.isApproved && TitleIs(r.value, QueryUnescape(title).value)
    ensures QueryUnescape(title).Some? ==>
              (r.Err? <==> forall b :: b in rows && BlogVisible(b) && b.content.isApproved
                                       ==> !TitleIs(b, QueryUnescape(title).value))
    ensures QueryUnescape(title).Some? && r.Err? ==> r.error == RecordNotFound
    ensures r.Ok? ==> exists i :: && 0 <= i < |rows| && rows[i] == r.value
                                  && forall j :: 0 <= j < i ==>
                                       !(BlogVisible(rows[j]) && rows[j].content.isApproved
                                         && TitleIs(rows[j], QueryUnescape(title).value))
  {
    match QueryUnescape(title)
    case None => Err(InvalidEscape)
    case Some(t) =>
      match First(rows, (b: Blog) => BlogVisible(b) && b.content.isApproved && TitleIs(b, t))
      case None => Err(RecordNotFound)
      case Some(b) => Ok(b)
  }

  /** A blog is found by its title sent escaped, whatever script the title
      is written in: the lookup finds a visible blog whose title has the same
      bytes, and none before it. */
  lemma EscapedTitleFindsBlog(rows: seq<Blog>, i: nat)
    requires i < |rows| && BlogVisible(rows[i])
    ensures GetBlogByTitle(rows, QueryEscape(Utf8(rows[i].content.title))).Ok?
    ensures Utf8(GetBlogByTitle(rows, QueryEscape(Utf8(rows[i].content.title))).value.content.title)
            == Utf8(rows[i].content.title)
  {
    QueryUnescapeEscape(Utf8(rows[i].content.title));
    assert rows[i] in rows;
  }

  /** `ExistBlog(title, body)`: a visible row has the title or the body
      (neither is decoded). */
  function ExistBlog(rows: seq<Blog>, title: string, body: string): (r: bool)
    ensures r <==> exists b :: b in rows && BlogVisible(b) && (b.content.title == title || b.content.body == body)
  {
    Any(rows, (b: Blog) => BlogVisible(b) && (b.content.title == title || b.content.body == body))
  }

  /** The one-argument duplicate check the blog service calls: a visible row
      already has the body; the title is not consulted. */
  function ExistBody(rows: seq<Blog>, body: string): (r: bool)
    ensures r <==> exists b :: b in rows && BlogVisible(b) && b.content.body == body
  {
    Any(rows, (b: Blog) => BlogVisible(b) && b.content.body == body)
  }

  // ---------------------------------------------------------------------
  // The rows each write produces

  /** The columns `Update` writes: title, body, type, status, tags and
      category. Owner, author id, approval and deletion state stay. */
  function Overwritten(b: Blog, src: Blog): Blog
  {
    b.(content := b.content.(title := src.content.title, body := src.content.body,
                             kind := src.content.kind, status := src.content.status),
       tags := src.tags, category := src.category)
  }

  function UpdatedRows(rows: seq<Blog>, t: seq<Byte>, src: Blog): (r: seq<Blog>)
    ensures |r| == |rows|
  {
    UpdateWhere(rows, (b: Blog) => BlogVisible(b) && TitleIs(b, t), (b: Blog) => Overwritten(b, src))
  }

  function DeletedRows(rows: seq<Blog>, t: seq<Byte>, now: Time): (r: seq<Blog>)
    ensures |r| == |rows|
  {
    UpdateWhere(rows, (b: Blog) => BlogVisible(b) && TitleIs(b, t), (b: Blog) => b.(deletedAt := Some(now)))
  }

  function RestoredRows(rows: seq<Blog>, t: seq<Byte>): (r: seq<Blog>)
    ensures |r| == |rows|
  {
    UpdateWhere(rows, (b: Blog) => TitleIs(b, t), (b: Blog) => b.(deletedAt := None))
  }

  function ApprovalRows(rows: seq<Blog>, t: seq<Byte>, approved: bool): (r: seq<Blog>)
    ensures |r| == |rows|
  {
    UpdateWhere(rows, (b: Blog) => BlogVisible(b) && TitleIs(b, t),
                (b: Blog) => b.(content := b.content.(isApproved := approved)))
  }

  /** The write a check on one row licenses: `Update` of that row alone,
      found by its id. */
  function UpdatedRowById(rows: seq<Blog>, id: nat, src: Blog): (r: seq<Blog>)
    ensures |r| == |rows|
  {
    UpdateWhere(rows, (b: Blog) => b.id == id, (b: Blog) => Overwritten(b, src))
  }

  /** `Delete` of one row, found by its id. */
  function DeletedRowById(rows: seq<Blog>, id: nat, now: Time): (r: seq<Blog>)
    ensures |r| == |rows|
  {
    UpdateWhere(rows, (b: Blog) => b.id == id, (b: Blog) => b.(deletedAt := Some(now)))
  }

  /** Row ids increase down the table, as `Create` assigns them. */
  predicate IdsIncrease(rows: seq<Blog>)
  {
    forall i, j :: 0 <= i < j < |rows| ==> rows[i].id < rows[j].id
  }

  /** Writing by id changes the row with that id and no other. */
  lemma ByIdWritesOneRow(rows: seq<Blog>, i: nat, src: Blog, now: Time)
    requires i < |rows| && IdsIncrease(rows)
    ensures UpdatedRowById(rows, rows[i].id, src)[i] == Overwritten(rows[i], src)
    ensures DeletedRowById(rows, rows[i].id, now)[i] == rows[i].(deletedAt := Some(now))
    ensures forall j :: 0 <= j < |rows| && j != i ==>
              UpdatedRowById(rows, rows[i].id, src)[j] == rows[j] && DeletedRowById(rows, rows[i].id, now)[j] == rows[j]
  {
    forall j | 0 <= j < |rows| && j != i
      ensures rows[j].id != rows[i].id
    {
      if j < i { assert rows[j].id < rows[i].id; } else { assert rows[i].id < rows[j].id; }
    }
  }

  function RenamedRows(rows: seq<Blog>, oldName: string, newName: string): (r: seq<Blog>)
    ensures |r| == |rows|
  {
    UpdateWhere(rows, (b: Blog) => BlogVisible(b) && OwnedBy(b, oldName),
                (b: Blog) => b.(content := b.content.(username := newName)))
  }

  // ---------------------------------------------------------------------
  // What the writes achieve

  /** `Update` replaces the content columns wholesale (an empty field in the
      source row becomes an empty column) and keeps the owner, the author
      id, the approval flag and the deletion state of every matched row. */
  lemma UpdateReplacesContent(rows: seq<Blog>, t: seq<Byte>, src: Blog, i: nat)
    requires i < |rows| && BlogVisible(rows[i]) && TitleIs(rows[i], t)
    ensures var b := UpdatedRows(rows, t, src)[i];
            && b.content.title == src.content.title && b.content.body == src.content.body
            && b.content.kind == src.content.kind && b.content.status == src.content.status
            && b.tags == src.tags && b.category == src.category
            && b.content.username == rows[i].content.username && b.content.authorId == rows[i].content.authorId
            && b.content.isApproved == rows[i].content.isApproved && b.deletedAt == rows[i].deletedAt
            && b.id == rows[i].id
  {
  }

  /** Once a title is deleted, looking it up finds nothing, and the rows
      that do not carry the title are untouched. */
  lemma DeleteHidesTitle(rows: seq<Blog>, title: string, now: Time)
    requires QueryUnescape(title).Some?
    ensures GetBlogByTitle(DeletedRows(rows, QueryUnescape(title).value, now), title) == Err(RecordNotFound)
    ensures forall i :: 0 <= i < |rows| && !TitleIs(rows[i], QueryUnescape(title).value) ==>
              DeletedRows(rows, QueryUnescape(title).value, now)[i] == rows[i]
  {
    var t := QueryUnescape(title).value;
    var d := DeletedRows(rows, t, now);
    forall b | b in d && BlogVisible(b)
      ensures !TitleIs(b, t)
    {
      var i :| 0 <= i < |d| && d[i] == b;
    }
  }

  /** Restoring a title undoes deleting it, provided no row with that title
      was already deleted before. */
  lemma RestoreUndoesBlogDelete(rows: seq<Blog>, t: seq<Byte>, now: Time)
    requires forall b :: b in rows && TitleIs(b, t) ==> BlogVisible(b)
    ensures RestoredRows(DeletedRows(rows, t, now), t) == rows
  {
    var r := RestoredRows(DeletedRows(rows, t, now), t);
    forall i | 0 <= i < |rows|
      ensures r[i] == rows[i]
    {
      assert rows[i] in rows;
    }
  }

  /** After approving a title that has a visible row, the approved lookup
      of that title succeeds; after unapproving it, it fails. */
  lemma ApprovalDecidesApprovedLookup(rows: seq<Blog>, title: string, approved: bool)
    requires QueryUnescape(title).Some?
    requires GetBlogByTitle(rows, title).Ok?
    ensures GetBlogByTitleTrueApproved(ApprovalRows(rows, QueryUnescape(title).value, approved), title).Ok? == approved
  {
    var t := QueryUnescape(title).value;
    var a := ApprovalRows(rows, t, approved);
    var b0 := GetBlogByTitle(rows, title).value;
    var i :| 0 <= i < |rows| && rows[i] == b0;
    assert a[i] in a && BlogVisible(a[i]) && TitleIs(a[i], t) && a[i].content.isApproved == approved;
    if !approved {
      forall b | b in a && BlogVisible(b) && TitleIs(b, t)
        ensures !b.content.isApproved
      {
        var j :| 0 <= j < |a| && a[j] == b;
      }
    }
  }

  /** After renaming an owner no visible blog belongs to the old name, and
      every blog the old name owned belongs to the new one. */
  lemma RenameMovesOwnership(rows: seq<Blog>, oldName: string, newName: string)
    requires oldName != newName
    ensures GetBlogsByAuthor(RenamedRows(rows, oldName, newName), oldName) == []
    ensures forall i :: 0 <= i < |rows| && rows[i] in GetBlogsByAuthor(rows, oldName) ==>
              RenamedRows(rows, oldName, newName)[i] in GetBlogsByAuthor(RenamedRows(rows, oldName, newName), newName)
  {
    WhereNone(RenamedRows(rows, oldName, newName), (b: Blog) => BlogVisible(b) && OwnedBy(b, oldName));
  }

  // ---------------------------------------------------------------------
  // The table

  class BlogStore {
    var rows: seq<Blog>
    var nextId: nat

    ghost predicate Valid()
      reads this
    {
      && nextId >= 1
      && (forall i :: 0 <= i < |rows| ==> 0 < rows[i].id < nextId)
      && IdsIncrease(rows)
    }

    constructor ()
      ensures Valid() && rows == [] && nextId == 1
    {
      rows := [];
      nextId := 1;
    }

    /** `Create`: appends the blog under the next id. */
    method Create(blog: Blog)
      requires Valid()
      modifies this
      ensures Valid()
      ensures rows == old(rows) + [blog.(id := old(nextId))] && nextId == old(nextId) + 1
    {
      rows := rows + [blog.(id := nextId)];
      nextId := nextId + 1;
    }

    /** `Update`: overwrites the content columns of every visible row with
        the decoded title; a title that does not decode changes nothing. */
    method Update(title: string, blog: Blog) returns (r: Outcome)
      requires Valid()
      modifies this
      ensures Valid() && nextId == old(nextId)
      ensures r == if QueryUnescape(title).None? then Fail(InvalidEscape) else Pass
      ensures rows == if r.Fail? then old(rows) else UpdatedRows(old(rows), QueryUnescape(title).value, blog)
    {
      var decoded := QueryUnescape(title);
      if decoded.None? {
        return Fail(InvalidEscape);
      }
      rows := UpdatedRows(rows, decoded.value, blog);
      r := Pass;
    }

    /** `Delete`: stamps `deleted_at` on every visible row with the decoded
        title and returns that title. */
    method Delete(title: string, now: Time) returns (r: Result<seq<Byte>>)
      requires Valid()
      modifies this
      ensures Valid() && nextId == old(nextId)
      ensures r == if QueryUnescape(title).None? then Err(InvalidEscape) else Ok(QueryUnescape(title).value)
      ensures rows == if r.Err? then old(rows) else DeletedRows(old(rows), r.value, now)
    {
      var decoded := QueryUnescape(title);
      if decoded.None? {
        return Err(InvalidEscape);
      }
      rows := DeletedRows(rows, decoded.value, now);
      r := Ok(decoded.value);
    }

    /** `SetApproval`: sets the approval flag of every visible row with the
        decoded title. */
    method SetApproval(title: string, approved: bool) returns (r: Outcome)
      requires Valid()
      modifies this
      ensures Valid() && nextId == old(nextId)
      ensures r == if QueryUnescape(title).None? then Fail(InvalidEscape) else Pass
      ensures rows == if r.Fail? then old(rows) else ApprovalRows(old(rows), QueryUnescape(title).value, approved)
    {
      var decoded := QueryUnescape(title);
      if decoded.None? {
        return Fail(InvalidEscape);
      }
      rows := ApprovalRows(rows, decoded.value, approved);
      r := Pass;
    }

    /** `Restore` (unscoped): clears `deleted_at` on every row with the
        decoded title; fails if no row at all has that title. */
    method Restore(title: string) returns (r: Outcome)
      requires Valid()
      modifies this
      ensures Valid() && nextId == old(nextId)
      ensures QueryUnescape(title).None? ==> r == Fail(InvalidEscape) && rows == old(rows)
      ensures QueryUnescape(title).Some? ==>
                && rows == RestoredRows(old(rows), QueryUnescape(title).value)
                && (r.Pass? <==> exists b :: b in old(rows) && TitleIs(b, QueryUnescape(title).value))
                && (r.Fail? ==> r.error == RecordNotFound)
    {
      var decoded := QueryUnescape(title);
      if decoded.None? {
        return Fail(InvalidEscape);
      }
      var affected := Any(rows, (b: Blog) => TitleIs(b, decoded.value));
      rows := RestoredRows(rows, decoded.value);
      r := if affected then Pass else Fail(RecordNotFound);
    }

    /** `UpdateAuthorUsername`: moves the visible blogs of `oldName` to
        `newName`. */
    method UpdateAuthorUsername(oldName: string, newName: string)
      requires Valid()
      modifies this
      ensures Valid() && nextId == old(nextId)
      ensures rows == RenamedRows(old(rows), oldName, newName)
    {
      rows := RenamedRows(rows, oldName, newName);
    }
  }
}
