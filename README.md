# Blog API core, modelled in Dafny

This project models the core of a blog backend with three tables: users, blogs and role requests.

- **Identity.** Users register, log in, look up and search profiles, update their own account and soft-delete it.
- **Blogs.** Writers and admins create blogs. Owners and admins change or delete them. Admins approve, unapprove and restore them.
- **Visibility.** Who sees a blog depends on its approval flag, its owner, the caller's role and whether it is deleted.
- **Role requests.** A user asks for the admin role; an admin approves or rejects the request.

The layers follow the program:

- `entity.dfy`: the records, roles, statuses and errors.
- `tables.dfy`: filtering and first-match over a table's rows.
- `text.dfy`: the Go string routines the core relies on: `strings.TrimSpace`, ASCII lower-casing, the case-insensitive prefix test of `ILIKE`, `strconv.ParseUint`, `strconv.Atoi` and `url.QueryUnescape`.
- `user_repository.dfy`, `blog_repository.dfy`, `role_request_repository.dfy`: the three stores.
  - Each table is a class whose `rows` field its methods rewrite in place.
  - Each write is tied to a function that computes the new rows.
  - The queries are functions of the rows.
- `viewmodel.dfy`: the blog and user views returned to callers.
- `blog_service.dfy`, `auth_service.dfy`: the services.
  - Each decision (may this caller do this, and with which row) is a function.
  - Each operation that writes is a method that carries the decision out on the stores.
- `request.dfy`, `auth_handler.dfy`, `blog_handler.dfy`: the HTTP handlers, reduced to their decisions:
  - the target account;
  - refusals before the service is called;
  - how path and query strings are read.

Soft deletion is explicit. A row with `deletedAt` set is invisible to every query except the unscoped ones. The unscoped ones are user restore, the user search with deleted users, blog restore, and the include-deleted blog listings.

The unique indexes on `username` and `email` cover every row, soft-deleted ones included.

Password hashing, token signing and the clock are not computed:

- A hash arrives as a parameter: `None` when hashing failed.
- Password comparison is a function parameter.
- A token is its claims.
- The current time is a parameter.

## Behaviour of the code worth knowing

- **Soft-deleted users and blogs.** A soft-deleted user is "not found" everywhere.
  - Login, update and delete of a soft-deleted user answer "user not found".
  - Their "user is deleted" branches cannot be reached (`AuthService.Login`, `AuthService.UpdateCheck`, `AuthService.DeleteCheck`).
  - In the same way, a soft-deleted blog is "blog not found" to `DeleteBlog` (`BlogService.DeleteCheck`).
- **User restore** is unscoped. It succeeds for any existing username, deleted or not. It fails only when no row has the name.
- **Duplicate checks** (`ExistUser`, the body check of the blog service) look at visible rows only. A name or email held by a soft-deleted user passes the check. The unique index then refuses the write (`UniqueViolation`).
- **Deleting a blog** leaves its approval flag as it is.
- **`LoginResponse`** has no role field (`internal/viewmodel/user.go:36-41`). The role is carried in the token claims.
- **`GetUserByUsername`** checks the path name before the token. The other identity endpoints check the token first.
- **Updating a user** refuses the user's own current username or email as "already exists" (`AuthService.OwnUsernameIsTaken`).
  - When the username changes, the blogs are renamed before the user row is written.
  - If the unique index then refuses that row, the blogs stay renamed (`AuthService.RenameCascadeCanOutliveRefusedWrite`).
- **Blog-store operations the service calls but `internal/repository/blog.go` does not define** are modelled from their names and call sites:
  - `SetApproval`, `Restore`, `GetAllIncludeDeleted`, `GetBlogsByAuthorIncludeDeleted` and `UpdateAuthorUsername`;
  - the one-argument `ExistBlog`, which becomes `ExistBody`.
- **`GetBlogByTitle`** uses `Where("title", t)`, read here as equality on the title column.
- **Titles in paths are decoded to bytes.** `url.QueryUnescape` turns each `%XY` into one byte, so a non-ASCII title arrives as several escapes ("%C4%9F" is "ğ"). The decoded bytes are compared with the UTF-8 bytes of the title column (`Text.QueryUnescape`, `BlogRepository.TitleIs`).
- **Update and delete of a blog** check ownership on the first visible blog with the title, then write every visible blog with that title (see Findings).
- **Query limits** are read with `strconv.Atoi`. A malformed value reads as 0, so the default applies. The exception is a value whose leading digits already pass the 64-bit range, such as "99999999999999999999x": it reads as the largest 64-bit integer.

## Model

| member | source | states |
|---|---|---|
| UserRepository.GetByUsername | internal/repository/user.go:102-113 | a visible row with that username, or RecordNotFound exactly when no visible row has it |
| UserRepository.GetByIdentifier | internal/repository/user.go:115-126 | the first visible row whose email or username is the identifier, or RecordNotFound exactly when there is none |
| UserRepository.ExistUser | internal/repository/user.go:78-100 | true iff some visible row has the email or some visible row has the username |
| UserRepository.SearchLimit | internal/repository/user.go:130-132 | the row limit is positive and equals a positive requested limit (10 otherwise) |
| UserRepository.SearchByUsernamePrefix | internal/repository/user.go:128-141 | at most the limit; only visible rows with the case-insensitive prefix; all of them when fewer than the limit are returned |
| UserRepository.SearchByUsernamePrefixWithOptions | internal/repository/user.go:143-161 | the same bound, soundness and completeness, with soft-deleted rows admitted when includeDeleted is set |
| UserRepository.SearchWithoutDeletedIsPlain | internal/repository/user.go:143-161 | without includeDeleted the option search equals the plain search |
| UserRepository.DeletedUsers | internal/repository/user.go:65-69 | the rows after a soft delete, one for one (meaning stated by DeleteHidesUser) |
| UserRepository.RestoredUsers | internal/repository/user.go:164-171 | the rows after an unscoped restore, one for one (meaning stated by RestoreMakesVisible) |
| UserRepository.RoledUsers | internal/repository/user.go:183-189 | the rows after a role change, one for one |
| UserRepository.RewrittenUsers | internal/repository/user.go:43-50 | the rows after a user update, one for one (meaning stated by RewriteKeepsKeysUnique) |
| UserRepository.DeleteHidesUser | internal/repository/user.go:59-76 | after a delete the username is no longer found, and rows under other names are unchanged |
| UserRepository.RestoreUndoesUserDelete | internal/repository/user.go:163-180 | restore after delete gives back the original rows when none was deleted before |
| UserRepository.RestoreMakesVisible | internal/repository/user.go:163-180 | after a restore of an existing name, that name is found again |
| UserRepository.RewriteKeepsKeysUnique | internal/repository/user.go:42-57 | an update that does not clash keeps usernames and emails unique across all rows |
| UserRepository.UserStore.constructor | internal/repository/user.go:29-31 | an empty, valid table |
| UserRepository.UserStore.Create | internal/repository/user.go:33-40 | UniqueViolation iff any row holds the username or email; otherwise the row is appended under a fresh id; uniqueness and increasing ids are kept |
| UserRepository.UserStore.Update | internal/repository/user.go:42-57 | UniqueViolation iff another row holds the new name or email; otherwise the visible row named oldUsername has username, email and password rewritten |
| UserRepository.UserStore.Delete | internal/repository/user.go:59-76 | fails iff the username is not found; otherwise that row is stamped deleted |
| UserRepository.UserStore.Restore | internal/repository/user.go:163-180 | clears deletion on every row with the name; RecordNotFound iff no row at all has it |
| UserRepository.UserStore.SetRole | internal/repository/user.go:182-190 | the visible row with the name takes the role |
| BlogRepository.GetAll | internal/repository/blog.go:98-107 | exactly the visible blogs |
| BlogRepository.GetAllTrueApproved | internal/repository/blog.go:87-96 | exactly the visible approved blogs |
| BlogRepository.GetAllIncludeDeleted | internal/service/blog.go:218-223 | exactly every row, deleted ones included |
| BlogRepository.GetBlogsByAuthor | internal/repository/blog.go:122-131 | exactly the visible blogs of the owner |
| BlogRepository.GetBlogsByAuthorTrueApproved | internal/repository/blog.go:109-120 | exactly the visible approved blogs of the owner |
| BlogRepository.GetBlogsByAuthorIncludeDeleted | internal/service/blog.go:294-297 | exactly every row of the owner, deleted ones included |
| BlogRepository.ApprovedIsFilteredAll | internal/repository/blog.go:87-107 | the approved listing is the plain listing filtered on approval, order kept |
| BlogRepository.GetBlogByTitle | internal/repository/blog.go:149-163 | InvalidEscape for a malformed title; else the first visible row whose title bytes are the decoded bytes, or RecordNotFound iff none |
| BlogRepository.EscapedTitleFindsBlog | internal/repository/blog.go:149-163 | a visible blog's title, escaped, finds a visible blog with the same title bytes, in any script |
| BlogRepository.GetBlogByTitleTrueApproved | internal/repository/blog.go:133-147 | the same, restricted to approved rows, again the first such row |
| BlogRepository.ExistBlog | internal/repository/blog.go:165-177 | true iff a visible row has the title or the body |
| BlogRepository.ExistBody | internal/service/blog.go:46-52 | true iff a visible row has the body |
| BlogRepository.UpdatedRows | internal/repository/blog.go:50-59 | the rows after an update, one for one (meaning stated by UpdateReplacesContent) |
| BlogRepository.DeletedRows | internal/repository/blog.go:75-78 | the rows after a delete, one for one (meaning stated by DeleteHidesTitle) |
| BlogRepository.RestoredRows | internal/service/blog.go:362 | the rows after an unscoped restore, one for one (meaning stated by RestoreUndoesBlogDelete) |
| BlogRepository.ApprovalRows | internal/service/blog.go:347 | the rows after setting approval, one for one (meaning stated by ApprovalDecidesApprovedLookup) |
| BlogRepository.RenamedRows | internal/service/auth.go:214-219 | the rows after moving an owner's blogs, one for one (meaning stated by RenameMovesOwnership) |
| BlogRepository.UpdateReplacesContent | internal/repository/blog.go:43-66 | a matched row takes title, body, type, status, tags and category from the source and keeps owner, author id, approval, deletion and id |
| BlogRepository.DeleteHidesTitle | internal/repository/blog.go:68-85 | after a delete the title is not found, and rows with other titles are unchanged |
| BlogRepository.RestoreUndoesBlogDelete | internal/service/blog.go:350-363 | restore after delete gives back the original rows when none with that title was deleted before |
| BlogRepository.ApprovalDecidesApprovedLookup | internal/service/blog.go:331-348 | after setting approval on an existing title, the approved lookup succeeds iff approved |
| BlogRepository.UpdatedRowById | internal/repository/blog.go:50-59 | corrected: the rows after updating one row found by id, one for one (meaning stated by ByIdWritesOneRow) |
| BlogRepository.DeletedRowById | internal/repository/blog.go:75-78 | corrected: the rows after deleting one row found by id, one for one (meaning stated by ByIdWritesOneRow) |
| BlogRepository.ByIdWritesOneRow | internal/repository/blog.go:50-59 | the corrected writes by id change the row with that id and no other |
| BlogRepository.RenameMovesOwnership | internal/service/auth.go:214-219 | after renaming, the old name owns no visible blog and each of its blogs belongs to the new name |
| BlogRepository.BlogStore.constructor | internal/repository/blog.go:30-32 | an empty, valid table |
| BlogRepository.BlogStore.Create | internal/repository/blog.go:34-41 | the blog is appended under a fresh id |
| BlogRepository.BlogStore.Update | internal/repository/blog.go:43-66 | InvalidEscape and no change for a malformed title; otherwise the content columns of every visible row with the decoded title are rewritten |
| BlogRepository.BlogStore.Delete | internal/repository/blog.go:68-85 | InvalidEscape for a malformed title; otherwise every visible row with the decoded title is stamped deleted and the decoded title is returned |
| BlogRepository.BlogStore.SetApproval | internal/service/blog.go:347 | every visible row with the decoded title takes the approval flag |
| BlogRepository.BlogStore.Restore | internal/service/blog.go:362 | deletion cleared on every row with the decoded title; RecordNotFound iff no row has it |
| BlogRepository.BlogStore.UpdateAuthorUsername | internal/service/auth.go:214-219 | every visible blog of the old owner moves to the new name |
| RoleRequestRepository.Insert | internal/repository/role_request.go:50 | inserting into a newest-first list keeps it newest first and adds exactly one request |
| RoleRequestRepository.NewestFirst | internal/repository/role_request.go:50 | the requests ordered by creation time, newest first, as a permutation |
| RoleRequestRepository.NewestFirstSameRequests | internal/repository/role_request.go:50 | ordering keeps exactly the same requests |
| RoleRequestRepository.WhereKeepsOrder | internal/repository/role_request.go:44-50 | filtering by status keeps the newest-first order |
| RoleRequestRepository.LatestByUser | internal/repository/role_request.go:30-40 | a request of the user with the greatest creation time; RecordNotFound iff the user has none |
| RoleRequestRepository.ListLimit | internal/repository/role_request.go:47-49 | the row limit is positive and equals a positive requested limit (100 otherwise) |
| RoleRequestRepository.List | internal/repository/role_request.go:41-54 | at most the limit, newest first, only matching status (any for empty), all of them when fewer than the limit, and no matching request left out is newer than one listed |
| RoleRequestRepository.TakeKeepsNewest | internal/repository/role_request.go:50-51 | the first n of a newest-first list are at least as new as every request left out |
| RoleRequestRepository.GetByID | internal/repository/role_request.go:86-92 | the request with the id, or RecordNotFound iff none has it |
| RoleRequestRepository.DecidedRows | internal/repository/role_request.go:57-59 | the requests after a decision, one for one (meaning stated by DecidedIsFinal and DecidingPendingRecordsAdmin) |
| RoleRequestRepository.DecidedIsFinal | internal/repository/role_request.go:55-59 | deciding a request that is no longer pending changes nothing |
| RoleRequestRepository.DecidingPendingRecordsAdmin | internal/repository/role_request.go:57-59 | a pending request takes the new status, the admin and the time, and keeps its requester and role |
| RoleRequestRepository.PromotedAsWritten | internal/repository/role_request.go:64-66 | the user table after approval as written, one for one |
| RoleRequestRepository.PromotedIfPending | internal/repository/role_request.go:57-66 | the user table after the corrected approval, one for one |
| RoleRequestRepository.ApproveAsWrittenPromotesRejected | internal/repository/role_request.go:55-73 | a rejected request stays rejected, yet approving it makes its requester admin |
| RoleRequestRepository.PromotedIfPendingOnlyPending | internal/repository/role_request.go:55-73 | the corrected approval leaves users unchanged without a pending request, and otherwise makes exactly the requester's visible row admin |
| RoleRequestRepository.RoleRequestStore.constructor | internal/repository/role_request.go:23-25 | an empty, valid table |
| RoleRequestRepository.RoleRequestStore.Create | internal/repository/role_request.go:27-29 | the request is appended under a fresh id, stamped with the time, pending when no status is given |
| RoleRequestRepository.RoleRequestStore.Approve | internal/repository/role_request.go:55-73 | the request is approved if pending, and the requester is promoted whatever the request's status |
| RoleRequestRepository.RoleRequestStore.ApprovePending | internal/repository/role_request.go:55-73 | the request is approved if pending, and the requester is promoted only then |
| RoleRequestRepository.RoleRequestStore.Reject | internal/repository/role_request.go:74-84 | the request is rejected if pending, with the admin and time recorded |
| ViewModel.ToBlogVM | internal/viewmodel/blog.go:54-69 | the view carries the blog's title, body, type, status, tags, category, owner, approval and deletion state |
| ViewModel.ToBlogVMExposes | internal/viewmodel/blog.go:54-69 | two blogs have the same view iff they differ at most in row id and author id |
| ViewModel.ProjectBlogs | internal/viewmodel/blog.go:71-77 | the views of the rows, position by position |
| ViewModel.ProjectBlogsMembership | internal/viewmodel/blog.go:71-77 | a view is listed iff some row has it |
| ViewModel.ToBlogVMs | internal/viewmodel/blog.go:71-77 | the loop fills a slice of the same length with each row's view, in order |
| ViewModel.ToUserVM | internal/viewmodel/user.go:57-67 | the profile carries the user's id, username, email, role and followers |
| ViewModel.ProjectUsers | internal/service/auth.go:166-169 | the profiles of the users, position by position |
| BlogService.GetAllBlogsWithOptions | internal/service/blog.go:210-239 | UserNotFound iff the caller is not found; otherwise the views of exactly the blogs ShownInAll admits, in table order |
| BlogService.GetAllBlogs | internal/service/blog.go:189-207 | the all-blogs listing without deleted blogs |
| BlogService.GetBlogsByAuthor | internal/service/blog.go:241-287 | the error order; NotAuthorizedToViewDeleted iff a non-admin asks for someone else's deleted blogs; a listing iff both names are given, the caller is found and that refusal does not apply; the listing is the views of exactly the blogs ShownForAuthor admits |
| BlogService.GetBlogsByAuthorIncludeDeleted | internal/service/blog.go:289-300 | as written: InvalidUsername iff the name is empty; otherwise, for any caller, the views of exactly the author's blogs in table order, deleted and unapproved included |
| BlogService.GetBlogsByAuthorIncludeDeletedGuarded | internal/service/blog.go:253-264 | corrected: a listing iff both names are given, the caller is found and is the author or an admin; that listing is every blog of the author |
| BlogService.ListedViewsObeyAuthorRule | internal/service/blog.go:253-287 | every view of the per-author listing is approved, the viewer's own, or shown to an admin; deleted blogs only for the author or an admin |
| BlogService.IncludeDeletedShowsUnapprovedToAnyone | internal/service/blog.go:289-300 | the unguarded endpoint returns another author's unapproved, deleted blog |
| BlogService.GetBlogByTitle | internal/service/blog.go:302-329 | the error order; BlogNotFound iff the caller is found and the title is not; the owner or an admin gets the view of the found blog; BlogNotApproved iff anyone else asks and no approved blog has the title; otherwise anyone else gets the view of the first visible approved blog with the title |
| BlogService.UnapprovedHiddenFromOthers | internal/service/blog.go:189-329 | no listing or lookup shows a non-admin someone else's unapproved blog |
| BlogService.FirstFailure | internal/service/blog.go:53-79 | no failure reported iff every check passes |
| BlogService.CreateCheck | internal/service/blog.go:34-102 | the error order; the new blog is owned by the caller, carries the caller's id, is approved iff the caller is admin, and copies the form |
| BlogService.FirstFailureAt | internal/service/blog.go:53-79 | the first failing check is the one reported |
| BlogService.CreateCheckOrder | internal/service/blog.go:53-79 | the field errors come in the order title, type, body, author id, status, tags, category |
| BlogService.CreateNeverInvalidAuthorId | internal/service/blog.go:65-67 | with positive stored ids the author-id check never fires |
| BlogService.CreateBlog | internal/service/blog.go:34-102 | the blog CreateCheck builds is inserted, or its error is returned and nothing changes |
| BlogService.UpdateCheck | internal/service/blog.go:104-140 | each error iff its check is the first to fail, in the order InvalidTitle, BlogNotFound, UserNotFound, NotAuthorizedToUpdate, DuplicateBody, EmptyTitle, EmptyBody; success iff none fails, with the found blog |
| BlogService.UnchangedBodyIsDuplicate | internal/service/blog.go:126-132 | saving a blog with its current body is refused |
| BlogService.UpdateBlog | internal/service/blog.go:104-163 | the checked blog's content is rewritten from the form and the response echoes the form with an empty username |
| BlogService.DeleteCheck | internal/service/blog.go:165-185 | each error iff its check is the first to fail, in the order InvalidTitle, BlogNotFound, UserNotFound, NotAuthorizedToDelete; "already deleted" never happens; success iff none fails, with the found blog |
| BlogService.TitleCheckSeesFirstRowOnly | internal/service/blog.go:109-120 | with a writer's blog and another owner's blog both titled "T", update and delete checks pass on the writer's blog |
| BlogService.TitleWriteReachesOtherOwners | internal/repository/blog.go:50-78 | as written: after those checks pass, the update and the delete change the other owner's blog too |
| BlogService.CheckedRowWritesOnlyPermitted | internal/service/blog.go:109-186 | corrected: writing the checked row by its id changes only rows the caller may modify |
| BlogService.DeleteBlog | internal/service/blog.go:165-187 | the checked title is soft-deleted and returned decoded |
| BlogService.ModerateCheck | internal/service/blog.go:331-341 | passes iff the title is given and the caller is a found admin; otherwise the error in source order |
| BlogService.ApproveBlog | internal/service/blog.go:331-348 | succeeds iff the admin check passes and the title exists; then the approval flag is set; an admin asking for a missing title gets BlogNotFound; nothing changes on failure |
| BlogService.RestoreBlog | internal/service/blog.go:350-363 | only an admin restores; for an admin, a malformed title gives InvalidEscape with nothing changed, and otherwise deletion is cleared on every row with the title, with success iff some row has it |
| BlogService.ApprovalDecidesReaderListing | internal/service/blog.go:189-207 | after approval a reader's all-blogs listing shows the title's blogs; after unapproval it does not |
| AuthService.StoredRole | internal/service/auth.go:65-74 | a stored role is never admin; any other requested role is kept |
| AuthService.StoredRoleIdempotent | internal/service/auth.go:65-74 | storing a stored role changes nothing |
| AuthService.RegisterCheck | internal/service/auth.go:35-88 | EmailOrUsernameExists iff a visible row has the email or name, then HashingFailed, then RoleRequired; success iff none applies, and the row has the hash, the stored role and no followers |
| AuthService.Register | internal/service/auth.go:35-88 | the checked row is inserted unless the unique index refuses it; the answer carries a role that is never admin |
| AuthService.SecondRegistrationSameEmailFails | internal/service/auth.go:47-53 | a second registration with a registered email fails |
| AuthService.Login | internal/service/auth.go:98-134 | UserNotFound iff no visible row has the identifier; InvalidPassword iff the password does not match; otherwise the response for the first visible row that GetByIdentifier returns: its username, id and role in claims expiring 24 hours from now, and its id, username and email |
| AuthService.DeletedUserCannotLogIn | internal/service/auth.go:98-106 | a user whose rows are all deleted gets "user not found" |
| AuthService.GetUserVMByUsername | internal/service/auth.go:136-155 | InvalidUsername iff the name is empty; otherwise the profile of the visible user or UserNotFound |
| AuthService.ProfileIgnoresCaller | internal/service/auth.go:136-155 | the caller's name does not affect the profile lookup |
| AuthService.SearchUsers | internal/service/auth.go:158-171 | no prefix gives no results; otherwise the loop appends the profile of each user the prefix search finds, at most the limit |
| AuthService.PatchUser | internal/service/auth.go:203-211 | id, role, followers and deletion state are kept |
| AuthService.PatchUserProperties | internal/service/auth.go:203-211 | an empty request is the identity, patching is idempotent, and each non-empty field replaces the old one (username, email, and the password by its hash); an empty field keeps the old value |
| AuthService.UpdateCheck | internal/service/auth.go:173-211 | each error iff its check is the first to fail, in the order HashingFailed, UserNotFound, EmailOrUsernameExists; "user is deleted" never happens; success iff none fails, and the result is the patch |
| AuthService.OwnUsernameIsTaken | internal/service/auth.go:190-196 | repeating one's own username in the request is refused |
| AuthService.UpdateUser | internal/service/auth.go:173-230 | blogs move to a changed name; then the user row is rewritten or refused by the unique index, leaving the blogs moved |
| AuthService.RenameCascadeCanOutliveRefusedWrite | internal/service/auth.go:214-229 | renaming to a soft-deleted user's name passes the checks, moves the blogs, and is then refused |
| AuthService.DeleteCheck | internal/service/auth.go:232-245 | passes iff the name is given and found; otherwise InvalidUsername or UserNotFound |
| AuthService.DeleteUser | internal/service/auth.go:232-247 | the checked user is soft-deleted and nothing else changes |
| AuthService.DeleteTwiceFails | internal/service/auth.go:232-247 | deleting the same user again answers "user not found" |
| Request.QueryOr | internal/handler/auth.go:84 | an empty query value reads as the default |
| AuthHandler.NormalizeRole | internal/handler/auth.go:27 | the role is the lower-cased infix of the input left after stripping white space from both ends, so it has no surrounding white space and no upper-case ASCII letters |
| AuthHandler.LowerOfTrim | internal/handler/auth.go:27 | lower-casing the trim is lower-casing the infix the trim keeps |
| AuthHandler.TrimmedIsFixed | internal/handler/auth.go:27 | a string without white space at its ends is its own trim |
| AuthHandler.NormalizeRoleIdempotent | internal/handler/auth.go:27 | normalizing twice is normalizing once |
| AuthHandler.RegisterGate | internal/handler/auth.go:21-29 | unreadable body refused; otherwise the request goes on with its role normalized |
| AuthHandler.RegisterNotice | internal/handler/auth.go:34-44 | the admin notice is shown iff the normalized role is admin |
| AuthHandler.AdminRequestRegistersReader | internal/handler/auth.go:27-44 | asking for admin in any accepted spelling registers a reader and shows the notice |
| AuthHandler.LoginGate | internal/handler/auth.go:47-53 | unreadable body refused; otherwise the credentials go on unchanged |
| AuthHandler.ResolveTarget | internal/handler/auth.go:118-136 | missing token first, then empty name; a non-admin is refused iff the trimmed name is not their own; the target is the trimmed name |
| AuthHandler.UpdateUserGate | internal/handler/auth.go:118-143 | the target as resolved, then the body |
| AuthHandler.DeleteUserGate | internal/handler/auth.go:151-171 | the target as resolved |
| AuthHandler.NonAdminDeletesOnlySelf | internal/handler/auth.go:162-171 | a non-admin's delete leaves every row under another name unchanged |
| AuthHandler.NonAdminUpdatesOnlySelf | internal/handler/auth.go:129-136 | a non-admin's update targets their own account |
| AuthHandler.MeGate | internal/handler/auth.go:251-261 | missing token refused; otherwise the token's own account |
| AuthHandler.UpdateMeGate | internal/handler/auth.go:263-272 | missing token, then unreadable body; otherwise the token's own account and the body |
| AuthHandler.GetUserByUsernameGate | internal/handler/auth.go:64-74 | empty trimmed name refused first, then a missing token |
| AuthHandler.SearchGate | internal/handler/auth.go:82-93 | include_deleted iff exactly "true" or "1"; trimmed prefix; a missing limit reads as 10, a numeric one as its value |
| AuthHandler.SearchLimitFallsBackToTen | internal/handler/auth.go:84 | for every limit value: the positive number Atoi reads, else 10; so 10 for a number below one, a value not starting like a number, and any malformed value of at most 19 characters |
| AuthHandler.RestoreUserGate | internal/handler/auth.go:100-112 | Forbidden iff the caller is not an admin; UsernameRequired for an admin with an empty trimmed name; otherwise the trimmed name |
| AuthHandler.RequestAdminRoleGate | internal/handler/auth.go:180-191 | missing token refused; the reason defaults to empty |
| AuthHandler.ListLimitQuery | internal/handler/auth.go:203-208 | the limit is positive: a positive in-range number as given; 100 when missing, not positive, or malformed and at most 19 characters long; the largest 64-bit integer when Atoi fails on a value it reads as positive |
| AuthHandler.ListRoleRequestsGate | internal/handler/auth.go:198-210 | only an admin; the status as sent and the read limit |
| AuthHandler.ListLimitAgrees | internal/handler/auth.go:204-208 | the repository keeps the handler's limit as it is |
| AuthHandler.DecideGate | internal/handler/auth.go:217-227 | only an admin, and only for a decimal id in 1..2^64-1; the deciding admin is the token's account |
| BlogHandler.CreateBlogGate | internal/handler/blog.go:20-45 | unreadable body first, then a missing token username |
| BlogHandler.UpdateBlogGate | internal/handler/blog.go:59-82 | TitleRequired for an empty title, then InvalidTokenUsername for a missing token username, then InvalidInput for an unreadable body; otherwise the title, username and form |
| BlogHandler.TitleGate | internal/handler/blog.go:95-108 | TitleRequired for an empty title, then InvalidTokenUsername for a missing token username; otherwise the title and username |
| BlogHandler.GetAllBlogsGate | internal/handler/blog.go:121-136 | deleted blogs are asked for iff the query is "true" or "1" and the token role is admin |
| BlogHandler.GetBlogsByAuthorGate | internal/handler/blog.go:143-157 | empty path name, then missing token username; the flag as AuthorFlag reads it |
| BlogHandler.AuthorFlagAcceptsMore | internal/handler/blog.go:154-155 | every value the all-blogs flag accepts is accepted here, and so are "TRUE" and "yes" |
| BlogHandler.DeletedByAuthorGate | internal/handler/blog.go:167-173 | only an empty path name is refused; the token is not consulted |
| BlogHandler.DeletedListedOnlyForAdmins | internal/handler/blog.go:127-136 | a deleted blog reaches the all-blogs listing only when the token role and the stored role are both admin |
| BlogHandler.ReaderReachesDeletedDraft | internal/handler/blog.go:167-180 | a reader passes the gate and gets another author's deleted, unapproved blog |
| BlogHandler.ApprovalFlag | internal/handler/blog.go:198-213 | approve passes true and unapprove passes false |
| BlogHandler.ModerationGate | internal/handler/blog.go:198-222 | approve, unapprove and restore pass title and token username on unchecked |
| Text.TrimSpace | internal/handler/auth.go:65 | the result is an infix with white space only around it and none at its ends |
| Text.Lower | internal/handler/blog.go:154 | ASCII letters lower-cased, position by position |
| Text.ParseUintSpec | internal/handler/auth.go:223 | success iff a non-empty digit string whose value fits in 64 bits, and then that value |
| Text.AtoiSpec | internal/handler/auth.go:205 | success iff a signed decimal within 64 bits, and then its value; out-of-range numbers clamp to a bound |
| Text.AtoiShortMalformed | internal/handler/auth.go:205 | a malformed value of at most 19 characters reads as 0 |
| Text.EncodeChar | internal/repository/blog.go:44-48 | one to four bytes; an ASCII character is its own byte, any other gives bytes of at least 0x80 |
| Text.Utf8Append | internal/repository/blog.go:44-48 | the bytes of a concatenation are the concatenated bytes |
| Text.Utf8Ascii | internal/repository/blog.go:44-48 | an ASCII string is byte for byte its own encoding |
| Text.UnescapeFails | internal/repository/blog.go:44-48 | byte decoding fails iff some `%` is not followed by two hex digits |
| Text.QueryUnescapeFails | internal/repository/blog.go:44-48 | decoding a title fails iff its bytes hold a `%` not followed by two hex digits |
| Text.QueryUnescapePlain | internal/repository/blog.go:44-48 | a title without `%` or `+` decodes to its own UTF-8 bytes |
| Text.QueryUnescapeEscape | internal/repository/blog.go:44-48 | decoding the escape of any byte sequence gives it back, so every title's bytes survive the trip |
| Text.EscapedTurkishLetter | internal/repository/blog.go:44-48 | "%C4%9F" decodes to the two UTF-8 bytes of "ğ" |

## Left out

- Database errors other than "not found" and the unique-index refusal: connection and timeout failures are not modelled.
- Creation and update timestamps are not modelled. The one exception is the role request's creation time, which orders the listings. The blog view's comments are not modelled either.
- Password hashing and comparison are parameters. bcrypt's own behaviour is not modelled.
- Token signing and parsing, the signing secret and the registered JWT claims are not modelled. The token middleware (`internal/middleware/auth.go`) is reduced to the two locals it leaves: token username and role.
- Response shaping, status codes and messages are not modelled. A refusal only names its reason.
- The non-atomic two-step writes are sequential steps: approval then promotion, and the blog rename then the user write. Concurrent requests are not modelled.
- `SearchUsersWithOptions`, `RestoreUser`, `RequestAdminRole`, `ListRoleRequests`, `ApproveRoleRequest` and `RejectRoleRequest` are called by `internal/handler/auth.go` but `internal/service/auth.go` does not define them. Only the handler gates and the store operations beneath them are modelled.
- Unsigned integer widths are not modelled: ids are unbounded naturals.
- AuthService.UpdateUser: on a store failure the source returns the response together with the error (internal/service/auth.go:229). The model returns only the error.
- BlogService.UpdateBlog: on a store failure the source returns the response together with the error (internal/service/blog.go:162). The model returns only the error.
- AuthService.Register: on a store failure the source returns the response together with the error. The model returns only the error, which is all the handler uses.
- AuthHandler.NormalizeRole: lower-cases ASCII letters only, where `strings.ToLower` also folds other Unicode letters.
- UserRepository.SearchByUsernamePrefix: case folding for `ILIKE` is ASCII only, and `%` or `_` inside the prefix are read literally rather than as patterns.
- UserRepository.DeletedUsers: its own contract states only the row count; what it does is stated by DeleteHidesUser and RestoreUndoesUserDelete.
- UserRepository.RestoredUsers: its own contract states only the row count; what it does is stated by RestoreUndoesUserDelete and RestoreMakesVisible.
- UserRepository.RoledUsers: its own contract states only the row count; what it does is stated by RoleRequestRepository.PromotedIfPendingOnlyPending.
- UserRepository.RewrittenUsers: its own contract states only the row count; what it does is stated by RewriteKeepsKeysUnique.
- BlogRepository.UpdatedRows: its own contract states only the row count; what it does is stated by UpdateReplacesContent.
- BlogRepository.DeletedRows: its own contract states only the row count; what it does is stated by DeleteHidesTitle.
- BlogRepository.RestoredRows: its own contract states only the row count; what it does is stated by RestoreUndoesBlogDelete.
- BlogRepository.ApprovalRows: its own contract states only the row count; what it does is stated by ApprovalDecidesApprovedLookup.
- BlogRepository.UpdatedRowById: its own contract states only the row count; what it does is stated by ByIdWritesOneRow.
- BlogRepository.DeletedRowById: its own contract states only the row count; what it does is stated by ByIdWritesOneRow.
- BlogRepository.RenamedRows: its own contract states only the row count; what it does is stated by RenameMovesOwnership.
- RoleRequestRepository.DecidedRows: its own contract states only the row count; what it does is stated by DecidedIsFinal and DecidingPendingRecordsAdmin.
- RoleRequestRepository.PromotedAsWritten: its own contract states only the row count; what it does is stated by ApproveAsWrittenPromotesRejected.
- RoleRequestRepository.PromotedIfPending: its own contract states only the row count; what it does is stated by PromotedIfPendingOnlyPending.

## Findings

| source | as written | input that shows it | evidently intended | confidence | as-written member | corrected member |
|---|---|---|---|---|---|---|
| internal/repository/role_request.go:55-73 | the requester is promoted whenever request `id` exists, because the user update does not depend on the request having been pending | request 1 for bob is already rejected; approving it leaves it rejected but makes bob admin | promote only when a pending request was just approved | high, not executed | RoleRequestRepository.ApproveAsWrittenPromotesRejected | RoleRequestRepository.PromotedIfPendingOnlyPending |
| internal/service/blog.go:289-300 | `/blogs-deleted/:username` lists every blog of the author, deleted and unapproved ones included, with no check on the caller | reader alice asks for bob's deleted blogs and gets bob's unapproved, deleted draft | the same gate as internal/service/blog.go:254-258: only the author or an admin | high, not executed | BlogService.IncludeDeletedShowsUnapprovedToAnyone | BlogService.GetBlogsByAuthorIncludeDeletedGuarded |
| internal/service/blog.go:109-186 | update and delete check ownership on the first visible blog with the title, then write every visible blog with that title | alice, a writer, owns the first blog titled "T" and bob owns the second; alice updates or deletes "T" and bob's blog changes too | write only the blog that was checked, by its id | medium, not executed | BlogService.TitleWriteReachesOtherOwners | BlogService.CheckedRowWritesOnlyPermitted |
