# Forum API core: comments, replies, likes and thread detail

This project models the write and read paths of a forum back end for comments, replies and likes.
The back end is a clean-architecture Node.js service.

- **Use cases.** Adding a reply, deleting a comment, deleting a reply, toggling a like, and assembling a thread's detail view.
- **Repositories.** The Postgres repositories for comments, replies and likes, and the abstract reply repository whose methods reject until overridden.
- **Entities.** The detail entities that validate and redact comments, replies and threads.
- **Error translator.** The boundary translator that maps domain error codes to InvariantErrors.

The database is modelled as in-memory tables (`Tables.Store`):

- one sequence of rows each for comments, replies and likes, in insertion order;
- a map from user id to username, for the `LEFT JOIN users`;
- an abstract thread table mapping each thread id to the object the thread repository resolves.

Payloads are loosely typed JavaScript objects (`JsValues.Object`, a map from property names to `JsValue`), so validation can be stated property by property. An absent property reads as `undefined`. Truthiness follows JavaScript.

Each use case returns a `UseCaseRuns.Run` with three parts:

- the awaited repository calls, in order;
- the store it leaves behind;
- its outcome, a resolved value or a rejection (`Errors.Error`: a plain `Error(code)`, an InvariantError, a NotFoundError or an AuthorizationError).

A rejected run never changes the store.

Three things the service takes from outside become parameters:

- the id generator's output (`suffix`);
- the database clock (`now`);
- the thread repository's table.

## Model

| member | source | states |
|---|---|---|
| DetailComments.Construct | src/Domains/comments/entities/DetailComment.js:2-28 | succeeds exactly on a well-formed payload. A falsy id, username, date, replies or content, or an undefined `deleted`, throws NOT_CONTAIN_NEEDED_PROPERTY. Otherwise a wrong type throws NOT_MEET_DATA_TYPE_SPECIFICATION. On success the fields are copied, and the content is the redaction marker if deleted, else the payload's content |
| DetailComments.RedactionIgnoresContent | src/Domains/comments/entities/DetailComment.js:9 | a deleted comment's result does not depend on which non-empty content it was given |
| DetailComments.OtherPropertiesIgnored | src/Domains/comments/entities/DetailComment.js:2-11 | properties other than the six read (e.g. `likeCount`) do not affect the result |
| DetailReplies.Construct | src/Domains/replies/entities/DetailReply.js:2-27 | the same two-stage validation for id, content, date, username and deleted. Redacts to the reply marker when deleted |
| DetailReplies.RedactionIgnoresContent | src/Domains/replies/entities/DetailReply.js:7 | a deleted reply's result does not depend on its non-empty content |
| DetailReplies.OtherPropertiesIgnored | src/Domains/replies/entities/DetailReply.js:2-11 | properties other than the five read do not affect the result |
| DetailThreads.Construct | src/Domains/threads/entities/DetailThread.js:2-30 | the same two-stage validation for threadId, title, body, date (a string), username and comments (an array). Fields are copied unchanged |
| DetailThreads.DateMustBeString | src/Domains/threads/entities/DetailThread.js:25 | replacing a valid thread's date with a Date instance makes construction throw NOT_MEET_DATA_TYPE_SPECIFICATION |
| NewReplies.Construct | src/Domains/replies/entities/_test/NewReply.test.js:4-45 | succeeds iff threadId, commentId, content and owner are all non-empty strings, and then copies them. A falsy one throws NOT_CONTAIN_NEEDED_PROPERTY. When all are truthy but one is not a string, it throws NOT_MEET_DATA_TYPE_SPECIFICATION |
| PayloadChecks.RequireStrings | src/Applications/use_case/DeleteCommentUseCase.js:16-25 | succeeds iff every listed property is a non-empty string, and returns them in order. Any falsy property throws the missing-property code. When all are truthy but one is not a string, it throws the wrong-type code, and only then |
| ThreadRepository.GetThreadById | src/Applications/use_case/GetThreadUseCase.js:10 | resolves exactly when the argument is a string id of a stored thread, to that thread. Otherwise NotFound |
| ThreadRepository.VerifyAvailableThread | src/Applications/use_case/AddReplyUseCase.js:11 | resolves iff the thread exists, else NotFound |
| DateOrder.SortByDate | src/Infrastructures/repository/CommentRepositoryPostgres.js:83 | `ORDER BY date ASC`: the result is sorted by date and is a permutation of the input |
| DateOrder.Insert | src/Infrastructures/repository/CommentRepositoryPostgres.js:83 | inserting into a sorted sequence keeps it sorted and adds exactly one element |
| CommentRepositoryPostgres.AddComment | src/Infrastructures/repository/CommentRepositoryPostgres.js:14-26 | appends exactly one row (id `comment-` + generated suffix, content, owner, thread, now, not deleted) and keeps the earlier rows. Returns that row's id, content and owner |
| CommentRepositoryPostgres.DeleteCommentById | src/Infrastructures/repository/CommentRepositoryPostgres.js:28-39 | resolves iff some row has both the given id and thread id, else NotFound("komentar tidak ditemukan"). Matching rows are flagged deleted, non-matching rows are unchanged, and no other column changes |
| CommentRepositoryPostgres.AddedCommentIsListed | src/Infrastructures/repository/CommentRepositoryPostgres.js:14-96 | right after an add, the thread's comment read shows the new comment, undeleted, with its content, date and owner's username |
| CommentRepositoryPostgres.AvailabilityAfterWrites | src/Infrastructures/repository/CommentRepositoryPostgres.js:14-70 | after an add, an id is available iff it is the new comment's id or was available before. After a successful soft delete, which keeps the row, every id's availability is unchanged |
| CommentRepositoryPostgres.SoftDeleteIdempotent | src/Infrastructures/repository/CommentRepositoryPostgres.js:30 | deleting an already deleted comment resolves and changes nothing |
| CommentRepositoryPostgres.VerifyCommentOwner | src/Infrastructures/repository/CommentRepositoryPostgres.js:41-57 | NotFound iff no row has the id. Authorization only when a row with the id has another owner. Resolves only when a row with the id has this owner, and always does when every such row does |
| CommentRepositoryPostgres.OwnerUnchangedBySoftDelete | src/Infrastructures/repository/CommentRepositoryPostgres.js:41-57 | flagging rows deleted does not change any ownership check's outcome |
| CommentRepositoryPostgres.VerifyAvailableComment | src/Infrastructures/repository/CommentRepositoryPostgres.js:59-70 | resolves iff some row has the id, else NotFound |
| CommentRepositoryPostgres.GetCommentsByThreadId | src/Infrastructures/repository/CommentRepositoryPostgres.js:72-96 | the result is sorted by date, is a permutation of the views of the thread's rows, and is empty iff the thread has no comments |
| CommentRepositoryPostgres.GetCommentsByThreadIdSound | src/Infrastructures/repository/CommentRepositoryPostgres.js:80-82 | every returned view is the view of a row of that thread |
| CommentRepositoryPostgres.GetCommentsByThreadIdComplete | src/Infrastructures/repository/CommentRepositoryPostgres.js:80-82 | every row of that thread appears in the result |
| CommentRepositoryPostgres.ReadRedaction | src/Infrastructures/repository/CommentRepositoryPostgres.js:89-93 | each returned view comes from a row of the thread with the same id, date and deleted flag. Its content is the marker when that row is deleted, otherwise the row's own content |
| CommentRepositoryPostgres.DeletedCommentReadsRedacted | src/Infrastructures/repository/CommentRepositoryPostgres.js:28-96 | after a successful delete, the thread's read shows that comment as deleted with the marker |
| ReplyRepository.AddReply | src/Domains/replies/ReplyRepository.js:2-4 | always rejects with METHOD_NOT_IMPLEMENTED |
| ReplyRepository.GetRepliesByCommentId | src/Domains/replies/ReplyRepository.js:6-8 | always rejects with METHOD_NOT_IMPLEMENTED |
| ReplyRepository.DeleteReplyById | src/Domains/replies/ReplyRepository.js:10-12 | always rejects with METHOD_NOT_IMPLEMENTED |
| ReplyRepository.VerifyReplyAvailable | src/Domains/replies/ReplyRepository.js:14-16 | always rejects with METHOD_NOT_IMPLEMENTED |
| ReplyRepository.VerifyReplyOwner | src/Domains/replies/ReplyRepository.js:18-20 | always rejects with METHOD_NOT_IMPLEMENTED |
| ReplyRepositoryPostgres.AddReply | src/Infrastructures/repository/ReplyRepositoryPostgres.js:11-23 | appends exactly one row (id `reply-` + suffix, content, owner, thread, comment, now, not deleted) and keeps the earlier rows. Returns id, content and owner |
| ReplyRepositoryPostgres.GetRepliesByCommentId | src/Infrastructures/repository/ReplyRepositoryPostgres.js:25-49 | sorted by date, a permutation of the views of the comment's rows, and empty iff the comment has no replies |
| ReplyRepositoryPostgres.GetRepliesByCommentIdSound | src/Infrastructures/repository/ReplyRepositoryPostgres.js:33-35 | every returned view is the view of a reply to that comment |
| ReplyRepositoryPostgres.GetRepliesByCommentIdComplete | src/Infrastructures/repository/ReplyRepositoryPostgres.js:33-35 | every reply to that comment appears in the result |
| ReplyRepositoryPostgres.OtherCommentsExcluded | src/Infrastructures/repository/ReplyRepositoryPostgres.js:35-46 | each returned reply belongs to the requested comment, and a deleted one shows the reply marker |
| ReplyRepositoryFixed.VerifyReplyAvailable | src/Infrastructures/repository/_test/ReplyRepositoryPostgres.test.js:150-171 | resolves iff a reply has the id, else NotFound |
| ReplyRepositoryFixed.VerifyReplyOwner | src/Infrastructures/repository/_test/ReplyRepositoryPostgres.test.js:173-205 | NotFound iff no reply has the id. Authorization only on a mismatched owner. Resolves only when the owner argument is the reply's owner string |
| ReplyRepositoryFixed.DeleteReplyById | src/Infrastructures/repository/_test/ReplyRepositoryPostgres.test.js:120-148 | resolves iff a reply matches the (thread, comment, reply) triple, else NotFound. Matching rows are flagged deleted and the rest are unchanged |
| ReplyRepositoryFixed.OwnerUnchangedBySoftDelete | src/Infrastructures/repository/_test/ReplyRepositoryPostgres.test.js:173-205 | flagging replies deleted does not change the ownership check's outcome |
| ReplyRepositoryFixed.SoftDeleteIdempotent | src/Infrastructures/repository/_test/ReplyRepositoryPostgres.test.js:120-138 | deleting an already deleted reply resolves and changes nothing |
| LikeRepositoryPostgres.LikeCount | src/Infrastructures/repository/LikeRepositoryPostgres.js:30-39 | the number of (comment, owner) rows: at most the table size, and zero iff no row matches |
| LikeRepositoryPostgres.LikeCountIsMatchingRows | src/Infrastructures/repository/LikeRepositoryPostgres.js:31-38 | the recursive count equals the number of row positions matching both the comment and the owner, which is the `rowCount` of the SELECT |
| LikeRepositoryPostgres.IsLikeExist | src/Infrastructures/repository/LikeRepositoryPostgres.js:30-39 | the number of rows with that comment and owner, stated as the size of the set of matching positions. It is zero iff the user has not liked the comment |
| LikeRepositoryPostgres.AddLike | src/Infrastructures/repository/LikeRepositoryPostgres.js:10-19 | appends one row with id `like-` + suffix, so the pair's count goes up by one |
| LikeRepositoryPostgres.DeleteLike | src/Infrastructures/repository/LikeRepositoryPostgres.js:21-28 | keeps exactly the rows that do not match the pair. The pair's count becomes zero and the table shrinks by exactly that count |
| LikeRepositoryPostgres.AddLikeKeepsOthers | src/Infrastructures/repository/LikeRepositoryPostgres.js:10-19 | adding a like leaves every other pair's count alone |
| LikeRepositoryPostgres.DeleteLikeKeepsOthers | src/Infrastructures/repository/LikeRepositoryPostgres.js:21-28 | deleting a pair's likes leaves every other pair's count alone |
| AddReplyUseCase.Execute | src/Applications/use_case/AddReplyUseCase.js:10-15 | invalid payload: rejects with the entity's error, no calls. A missing thread rejects with NotFound after one call, and a missing comment with NotFound after two, with no add call. Resolves iff the payload is valid, the thread exists and some comment has the id. Calls are a prefix of verify-thread, verify-comment, add-reply. On success only the replies table changes: one row appended with the payload's content, owner, thread and comment, id `reply-` + suffix. It returns exactly the repository's AddedReply: that id and the payload's content and owner |
| AddReplyUseCase.AddedReplyIsListed | src/Applications/use_case/AddReplyUseCase.js:10-15 | after a successful add, reading the comment's replies returns the new reply, undeleted, with its content and date |
| DeleteCommentUseCase.Validate | src/Applications/use_case/DeleteCommentUseCase.js:16-25 | accepts iff threadId, commentId and owner are non-empty strings. Any falsy one throws NOT_CONTAIN_NEEDED_PROPERTY. If all are truthy but one is not a string, it throws PAYLOAD_NOT_MEET_DATA_TYPE_SPECIFICATION |
| DeleteCommentUseCase.Checks | src/Applications/use_case/DeleteCommentUseCase.js:8-12 | never changes the store. An invalid payload rejects with no calls. Passes iff the payload is valid, the thread exists and the ownership check passes for the caller. The first failing check ends the run: a missing thread rejects with NotFound after one call, a missing comment with NotFound after two, and a wrong owner with AuthorizationError after three. On success the calls are verify-thread, verify-comment, verify-owner, in source order |
| DeleteCommentUseCase.Execute | src/Applications/use_case/DeleteCommentUseCase.js:7-14 | as written: always rejects and never changes the store. A failed check's rejection and calls are the run's, with no delete call. When the checks pass, it ends by calling deleteCommentById with the comment id alone and rejects with NotFound |
| DeleteCommentUseCase.OwnerCannotDeleteOwnComment | src/Applications/use_case/DeleteCommentUseCase.js:13 | on a one-comment store the owner's delete rejects with NotFound as written, and resolves with the comment flagged deleted when corrected |
| DeleteCommentUseCase.ExecuteFixed | src/Infrastructures/http/_test/comments.test.js:82-136 | a failed check's rejection and calls are the run's. Otherwise it calls deleteCommentById with both ids, and rejects only with NotFound. It resolves iff the checks pass and a row matches both ids. On success only `is_deleted` of the matching rows changes |
| DeleteCommentUseCase.FixedDeleteIdempotent | src/Infrastructures/http/_test/comments.test.js:82-136 | deleting the same comment twice succeeds both times, and the second run leaves the store as the first left it |
| DeleteCommentUseCase.DeletedCommentIsRedacted | src/Applications/use_case/GetThreadUseCase.js:11 | after a corrected delete, the thread's comment read shows the comment deleted with the marker |
| DeleteCommentUseCase.DeleteByIdOnly | src/Infrastructures/repository/_test/CommentRepositoryPostgres.test.js:52-73 | the one-argument repository the tests call: resolves iff some row has the id, else NotFound. Rows with the id are flagged deleted and the others are unchanged |
| DeleteCommentUseCase.ExecuteByIdOnly | src/Applications/use_case/_test/DeleteCommentUseCase.test.js:34-63 | the one-argument call against that repository: a failed check is the run's rejection. Once the checks pass it always resolves, calls deleteCommentById with the comment id, and flags the comment |
| DeleteCommentUseCase.FixesAgreeWithinThread | src/Applications/use_case/DeleteCommentUseCase.js:13 | when every comment with the id is in the payload's thread, the two corrections give the same outcome and store |
| DeleteCommentUseCase.FixesDifferAcrossThreads | src/Applications/use_case/DeleteCommentUseCase.js:13 | on a comment of thread-1 deleted under an existing thread-2, the two-argument correction rejects with NotFound while the one-argument one flags the comment |
| DeleteReplyUseCase.Validate | src/Applications/use_case/DeleteReplyUseCase.js:17-27 | accepts iff threadId, commentId and replyId are non-empty strings. Any falsy one throws NOT_CONTAIN_NEEDED_PROPERTY. If all are truthy but one is not a string, it throws PAYLOAD_NOT_MEET_DATA_TYPE_SPECIFICATION. The owner is not checked |
| DeleteReplyUseCase.Execute | src/Applications/use_case/DeleteReplyUseCase.js:8-15 | for any reply repository, the calls are a prefix of thread check, comment check, owner check (with the raw owner), delete-by-triple. The first rejection ends the run: a missing thread rejects with NotFound after one call, a missing comment with NotFound after two, a failed owner check with that check's error after three, and a failed delete with the delete's error after all four. A rejection keeps the store. It resolves iff every step resolves, and then the replies table is the delete's result. The delete is reached only after the owner check passed |
| DeleteReplyUseCase.PostgresNeverDeletes | src/Domains/replies/ReplyRepository.js:18-20 | with the repository as written it always rejects and never changes the store. Once thread and comment exist the rejection is METHOD_NOT_IMPLEMENTED |
| DeleteReplyUseCase.OwnerCannotDeleteOwnReply | src/Infrastructures/http/_test/replies.test.js:99-168 | on a one-reply store the owner's delete rejects as written and resolves with the reply flagged when corrected |
| DeleteReplyUseCase.FixedDeletesOwnReply | src/Infrastructures/http/_test/replies.test.js:99-168 | with the intended repository, an owner deleting a reply the triple names resolves. The matching replies are flagged, every other reply row is unchanged, and the threads, users, comments and likes tables are unchanged |
| DeleteReplyUseCase.FixedRejectsOtherOwner | src/Infrastructures/repository/_test/ReplyRepositoryPostgres.test.js:173-183 | a caller who owns no reply with that id is rejected with AuthorizationError and nothing changes |
| DeleteReplyUseCase.FixedDeleteIdempotent | src/Infrastructures/repository/_test/ReplyRepositoryPostgres.test.js:120-138 | deleting the same reply twice succeeds both times, and the second run changes nothing |
| LikeCommentUseCase.Validate | src/Applications/use_case/LikeCommentUseCase.js:20-29 | accepts iff threadId, commentId and owner are non-empty strings. Any falsy one throws NOT_CONTAIN_NEEDED_PROPERTY. If all are truthy but one is not a string, it throws PAYLOAD_NOT_MEET_DATA_TYPE_SPECIFICATION |
| LikeCommentUseCase.Toggle | src/Applications/use_case/LikeCommentUseCase.js:13-17 | the pair's like count goes from zero to one, or from any positive count to zero. Every other pair's count is unchanged |
| LikeCommentUseCase.Execute | src/Applications/use_case/LikeCommentUseCase.js:8-18 | a missing thread rejects with NotFound after one call, and a missing comment with NotFound after two, with no like call. It resolves iff the payload is valid, the thread exists and the comment exists. On success only the likes table changes: it toggles the caller's like. The calls are the two checks, isLikeExist, then addLike when the count was zero, else deleteLike |
| LikeCommentUseCase.DeleteAbsentLike | src/Infrastructures/repository/LikeRepositoryPostgres.js:21-28 | deleting a like that does not exist leaves the table unchanged |
| LikeCommentUseCase.LikeThenUnlikeRestores | src/Applications/use_case/LikeCommentUseCase.js:8-18 | liking a comment and then liking it again restores the store exactly |
| LikeCommentUseCase.UnlikeThenLikeRestoresCount | src/Applications/use_case/LikeCommentUseCase.js:8-18 | from a single like, two toggles bring the pair's count back to one |
| LikeCommentUseCase.ToggleKeepsAtMostOne | src/Applications/use_case/LikeCommentUseCase.js:13-17 | if no user has liked a comment twice, no run of the use case changes that |
| GetThreadUseCase.Execute | src/Applications/use_case/GetThreadUseCase.js:8-21 | never changes the store. Resolves iff threadId names a stored thread, else NotFound after the single getThreadById call. On success: the thread's own fields, then the comments read for the thread, each with its replies fetched by its id, one getRepliesByCommentId call per comment in list order |
| GetThreadUseCase.AttachReplies | src/Applications/use_case/GetThreadUseCase.js:13-16 | keeps the comments in order and gives each the replies fetched for its own id |
| GetThreadUseCase.ReplyFetches | src/Applications/use_case/GetThreadUseCase.js:13-14 | one reply fetch per comment, with that comment's id, in order |
| GetThreadUseCase.AssembledThreadOrdered | src/Applications/use_case/GetThreadUseCase.js:8-21 | the assembled comments are in date order, and so are each comment's replies |
| GetThreadUseCase.AssembledThreadCommentsBelong | src/Applications/use_case/GetThreadUseCase.js:8-21 | every comment shown belongs to the requested thread |
| GetThreadUseCase.AssembledThreadCommentsComplete | src/Applications/use_case/GetThreadUseCase.js:8-21 | every comment of the requested thread is shown |
| GetThreadUseCase.AssembledThreadReplies | src/Applications/use_case/GetThreadUseCase.js:8-21 | every reply shown under a comment is a reply to that comment, and deleted ones are redacted |
| DomainErrorTranslator.Find | src/Commons/exceptions/DomainErrorTranslator.js:5 | a hit is a stored (code, message) property. A miss means no property has the code |
| DomainErrorTranslator.FindFirst | src/Commons/exceptions/DomainErrorTranslator.js:9-34 | the message found for a code is the one at its first occurrence in the table |
| DomainErrorTranslator.Translate | src/Commons/exceptions/DomainErrorTranslator.js:3-34 | an error whose message is a key becomes the InvariantError mapped to it, and an error whose message is no key is returned unchanged (see Left out for inherited property names) |
| DomainErrorTranslator.TranslateMapped | src/Commons/exceptions/DomainErrorTranslator.js:3-34 | an error carrying the code of property `i` (and of no earlier one) translates to property `i`'s InvariantError |
| DomainErrorTranslator.TranslateAnyOccurrence | src/Commons/exceptions/DomainErrorTranslator.js:9-34 | every key occurs once, so an error carrying any property's key translates to that property's InvariantError, whichever way duplicates would resolve |
| DomainErrorTranslator.TranslateIdempotent | src/Commons/exceptions/DomainErrorTranslator.js:3-34 | translating a translated error changes nothing, because no message is also a key |
| DomainErrorTranslator.NewThreadMissingTranslation | src/Commons/exceptions/DomainErrorTranslator.js:20 | NEW_THREAD.NOT_CONTAIN_NEEDED_PROPERTY becomes the InvariantError with the thread-creation message |
| DomainErrorTranslator.DetailErrorsPassThrough | src/Commons/exceptions/DomainErrorTranslator.js:9-34 | the detail entities' six error codes have no translation and pass through unchanged |

## Left out

- HTTP routing, authentication, Hapi handlers, the connection pool and SQL text are not modelled. Each query is replaced by its effect on the in-memory tables.
- The id generator and the database clock are parameters (`suffix`, `now`). Id collisions and database constraint violations (foreign keys, primary keys) are not modelled.
- Concurrency between awaited calls is not modelled. Each use case runs atomically on one store.
- ThreadRepositoryPostgres and NewReply.js are not part of this model. The thread table is abstract, and NewReply is modelled from its unit test (four required string properties).
- The wording of the thread-not-found and reply-not-found messages is this model's own. Only the error kind is pinned down.
- `ORDER BY date ASC` has no tie-break in SQL. The model sorts stably, keeping table order among equal dates, which is one of the orders the database may return.
- `likeCount` is not produced: the DetailComment constructor never reads or stores it, although its unit test expects it.
- The `reply_to` column of `comments` is carried but never written or read by the core.
- DeleteCommentUseCase.Execute calls `deleteCommentById` with a single argument, so its `commentId` parameter is `undefined`. The model reads a missing or non-string argument as matching no row and does not go further into how the database treats it. As a result, the as-written delete always rejects with NotFound.
- DomainErrorTranslator.Translate: the lookup is on an object literal, so in JavaScript a message naming an inherited Object.prototype member (`constructor`, `toString`, `__proto__`, ...) yields that truthy member instead of the error. The model has no prototype chain and returns such errors unchanged.
- Dates are integer timestamps. Date objects, time zones and string formatting of dates are not modelled.

## Findings

| source | as written | input that shows it | evidently intended | confidence | as-written member | corrected member |
|---|---|---|---|---|---|---|
| src/Applications/use_case/DeleteCommentUseCase.js:13 | `deleteCommentById(commentId)` passes one argument to a method declared as `(threadId, commentId)`, so the comment id lands in the thread-id slot and the comment-id slot is undefined | a store with thread-1 and comment-1 owned by user-1, and payload {threadId: thread-1, commentId: comment-1, owner: user-1}: rejects with NotFound and nothing is flagged | the owner's comment is soft-deleted and the request resolves (the HTTP test comments.test.js:82-136 expects 200). Two repairs do that. One passes both ids, matching the repository's signature and its `thread_id` clause, as DeleteReplyUseCase does for replies; this is the one the model uses. The other keeps one argument and scopes the repository to `WHERE id = $1`, as CommentRepositoryPostgres.test.js:59,71 and DeleteCommentUseCase.test.js:61 call it (DeleteCommentUseCase.ExecuteByIdOnly). They agree unless the comment is deleted under another existing thread (FixesAgreeWithinThread, FixesDifferAcrossThreads) | not executed | DeleteCommentUseCase.OwnerCannotDeleteOwnComment | DeleteCommentUseCase.ExecuteFixed |
| src/Infrastructures/repository/ReplyRepositoryPostgres.js:4-50 | the Postgres reply repository does not override verifyReplyOwner, verifyReplyAvailable or deleteReplyById, so the base class's rejecting methods run | a store with reply-1 owned by user-1 under comment-1 of thread-1, and the owner's delete payload: rejects with METHOD_NOT_IMPLEMENTED | the three methods as the repository's tests describe them: the owner's reply is soft-deleted and the request resolves | not executed | DeleteReplyUseCase.OwnerCannotDeleteOwnReply | DeleteReplyUseCase.FixedDeletesOwnReply |
