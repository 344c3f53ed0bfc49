/** DeleteCommentUseCase: validate the payload, check the thread, the
    comment and its owner, then soft-delete the comment.

    As written, the use case calls `deleteCommentById(commentId)` with one
    argument, while the repository's signature is `(threadId, commentId)`.
    The comment id therefore binds to `threadId` and `commentId` is
    undefined, so the UPDATE matches no row and the call rejects with
    NotFound. `Execute` models the code as written; `ExecuteFixed` passes
    both ids. */
module DeleteCommentUseCase {
  import opened Wrappers
  import opened JsValues
  import opened Errors
  import opened Tables
  import opened UseCaseRuns
  import PayloadChecks
  import ThreadRepository
  import Comments = CommentRepositoryPostgres
  import DetailComments

  const MissingProperty := "DELETE_COMMENT_USE_CASE.NOT_CONTAIN_NEEDED_PROPERTY"
  const WrongType := "DELETE_COMMENT_USE_CASE.PAYLOAD_NOT_MEET_DATA_TYPE_SPECIFICATION"

  /** The validated payload: thread id, comment id, owner. */
  function Validate(p: Object): (r: Result<seq<string>, Error>)
    ensures r.Ok? ==>
      && |r.value| == 3
      && Get(p, "threadId") == Str(r.value[0])
      && Get(p, "commentId") == Str(r.value[1])
      && Get(p, "owner") == Str(r.value[2])
    ensures r.Ok? <==> forall k | k in ["threadId", "commentId", "owner"] :: Get(p, k).Str? && Get(p, k).s != ""
    ensures r.Err? ==> r.error == Thrown(MissingProperty) || r.error == Thrown(WrongType)
    ensures !Truthy(Get(p, "threadId")) || !Truthy(Get(p, "commentId")) || !Truthy(Get(p, "owner"))
      ==> r == Err(Thrown(MissingProperty))
    ensures Truthy(Get(p, "threadId")) && Truthy(Get(p, "commentId")) && Truthy(Get(p, "owner"))
         && (!Get(p, "threadId").Str? || !Get(p, "commentId").Str? || !Get(p, "owner").Str?)
      ==> r == Err(Thrown(WrongType))
  {
    var keys := ["threadId", "commentId", "owner"];
    assert Get(p, keys[0]) == Get(p, "threadId") && Get(p, keys[1]) == Get(p, "commentId")
      && Get(p, keys[2]) == Get(p, "owner");
    assert forall k | k in keys :: exists i | 0 <= i < 3 :: keys[i] == k;
    PayloadChecks.RequireStrings(p, keys, MissingProperty, WrongType)
  }

  /** A JavaScript call binds its arguments by position; a parameter with no
      argument is undefined. */
  function Arg(args: seq<JsValue>, i: nat): JsValue {
    if i < |args| then args[i] else Undef
  }

  /** `commentRepository.deleteCommentById(...args)`. */
  function CallDelete(rows: seq<CommentRow>, args: seq<JsValue>): Result<seq<CommentRow>, Error> {
    Comments.DeleteCommentById(rows, Arg(args, 0), Arg(args, 1))
  }

  /** The checks both versions share, up to and including the owner check;
      on success, the validated ids and the calls made so far. */
  function Checks(s: Store, p: Object): (r: Run<seq<string>>)
    ensures r.store == s
    ensures Validate(p).Err? ==> r == Run([], s, Err(Validate(p).error))
    ensures r.result.Ok? <==>
      && Validate(p).Ok?
      && Validate(p).value[0] in s.threads
      && Comments.VerifyCommentOwner(s.comments, Validate(p).value[1], Validate(p).value[2]).Ok?
    ensures Validate(p).Ok? && Validate(p).value[0] !in s.threads ==>
      r == Run([VerifyAvailableThread(Validate(p).value[0])], s, Err(NotFound(ThreadNotFound)))
    ensures (Validate(p).Ok? && Validate(p).value[0] in s.threads
         && (forall i | 0 <= i < |s.comments| :: s.comments[i].id != Validate(p).value[1])) ==>
      r == Run([VerifyAvailableThread(Validate(p).value[0]), VerifyAvailableComment(Validate(p).value[1])],
               s, Err(NotFound(CommentNotFound)))
    ensures (Validate(p).Ok? && Validate(p).value[0] in s.threads
         && (exists i | 0 <= i < |s.comments| :: s.comments[i].id == Validate(p).value[1])
         && Comments.VerifyCommentOwner(s.comments, Validate(p).value[1], Validate(p).value[2]).Err?) ==>
      var v := Validate(p).value;
      r == Run([VerifyAvailableThread(v[0]), VerifyAvailableComment(v[1]), VerifyCommentOwner(v[1], v[2])],
               s, Err(Authorization(NotResourceOwner)))
    ensures r.result.Ok? ==> r.result.value == Validate(p).value
    ensures r.result.Ok? ==> var v := Validate(p).value;
      r.trace == [VerifyAvailableThread(v[0]), VerifyAvailableComment(v[1]), VerifyCommentOwner(v[1], v[2])]
  {
    match Validate(p)
    case Err(e) => Run([], s, Err(e))
    case Ok(v) =>
      var threadId, commentId, owner := v[0], v[1], v[2];
      match ThreadRepository.VerifyAvailableThread(s.threads, threadId)
      case Err(e) => Run([VerifyAvailableThread(threadId)], s, Err(e))
      case Ok(_) =>
        var t1 := [VerifyAvailableThread(threadId), VerifyAvailableComment(commentId)];
        match Comments.VerifyAvailableComment(s.comments, commentId)
        case Err(e) => Run(t1, s, Err(e))
        case Ok(_) =>
          var t2 := t1 + [VerifyCommentOwner(commentId, owner)];
          match Comments.VerifyCommentOwner(s.comments, commentId, owner)
          case Err(e) => Run(t2, s, Err(e))
          case Ok(_) => Run(t2, s, Ok(v))
  }

  /** Runs the shared checks, then calls `deleteCommentById(args(ids))`. */
  function Finish(s: Store, p: Object, args: seq<JsValue>): Run<()> {
    var c := Checks(s, p);
    match c.result
    case Err(e) => Run(c.trace, s, Err(e))
    case Ok(v) =>
      match CallDelete(s.comments, args)
      case Err(e) => Run(c.trace + [DeleteCommentById(args)], s, Err(e))
      case Ok(rows) => Run(c.trace + [DeleteCommentById(args)], s.(comments := rows), Ok(()))
  }

  /** `execute(payload)` as written: one argument, the comment id. */
  function Execute(s: Store, p: Object): (r: Run<()>)
    ensures r.result.Err?
    ensures r.store == s
    ensures Checks(s, p).result.Err? ==> r == Run(Checks(s, p).trace, s, Err(Checks(s, p).result.error))
    ensures Checks(s, p).result.Ok? ==>
      && r.trace == Checks(s, p).trace + [DeleteCommentById([Str(Validate(p).value[1])])]
      && r.result == Err(NotFound(CommentNotFound))
  {
    var c := Checks(s, p);
    if c.result.Ok? then
      Finish(s, p, [Str(c.result.value[1])])
    else
      Run(c.trace, s, Err(c.result.error))
  }

  /** The corrected use case: `deleteCommentById(threadId, commentId)`. */
  function ExecuteFixed(s: Store, p: Object): (r: Run<()>)
    ensures r.result.Err? ==> r.store == s
    ensures Validate(p).Err? ==> r == Run([], s, Err(Validate(p).error))
    ensures Checks(s, p).result.Err? ==> r == Run(Checks(s, p).trace, s, Err(Checks(s, p).result.error))
    ensures Checks(s, p).result.Ok? ==>
      && r.trace == Checks(s, p).trace + [DeleteCommentById([Str(Validate(p).value[0]), Str(Validate(p).value[1])])]
      && (r.result.Err? ==> r.result.error == NotFound(CommentNotFound))
    ensures r.result.Ok? <==>
      && Checks(s, p).result.Ok?
      && exists i | 0 <= i < |s.comments| ::
           s.comments[i].id == Validate(p).value[1] && s.comments[i].threadId == Validate(p).value[0]
    ensures r.result.Ok? ==>
      var v := Validate(p).value;
      && r.store == s.(comments := r.store.comments)
      && |r.store.comments| == |s.comments|
      && forall i | 0 <= i < |s.comments| ::
           && r.store.comments[i].(isDeleted := s.comments[i].isDeleted) == s.comments[i]
           && (s.comments[i].id == v[1] && s.comments[i].threadId == v[0] ==> r.store.comments[i].isDeleted)
           && (s.comments[i].id != v[1] || s.comments[i].threadId != v[0] ==> r.store.comments[i] == s.comments[i])
  {
    var c := Checks(s, p);
    if c.result.Ok? then
      Finish(s, p, [Str(c.result.value[0]), Str(c.result.value[1])])
    else
      Run(c.trace, s, Err(c.result.error))
  }

  /** The discrepancy, on a concrete store: the owner deletes their own
      comment of an existing thread, and the use case as written rejects
      with NotFound and deletes nothing, while the corrected one resolves and
      marks the comment deleted. */
  lemma OwnerCannotDeleteOwnComment()
    ensures var s := Store(map["thread-1" := map[]], map[],
                           [CommentRow("comment-1", "hi", "user-1", "thread-1", 0, None, false)], [], []);
            var p := map["threadId" := Str("thread-1"), "commentId" := Str("comment-1"), "owner" := Str("user-1")];
            && Execute(s, p).result == Err(NotFound(CommentNotFound))
            && Execute(s, p).store.comments[0].isDeleted == false
            && ExecuteFixed(s, p).result == Ok(())
            && ExecuteFixed(s, p).store.comments[0].isDeleted
  {
    var s := Store(map["thread-1" := map[]], map[],
                   [CommentRow("comment-1", "hi", "user-1", "thread-1", 0, None, false)], [], []);
    var p := map["threadId" := Str("thread-1"), "commentId" := Str("comment-1"), "owner" := Str("user-1")];
    assert Validate(p).value == ["thread-1", "comment-1", "user-1"];
    assert Checks(s, p).result.Ok?;
  }

  /** Deleting the same comment twice with the corrected use case succeeds
      both times and the second run changes nothing. */
  lemma FixedDeleteIdempotent(s: Store, p: Object)
    requires ExecuteFixed(s, p).result.Ok?
    ensures ExecuteFixed(ExecuteFixed(s, p).store, p).result.Ok?
    ensures ExecuteFixed(ExecuteFixed(s, p).store, p).store == ExecuteFixed(s, p).store
  {
    var v := Validate(p).value;
    var s1 := ExecuteFixed(s, p).store;
    Comments.SoftDeleteIdempotent(s.comments, Str(v[0]), Str(v[1]));
    assert Comments.VerifyCommentOwner(s1.comments, v[1], v[2])
        == Comments.VerifyCommentOwner(s.comments, v[1], v[2]) by {
      Comments.OwnerUnchangedBySoftDelete(s.comments, s1.comments, v[1], v[2]);
    }
  }

  /** After a corrected deletion, the thread's comment list shows the comment
      with the redaction marker. */
  lemma DeletedCommentIsRedacted(s: Store, p: Object, view: Comments.CommentView)
    requires ExecuteFixed(s, p).result.Ok?
    requires view in Comments.GetCommentsByThreadId(ExecuteFixed(s, p).store.comments, s.users, Validate(p).value[0])
    requires view.id == Validate(p).value[1]
    ensures view.isDeleted && view.content == DetailComments.RedactedContent
  {
    var v := Validate(p).value;
    assert ExecuteFixed(s, p).store.comments == Comments.DeleteCommentById(s.comments, Str(v[0]), Str(v[1])).value;
    Comments.DeletedCommentReadsRedacted(s.comments, s.users, v[0], v[1], view);
  }

  /** The other way to reconcile the call with the repository: a repository
      method that takes the comment id alone (`WHERE id = $1`), which is how
      the repository's own tests and the use case's test call it. */
  function DeleteByIdOnly(rows: seq<CommentRow>, commentId: string): (r: Result<seq<CommentRow>, Error>)
    ensures r.Ok? <==> exists i | 0 <= i < |rows| :: rows[i].id == commentId
    ensures r.Err? ==> r.error == NotFound(CommentNotFound)
    ensures r.Ok? ==> |r.value| == |rows| && forall i | 0 <= i < |rows| ::
      && r.value[i].(isDeleted := rows[i].isDeleted) == rows[i]
      && (rows[i].id == commentId ==> r.value[i].isDeleted)
      && (rows[i].id != commentId ==> r.value[i] == rows[i])
  {
    if exists i | 0 <= i < |rows| :: rows[i].id == commentId then
      Ok(seq(|rows|, i requires 0 <= i < |rows| =>
        if rows[i].id == commentId then rows[i].(isDeleted := true) else rows[i]))
    else
      Err(NotFound(CommentNotFound))
  }

  /** The use case as its own test describes it: the one-argument call kept,
      against the one-argument repository. Once the checks pass the comment
      exists, so the delete always resolves. */
  function ExecuteByIdOnly(s: Store, p: Object): (r: Run<()>)
    ensures Checks(s, p).result.Err? ==> r == Run(Checks(s, p).trace, s, Err(Checks(s, p).result.error))
    ensures r.result.Ok? <==> Checks(s, p).result.Ok?
    ensures r.result.Ok? ==>
      && r.trace == Checks(s, p).trace + [DeleteCommentById([Str(Validate(p).value[1])])]
      && r.store == s.(comments := DeleteByIdOnly(s.comments, Validate(p).value[1]).value)
  {
    var c := Checks(s, p);
    match c.result
    case Err(e) => Run(c.trace, s, Err(e))
    case Ok(v) =>
      match DeleteByIdOnly(s.comments, v[1])
      case Err(e) => assert false; Run(c.trace, s, Err(e))
      case Ok(rows) => Run(c.trace + [DeleteCommentById([Str(v[1])])], s.(comments := rows), Ok(()))
  }

  /** The two corrections agree whenever every comment with the requested id
      belongs to the requested thread: same outcome, same store. */
  lemma FixesAgreeWithinThread(s: Store, p: Object)
    requires Validate(p).Ok?
    requires forall i | 0 <= i < |s.comments| && s.comments[i].id == Validate(p).value[1] ::
      s.comments[i].threadId == Validate(p).value[0]
    ensures ExecuteByIdOnly(s, p).result == ExecuteFixed(s, p).result
    ensures ExecuteByIdOnly(s, p).store == ExecuteFixed(s, p).store
  {
    var v := Validate(p).value;
    if Checks(s, p).result.Ok? {
      var a := ExecuteByIdOnly(s, p).store.comments;
      var b := ExecuteFixed(s, p).store.comments;
      assert |a| == |b|;
      forall i | 0 <= i < |a| ensures a[i] == b[i] {
        if s.comments[i].id == v[1] {
          assert a[i] == s.comments[i].(isDeleted := true);
          assert b[i] == s.comments[i].(isDeleted := true);
        }
      }
    }
  }

  /** The two corrections differ when the payload names an existing thread
      the comment is not in: the two-argument delete rejects with NotFound,
      the one-argument delete flags the comment. */
  lemma FixesDifferAcrossThreads()
    ensures var s := Store(map["thread-1" := map[], "thread-2" := map[]], map[],
                           [CommentRow("comment-1", "hi", "user-1", "thread-1", 0, None, false)], [], []);
            var p := map["threadId" := Str("thread-2"), "commentId" := Str("comment-1"), "owner" := Str("user-1")];
            && ExecuteFixed(s, p).result == Err(NotFound(CommentNotFound))
            && ExecuteByIdOnly(s, p).result == Ok(())
            && ExecuteByIdOnly(s, p).store.comments[0].isDeleted
  {
    var s := Store(map["thread-1" := map[], "thread-2" := map[]], map[],
                   [CommentRow("comment-1", "hi", "user-1", "thread-1", 0, None, false)], [], []);
    var p := map["threadId" := Str("thread-2"), "commentId" := Str("comment-1"), "owner" := Str("user-1")];
    assert Validate(p).value == ["thread-2", "comment-1", "user-1"];
    assert Checks(s, p).result.Ok?;
  }
}
