/** DeleteReplyUseCase: validate the payload, check the thread and the
    comment, check the reply's owner, then soft-delete the reply by the
    (thread, comment, reply) triple.

    The two reply-repository calls are taken from a `ReplyBackend`: the
    Postgres repository as written supplies the base class's rejecting
    methods (`Postgres`); `Fixed` supplies the intended ones. */
module DeleteReplyUseCase {
  import opened Wrappers
  import opened JsValues
  import opened Errors
  import opened Tables
  import opened UseCaseRuns
  import PayloadChecks
  import ThreadRepository
  import Comments = CommentRepositoryPostgres
  import Base = ReplyRepository
  import ReplyRepositoryFixed

  const MissingProperty := "DELETE_REPLY_USE_CASE.NOT_CONTAIN_NEEDED_PROPERTY"
  const WrongType := "DELETE_REPLY_USE_CASE.PAYLOAD_NOT_MEET_DATA_TYPE_SPECIFICATION"

  datatype ReplyBackend = ReplyBackend(
    verifyReplyOwner: (seq<ReplyRow>, string, JsValue) -> Result<(), Error>,
    deleteReplyById: (seq<ReplyRow>, string, string, string) -> Result<seq<ReplyRow>, Error>)

  /** The reply repository the application wires in, as written. */
  const Postgres := ReplyBackend(Base.VerifyReplyOwner, Base.DeleteReplyById)

  /** The reply repository its own tests describe. */
  const Fixed := ReplyBackend(ReplyRepositoryFixed.VerifyReplyOwner, ReplyRepositoryFixed.DeleteReplyById)

  /** The validated ids: thread, comment, reply. The owner is not
      validated. */
  function Validate(p: Object): (r: Result<seq<string>, Error>)
    ensures r.Ok? ==>
      && |r.value| == 3
      && Get(p, "threadId") == Str(r.value[0])
      && Get(p, "commentId") == Str(r.value[1])
      && Get(p, "replyId") == Str(r.value[2])
    ensures r.Ok? <==> forall k | k in ["threadId", "commentId", "replyId"] :: Get(p, k).Str? && Get(p, k).s != ""
    ensures r.Err? ==> r.error == Thrown(MissingProperty) || r.error == Thrown(WrongType)
    ensures !Truthy(Get(p, "threadId")) || !Truthy(Get(p, "commentId")) || !Truthy(Get(p, "replyId"))
      ==> r == Err(Thrown(MissingProperty))
    ensures Truthy(Get(p, "threadId")) && Truthy(Get(p, "commentId")) && Truthy(Get(p, "replyId"))
         && (!Get(p, "threadId").Str? || !Get(p, "commentId").Str? || !Get(p, "replyId").Str?)
      ==> r == Err(Thrown(WrongType))
  {
    var keys := ["threadId", "commentId", "replyId"];
    assert Get(p, keys[0]) == Get(p, "threadId") && Get(p, keys[1]) == Get(p, "commentId")
      && Get(p, keys[2]) == Get(p, "replyId");
    assert forall k | k in keys :: exists i | 0 <= i < 3 :: keys[i] == k;
    PayloadChecks.RequireStrings(p, keys, MissingProperty, WrongType)
  }

  /** The calls of a run that reaches the delete. */
  function FullTrace(v: seq<string>, owner: JsValue): seq<Call>
    requires |v| == 3
  {
    [VerifyAvailableThread(v[0]), VerifyAvailableComment(v[1]), VerifyReplyOwner(v[2], owner), DeleteReplyById(v[0], v[1], v[2])]
  }

  /** `execute(payload)` against the reply backend `b`. */
  function Execute(b: ReplyBackend, s: Store, p: Object): (r: Run<()>)
    ensures Validate(p).Err? ==> r == Run([], s, Err(Validate(p).error))
    ensures Validate(p).Ok? ==> IsPrefix(r.trace, FullTrace(Validate(p).value, Get(p, "owner")))
    ensures r.result.Err? ==> r.store == s
    ensures r.result.Ok? <==>
      && Validate(p).Ok?
      && Validate(p).value[0] in s.threads
      && (exists i | 0 <= i < |s.comments| :: s.comments[i].id == Validate(p).value[1])
      && b.verifyReplyOwner(s.replies, Validate(p).value[2], Get(p, "owner")).Ok?
      && b.deleteReplyById(s.replies, Validate(p).value[0], Validate(p).value[1], Validate(p).value[2]).Ok?
    ensures r.result.Ok? ==>
      var v := Validate(p).value;
      && r.trace == FullTrace(v, Get(p, "owner"))
      && r.store == s.(replies := b.deleteReplyById(s.replies, v[0], v[1], v[2]).value)
    ensures Validate(p).Ok? && Validate(p).value[0] !in s.threads ==>
      r == Run([VerifyAvailableThread(Validate(p).value[0])], s, Err(NotFound(ThreadNotFound)))
    ensures (Validate(p).Ok? && Validate(p).value[0] in s.threads
         && (forall i | 0 <= i < |s.comments| :: s.comments[i].id != Validate(p).value[1])) ==>
      r == Run(FullTrace(Validate(p).value, Get(p, "owner"))[..2], s, Err(NotFound(CommentNotFound)))
    ensures (Validate(p).Ok? && Validate(p).value[0] in s.threads
         && (exists i | 0 <= i < |s.comments| :: s.comments[i].id == Validate(p).value[1])
         && b.verifyReplyOwner(s.replies, Validate(p).value[2], Get(p, "owner")).Err?) ==>
      r == Run(FullTrace(Validate(p).value, Get(p, "owner"))[..3], s,
               Err(b.verifyReplyOwner(s.replies, Validate(p).value[2], Get(p, "owner")).error))
    ensures (Validate(p).Ok? && Validate(p).value[0] in s.threads
         && (exists i | 0 <= i < |s.comments| :: s.comments[i].id == Validate(p).value[1])
         && b.verifyReplyOwner(s.replies, Validate(p).value[2], Get(p, "owner")).Ok?
         && b.deleteReplyById(s.replies, Validate(p).value[0], Validate(p).value[1], Validate(p).value[2]).Err?) ==>
      r == Run(FullTrace(Validate(p).value, Get(p, "owner")), s,
               Err(b.deleteReplyById(s.replies, Validate(p).value[0], Validate(p).value[1], Validate(p).value[2]).error))
    ensures |r.trace| == 4 ==> r.trace[3].DeleteReplyById? && b.verifyReplyOwner(s.replies, Validate(p).value[2], Get(p, "owner")).Ok?
  {
    match Validate(p)
    case Err(e) => Run([], s, Err(e))
    case Ok(v) =>
      var owner := Get(p, "owner");
      var full := FullTrace(v, owner);
      match ThreadRepository.VerifyAvailableThread(s.threads, v[0])
      case Err(e) => Run(full[..1], s, Err(e))
      case Ok(_) =>
        match Comments.VerifyAvailableComment(s.comments, v[1])
        case Err(e) => Run(full[..2], s, Err(e))
        case Ok(_) =>
          match b.verifyReplyOwner(s.replies, v[2], owner)
          case Err(e) => Run(full[..3], s, Err(e))
          case Ok(_) =>
            match b.deleteReplyById(s.replies, v[0], v[1], v[2])
            case Err(e) => Run(full, s, Err(e))
            case Ok(rows) => Run(full, s.(replies := rows), Ok(()))
  }

  /** As written, no reply can ever be deleted: once the thread and comment
      checks pass, the owner check rejects with the base class's error and
      the delete is never called. */
  lemma PostgresNeverDeletes(s: Store, p: Object)
    ensures Execute(Postgres, s, p).result.Err?
    ensures Execute(Postgres, s, p).store == s
    ensures |Execute(Postgres, s, p).trace| < 4
    ensures Validate(p).Ok? && Validate(p).value[0] in s.threads
         && (exists i | 0 <= i < |s.comments| :: s.comments[i].id == Validate(p).value[1])
         ==> Execute(Postgres, s, p).result == Err(Thrown(Base.MethodNotImplemented))
  {
  }

  /** With the intended repository, the reply is soft-deleted if the caller
      owns it and the triple names it: the matching rows are flagged, the
      other rows and the other tables are unchanged. */
  lemma FixedDeletesOwnReply(s: Store, p: Object)
    requires Validate(p).Ok? && Validate(p).value[0] in s.threads
    requires exists i | 0 <= i < |s.comments| :: s.comments[i].id == Validate(p).value[1]
    requires exists i | 0 <= i < |s.replies| :: ReplyRepositoryFixed.DeleteMatches(s.replies[i], Validate(p).value[0], Validate(p).value[1], Validate(p).value[2])
    requires forall i | 0 <= i < |s.replies| && s.replies[i].id == Validate(p).value[2] :: Get(p, "owner") == Str(s.replies[i].owner)
    ensures var r := Execute(Fixed, s, p);
      && r.result.Ok?
      && r.store == s.(replies := r.store.replies)
      && |r.store.replies| == |s.replies|
      && forall i | 0 <= i < |s.replies| ::
           && r.store.replies[i].(isDeleted := s.replies[i].isDeleted) == s.replies[i]
           && (ReplyRepositoryFixed.DeleteMatches(s.replies[i], Validate(p).value[0], Validate(p).value[1], Validate(p).value[2])
               ==> r.store.replies[i].isDeleted)
           && (!ReplyRepositoryFixed.DeleteMatches(s.replies[i], Validate(p).value[0], Validate(p).value[1], Validate(p).value[2])
               ==> r.store.replies[i] == s.replies[i])
  {
    var v := Validate(p).value;
    var i :| 0 <= i < |s.replies| && ReplyRepositoryFixed.DeleteMatches(s.replies[i], v[0], v[1], v[2]);
    var first := ReplyRepositoryFixed.FirstWithId(s.replies, v[2]);
    assert first.Some?;
    var k :| 0 <= k < |s.replies| && s.replies[k] == first.value;
    assert ReplyRepositoryFixed.VerifyReplyOwner(s.replies, v[2], Get(p, "owner")).Ok?;
  }

  /** A caller who does not own the reply is refused and the reply stays as
      it was. */
  lemma FixedRejectsOtherOwner(s: Store, p: Object)
    requires Validate(p).Ok? && Validate(p).value[0] in s.threads
    requires exists i | 0 <= i < |s.comments| :: s.comments[i].id == Validate(p).value[1]
    requires exists i | 0 <= i < |s.replies| :: s.replies[i].id == Validate(p).value[2]
    requires forall i | 0 <= i < |s.replies| && s.replies[i].id == Validate(p).value[2] :: Get(p, "owner") != Str(s.replies[i].owner)
    ensures Execute(Fixed, s, p).result == Err(Authorization(NotResourceOwner))
    ensures Execute(Fixed, s, p).store == s
  {
    var v := Validate(p).value;
    var first := ReplyRepositoryFixed.FirstWithId(s.replies, v[2]);
    var k :| 0 <= k < |s.replies| && s.replies[k] == first.value;
  }

  /** Deleting the same reply twice with the intended repository succeeds
      both times and the second run changes nothing. */
  lemma FixedDeleteIdempotent(s: Store, p: Object)
    requires Execute(Fixed, s, p).result.Ok?
    ensures Execute(Fixed, Execute(Fixed, s, p).store, p).result.Ok?
    ensures Execute(Fixed, Execute(Fixed, s, p).store, p).store == Execute(Fixed, s, p).store
  {
    var v := Validate(p).value;
    var owner := Get(p, "owner");
    var once := ReplyRepositoryFixed.DeleteReplyById(s.replies, v[0], v[1], v[2]).value;
    assert Execute(Fixed, s, p).store == s.(replies := once);
    ReplyRepositoryFixed.SoftDeleteIdempotent(s.replies, v[0], v[1], v[2]);
    ReplyRepositoryFixed.OwnerUnchangedBySoftDelete(s.replies, once, v[2], owner);
  }

  /** The discrepancy, on a concrete store: the owner of reply-1 asks to
      delete it; as written the request rejects with the base class's error,
      with the intended repository it resolves and the reply is flagged. */
  lemma OwnerCannotDeleteOwnReply()
    ensures var s := Store(map["thread-1" := map[]], map[],
                           [CommentRow("comment-1", "hi", "user-1", "thread-1", 0, None, false)],
                           [ReplyRow("reply-1", "yo", "user-1", "thread-1", "comment-1", 1, false)], []);
            var p := map["threadId" := Str("thread-1"), "commentId" := Str("comment-1"),
                         "replyId" := Str("reply-1"), "owner" := Str("user-1")];
            && Execute(Postgres, s, p).result == Err(Thrown(Base.MethodNotImplemented))
            && Execute(Fixed, s, p).result == Ok(())
            && Execute(Fixed, s, p).store.replies[0].isDeleted
  {
    var s := Store(map["thread-1" := map[]], map[],
                   [CommentRow("comment-1", "hi", "user-1", "thread-1", 0, None, false)],
                   [ReplyRow("reply-1", "yo", "user-1", "thread-1", "comment-1", 1, false)], []);
    var p := map["threadId" := Str("thread-1"), "commentId" := Str("comment-1"),
                 "replyId" := Str("reply-1"), "owner" := Str("user-1")];
    assert Validate(p).value == ["thread-1", "comment-1", "reply-1"];
    assert ReplyRepositoryFixed.DeleteMatches(s.replies[0], "thread-1", "comment-1", "reply-1");
    assert Get(p, "owner") == Str("user-1") && s.comments[0].id == "comment-1";
    assert ReplyRepositoryFixed.VerifyReplyOwner(s.replies, "reply-1", Get(p, "owner")) == Ok(());
    assert Execute(Fixed, s, p).result == Ok(());
  }
}
