/** AddReplyUseCase: validate the payload as a NewReply, check that the thread
    and the comment exist, then insert the reply. */
module AddReplyUseCase {
  import opened Wrappers
  import opened JsValues
  import opened Errors
  import opened Tables
  import opened UseCaseRuns
  import opened NewReplies
  import ThreadRepository
  import CommentRepositoryPostgres
  import ReplyRepositoryPostgres

  /** The calls of a run that reaches the insert. */
  function FullTrace(reply: NewReply): seq<Call> {
    [VerifyAvailableThread(reply.threadId), VerifyAvailableComment(reply.commentId), AddReply(reply)]
  }

  /** `execute(payload)`. `suffix` is the id generator's output and `now`
      the database clock. The comment is checked to exist, not to belong to
      the thread. */
  function Execute(s: Store, p: Object, suffix: string, now: int): (r: Run<ReplyRepositoryPostgres.AddedReply>)
    ensures NewReplies.Construct(p).Err? ==> r == Run([], s, Err(NewReplies.Construct(p).error))
    ensures r.result.Err? ==> r.store == s
    ensures r.result.Ok? <==>
      && NewReplies.Construct(p).Ok?
      && NewReplies.Construct(p).value.threadId in s.threads
      && exists i | 0 <= i < |s.comments| :: s.comments[i].id == NewReplies.Construct(p).value.commentId
    ensures NewReplies.Construct(p).Ok? ==> IsPrefix(r.trace, FullTrace(NewReplies.Construct(p).value))
    ensures NewReplies.Construct(p).Ok? && NewReplies.Construct(p).value.threadId !in s.threads ==>
      r == Run([VerifyAvailableThread(NewReplies.Construct(p).value.threadId)], s, Err(NotFound(ThreadNotFound)))
    ensures (NewReplies.Construct(p).Ok? && NewReplies.Construct(p).value.threadId in s.threads
         && (forall i | 0 <= i < |s.comments| :: s.comments[i].id != NewReplies.Construct(p).value.commentId)) ==>
      r == Run(FullTrace(NewReplies.Construct(p).value)[..2], s, Err(NotFound(CommentNotFound)))
    ensures r.result.Ok? ==>
      var reply := NewReplies.Construct(p).value;
      && r.trace == FullTrace(reply)
      && r.store == s.(replies := r.store.replies)
      && |r.store.replies| == |s.replies| + 1 && r.store.replies[..|s.replies|] == s.replies
      && r.store.replies[|s.replies|] == ReplyRow(r.result.value.id, reply.content, reply.owner,
                                                  reply.threadId, reply.commentId, now, false)
      && r.result.value.id == ReplyRepositoryPostgres.IdPrefix + suffix
      && r.result.value == ReplyRepositoryPostgres.AddedReply(r.result.value.id, reply.content, reply.owner)
  {
    match NewReplies.Construct(p)
    case Err(e) => Run([], s, Err(e))
    case Ok(reply) =>
      match ThreadRepository.VerifyAvailableThread(s.threads, reply.threadId)
      case Err(e) => Run([VerifyAvailableThread(reply.threadId)], s, Err(e))
      case Ok(_) =>
        match CommentRepositoryPostgres.VerifyAvailableComment(s.comments, reply.commentId)
        case Err(e) => Run(FullTrace(reply)[..2], s, Err(e))
        case Ok(_) =>
          var (replies, added) := ReplyRepositoryPostgres.AddReply(s.replies, reply, suffix, now);
          Run(FullTrace(reply), s.(replies := replies), Ok(added))
  }

  /** The added reply is what the comment's reply list shows next: a read
      right after a successful add returns it, undeleted and with the
      payload's content. */
  lemma AddedReplyIsListed(s: Store, p: Object, suffix: string, now: int)
    requires Execute(s, p, suffix, now).result.Ok?
    ensures var r := Execute(s, p, suffix, now);
      var reply := NewReplies.Construct(p).value;
      ReplyRepositoryPostgres.ReplyView(r.result.value.id, reply.content, now, false, Username(s.users, reply.owner))
        in ReplyRepositoryPostgres.GetRepliesByCommentId(r.store.replies, r.store.users, reply.commentId)
  {
    var r := Execute(s, p, suffix, now);
    var row := r.store.replies[|s.replies|];
    assert row in r.store.replies;
    ReplyRepositoryPostgres.GetRepliesByCommentIdComplete(r.store.replies, r.store.users, row.commentId, row);
  }
}
