/** What a use case run observes: the repository calls it made, in order, the
    store it left behind and its outcome (a resolved value or a rejection). */
module UseCaseRuns {
  import opened Wrappers
  import opened JsValues
  import opened Errors
  import opened Tables
  import opened NewReplies

  /** One awaited repository call, with its arguments. */
  datatype Call =
    | VerifyAvailableThread(threadId: string)
    | GetThreadById(threadArg: JsValue)
    | VerifyAvailableComment(commentId: string)
    | VerifyCommentOwner(commentId: string, owner: string)
    | DeleteCommentById(args: seq<JsValue>)
    | GetCommentsByThreadId(threadId: string)
    | AddReply(reply: NewReply)
    | GetRepliesByCommentId(commentId: string)
    | VerifyReplyOwner(replyId: string, ownerArg: JsValue)
    | DeleteReplyById(threadId: string, commentId: string, replyId: string)
    | IsLikeExist(commentId: string, owner: string)
    | AddLike(commentId: string, owner: string)
    | DeleteLike(commentId: string, owner: string)

  datatype Run<+T> = Run(trace: seq<Call>, store: Store, result: Result<T, Error>)

  /** A run that stopped early made a prefix of the calls of a complete one. */
  predicate IsPrefix(trace: seq<Call>, full: seq<Call>) {
    |trace| <= |full| && trace == full[..|trace|]
  }
}
