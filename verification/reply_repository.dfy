/** The abstract ReplyRepository interface: every method of the base class
    rejects with the same "not implemented" error. A concrete repository that
    does not override a method inherits this behaviour. */
module ReplyRepository {
  import opened Wrappers
  import opened JsValues
  import opened Errors
  import opened Tables

  const MethodNotImplemented := "REPLY_REPOSITORY.METHOD_NOT_IMPLEMENTED"

  /** The error every base-class method rejects with. */
  predicate IsNotImplemented<T>(r: Result<T, Error>) {
    r == Err(Thrown(MethodNotImplemented))
  }

  function AddReply<T>(rows: seq<ReplyRow>, newReply: T): (r: Result<seq<ReplyRow>, Error>)
    ensures IsNotImplemented(r)
  {
    Err(Thrown(MethodNotImplemented))
  }

  function GetRepliesByCommentId(rows: seq<ReplyRow>, commentId: string): (r: Result<seq<ReplyRow>, Error>)
    ensures IsNotImplemented(r)
  {
    Err(Thrown(MethodNotImplemented))
  }

  function DeleteReplyById(rows: seq<ReplyRow>, threadId: string, commentId: string, replyId: string): (r: Result<seq<ReplyRow>, Error>)
    ensures IsNotImplemented(r)
  {
    Err(Thrown(MethodNotImplemented))
  }

  function VerifyReplyAvailable(rows: seq<ReplyRow>, replyId: string): (r: Result<(), Error>)
    ensures IsNotImplemented(r)
  {
    Err(Thrown(MethodNotImplemented))
  }

  /** The owner argument is passed on unvalidated by its caller, so it is any
      JavaScript value. */
  function VerifyReplyOwner(rows: seq<ReplyRow>, replyId: string, owner: JsValue): (r: Result<(), Error>)
    ensures IsNotImplemented(r)
  {
    Err(Thrown(MethodNotImplemented))
  }
}
