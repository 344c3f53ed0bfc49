/** The error kinds the core throws. A plain `new Error(code)` carries only a
    machine-readable code; the other three are the application's own error
    classes, each carrying a user-facing message. */
module Errors {

  datatype Error =
    | Thrown(message: string)
    | Invariant(message: string)
    | NotFound(message: string)
    | Authorization(message: string)

  /** Message of the NotFoundError the comment repository throws. */
  const CommentNotFound := "komentar tidak ditemukan"

  /** Message of the AuthorizationError thrown on an owner mismatch. */
  const NotResourceOwner := "anda tidak berhak mengakses resource ini"

  /** Message of the NotFoundError thrown for an unknown thread; the thread
      repository's own text is not part of this model, only its kind is. */
  const ThreadNotFound := "thread tidak ditemukan"

  /** Message of the NotFoundError for an unknown reply. Only the error kind
      is pinned down by the repository's tests; the wording is this model's. */
  const ReplyNotFound := "balasan tidak ditemukan"
}
