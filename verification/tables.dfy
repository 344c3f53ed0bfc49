/** The persistent state the repositories work on, as in-memory tables. Each
    table is a sequence of rows in insertion order. */
module Tables {
  import opened Wrappers
  import opened JsValues

  /** A row of `comments`. `date` defaults to the insertion time and
      `isDeleted` to false; `replyTo` is never written by the core. */
  datatype CommentRow = CommentRow(
    id: string,
    content: string,
    owner: string,
    threadId: string,
    date: int,
    replyTo: Option<string>,
    isDeleted: bool)

  /** A row of `replies`. */
  datatype ReplyRow = ReplyRow(
    id: string,
    content: string,
    owner: string,
    threadId: string,
    commentId: string,
    date: int,
    isDeleted: bool)

  /** A row of `likes`: one user's like on one comment. */
  datatype LikeRow = LikeRow(id: string, commentId: string, owner: string)

  /** The whole store. The thread table is abstract: for each thread id it
      holds the object the thread repository resolves `getThreadById` to.
      `users` maps a user id to its username. */
  datatype Store = Store(
    threads: map<string, Object>,
    users: map<string, string>,
    comments: seq<CommentRow>,
    replies: seq<ReplyRow>,
    likes: seq<LikeRow>)

  /** `LEFT JOIN users`: the owner's username, or NULL when there is none. */
  function Username(users: map<string, string>, owner: string): Option<string> {
    if owner in users then Some(users[owner]) else None
  }
}
