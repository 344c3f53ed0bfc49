/** GetThreadUseCase: fetch the thread, its comments oldest first, and for
    each comment in turn its replies oldest first, and return the thread
    object with the nested comments attached. */
module GetThreadUseCase {
  import opened Wrappers
  import opened JsValues
  import opened Errors
  import opened Tables
  import opened UseCaseRuns
  import opened DateOrder
  import ThreadRepository
  import Comments = CommentRepositoryPostgres
  import Replies = ReplyRepositoryPostgres
  import DetailComments
  import DetailReplies

  /** A comment row of the result, with the `replies` property attached. */
  datatype CommentWithReplies = CommentWithReplies(comment: Comments.CommentView, replies: seq<Replies.ReplyView>)

  /** `{ ...thread, comments }`: the thread's own properties, except that
      `comments` is the assembled list. */
  datatype ThreadDetail = ThreadDetail(fields: Object, comments: seq<CommentWithReplies>)

  /** The sequential loop: one `getRepliesByCommentId` per comment, in the
      comments' order. */
  function AttachReplies(views: seq<Comments.CommentView>, fetch: string -> seq<Replies.ReplyView>): (r: seq<CommentWithReplies>)
    ensures |r| == |views|
    ensures forall i | 0 <= i < |views| :: r[i] == CommentWithReplies(views[i], fetch(views[i].id))
  {
    if views == [] then []
    else [CommentWithReplies(views[0], fetch(views[0].id))] + AttachReplies(views[1..], fetch)
  }

  /** `replyRepository.getRepliesByCommentId` against the store. */
  function FetchReplies(s: Store): string -> seq<Replies.ReplyView> {
    commentId => Replies.GetRepliesByCommentId(s.replies, s.users, commentId)
  }

  /** The calls the loop makes. */
  function ReplyFetches(views: seq<Comments.CommentView>): (r: seq<Call>)
    ensures |r| == |views|
    ensures forall i | 0 <= i < |views| :: r[i] == GetRepliesByCommentId(views[i].id)
  {
    if views == [] then [] else [GetRepliesByCommentId(views[0].id)] + ReplyFetches(views[1..])
  }

  /** The per-comment facts a successful run establishes, over the
      repository's comment list `views`. */
  predicate Attached(cs: seq<CommentWithReplies>, views: seq<Comments.CommentView>, s: Store) {
    && CommentsKept(cs, views)
    && forall i | 0 <= i < |views| :: cs[i].replies == Replies.GetRepliesByCommentId(s.replies, s.users, views[i].id)
  }

  predicate CommentsKept(cs: seq<CommentWithReplies>, views: seq<Comments.CommentView>) {
    |cs| == |views| && forall i | 0 <= i < |views| :: cs[i].comment == views[i]
  }

  /** `execute(payload)`. The thread id is not validated: whatever value the
      payload holds is handed to the thread repository. The use case only
      reads. */
  function Execute(s: Store, p: Object): (r: Run<ThreadDetail>)
    ensures r.store == s
    ensures r.result.Ok? <==> Get(p, "threadId").Str? && Get(p, "threadId").s in s.threads
    ensures r.result.Err? ==>
      && r.trace == [GetThreadById(Get(p, "threadId"))]
      && r.result.error == NotFound(ThreadNotFound)
    ensures r.result.Ok? ==>
      var threadId := Get(p, "threadId").s;
      var views := Comments.GetCommentsByThreadId(s.comments, s.users, threadId);
      && r.result.value.fields == s.threads[threadId] - {"comments"}
      && Attached(r.result.value.comments, views, s)
      && |r.trace| == 2 + |views|
      && r.trace[..2] == [GetThreadById(Get(p, "threadId")), GetCommentsByThreadId(threadId)]
      && (forall i | 0 <= i < |views| :: r.trace[2 + i] == GetRepliesByCommentId(views[i].id))
  {
    var arg := Get(p, "threadId");
    match ThreadRepository.GetThreadById(s.threads, arg)
    case Err(e) => Run([GetThreadById(arg)], s, Err(e))
    case Ok(thread) =>
      var views := Comments.GetCommentsByThreadId(s.comments, s.users, arg.s);
      Run([GetThreadById(arg), GetCommentsByThreadId(arg.s)] + ReplyFetches(views),
          s,
          Ok(ThreadDetail(thread - {"comments"}, AttachReplies(views, FetchReplies(s)))))
  }

  function CommentDate(c: CommentWithReplies): int { c.comment.date }

  lemma AttachedOrdered(cs: seq<CommentWithReplies>, views: seq<Comments.CommentView>, s: Store)
    requires Attached(cs, views, s)
    requires SortedBy(views, Comments.ViewDate)
    ensures SortedBy(cs, CommentDate)
    ensures forall i | 0 <= i < |cs| :: SortedBy(cs[i].replies, Replies.ViewDate)
  {
    forall i, j | 0 <= i <= j < |cs| ensures CommentDate(cs[i]) <= CommentDate(cs[j]) {
      assert cs[i].comment == views[i] && cs[j].comment == views[j];
    }
  }

  /** Every listed comment is a row of the thread, with the row's id and
      deletion flag, and redacted when that flag is set. */
  predicate CommentsOfThread(cs: seq<CommentWithReplies>, rows: seq<CommentRow>, threadId: string) {
    forall i | 0 <= i < |cs| ::
      exists row | row in rows && row.threadId == threadId ::
        && row.id == cs[i].comment.id && row.isDeleted == cs[i].comment.isDeleted
        && (row.isDeleted ==> cs[i].comment.content == DetailComments.RedactedContent)
  }

  lemma AttachedCommentsBelong(cs: seq<CommentWithReplies>, views: seq<Comments.CommentView>, s: Store, threadId: string)
    requires CommentsKept(cs, views)
    requires views == Comments.GetCommentsByThreadId(s.comments, s.users, threadId)
    ensures CommentsOfThread(cs, s.comments, threadId)
  {
    forall i | 0 <= i < |cs|
      ensures exists row | row in s.comments && row.threadId == threadId ::
        row.id == cs[i].comment.id && row.isDeleted == cs[i].comment.isDeleted
        && (row.isDeleted ==> cs[i].comment.content == DetailComments.RedactedContent)
    {
      Comments.GetCommentsByThreadIdSound(s.comments, s.users, threadId, views[i]);
      var row :| row in s.comments && row.threadId == threadId && views[i] == Comments.View(row, s.users);
    }
  }

  lemma AttachedCommentsComplete(cs: seq<CommentWithReplies>, views: seq<Comments.CommentView>, s: Store, threadId: string)
    requires CommentsKept(cs, views)
    requires views == Comments.GetCommentsByThreadId(s.comments, s.users, threadId)
    ensures forall row | row in s.comments && row.threadId == threadId ::
      exists i | 0 <= i < |cs| :: cs[i].comment.id == row.id
  {
    forall row | row in s.comments && row.threadId == threadId
      ensures exists i | 0 <= i < |cs| :: cs[i].comment.id == row.id
    {
      Comments.GetCommentsByThreadIdComplete(s.comments, s.users, threadId, row);
      var k :| 0 <= k < |views| && views[k] == Comments.View(row, s.users);
      assert cs[k].comment.id == row.id;
    }
  }

  lemma AttachedRepliesBelong(cs: seq<CommentWithReplies>, views: seq<Comments.CommentView>, s: Store)
    requires Attached(cs, views, s)
    ensures forall i, j | 0 <= i < |cs| && 0 <= j < |cs[i].replies| ::
      && (exists row | row in s.replies && row.commentId == cs[i].comment.id :: row.id == cs[i].replies[j].id)
      && (cs[i].replies[j].isDeleted ==> cs[i].replies[j].content == DetailReplies.RedactedContent)
  {
    forall i, j | 0 <= i < |cs| && 0 <= j < |cs[i].replies|
      ensures exists row | row in s.replies && row.commentId == cs[i].comment.id :: row.id == cs[i].replies[j].id
      ensures cs[i].replies[j].isDeleted ==> cs[i].replies[j].content == DetailReplies.RedactedContent
    {
      var rv := cs[i].replies[j];
      assert rv in Replies.GetRepliesByCommentId(s.replies, s.users, views[i].id);
      Replies.OtherCommentsExcluded(s.replies, s.users, views[i].id, rv);
    }
  }

  /** A successful run attaches to each comment of the repository's list
      that comment's replies. */
  lemma RunAttaches(s: Store, p: Object, d: ThreadDetail)
    requires Execute(s, p).result == Ok(d)
    ensures Attached(d.comments, Comments.GetCommentsByThreadId(s.comments, s.users, Get(p, "threadId").s), s)
  {
  }

  /** The comment list of a successful run is the repository's. */
  lemma RunKeepsComments(s: Store, p: Object, d: ThreadDetail)
    requires Execute(s, p).result == Ok(d)
    ensures CommentsKept(d.comments, Comments.GetCommentsByThreadId(s.comments, s.users, Get(p, "threadId").s))
  {
  }

  /** Ordering of the assembled thread `d`: comments oldest first, and each
      comment's replies oldest first. */
  lemma AssembledThreadOrdered(s: Store, p: Object, d: ThreadDetail)
    requires Execute(s, p).result == Ok(d)
    ensures SortedBy(d.comments, CommentDate)
    ensures forall i | 0 <= i < |d.comments| :: SortedBy(d.comments[i].replies, Replies.ViewDate)
  {
    RunAttaches(s, p, d);
    AttachedOrdered(d.comments, Comments.GetCommentsByThreadId(s.comments, s.users, Get(p, "threadId").s), s);
  }

  /** Every comment of the assembled thread `d` belongs to the thread, and a
      soft-deleted one shows only its redaction marker. */
  lemma AssembledThreadCommentsBelong(s: Store, p: Object, threadId: string, d: ThreadDetail)
    requires Get(p, "threadId") == Str(threadId)
    requires Execute(s, p).result == Ok(d)
    ensures CommentsOfThread(d.comments, s.comments, threadId)
  {
    RunKeepsComments(s, p, d);
    AttachedCommentsBelong(d.comments, Comments.GetCommentsByThreadId(s.comments, s.users, threadId), s, threadId);
  }

  /** No comment of the thread, deleted or not, is missing from the
      assembled thread `d`. */
  lemma AssembledThreadCommentsComplete(s: Store, p: Object, threadId: string, d: ThreadDetail)
    requires Get(p, "threadId") == Str(threadId)
    requires Execute(s, p).result == Ok(d)
    ensures forall row | row in s.comments && row.threadId == threadId ::
      exists i | 0 <= i < |d.comments| :: d.comments[i].comment.id == row.id
  {
    RunKeepsComments(s, p, d);
    AttachedCommentsComplete(d.comments, Comments.GetCommentsByThreadId(s.comments, s.users, threadId), s, threadId);
  }

  /** Every reply in the assembled thread `d` is listed under the comment it
      answers, and a soft-deleted one shows only its redaction marker. */
  lemma AssembledThreadReplies(s: Store, p: Object, d: ThreadDetail)
    requires Execute(s, p).result == Ok(d)
    ensures forall i, j | 0 <= i < |d.comments| && 0 <= j < |d.comments[i].replies| ::
      && (exists row | row in s.replies && row.commentId == d.comments[i].comment.id :: row.id == d.comments[i].replies[j].id)
      && (d.comments[i].replies[j].isDeleted ==> d.comments[i].replies[j].content == DetailReplies.RedactedContent)
  {
    RunAttaches(s, p, d);
    AttachedRepliesBelong(d.comments, Comments.GetCommentsByThreadId(s.comments, s.users, Get(p, "threadId").s), s);
  }
}
