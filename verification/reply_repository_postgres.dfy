/** The reply repository over the `replies` table. It overrides only
    `addReply` and `getRepliesByCommentId`; the other three methods are the
    base class's. */
module ReplyRepositoryPostgres {
  import opened Wrappers
  import opened Errors
  import opened Tables
  import opened DateOrder
  import opened NewReplies
  import DetailReplies

  /** Reply ids are this prefix followed by the id generator's output. */
  const IdPrefix := "reply-"

  /** The AddedReply entity built from the inserted row. */
  datatype AddedReply = AddedReply(id: string, content: string, owner: string)

  /** A reply as `getRepliesByCommentId` returns it. */
  datatype ReplyView = ReplyView(
    id: string,
    content: string,
    date: int,
    isDeleted: bool,
    username: Option<string>)

  /** `addReply`: inserts one row with a fresh id, the default date `now`
      and `is_deleted` false, and returns id, content and owner. */
  function AddReply(rows: seq<ReplyRow>, reply: NewReply, suffix: string, now: int): (r: (seq<ReplyRow>, AddedReply))
    ensures |r.0| == |rows| + 1 && r.0[..|rows|] == rows
    ensures var row := r.0[|rows|];
      && row.id == IdPrefix + suffix
      && row.content == reply.content && row.owner == reply.owner
      && row.threadId == reply.threadId && row.commentId == reply.commentId
      && row.date == now && !row.isDeleted
    ensures r.1 == AddedReply(r.0[|rows|].id, reply.content, reply.owner)
  {
    var row := ReplyRow(IdPrefix + suffix, reply.content, reply.owner, reply.threadId, reply.commentId, now, false);
    (rows + [row], AddedReply(row.id, row.content, row.owner))
  }

  /** The rows answering one comment, in table order. */
  function OfComment(rows: seq<ReplyRow>, commentId: string): (r: seq<ReplyRow>)
    ensures forall row :: row in r <==> row in rows && row.commentId == commentId
    ensures |r| <= |rows|
  {
    if rows == [] then []
    else if rows[0].commentId == commentId then [rows[0]] + OfComment(rows[1..], commentId)
    else OfComment(rows[1..], commentId)
  }

  /** One selected row, with its content redacted when it is soft-deleted. */
  function View(row: ReplyRow, users: map<string, string>): ReplyView {
    ReplyView(
      row.id,
      if row.isDeleted then DetailReplies.RedactedContent else row.content,
      row.date,
      row.isDeleted,
      Username(users, row.owner))
  }

  function Views(rows: seq<ReplyRow>, users: map<string, string>): (r: seq<ReplyView>)
    ensures |r| == |rows| && forall i | 0 <= i < |rows| :: r[i] == View(rows[i], users)
  {
    seq(|rows|, i requires 0 <= i < |rows| => View(rows[i], users))
  }

  function ViewDate(v: ReplyView): int { v.date }

  /** `getRepliesByCommentId`: the comment's replies, oldest first, each with
      its author's username and its content redacted when deleted. */
  function GetRepliesByCommentId(rows: seq<ReplyRow>, users: map<string, string>, commentId: string): (r: seq<ReplyView>)
    ensures SortedBy(r, ViewDate)
    ensures multiset(r) == multiset(Views(OfComment(rows, commentId), users))
    ensures r == [] <==> forall i | 0 <= i < |rows| :: rows[i].commentId != commentId
  {
    var selected := Views(OfComment(rows, commentId), users);
    var r := SortByDate(selected, ViewDate);
    assert |r| == |multiset(r)| == |selected|;
    assert selected == [] <==> forall i | 0 <= i < |rows| :: rows[i].commentId != commentId by {
      if selected != [] {
        assert OfComment(rows, commentId)[0] in OfComment(rows, commentId);
      }
      if exists i | 0 <= i < |rows| :: rows[i].commentId == commentId {
        var i :| 0 <= i < |rows| && rows[i].commentId == commentId;
        assert rows[i] in OfComment(rows, commentId);
      }
    }
    r
  }

  /** Soundness of the read: everything returned is the view of a selected row. */
  lemma GetRepliesByCommentIdSound(rows: seq<ReplyRow>, users: map<string, string>, commentId: string, v: ReplyView)
    requires v in GetRepliesByCommentId(rows, users, commentId)
    ensures exists row | row in rows && row.commentId == commentId :: v == View(row, users)
  {
    var selected := Views(OfComment(rows, commentId), users);
    assert v in multiset(selected);
    var i :| 0 <= i < |selected| && selected[i] == v;
    assert OfComment(rows, commentId)[i] in OfComment(rows, commentId);
  }

  /** Completeness of the read: every selected row is returned. */
  lemma GetRepliesByCommentIdComplete(rows: seq<ReplyRow>, users: map<string, string>, commentId: string, row: ReplyRow)
    requires row in rows && row.commentId == commentId
    ensures View(row, users) in GetRepliesByCommentId(rows, users, commentId)
  {
    var f := OfComment(rows, commentId);
    var k :| 0 <= k < |f| && f[k] == row;
    assert View(row, users) in multiset(Views(f, users));
  }

  /** A reply to a different comment never shows up, even in the same thread. */
  lemma OtherCommentsExcluded(rows: seq<ReplyRow>, users: map<string, string>, commentId: string, v: ReplyView)
    requires v in GetRepliesByCommentId(rows, users, commentId)
    ensures exists row | row in rows :: row.commentId == commentId && row.id == v.id
    ensures v.isDeleted ==> v.content == DetailReplies.RedactedContent
  {
    GetRepliesByCommentIdSound(rows, users, commentId, v);
    var row :| row in rows && row.commentId == commentId && v == View(row, users);
  }
}
