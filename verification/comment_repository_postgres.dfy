/** The comment repository over the `comments` table (joined with `users` for
    reads). */
module CommentRepositoryPostgres {
  import opened Wrappers
  import opened JsValues
  import opened Errors
  import opened Tables
  import opened DateOrder
  import DetailComments

  /** Comment ids are this prefix followed by the id generator's output. */
  const IdPrefix := "comment-"

  /** The NewComment entity, as the repository reads it. */
  datatype NewComment = NewComment(content: string, owner: string, threadId: string)

  /** The AddedComment entity built from the inserted row. */
  datatype AddedComment = AddedComment(id: string, content: string, owner: string)

  /** A comment as `getCommentsByThreadId` returns it. */
  datatype CommentView = CommentView(
    id: string,
    username: Option<string>,
    date: int,
    content: string,
    isDeleted: bool)

  /** `addComment`: inserts one row with a fresh id, the default date `now`
      and `is_deleted` false, and returns id, content and owner. */
  function AddComment(rows: seq<CommentRow>, c: NewComment, suffix: string, now: int): (r: (seq<CommentRow>, AddedComment))
    ensures |r.0| == |rows| + 1 && r.0[..|rows|] == rows
    ensures var row := r.0[|rows|];
      && row.id == IdPrefix + suffix
      && row.content == c.content && row.owner == c.owner && row.threadId == c.threadId
      && row.date == now && row.replyTo == None && !row.isDeleted
    ensures r.1 == AddedComment(r.0[|rows|].id, c.content, c.owner)
  {
    var row := CommentRow(IdPrefix + suffix, c.content, c.owner, c.threadId, now, None, false);
    (rows + [row], AddedComment(row.id, row.content, row.owner))
  }

  /** The WHERE clause of the soft delete: `id = commentId AND thread_id =
      threadId`. The arguments are JavaScript values; one that is not a
      string (an omitted, hence undefined, argument) matches no row. */
  predicate DeleteMatches(row: CommentRow, threadId: JsValue, commentId: JsValue) {
    commentId == Str(row.id) && threadId == Str(row.threadId)
  }

  /** `deleteCommentById(threadId, commentId)`: sets `is_deleted` on every
      matching row, or throws NotFound when no row matches. */
  function DeleteCommentById(rows: seq<CommentRow>, threadId: JsValue, commentId: JsValue): (r: Result<seq<CommentRow>, Error>)
    ensures r.Ok? <==> exists i | 0 <= i < |rows| :: DeleteMatches(rows[i], threadId, commentId)
    ensures r.Err? ==> r.error == NotFound(CommentNotFound)
    ensures r.Ok? ==> |r.value| == |rows| && forall i | 0 <= i < |rows| ::
      && r.value[i].(isDeleted := rows[i].isDeleted) == rows[i]
      && (DeleteMatches(rows[i], threadId, commentId) ==> r.value[i].isDeleted)
      && (!DeleteMatches(rows[i], threadId, commentId) ==> r.value[i] == rows[i])
  {
    if exists i | 0 <= i < |rows| :: DeleteMatches(rows[i], threadId, commentId) then
      Ok(seq(|rows|, i requires 0 <= i < |rows| =>
        if DeleteMatches(rows[i], threadId, commentId) then rows[i].(isDeleted := true) else rows[i]))
    else
      Err(NotFound(CommentNotFound))
  }

  /** Deleting an already deleted comment succeeds and changes nothing. */
  lemma SoftDeleteIdempotent(rows: seq<CommentRow>, threadId: JsValue, commentId: JsValue)
    requires DeleteCommentById(rows, threadId, commentId).Ok?
    ensures DeleteCommentById(DeleteCommentById(rows, threadId, commentId).value, threadId, commentId)
         == DeleteCommentById(rows, threadId, commentId)
  {
    var once := DeleteCommentById(rows, threadId, commentId).value;
    var i :| 0 <= i < |rows| && DeleteMatches(rows[i], threadId, commentId);
    assert DeleteMatches(once[i], threadId, commentId);
    var twice := DeleteCommentById(once, threadId, commentId).value;
    forall k | 0 <= k < |rows| ensures twice[k] == once[k] {
      if DeleteMatches(rows[k], threadId, commentId) {
        assert once[k].isDeleted && DeleteMatches(once[k], threadId, commentId);
      }
    }
    assert twice == once;
  }

  /** The first row with the given id: `rows[0]` of `SELECT ... WHERE id = $1`. */
  function FirstWithId(rows: seq<CommentRow>, commentId: string): (r: Option<CommentRow>)
    ensures r.None? <==> forall i | 0 <= i < |rows| :: rows[i].id != commentId
    ensures r.Some? ==> r.value in rows && r.value.id == commentId
  {
    if rows == [] then None
    else if rows[0].id == commentId then Some(rows[0])
    else FirstWithId(rows[1..], commentId)
  }

  /** `verifyCommentOwner`: NotFound when no row has the id (checked first),
      AuthorizationError when the row belongs to someone else. */
  function VerifyCommentOwner(rows: seq<CommentRow>, commentId: string, owner: string): (r: Result<(), Error>)
    ensures r == Err(NotFound(CommentNotFound)) <==> forall i | 0 <= i < |rows| :: rows[i].id != commentId
    ensures r.Err? ==> r.error == NotFound(CommentNotFound) || r.error == Authorization(NotResourceOwner)
    ensures r == Err(Authorization(NotResourceOwner)) ==>
      exists i | 0 <= i < |rows| :: rows[i].id == commentId && rows[i].owner != owner
    ensures r.Ok? ==> exists i | 0 <= i < |rows| :: rows[i].id == commentId && rows[i].owner == owner
    ensures ((exists i | 0 <= i < |rows| :: rows[i].id == commentId)
             && (forall i | 0 <= i < |rows| && rows[i].id == commentId :: rows[i].owner == owner)) ==> r.Ok?
  {
    match FirstWithId(rows, commentId)
    case None => Err(NotFound(CommentNotFound))
    case Some(row) => if row.owner != owner then Err(Authorization(NotResourceOwner)) else Ok(())
  }

  /** Soft deletion does not move or re-own rows: the first row with an id
      keeps its owner. */
  lemma {:induction false} FirstWithIdUnchanged(before: seq<CommentRow>, after: seq<CommentRow>, commentId: string)
    requires |before| == |after|
    requires forall i | 0 <= i < |before| :: after[i].(isDeleted := before[i].isDeleted) == before[i]
    ensures FirstWithId(after, commentId).None? <==> FirstWithId(before, commentId).None?
    ensures FirstWithId(after, commentId).Some? ==> FirstWithId(after, commentId).value.owner == FirstWithId(before, commentId).value.owner
  {
    if before != [] {
      assert after[0].id == before[0].id && after[0].owner == before[0].owner;
      FirstWithIdUnchanged(before[1..], after[1..], commentId);
    }
  }

  /** Soft deletion does not change who owns what, so a deleted comment can
      still be checked for ownership. */
  lemma OwnerUnchangedBySoftDelete(before: seq<CommentRow>, after: seq<CommentRow>, commentId: string, owner: string)
    requires |before| == |after|
    requires forall i | 0 <= i < |before| :: after[i].(isDeleted := before[i].isDeleted) == before[i]
    ensures VerifyCommentOwner(after, commentId, owner) == VerifyCommentOwner(before, commentId, owner)
  {
    FirstWithIdUnchanged(before, after, commentId);
  }

  /** `verifyAvailableComment`: the id exists, deleted or not. */
  function VerifyAvailableComment(rows: seq<CommentRow>, commentId: string): (r: Result<(), Error>)
    ensures r.Ok? <==> exists i | 0 <= i < |rows| :: rows[i].id == commentId
    ensures r.Err? ==> r.error == NotFound(CommentNotFound)
  {
    if exists i | 0 <= i < |rows| :: rows[i].id == commentId then Ok(()) else Err(NotFound(CommentNotFound))
  }

  /** The rows of one thread, in table order. */
  function OfThread(rows: seq<CommentRow>, threadId: string): (r: seq<CommentRow>)
    ensures forall row :: row in r <==> row in rows && row.threadId == threadId
    ensures |r| <= |rows|
  {
    if rows == [] then []
    else if rows[0].threadId == threadId then [rows[0]] + OfThread(rows[1..], threadId)
    else OfThread(rows[1..], threadId)
  }

  /** One selected row, with its content redacted when it is soft-deleted. */
  function View(row: CommentRow, users: map<string, string>): CommentView {
    CommentView(
      row.id,
      Username(users, row.owner),
      row.date,
      if row.isDeleted then DetailComments.RedactedContent else row.content,
      row.isDeleted)
  }

  function Views(rows: seq<CommentRow>, users: map<string, string>): (r: seq<CommentView>)
    ensures |r| == |rows| && forall i | 0 <= i < |rows| :: r[i] == View(rows[i], users)
  {
    seq(|rows|, i requires 0 <= i < |rows| => View(rows[i], users))
  }

  function ViewDate(v: CommentView): int { v.date }

  /** `getCommentsByThreadId`: the thread's comments, oldest first, each
      with its author's username and its content redacted when deleted. */
  function GetCommentsByThreadId(rows: seq<CommentRow>, users: map<string, string>, threadId: string): (r: seq<CommentView>)
    ensures SortedBy(r, ViewDate)
    ensures multiset(r) == multiset(Views(OfThread(rows, threadId), users))
    ensures r == [] <==> forall i | 0 <= i < |rows| :: rows[i].threadId != threadId
  {
    var selected := Views(OfThread(rows, threadId), users);
    var r := SortByDate(selected, ViewDate);
    assert |r| == |multiset(r)| == |selected|;
    assert selected == [] <==> forall i | 0 <= i < |rows| :: rows[i].threadId != threadId by {
      if selected != [] {
        assert OfThread(rows, threadId)[0] in OfThread(rows, threadId);
      }
      if exists i | 0 <= i < |rows| :: rows[i].threadId == threadId {
        var i :| 0 <= i < |rows| && rows[i].threadId == threadId;
        assert rows[i] in OfThread(rows, threadId);
      }
    }
    r
  }

  /** Soundness of the read: everything returned is the view of a selected row. */
  lemma GetCommentsByThreadIdSound(rows: seq<CommentRow>, users: map<string, string>, threadId: string, v: CommentView)
    requires v in GetCommentsByThreadId(rows, users, threadId)
    ensures exists row | row in rows && row.threadId == threadId :: v == View(row, users)
  {
    var selected := Views(OfThread(rows, threadId), users);
    assert v in multiset(selected);
    var i :| 0 <= i < |selected| && selected[i] == v;
    assert OfThread(rows, threadId)[i] in OfThread(rows, threadId);
  }

  /** Completeness of the read: every selected row is returned. */
  lemma GetCommentsByThreadIdComplete(rows: seq<CommentRow>, users: map<string, string>, threadId: string, row: CommentRow)
    requires row in rows && row.threadId == threadId
    ensures View(row, users) in GetCommentsByThreadId(rows, users, threadId)
  {
    var f := OfThread(rows, threadId);
    var k :| 0 <= k < |f| && f[k] == row;
    assert View(row, users) in multiset(Views(f, users));
  }

  /** Redaction of the read: a returned comment shows the fixed marker
      exactly when its row is soft-deleted, and otherwise the row's content. */
  lemma ReadRedaction(rows: seq<CommentRow>, users: map<string, string>, threadId: string, v: CommentView)
    requires v in GetCommentsByThreadId(rows, users, threadId)
    ensures exists row | row in rows && row.threadId == threadId ::
      && row.id == v.id && row.date == v.date && row.isDeleted == v.isDeleted
      && v.content == (if row.isDeleted then DetailComments.RedactedContent else row.content)
  {
    GetCommentsByThreadIdSound(rows, users, threadId, v);
    var row :| row in rows && row.threadId == threadId && v == View(row, users);
  }

  /** A soft-deleted comment reads back redacted: after a successful delete,
      the thread's comment list shows the comment with the marker. */
  lemma DeletedCommentReadsRedacted(rows: seq<CommentRow>, users: map<string, string>, threadId: string, commentId: string, v: CommentView)
    requires DeleteCommentById(rows, Str(threadId), Str(commentId)).Ok?
    requires v in GetCommentsByThreadId(DeleteCommentById(rows, Str(threadId), Str(commentId)).value, users, threadId)
    requires v.id == commentId
    ensures v.isDeleted && v.content == DetailComments.RedactedContent
  {
    var after := DeleteCommentById(rows, Str(threadId), Str(commentId)).value;
    GetCommentsByThreadIdSound(after, users, threadId, v);
    var row :| row in after && row.threadId == threadId && v == View(row, users);
    var i :| 0 <= i < |after| && after[i] == row;
    assert DeleteMatches(rows[i], Str(threadId), Str(commentId));
  }

  /** An added comment is what its thread's comment list shows next: the
      read right after `addComment` returns it, undeleted, with its content,
      date and owner's username. */
  lemma AddedCommentIsListed(rows: seq<CommentRow>, users: map<string, string>, c: NewComment, suffix: string, now: int)
    ensures var (after, added) := AddComment(rows, c, suffix, now);
      CommentView(added.id, Username(users, c.owner), now, c.content, false)
        in GetCommentsByThreadId(after, users, c.threadId)
  {
    var after := AddComment(rows, c, suffix, now).0;
    var row := after[|rows|];
    assert row in after;
    GetCommentsByThreadIdComplete(after, users, c.threadId, row);
  }

  /** Availability follows the table's ids: an added comment becomes
      available and every other id keeps its answer, and a soft delete, which
      keeps the row, changes no id's answer. */
  lemma AvailabilityAfterWrites(rows: seq<CommentRow>, c: NewComment, suffix: string, now: int,
                                threadId: JsValue, commentId: JsValue, id: string)
    ensures VerifyAvailableComment(AddComment(rows, c, suffix, now).0, id).Ok?
        <==> id == IdPrefix + suffix || VerifyAvailableComment(rows, id).Ok?
    ensures DeleteCommentById(rows, threadId, commentId).Ok? ==>
      VerifyAvailableComment(DeleteCommentById(rows, threadId, commentId).value, id) == VerifyAvailableComment(rows, id)
  {
    var after := AddComment(rows, c, suffix, now).0;
    assert after[|rows|].id == IdPrefix + suffix;
    assert forall i | 0 <= i < |rows| :: after[i] == rows[i];
    if DeleteCommentById(rows, threadId, commentId).Ok? {
      var deleted := DeleteCommentById(rows, threadId, commentId).value;
      assert forall i | 0 <= i < |rows| :: deleted[i].id == rows[i].id;
    }
  }
}
