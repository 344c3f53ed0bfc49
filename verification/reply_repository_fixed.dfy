/** The three reply-repository methods that the Postgres repository's own
    tests exercise but that the class does not define (it inherits the
    base class's rejecting versions instead). This module gives them the
    behaviour those tests and the comment repository's counterparts call
    for. */
module ReplyRepositoryFixed {
  import opened Wrappers
  import opened JsValues
  import opened Errors
  import opened Tables

  /** The first row with the given id. */
  function FirstWithId(rows: seq<ReplyRow>, replyId: string): (r: Option<ReplyRow>)
    ensures r.None? <==> forall i | 0 <= i < |rows| :: rows[i].id != replyId
    ensures r.Some? ==> r.value in rows && r.value.id == replyId
  {
    if rows == [] then None
    else if rows[0].id == replyId then Some(rows[0])
    else FirstWithId(rows[1..], replyId)
  }

  /** `verifyReplyAvailable`: NotFound unless some row has the id. */
  function VerifyReplyAvailable(rows: seq<ReplyRow>, replyId: string): (r: Result<(), Error>)
    ensures r.Ok? <==> exists i | 0 <= i < |rows| :: rows[i].id == replyId
    ensures r.Err? ==> r.error == NotFound(ReplyNotFound)
  {
    if exists i | 0 <= i < |rows| :: rows[i].id == replyId then Ok(()) else Err(NotFound(ReplyNotFound))
  }

  /** `verifyReplyOwner`: NotFound when no row has the id (checked first),
      AuthorizationError when the caller is not the reply's owner. The owner
      argument is compared strictly, so a non-string never owns a reply. */
  function VerifyReplyOwner(rows: seq<ReplyRow>, replyId: string, owner: JsValue): (r: Result<(), Error>)
    ensures r == Err(NotFound(ReplyNotFound)) <==> forall i | 0 <= i < |rows| :: rows[i].id != replyId
    ensures r.Err? ==> r.error == NotFound(ReplyNotFound) || r.error == Authorization(NotResourceOwner)
    ensures r.Ok? ==> exists i | 0 <= i < |rows| :: rows[i].id == replyId && owner == Str(rows[i].owner)
    ensures r == Err(Authorization(NotResourceOwner)) ==>
      exists i | 0 <= i < |rows| :: rows[i].id == replyId && owner != Str(rows[i].owner)
    ensures !owner.Str? ==> r.Err?
  {
    match FirstWithId(rows, replyId)
    case None => Err(NotFound(ReplyNotFound))
    case Some(row) => if owner != Str(row.owner) then Err(Authorization(NotResourceOwner)) else Ok(())
  }

  predicate DeleteMatches(row: ReplyRow, threadId: string, commentId: string, replyId: string) {
    row.id == replyId && row.commentId == commentId && row.threadId == threadId
  }

  /** `deleteReplyById(threadId, commentId, replyId)`: sets `is_deleted` on
      the rows matching the whole triple, or throws NotFound when none does. */
  function DeleteReplyById(rows: seq<ReplyRow>, threadId: string, commentId: string, replyId: string): (r: Result<seq<ReplyRow>, Error>)
    ensures r.Ok? <==> exists i | 0 <= i < |rows| :: DeleteMatches(rows[i], threadId, commentId, replyId)
    ensures r.Err? ==> r.error == NotFound(ReplyNotFound)
    ensures r.Ok? ==> |r.value| == |rows| && forall i | 0 <= i < |rows| ::
      && r.value[i].(isDeleted := rows[i].isDeleted) == rows[i]
      && (DeleteMatches(rows[i], threadId, commentId, replyId) ==> r.value[i].isDeleted)
      && (!DeleteMatches(rows[i], threadId, commentId, replyId) ==> r.value[i] == rows[i])
  {
    if exists i | 0 <= i < |rows| :: DeleteMatches(rows[i], threadId, commentId, replyId) then
      Ok(seq(|rows|, i requires 0 <= i < |rows| =>
        if DeleteMatches(rows[i], threadId, commentId, replyId) then rows[i].(isDeleted := true) else rows[i]))
    else
      Err(NotFound(ReplyNotFound))
  }

  /** Soft deletion does not move or re-own rows: the first row with an id
      keeps its owner. */
  lemma {:induction false} FirstWithIdUnchanged(before: seq<ReplyRow>, after: seq<ReplyRow>, replyId: string)
    requires |before| == |after|
    requires forall i | 0 <= i < |before| :: after[i].(isDeleted := before[i].isDeleted) == before[i]
    ensures FirstWithId(after, replyId).None? <==> FirstWithId(before, replyId).None?
    ensures FirstWithId(after, replyId).Some? ==> FirstWithId(after, replyId).value.owner == FirstWithId(before, replyId).value.owner
  {
    if before != [] {
      assert after[0].id == before[0].id && after[0].owner == before[0].owner;
      FirstWithIdUnchanged(before[1..], after[1..], replyId);
    }
  }

  /** Soft deletion does not change who owns what, so a deleted reply can
      still be checked for ownership and deleted again. */
  lemma OwnerUnchangedBySoftDelete(before: seq<ReplyRow>, after: seq<ReplyRow>, replyId: string, owner: JsValue)
    requires |before| == |after|
    requires forall i | 0 <= i < |before| :: after[i].(isDeleted := before[i].isDeleted) == before[i]
    ensures VerifyReplyOwner(after, replyId, owner) == VerifyReplyOwner(before, replyId, owner)
  {
    FirstWithIdUnchanged(before, after, replyId);
  }

  /** Deleting an already deleted reply succeeds and changes nothing. */
  lemma SoftDeleteIdempotent(rows: seq<ReplyRow>, threadId: string, commentId: string, replyId: string)
    requires DeleteReplyById(rows, threadId, commentId, replyId).Ok?
    ensures DeleteReplyById(DeleteReplyById(rows, threadId, commentId, replyId).value, threadId, commentId, replyId)
         == DeleteReplyById(rows, threadId, commentId, replyId)
  {
    var once := DeleteReplyById(rows, threadId, commentId, replyId).value;
    var i :| 0 <= i < |rows| && DeleteMatches(rows[i], threadId, commentId, replyId);
    assert DeleteMatches(once[i], threadId, commentId, replyId);
    var twice := DeleteReplyById(once, threadId, commentId, replyId).value;
    forall k | 0 <= k < |rows| ensures twice[k] == once[k] {
      if DeleteMatches(rows[k], threadId, commentId, replyId) {
        assert once[k].isDeleted && DeleteMatches(once[k], threadId, commentId, replyId);
      }
    }
    assert twice == once;
  }
}
