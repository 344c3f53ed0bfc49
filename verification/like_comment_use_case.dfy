/** LikeCommentUseCase: validate the payload, check the thread and the
    comment, then toggle the caller's like: remove it when one exists, add
    one otherwise. */
module LikeCommentUseCase {
  import opened Wrappers
  import opened JsValues
  import opened Errors
  import opened Tables
  import opened UseCaseRuns
  import PayloadChecks
  import ThreadRepository
  import Comments = CommentRepositoryPostgres
  import Likes = LikeRepositoryPostgres

  const MissingProperty := "LIKE_COMMENT_USE_CASE.NOT_CONTAIN_NEEDED_PROPERTY"
  const WrongType := "LIKE_COMMENT_USE_CASE.PAYLOAD_NOT_MEET_DATA_TYPE_SPECIFICATION"

  /** The validated payload: thread id, comment id, owner. */
  function Validate(p: Object): (r: Result<seq<string>, Error>)
    ensures r.Ok? ==>
      && |r.value| == 3
      && Get(p, "threadId") == Str(r.value[0])
      && Get(p, "commentId") == Str(r.value[1])
      && Get(p, "owner") == Str(r.value[2])
    ensures r.Ok? <==> forall k | k in ["threadId", "commentId", "owner"] :: Get(p, k).Str? && Get(p, k).s != ""
    ensures r.Err? ==> r.error == Thrown(MissingProperty) || r.error == Thrown(WrongType)
    ensures !Truthy(Get(p, "threadId")) || !Truthy(Get(p, "commentId")) || !Truthy(Get(p, "owner"))
      ==> r == Err(Thrown(MissingProperty))
    ensures Truthy(Get(p, "threadId")) && Truthy(Get(p, "commentId")) && Truthy(Get(p, "owner"))
         && (!Get(p, "threadId").Str? || !Get(p, "commentId").Str? || !Get(p, "owner").Str?)
      ==> r == Err(Thrown(WrongType))
  {
    var keys := ["threadId", "commentId", "owner"];
    assert Get(p, keys[0]) == Get(p, "threadId") && Get(p, keys[1]) == Get(p, "commentId")
      && Get(p, keys[2]) == Get(p, "owner");
    assert forall k | k in keys :: exists i | 0 <= i < 3 :: keys[i] == k;
    PayloadChecks.RequireStrings(p, keys, MissingProperty, WrongType)
  }

  /** The like table after the toggle of (commentId, owner). */
  function Toggle(likes: seq<LikeRow>, commentId: string, owner: string, suffix: string): (r: seq<LikeRow>)
    ensures Likes.LikeCount(r, commentId, owner) == if Likes.LikeCount(likes, commentId, owner) == 0 then 1 else 0
    ensures forall c, o | c != commentId || o != owner :: Likes.LikeCount(r, c, o) == Likes.LikeCount(likes, c, o)
  {
    if Likes.IsLikeExist(likes, commentId, owner) != 0 then
      var r := Likes.DeleteLike(likes, commentId, owner);
      assert forall c, o | c != commentId || o != owner :: Likes.LikeCount(r, c, o) == Likes.LikeCount(likes, c, o) by {
        forall c, o | c != commentId || o != owner ensures Likes.LikeCount(r, c, o) == Likes.LikeCount(likes, c, o) {
          Likes.DeleteLikeKeepsOthers(likes, commentId, owner, c, o);
        }
      }
      r
    else
      var r := Likes.AddLike(likes, commentId, owner, suffix);
      assert forall c, o | c != commentId || o != owner :: Likes.LikeCount(r, c, o) == Likes.LikeCount(likes, c, o) by {
        forall c, o | c != commentId || o != owner ensures Likes.LikeCount(r, c, o) == Likes.LikeCount(likes, c, o) {
          Likes.AddLikeKeepsOthers(likes, commentId, owner, suffix, c, o);
        }
      }
      r
  }

  /** `execute(payload)`; `suffix` is the id generator's output, used only
      when a like is added. */
  function Execute(s: Store, p: Object, suffix: string): (r: Run<()>)
    ensures Validate(p).Err? ==> r == Run([], s, Err(Validate(p).error))
    ensures r.result.Err? ==> r.store == s
    ensures r.result.Ok? <==>
      && Validate(p).Ok?
      && Validate(p).value[0] in s.threads
      && exists i | 0 <= i < |s.comments| :: s.comments[i].id == Validate(p).value[1]
    ensures Validate(p).Ok? && Validate(p).value[0] !in s.threads ==>
      r == Run([VerifyAvailableThread(Validate(p).value[0])], s, Err(NotFound(ThreadNotFound)))
    ensures (Validate(p).Ok? && Validate(p).value[0] in s.threads
         && (forall i | 0 <= i < |s.comments| :: s.comments[i].id != Validate(p).value[1])) ==>
      r == Run([VerifyAvailableThread(Validate(p).value[0]), VerifyAvailableComment(Validate(p).value[1])],
               s, Err(NotFound(CommentNotFound)))
    ensures r.result.Ok? ==>
      var v := Validate(p).value;
      var before := Likes.LikeCount(s.likes, v[1], v[2]);
      && r.store == s.(likes := r.store.likes)
      && Likes.LikeCount(r.store.likes, v[1], v[2]) == (if before == 0 then 1 else 0)
      && (forall c, o | c != v[1] || o != v[2] :: Likes.LikeCount(r.store.likes, c, o) == Likes.LikeCount(s.likes, c, o))
      && r.trace == [VerifyAvailableThread(v[0]), VerifyAvailableComment(v[1]), IsLikeExist(v[1], v[2]),
                     if before == 0 then AddLike(v[1], v[2]) else DeleteLike(v[1], v[2])]
  {
    match Validate(p)
    case Err(e) => Run([], s, Err(e))
    case Ok(v) =>
      var threadId, commentId, owner := v[0], v[1], v[2];
      match ThreadRepository.VerifyAvailableThread(s.threads, threadId)
      case Err(e) => Run([VerifyAvailableThread(threadId)], s, Err(e))
      case Ok(_) =>
        var checks := [VerifyAvailableThread(threadId), VerifyAvailableComment(commentId)];
        match Comments.VerifyAvailableComment(s.comments, commentId)
        case Err(e) => Run(checks, s, Err(e))
        case Ok(_) =>
          var last := if Likes.IsLikeExist(s.likes, commentId, owner) != 0 then DeleteLike(commentId, owner) else AddLike(commentId, owner);
          Run(checks + [IsLikeExist(commentId, owner), last],
              s.(likes := Toggle(s.likes, commentId, owner, suffix)), Ok(()))
  }

  /** Deleting a like that does not exist leaves the table as it was. */
  lemma {:induction false} DeleteAbsentLike(rows: seq<LikeRow>, commentId: string, owner: string)
    requires Likes.LikeCount(rows, commentId, owner) == 0
    ensures Likes.DeleteLike(rows, commentId, owner) == rows
    decreases |rows|
  {
    if rows != [] {
      var init := rows[..|rows| - 1];
      assert rows == init + [rows[|rows| - 1]];
      DeleteAbsentLike(init, commentId, owner);
    }
  }

  /** Liking then unliking: from a state with no like, two toggles return
      the like table to exactly what it was. */
  lemma LikeThenUnlikeRestores(s: Store, p: Object, suffix1: string, suffix2: string)
    requires Execute(s, p, suffix1).result.Ok?
    requires Likes.LikeCount(s.likes, Validate(p).value[1], Validate(p).value[2]) == 0
    ensures Execute(Execute(s, p, suffix1).store, p, suffix2).result.Ok?
    ensures Execute(Execute(s, p, suffix1).store, p, suffix2).store == s
  {
    var v := Validate(p).value;
    var added := s.likes + [LikeRow(Likes.IdPrefix + suffix1, v[1], v[2])];
    assert Execute(s, p, suffix1).store.likes == added;
    assert added[..|s.likes|] == s.likes;
    DeleteAbsentLike(s.likes, v[1], v[2]);
  }

  /** Unliking then liking: from a state with exactly one like, two toggles
      bring the count back to one. */
  lemma UnlikeThenLikeRestoresCount(s: Store, p: Object, suffix1: string, suffix2: string)
    requires Execute(s, p, suffix1).result.Ok?
    requires Likes.LikeCount(s.likes, Validate(p).value[1], Validate(p).value[2]) == 1
    ensures var s2 := Execute(Execute(s, p, suffix1).store, p, suffix2);
      && s2.result.Ok?
      && forall c, o :: Likes.LikeCount(s2.store.likes, c, o) == Likes.LikeCount(s.likes, c, o)
  {
  }

  /** At most one like per user and comment: the invariant the toggle
      exists to keep. */
  ghost predicate AtMostOneLike(likes: seq<LikeRow>) {
    forall c, o :: Likes.LikeCount(likes, c, o) <= 1
  }

  /** Every run, successful or not, preserves the invariant. */
  lemma ToggleKeepsAtMostOne(s: Store, p: Object, suffix: string)
    requires AtMostOneLike(s.likes)
    ensures AtMostOneLike(Execute(s, p, suffix).store.likes)
  {
    var r := Execute(s, p, suffix);
    if r.result.Ok? {
      var v := Validate(p).value;
      forall c, o ensures Likes.LikeCount(r.store.likes, c, o) <= 1 {
        if c != v[1] || o != v[2] {
          assert Likes.LikeCount(r.store.likes, c, o) == Likes.LikeCount(s.likes, c, o);
        }
      }
    }
  }
}
