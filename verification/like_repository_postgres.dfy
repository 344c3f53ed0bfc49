/** The like repository over the `likes` table. A like is a (comment, owner)
    pair; nothing in the table prevents duplicates. */
module LikeRepositoryPostgres {
  import opened Tables

  /** Like ids are this prefix followed by the id generator's output. */
  const IdPrefix := "like-"

  predicate Matches(row: LikeRow, commentId: string, owner: string) {
    row.commentId == commentId && row.owner == owner
  }

  /** The number of rows `SELECT * FROM likes WHERE comment_id = $1 AND
      owner = $2` returns. */
  function LikeCount(rows: seq<LikeRow>, commentId: string, owner: string): (r: nat)
    ensures r <= |rows|
    ensures r == 0 <==> forall i | 0 <= i < |rows| :: !Matches(rows[i], commentId, owner)
  {
    if rows == [] then 0
    else LikeCount(rows[..|rows| - 1], commentId, owner)
         + (if Matches(rows[|rows| - 1], commentId, owner) then 1 else 0)
  }

  /** The positions of the matching rows. */
  function MatchingRows(rows: seq<LikeRow>, commentId: string, owner: string): set<int> {
    set i | 0 <= i < |rows| && Matches(rows[i], commentId, owner)
  }

  /** The recursive count is the number of matching positions. */
  lemma {:induction false} LikeCountIsMatchingRows(rows: seq<LikeRow>, commentId: string, owner: string)
    ensures LikeCount(rows, commentId, owner) == |MatchingRows(rows, commentId, owner)|
    decreases |rows|
  {
    if rows != [] {
      var n := |rows| - 1;
      var init := rows[..n];
      LikeCountIsMatchingRows(init, commentId, owner);
      var before := MatchingRows(init, commentId, owner);
      assert forall i | 0 <= i < n :: rows[i] == init[i];
      assert n !in before;
      if Matches(rows[n], commentId, owner) {
        assert MatchingRows(rows, commentId, owner) == before + {n};
      } else {
        assert MatchingRows(rows, commentId, owner) == before;
      }
    }
  }

  /** `isLikeExist`: the row count, which the caller treats as a boolean. */
  function IsLikeExist(rows: seq<LikeRow>, commentId: string, owner: string): (r: nat)
    ensures r == |set i | 0 <= i < |rows| && Matches(rows[i], commentId, owner)|
    ensures r == 0 <==> forall i | 0 <= i < |rows| :: !Matches(rows[i], commentId, owner)
  {
    LikeCountIsMatchingRows(rows, commentId, owner);
    LikeCount(rows, commentId, owner)
  }

  /** `addLike`: appends one row with a fresh id. */
  function AddLike(rows: seq<LikeRow>, commentId: string, owner: string, suffix: string): (r: seq<LikeRow>)
    ensures r == rows + [LikeRow(IdPrefix + suffix, commentId, owner)]
    ensures LikeCount(r, commentId, owner) == LikeCount(rows, commentId, owner) + 1
  {
    rows + [LikeRow(IdPrefix + suffix, commentId, owner)]
  }

  /** `deleteLike`: removes every matching row, keeping the rest in order.
      It resolves whether or not a row matched. */
  function DeleteLike(rows: seq<LikeRow>, commentId: string, owner: string): (r: seq<LikeRow>)
    ensures forall row :: row in r <==> row in rows && !Matches(row, commentId, owner)
    ensures LikeCount(r, commentId, owner) == 0
    ensures |r| == |rows| - LikeCount(rows, commentId, owner)
  {
    if rows == [] then []
    else
      var init := rows[..|rows| - 1];
      var last := rows[|rows| - 1];
      assert rows == init + [last];
      var kept := DeleteLike(init, commentId, owner);
      if Matches(last, commentId, owner) then kept
      else
        assert (kept + [last])[..|kept|] == kept;
        kept + [last]
  }

  /** Adding a like leaves every other user's and comment's count alone. */
  lemma AddLikeKeepsOthers(rows: seq<LikeRow>, commentId: string, owner: string, suffix: string, c: string, o: string)
    requires c != commentId || o != owner
    ensures LikeCount(AddLike(rows, commentId, owner, suffix), c, o) == LikeCount(rows, c, o)
  {
    assert AddLike(rows, commentId, owner, suffix)[..|rows|] == rows;
  }

  /** Deleting a like leaves every other user's and comment's count alone. */
  lemma {:induction false} DeleteLikeKeepsOthers(rows: seq<LikeRow>, commentId: string, owner: string, c: string, o: string)
    requires c != commentId || o != owner
    ensures LikeCount(DeleteLike(rows, commentId, owner), c, o) == LikeCount(rows, c, o)
    decreases |rows|
  {
    if rows != [] {
      var init := rows[..|rows| - 1];
      var last := rows[|rows| - 1];
      var kept := DeleteLike(init, commentId, owner);
      DeleteLikeKeepsOthers(init, commentId, owner, c, o);
      if !Matches(last, commentId, owner) {
        assert (kept + [last])[..|kept|] == kept;
      }
    }
  }
}
