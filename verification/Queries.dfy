/** The read-only listing queries: the board page, the recommended page and the
    comment rows of one post. Each `ORDER BY id` walks the table's id range. */
module Queries {
  import opened Common
  import opened Schema
  import opened Statements
  import opened CommentTree

  // ---------------------------------------------------------------- LIMIT / OFFSET

  /** SQLite's `LIMIT limit OFFSET offset`: a negative offset skips nothing and a
      negative limit sets no bound. */
  function Window<T>(rows: seq<T>, offset: int, limit: int): (w: seq<T>)
    ensures var start := if offset < 0 then 0 else offset;
      && (start <= |rows| ==> |w| == (if 0 <= limit < |rows| - start then limit else |rows| - start))
      && (start > |rows| ==> w == [])
      && forall i :: 0 <= i < |w| ==> start + i < |rows| && w[i] == rows[start + i]
  {
    var start := if offset < 0 then 0 else if offset > |rows| then |rows| else offset;
    var rest := rows[start..];
    if limit < 0 || limit >= |rest| then rest else rest[..limit]
  }

  // ---------------------------------------------------------------- board listing

  /** One row of a listing: the post columns, the caller's active vote type
      (`user_vote`) and the post's promotion time (`promoted_at`). */
  datatype ListedPost = ListedPost(
    id: int, ip: string, author: string, title: string, likes: int, dislikes: int,
    time: int, views: int, userVote: Option<VoteType>, promotedAt: Option<int>)

  function Listed(p: Post, id: int, userVote: Option<VoteType>, promotedAt: Option<int>): ListedPost
  {
    ListedPost(id, p.ip, p.author, p.title, p.likes, p.dislikes, p.time, p.views, userVote, promotedAt)
  }

  /** The `promoted_at` the LEFT JOIN on recommended_posts finds for a post,
      scanning recommendation ids from `hi` down. */
  function PromotedAtBelow(recommended: map<int, Recommendation>, postId: int, hi: int): (r: Option<int>)
    decreases hi
    ensures r.Some? ==> exists k :: (1 <= k <= hi && k in recommended
      && recommended[k].postId == postId && recommended[k].promotedAt == r.value)
    ensures r.None? ==> forall k :: 1 <= k <= hi && k in recommended ==> recommended[k].postId != postId
  {
    if hi < 1 then None
    else if hi in recommended && recommended[hi].postId == postId then Some(recommended[hi].promotedAt)
    else PromotedAtBelow(recommended, postId, hi - 1)
  }

  function PromotedAt(t: Tables, postId: int): Option<int>
  {
    PromotedAtBelow(t.recommended, postId, t.nextRecommendationId - 1)
  }

  /** The LEFT JOIN on recommended_posts finds the post's row exactly when the
      post is recommended, and then its `promoted_at`. */
  lemma PromotedAtIsJoin(t: Tables, postId: int)
    requires WellFormed(t)
    ensures PromotedAt(t, postId).None? <==> postId !in RecommendedPostIds(t.recommended)
    ensures PromotedAt(t, postId).Some? ==> exists k :: (k in t.recommended
      && t.recommended[k] == Recommendation(postId, PromotedAt(t, postId).value))
  {
    if postId in RecommendedPostIds(t.recommended) {
      var k :| k in t.recommended && t.recommended[k].postId == postId;
      assert 1 <= k <= t.nextRecommendationId - 1;
    }
  }

  /** The board row of a post: its columns, the caller's vote, its promotion. */
  function BoardRow(t: Tables, id: int, ip: string): ListedPost
    requires id in t.posts
  {
    Listed(t.posts[id], id, CurrentVote(t, id, ip), PromotedAt(t, id))
  }

  /** `FROM posts WHERE status = 1 ORDER BY id DESC`, over the ids in [1, hi]. */
  function BoardListingBelow(t: Tables, hi: int, ip: string): (rows: seq<ListedPost>)
    decreases hi
    ensures forall i :: 0 <= i < |rows| ==>
      1 <= rows[i].id <= hi && PostIsActive(t, rows[i].id) && rows[i] == BoardRow(t, rows[i].id, ip)
    ensures forall i, j :: 0 <= i < j < |rows| ==> rows[i].id > rows[j].id
  {
    if hi < 1 then []
    else (if PostIsActive(t, hi) then [BoardRow(t, hi, ip)] else []) + BoardListingBelow(t, hi - 1, ip)
  }

  /** Every active post with an id in [1, hi] has its row in the listing. */
  lemma {:induction false} BoardListingBelowComplete(t: Tables, hi: int, ip: string, id: int) returns (n: nat)
    requires 1 <= id <= hi && PostIsActive(t, id)
    ensures n < |BoardListingBelow(t, hi, ip)| && BoardListingBelow(t, hi, ip)[n].id == id
    decreases hi
  {
    var head := if PostIsActive(t, hi) then [BoardRow(t, hi, ip)] else [];
    if id == hi {
      n := 0;
    } else {
      var m := BoardListingBelowComplete(t, hi - 1, ip, id);
      n := |head| + m;
    }
  }

  function BoardListing(t: Tables, ip: string): seq<ListedPost>
  {
    BoardListingBelow(t, t.nextPostId - 1, ip)
  }

  /** `getBoardPosts(page, limit, clientIP)`. */
  function BoardPosts(t: Tables, page: int, limit: int, ip: string): seq<ListedPost>
  {
    Window(BoardListing(t, ip), (page - 1) * limit, limit)
  }

  /** The rows of a board page: active posts only, each with its own columns,
      the caller's active vote and its promotion time; ids strictly falling;
      at most `limit` of them when a limit is set. */
  predicate IsBoardPage(t: Tables, rows: seq<ListedPost>, limit: int, ip: string)
  {
    && (forall i :: 0 <= i < |rows| ==>
          var id := rows[i].id;
          && PostIsActive(t, id)
          && rows[i] == Listed(t.posts[id], id, CurrentVote(t, id, ip), PromotedAt(t, id)))
    && (forall i, j :: 0 <= i < j < |rows| ==> rows[i].id > rows[j].id)
    && (limit >= 0 ==> |rows| <= limit)
  }

  /** Any window of the board listing is a board page. */
  lemma BoardWindowShape(t: Tables, offset: int, limit: int, ip: string)
    ensures IsBoardPage(t, Window(BoardListing(t, ip), offset, limit), limit, ip)
  {
    WindowKeepsOrder(BoardListing(t, ip), offset, limit);
  }

  /** `getBoardPosts` answers a board page: the slice of the full listing that
      starts after `(page - 1) * limit` rows. */
  lemma BoardPostsShape(t: Tables, page: int, limit: int, ip: string)
    ensures IsBoardPage(t, BoardPosts(t, page, limit, ip), limit, ip)
  {
    BoardWindowShape(t, (page - 1) * limit, limit, ip);
  }

  /** A window is an in-order slice: its rows come from the input, and rows
      with falling ids keep falling. */
  lemma WindowKeepsOrder(rows: seq<ListedPost>, offset: int, limit: int)
    requires forall i, j :: 0 <= i < j < |rows| ==> rows[i].id > rows[j].id
    ensures var w := Window(rows, offset, limit);
      && (forall i :: 0 <= i < |w| ==> w[i] in rows)
      && (forall i, j :: 0 <= i < j < |w| ==> w[i].id > w[j].id)
  {
    var w := Window(rows, offset, limit);
    var start := if offset < 0 then 0 else offset;
    forall i, j | 0 <= i < j < |w| ensures w[i].id > w[j].id {
      assert w[i] == rows[start + i] && w[j] == rows[start + j];
    }
  }

  /** Position `n` of a listing cut into pages of `limit` rows is row `i` of
      page `page`. */
  lemma PageOfPosition(n: nat, limit: int) returns (page: int, i: int)
    requires limit >= 1
    ensures page >= 1 && 0 <= i < limit && (page - 1) * limit + i == n
  {
    page := n / limit + 1;
    i := n % limit;
  }

  /** Row `i` of page `page` is row `(page - 1) * limit + i` of the listing. */
  lemma WindowAt<T>(all: seq<T>, page: int, limit: int, i: int)
    requires page >= 1 && 0 <= i < limit && (page - 1) * limit + i < |all|
    ensures i < |Window(all, (page - 1) * limit, limit)|
    ensures Window(all, (page - 1) * limit, limit)[i] == all[(page - 1) * limit + i]
  {
    var offset := (page - 1) * limit;
    assert offset >= 0 by { assert page - 1 >= 0 && limit >= 0; }
  }

  /** With a positive page size, every active post shows up on some page:
      the one its position in the full listing falls in. */
  lemma BoardPagesCoverActivePosts(t: Tables, limit: int, ip: string, id: int)
    requires WellFormed(t) && limit >= 1
    requires PostIsActive(t, id)
    ensures exists page, i :: (page >= 1 && 0 <= i < |BoardPosts(t, page, limit, ip)|
      && BoardPosts(t, page, limit, ip)[i].id == id)
  {
    assert 1 <= id < t.nextPostId;
    var n := BoardListingBelowComplete(t, t.nextPostId - 1, ip, id);
    var page, i := PageOfPosition(n, limit);
    WindowAt(BoardListing(t, ip), page, limit, i);
    assert BoardPosts(t, page, limit, ip)[i].id == id;
  }

  // ---------------------------------------------------------------- recommended listing

  /** The recommendation row survives the INNER JOIN and the status filter. */
  predicate RecommendationIsListed(t: Tables, r: int)
  {
    r in t.recommended && PostIsActive(t, t.recommended[r].postId)
  }

  /** The recommendation ids in [1, hi] that are listed, highest first
      (`ORDER BY rp.id DESC`). */
  function RecommendationIdsBelow(t: Tables, hi: int): (rs: seq<int>)
    decreases hi
    ensures forall i :: 0 <= i < |rs| ==> 1 <= rs[i] <= hi && RecommendationIsListed(t, rs[i])
    ensures forall i, j :: 0 <= i < j < |rs| ==> rs[i] > rs[j]
  {
    if hi < 1 then []
    else (if RecommendationIsListed(t, hi) then [hi] else []) + RecommendationIdsBelow(t, hi - 1)
  }

  /** Every listed recommendation id in [1, hi] is among them. */
  lemma {:induction false} RecommendationIdsBelowComplete(t: Tables, hi: int, r: int)
    requires 1 <= r <= hi && RecommendationIsListed(t, r)
    ensures r in RecommendationIdsBelow(t, hi)
    decreases hi
  {
    if r != hi {
      RecommendationIdsBelowComplete(t, hi - 1, r);
    }
  }

  function RecommendationIds(t: Tables): seq<int>
  {
    RecommendationIdsBelow(t, t.nextRecommendationId - 1)
  }

  /** The row of a recommendation: the post's columns, the caller's vote and
      that recommendation's `promoted_at`. */
  function RecommendedRow(t: Tables, r: int, ip: string): ListedPost
    requires RecommendationIsListed(t, r)
  {
    var rec := t.recommended[r];
    Listed(t.posts[rec.postId], rec.postId, CurrentVote(t, rec.postId, ip), Some(rec.promotedAt))
  }

  function RecommendedRows(t: Tables, rs: seq<int>, ip: string): (rows: seq<ListedPost>)
    requires forall i :: 0 <= i < |rs| ==> RecommendationIsListed(t, rs[i])
    ensures |rows| == |rs|
    ensures forall i :: 0 <= i < |rs| ==> rows[i] == RecommendedRow(t, rs[i], ip)
  {
    if rs == [] then [] else [RecommendedRow(t, rs[0], ip)] + RecommendedRows(t, rs[1..], ip)
  }

  function RecommendedListing(t: Tables, ip: string): seq<ListedPost>
  {
    RecommendedRows(t, RecommendationIds(t), ip)
  }

  /** `getRecommendedPosts(page, limit, clientIP)`, the definition at the end of
      the class (it replaces the earlier one of the same name). */
  function RecommendedPosts(t: Tables, page: int, limit: int, ip: string): seq<ListedPost>
  {
    Window(RecommendedListing(t, ip), (page - 1) * limit, limit)
  }

  /** The rows of a recommended page cut from the recommendation ids `rs` at
      position `start`: row `i` is the post of recommendation `rs[start + i]`,
      active, with the caller's vote and that recommendation's promotion time;
      the recommendation ids fall; at most `limit` rows when a limit is set;
      and, with one recommendation row per post, no post is listed twice. */
  predicate IsRecommendedPage(t: Tables, rows: seq<ListedPost>, rs: seq<int>, start: int, limit: int, ip: string)
  {
    && (forall i :: 0 <= i < |rows| ==>
          && 0 <= start + i < |rs| && rs[start + i] in t.recommended
          && var rec := t.recommended[rs[start + i]];
          && rows[i].id == rec.postId && rows[i].promotedAt == Some(rec.promotedAt)
          && PostIsActive(t, rec.postId)
          && rows[i] == Listed(t.posts[rec.postId], rec.postId, CurrentVote(t, rec.postId, ip), Some(rec.promotedAt)))
    && (forall a, b :: start <= a < b < start + |rows| && 0 <= a && b < |rs| ==> rs[a] > rs[b])
    && (limit >= 0 ==> |rows| <= limit)
    && (UniqueRecommendations(t.recommended) ==>
          forall i, j :: 0 <= i < j < |rows| ==> rows[i].id != rows[j].id)
  }

  /** Any window of the recommended listing is a recommended page. */
  lemma RecommendedWindowShape(t: Tables, offset: int, limit: int, ip: string)
    ensures var start := if offset < 0 then 0 else offset;
      IsRecommendedPage(t, Window(RecommendedListing(t, ip), offset, limit), RecommendationIds(t), start, limit, ip)
  {
    var rows := Window(RecommendedListing(t, ip), offset, limit);
    var rs := RecommendationIds(t);
    var all := RecommendedListing(t, ip);
    var start := if offset < 0 then 0 else offset;
    forall i | 0 <= i < |rows|
      ensures start + i < |rs| && rows[i] == RecommendedRow(t, rs[start + i], ip)
    {
      assert rows[i] == all[start + i];
    }
    if UniqueRecommendations(t.recommended) {
      forall i, j | 0 <= i < j < |rows| ensures rows[i].id != rows[j].id {
        assert rs[start + i] > rs[start + j];
      }
    }
  }

  /** `getRecommendedPosts` answers a recommended page cut after
      `(page - 1) * limit` recommendation rows. */
  lemma RecommendedPostsShape(t: Tables, page: int, limit: int, ip: string)
    ensures var start := if (page - 1) * limit < 0 then 0 else (page - 1) * limit;
      IsRecommendedPage(t, RecommendedPosts(t, page, limit, ip), RecommendationIds(t), start, limit, ip)
  {
    RecommendedWindowShape(t, (page - 1) * limit, limit, ip);
  }

  /** A recommendation row is listed exactly when its post is active. */
  lemma RecommendedListingComplete(t: Tables, r: int)
    requires WellFormed(t)
    requires r in t.recommended
    ensures r in RecommendationIds(t) <==> PostIsActive(t, t.recommended[r].postId)
  {
    if PostIsActive(t, t.recommended[r].postId) {
      RecommendationIdsBelowComplete(t, t.nextRecommendationId - 1, r);
    }
  }

  // ---------------------------------------------------------------- comments of a post

  /** `getComments(postId)` over the ids in [1, hi]: the id and parent of the
      post's active comments, lowest id first. */
  function CommentRowsUpTo(t: Tables, postId: int, hi: int): (rows: seq<CommentRow>)
    decreases hi
    ensures forall i :: 0 <= i < |rows| ==>
      1 <= rows[i].id <= hi && CommentIsActiveOn(t, rows[i].id, postId)
      && rows[i].parentId == t.comments[rows[i].id].parentId
    ensures forall i, j :: 0 <= i < j < |rows| ==> rows[i].id < rows[j].id
  {
    if hi < 1 then []
    else
      var own := if CommentIsActiveOn(t, hi, postId) then [CommentRow(hi, t.comments[hi].parentId)] else [];
      CommentRowsUpTo(t, postId, hi - 1) + own
  }

  /** Every active comment of the post with an id in [1, hi] has its row. */
  lemma {:induction false} CommentRowsUpToComplete(t: Tables, postId: int, hi: int, id: int)
    requires 1 <= id <= hi && CommentIsActiveOn(t, id, postId)
    ensures id in Ids(CommentRowsUpTo(t, postId, hi))
    decreases hi
  {
    var rows := CommentRowsUpTo(t, postId, hi);
    if id == hi {
      assert rows[|rows| - 1].id == id;
    } else {
      var init := CommentRowsUpTo(t, postId, hi - 1);
      CommentRowsUpToComplete(t, postId, hi - 1, id);
      var i :| 0 <= i < |init| && init[i].id == id;
      assert rows[i] == init[i];
    }
  }

  function CommentRows(t: Tables, postId: int): seq<CommentRow>
  {
    CommentRowsUpTo(t, postId, t.nextCommentId - 1)
  }

  /** The comment rows are exactly the post's active comments, each once. */
  lemma CommentRowsAreActiveComments(t: Tables, postId: int)
    requires WellFormed(t)
    ensures var rows := CommentRows(t, postId);
      && UniqueIds(rows)
      && forall id :: id in Ids(rows) <==> CommentIsActiveOn(t, id, postId)
  {
    var rows := CommentRows(t, postId);
    forall id | CommentIsActiveOn(t, id, postId) ensures id in Ids(rows) {
      CommentRowsUpToComplete(t, postId, t.nextCommentId - 1, id);
    }
  }
}
