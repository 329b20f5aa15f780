/** The four tables of the board's database, as values, with the constraints
    their schemas declare and the ones the request handlers keep. */
module Schema {
  import opened Common

  /** The `status` column value of a live row; soft-deleted rows hold 0. */
  const ACTIVE: int := 1
  const INACTIVE: int := 0

  /** `CHECK(type IN ('like', 'dislike'))` is the type itself. */
  datatype VoteType = Like | Dislike

  datatype Post = Post(
    ip: string, time: int, author: string, title: string, content: string,
    likes: int, dislikes: int, views: int, status: int)

  /** `parentId` None is SQL NULL: a comment on the post itself. */
  datatype Comment = Comment(
    ip: string, time: int, postId: int, parentId: Option<int>,
    author: string, content: string, status: int)

  /** `UNIQUE(post_id, ip)`: the votes table is keyed by this pair, so it holds
      at most one row per pair whatever the row's status. */
  datatype VoteKey = VoteKey(postId: int, ip: string)
  datatype VoteRow = VoteRow(time: int, kind: VoteType, status: int)

  datatype Recommendation = Recommendation(postId: int, promotedAt: int)

  /** posts, comments and recommended_posts are keyed by their AUTOINCREMENT id;
      the next id each of them hands out is kept beside it. */
  datatype Tables = Tables(
    posts: map<int, Post>,
    comments: map<int, Comment>,
    votes: map<VoteKey, VoteRow>,
    recommended: map<int, Recommendation>,
    nextPostId: int,
    nextCommentId: int,
    nextRecommendationId: int)

  /** The tables right after `initTables` on a fresh database file. */
  function EmptyTables(): (t: Tables)
    ensures WellFormed(t) && CountersMatch(t)
  {
    Tables(map[], map[], map[], map[], 1, 1, 1)
  }

  /** The post_id values of recommended_posts. */
  function RecommendedPostIds(recommended: map<int, Recommendation>): set<int>
  {
    set r | r in recommended :: recommended[r].postId
  }

  /** `post_id INTEGER NOT NULL UNIQUE` of recommended_posts. */
  predicate UniqueRecommendations(recommended: map<int, Recommendation>)
  {
    forall r1, r2 :: r1 in recommended && r2 in recommended && r1 != r2 ==>
      recommended[r1].postId != recommended[r2].postId
  }

  /** Every stored id was handed out by its table's counter; recommended posts
      are unique and name stored posts; every vote and comment names a stored
      post; a comment's parent is an earlier comment on the same post. */
  predicate WellFormed(t: Tables)
  {
    && t.nextPostId >= 1 && t.nextCommentId >= 1 && t.nextRecommendationId >= 1
    && (forall id :: id in t.posts ==> 1 <= id < t.nextPostId)
    && (forall id :: id in t.comments ==> 1 <= id < t.nextCommentId)
    && (forall r :: r in t.recommended ==> 1 <= r < t.nextRecommendationId)
    && UniqueRecommendations(t.recommended)
    && (forall r :: r in t.recommended ==> t.recommended[r].postId in t.posts)
    && (forall k :: k in t.votes ==> k.postId in t.posts)
    && (forall id :: id in t.comments ==> t.comments[id].postId in t.posts)
    && (forall id :: id in t.comments && t.comments[id].parentId.Some? ==>
          ParentIsEarlierOnSamePost(t.comments, id))
  }

  predicate ParentIsEarlierOnSamePost(comments: map<int, Comment>, id: int)
    requires id in comments && comments[id].parentId.Some?
  {
    var p := comments[id].parentId.value;
    p in comments && p < id && comments[p].postId == comments[id].postId
  }

  // ---------------------------------------------------------------- vote tallies

  /** The keys of the active rows of the given type for the given post. */
  function Matching(votes: map<VoteKey, VoteRow>, postId: int, kind: VoteType): set<VoteKey>
  {
    set k | k in votes && k.postId == postId && votes[k].status == ACTIVE && votes[k].kind == kind
  }

  /** How many active votes of the given type the post has. */
  function Tally(votes: map<VoteKey, VoteRow>, postId: int, kind: VoteType): nat
  {
    |Matching(votes, postId, kind)|
  }

  /** Each post's `likes` and `dislikes` columns equal its active vote counts. */
  predicate CountersMatch(t: Tables)
  {
    forall id :: id in t.posts ==>
      t.posts[id].likes == Tally(t.votes, id, Like) && t.posts[id].dislikes == Tally(t.votes, id, Dislike)
  }

  /** 1 when the row under `key` counts towards the tally, else 0. */
  function Counts(votes: map<VoteKey, VoteRow>, key: VoteKey, postId: int, kind: VoteType): int
  {
    if key in votes && key.postId == postId && votes[key].status == ACTIVE && votes[key].kind == kind
    then 1 else 0
  }

  /** Writing one row moves a tally by what the row counted before and after. */
  lemma TallyAfterWrite(votes: map<VoteKey, VoteRow>, key: VoteKey, row: VoteRow, postId: int, kind: VoteType)
    ensures Tally(votes[key := row], postId, kind) ==
      Tally(votes, postId, kind) - Counts(votes, key, postId, kind) + Counts(votes[key := row], key, postId, kind)
  {
    var before := Matching(votes, postId, kind);
    var after := Matching(votes[key := row], postId, kind);
    forall k | k != key ensures k in before <==> k in after {
      assert k in votes <==> k in votes[key := row];
    }
    assert after - {key} == before - {key};
    CardinalityWithout(before, key);
    CardinalityWithout(after, key);
  }

  lemma CardinalityWithout<T>(s: set<T>, x: T)
    ensures |s| == |s - {x}| + (if x in s then 1 else 0)
  {
    if x in s {
      assert s == (s - {x}) + {x};
    } else {
      assert s - {x} == s;
    }
  }

  /** A post that no vote row names has no votes. */
  lemma TallyOfUnvotedPost(votes: map<VoteKey, VoteRow>, postId: int, kind: VoteType)
    requires forall k :: k in votes ==> k.postId != postId
    ensures Tally(votes, postId, kind) == 0
  {
    assert Matching(votes, postId, kind) == {};
  }
}
