/** The SQL statements the handlers issue, one function per statement, each
    giving the tables after the statement (and what the driver hands back). */
module Statements {
  import opened Common
  import opened Schema

  // ---------------------------------------------------------------- reads

  /** `checkPost` / part of `getPost`: the post exists and is not soft-deleted. */
  predicate PostIsActive(t: Tables, postId: int)
  {
    postId in t.posts && t.posts[postId].status == ACTIVE
  }

  /** `checkComment`: the comment exists, belongs to the post, is not deleted. */
  predicate CommentIsActiveOn(t: Tables, commentId: int, postId: int)
  {
    commentId in t.comments && t.comments[commentId].postId == postId
    && t.comments[commentId].status == ACTIVE
  }

  /** `getCurrentVote`: the type of the caller's active vote on the post. */
  function CurrentVote(t: Tables, postId: int, ip: string): Option<VoteType>
  {
    var key := VoteKey(postId, ip);
    if key in t.votes && t.votes[key].status == ACTIVE then Some(t.votes[key].kind) else None
  }

  /** `getPost`: the active post with that id. */
  function GetPost(t: Tables, postId: int): Option<Post>
  {
    if PostIsActive(t, postId) then Some(t.posts[postId]) else None
  }

  /** `getVoteCounts`: likes and dislikes of the post, whatever its status. */
  function GetVoteCounts(t: Tables, postId: int): Option<(int, int)>
  {
    if postId in t.posts then Some((t.posts[postId].likes, t.posts[postId].dislikes)) else None
  }

  // ---------------------------------------------------------------- writes

  /** `insertPost`: a new active post with zero counters; returns `lastID`. */
  function InsertPost(t: Tables, ip: string, author: string, title: string, content: string, now: int): (r: (int, Tables))
    ensures r.0 == t.nextPostId && r.1.nextPostId == r.0 + 1
    ensures r.1.posts.Keys == t.posts.Keys + {r.0}
    ensures r.1.posts[r.0] == Post(ip, now, author, title, content, 0, 0, 0, ACTIVE)
    ensures forall id :: id in t.posts && id != r.0 ==> r.1.posts[id] == t.posts[id]
    ensures r.1 == t.(posts := r.1.posts, nextPostId := r.1.nextPostId)
  {
    var id := t.nextPostId;
    (id, t.(posts := t.posts[id := Post(ip, now, author, title, content, 0, 0, 0, ACTIVE)],
            nextPostId := id + 1))
  }

  /** `insertComment`: a new active comment; returns `lastID`. */
  function InsertComment(t: Tables, ip: string, postId: int, parentId: Option<int>,
                         author: string, content: string, now: int): (r: (int, Tables))
    ensures r.0 == t.nextCommentId && r.1.nextCommentId == r.0 + 1
    ensures r.1.comments.Keys == t.comments.Keys + {r.0}
    ensures r.1.comments[r.0] == Comment(ip, now, postId, parentId, author, content, ACTIVE)
    ensures forall id :: id in t.comments && id != r.0 ==> r.1.comments[id] == t.comments[id]
    ensures r.1 == t.(comments := r.1.comments, nextCommentId := r.1.nextCommentId)
  {
    var id := t.nextCommentId;
    (id, t.(comments := t.comments[id := Comment(ip, now, postId, parentId, author, content, ACTIVE)],
            nextCommentId := id + 1))
  }

  /** `insertVote`: a plain INSERT, so it fails (None) when the (post, ip) pair
      already has a row, whatever that row's status. */
  function InsertVote(t: Tables, postId: int, ip: string, kind: VoteType, now: int): (r: Option<Tables>)
    ensures r.None? <==> VoteKey(postId, ip) in t.votes
    ensures r.Some? ==> CurrentVote(r.value, postId, ip) == Some(kind)
    ensures r.Some? ==> r.value == t.(votes := r.value.votes) && r.value.votes.Keys == t.votes.Keys + {VoteKey(postId, ip)}
    ensures r.Some? ==> r.value.votes[VoteKey(postId, ip)] == VoteRow(now, kind, ACTIVE)
    ensures r.Some? ==> forall k :: k in t.votes ==> r.value.votes[k] == t.votes[k]
  {
    var key := VoteKey(postId, ip);
    if key in t.votes then None
    else Some(t.(votes := t.votes[key := VoteRow(now, kind, ACTIVE)]))
  }

  /** `removeVote`: the active row of the pair gets status 0 (it is not deleted). */
  function RemoveVote(t: Tables, postId: int, ip: string): (r: Tables)
    ensures CurrentVote(r, postId, ip) == None
    ensures r == t.(votes := r.votes) && r.votes.Keys == t.votes.Keys
    ensures CurrentVote(t, postId, ip).Some? ==>
      r.votes[VoteKey(postId, ip)] == t.votes[VoteKey(postId, ip)].(status := INACTIVE)
    ensures CurrentVote(t, postId, ip).None? ==> r == t
    ensures forall k :: k in t.votes && k != VoteKey(postId, ip) ==> r.votes[k] == t.votes[k]
  {
    var key := VoteKey(postId, ip);
    if key in t.votes && t.votes[key].status == ACTIVE
    then t.(votes := t.votes[key := t.votes[key].(status := INACTIVE)])
    else t
  }

  /** `updateVote`: the active row of the pair gets the new type. */
  function UpdateVote(t: Tables, postId: int, ip: string, kind: VoteType): (r: Tables)
    ensures CurrentVote(t, postId, ip).Some? ==> CurrentVote(r, postId, ip) == Some(kind)
    ensures CurrentVote(t, postId, ip).None? ==> r == t
    ensures r == t.(votes := r.votes) && r.votes.Keys == t.votes.Keys
    ensures CurrentVote(t, postId, ip).Some? ==>
      r.votes[VoteKey(postId, ip)] == t.votes[VoteKey(postId, ip)].(kind := kind)
    ensures forall k :: k in t.votes && k != VoteKey(postId, ip) ==> r.votes[k] == t.votes[k]
  {
    var key := VoteKey(postId, ip);
    if key in t.votes && t.votes[key].status == ACTIVE
    then t.(votes := t.votes[key := t.votes[key].(kind := kind)])
    else t
  }

  /** `updatePostVoteCount`: adds `change` to the likes column for a like and to
      the dislikes column otherwise; no row changes when the post is missing. */
  function AddToCounter(t: Tables, postId: int, kind: VoteType, change: int): (r: Tables)
    ensures r == t.(posts := r.posts) && r.posts.Keys == t.posts.Keys
    ensures forall id :: id in t.posts && id != postId ==> r.posts[id] == t.posts[id]
    ensures postId in t.posts ==>
      && r.posts[postId].likes == t.posts[postId].likes + (if kind == Like then change else 0)
      && r.posts[postId].dislikes == t.posts[postId].dislikes + (if kind == Dislike then change else 0)
      && r.posts[postId] == t.posts[postId].(likes := r.posts[postId].likes, dislikes := r.posts[postId].dislikes)
    ensures postId !in t.posts ==> r == t
  {
    if postId !in t.posts then t
    else
      var p := t.posts[postId];
      match kind
      case Like => t.(posts := t.posts[postId := p.(likes := p.likes + change)])
      case Dislike => t.(posts := t.posts[postId := p.(dislikes := p.dislikes + change)])
  }

  /** `incrementPostViews`: views of the post go up by one; nothing else moves. */
  function IncrementViews(t: Tables, postId: int): (r: Tables)
    ensures r.posts.Keys == t.posts.Keys
    ensures r.comments == t.comments && r.votes == t.votes && r.recommended == t.recommended
    ensures forall id :: id in t.posts && id != postId ==> r.posts[id] == t.posts[id]
    ensures postId in t.posts ==>
      r.posts[postId].views == t.posts[postId].views + 1
      && r.posts[postId].(views := t.posts[postId].views) == t.posts[postId]
    ensures postId !in t.posts ==> r == t
    ensures r == t.(posts := r.posts)
  {
    if postId in t.posts
    then t.(posts := t.posts[postId := t.posts[postId].(views := t.posts[postId].views + 1)])
    else t
  }

  /** `INSERT OR IGNORE INTO recommended_posts (post_id)`: a new row stamped
      `now` unless the post already has one; the flag is `this.changes > 0`. */
  function InsertOrIgnoreRecommendation(t: Tables, postId: int, now: int): (r: (Tables, bool))
    ensures r.1 <==> postId !in RecommendedPostIds(t.recommended)
    ensures !r.1 ==> r.0 == t
    ensures r.0 == t.(recommended := r.0.recommended, nextRecommendationId := r.0.nextRecommendationId)
    ensures r.1 ==>
      && r.0.nextRecommendationId == t.nextRecommendationId + 1
      && r.0.recommended.Keys == t.recommended.Keys + {t.nextRecommendationId}
      && r.0.recommended[t.nextRecommendationId] == Recommendation(postId, now)
    ensures t.nextRecommendationId !in t.recommended ==>
      forall k :: k in t.recommended ==> r.0.recommended[k] == t.recommended[k]
    ensures t.nextRecommendationId !in t.recommended ==>
      RecommendedPostIds(r.0.recommended) == RecommendedPostIds(t.recommended) + {postId}
  {
    if postId in RecommendedPostIds(t.recommended) then (t, false)
    else
      var r := t.nextRecommendationId;
      var t' := t.(recommended := t.recommended[r := Recommendation(postId, now)],
                   nextRecommendationId := r + 1);
      assert r !in t.recommended ==>
        RecommendedPostIds(t'.recommended) == RecommendedPostIds(t.recommended) + {postId} by {
        assert t'.recommended[r].postId == postId;
        forall q | r !in t.recommended && q in RecommendedPostIds(t.recommended)
          ensures q in RecommendedPostIds(t'.recommended)
        {
          var k :| k in t.recommended && t.recommended[k].postId == q;
          assert t'.recommended[k].postId == q;
        }
      }
      (t', true)
  }

  // ---------------------------------------------------------------- effect on vote tallies

  /** A successful vote insert counts one more vote of its type for its post
      and changes no other tally. */
  lemma InsertVoteTallies(t: Tables, postId: int, ip: string, kind: VoteType, now: int)
    requires InsertVote(t, postId, ip, kind, now).Some?
    ensures var r := InsertVote(t, postId, ip, kind, now).value;
      forall q, x :: Tally(r.votes, q, x) == Tally(t.votes, q, x) + (if q == postId && x == kind then 1 else 0)
  {
    var key := VoteKey(postId, ip);
    var row := VoteRow(now, kind, ACTIVE);
    forall q, x ensures Tally(t.votes[key := row], q, x) == Tally(t.votes, q, x) + (if q == postId && x == kind then 1 else 0)
    {
      TallyAfterWrite(t.votes, key, row, q, x);
    }
  }

  /** Retracting an active vote counts one vote fewer of its type; without an
      active vote nothing changes. */
  lemma RemoveVoteTallies(t: Tables, postId: int, ip: string)
    ensures var r := RemoveVote(t, postId, ip);
      var cur := CurrentVote(t, postId, ip);
      forall q, x :: Tally(r.votes, q, x) == Tally(t.votes, q, x) - (if q == postId && cur == Some(x) then 1 else 0)
  {
    var key := VoteKey(postId, ip);
    if key in t.votes && t.votes[key].status == ACTIVE {
      var row := t.votes[key].(status := INACTIVE);
      forall q, x ensures Tally(t.votes[key := row], q, x) ==
        Tally(t.votes, q, x) - (if q == postId && CurrentVote(t, postId, ip) == Some(x) then 1 else 0)
      {
        TallyAfterWrite(t.votes, key, row, q, x);
      }
    }
  }

  /** Changing the type of an active vote moves one vote from the old type to
      the new one; without an active vote nothing changes. */
  lemma UpdateVoteTallies(t: Tables, postId: int, ip: string, kind: VoteType)
    ensures var r := UpdateVote(t, postId, ip, kind);
      var cur := CurrentVote(t, postId, ip);
      forall q, x :: Tally(r.votes, q, x) == Tally(t.votes, q, x)
        - (if q == postId && cur == Some(x) then 1 else 0)
        + (if q == postId && cur.Some? && x == kind then 1 else 0)
  {
    var key := VoteKey(postId, ip);
    if key in t.votes && t.votes[key].status == ACTIVE {
      var row := t.votes[key].(kind := kind);
      forall q, x ensures Tally(t.votes[key := row], q, x) == Tally(t.votes, q, x)
        - (if q == postId && CurrentVote(t, postId, ip) == Some(x) then 1 else 0)
        + (if q == postId && x == kind then 1 else 0)
      {
        TallyAfterWrite(t.votes, key, row, q, x);
      }
    }
  }
}
