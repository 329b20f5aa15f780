/** The database object: the four tables as fields that its statements update
    in place. Every method's new state is the matching statement function of
    `Statements` applied to the old state. */
module Store {
  import opened Common
  import opened Schema
  import opened Statements
  import opened Promotion

  class Database {
    var posts: map<int, Post>
    var comments: map<int, Comment>
    var votes: map<VoteKey, VoteRow>
    var recommended: map<int, Recommendation>
    var nextPostId: int
    var nextCommentId: int
    var nextRecommendationId: int

    /** The tables as one value. */
    function State(): Tables
      reads this
    {
      Tables(posts, comments, votes, recommended, nextPostId, nextCommentId, nextRecommendationId)
    }

    /** `connect` plus `initTables` on a fresh file. */
    constructor ()
      ensures State() == EmptyTables()
    {
      posts, comments, votes, recommended := map[], map[], map[], map[];
      nextPostId, nextCommentId, nextRecommendationId := 1, 1, 1;
    }

    /** `incrementPostViews(postId)`. */
    method IncrementPostViews(postId: int)
      modifies this
      ensures State() == IncrementViews(old(State()), postId)
    {
      if postId in posts {
        posts := posts[postId := posts[postId].(views := posts[postId].views + 1)];
      }
    }

    /** `dbHelpers.insertPost`; returns `lastID`. */
    method InsertPostRow(ip: string, author: string, title: string, content: string, now: int) returns (id: int)
      modifies this
      ensures (id, State()) == InsertPost(old(State()), ip, author, title, content, now)
    {
      id := nextPostId;
      posts := posts[id := Post(ip, now, author, title, content, 0, 0, 0, ACTIVE)];
      nextPostId := id + 1;
    }

    /** `dbHelpers.insertComment`; returns `lastID`. */
    method InsertCommentRow(ip: string, postId: int, parentId: Option<int>,
                            author: string, content: string, now: int) returns (id: int)
      modifies this
      ensures (id, State()) == InsertComment(old(State()), ip, postId, parentId, author, content, now)
    {
      id := nextCommentId;
      comments := comments[id := Comment(ip, now, postId, parentId, author, content, ACTIVE)];
      nextCommentId := id + 1;
    }

    /** `dbHelpers.insertVote`; `ok` is false when the INSERT is rejected by
        UNIQUE(post_id, ip), and then nothing changes. */
    method InsertVoteRow(postId: int, ip: string, kind: VoteType, now: int) returns (ok: bool)
      modifies this
      ensures ok == InsertVote(old(State()), postId, ip, kind, now).Some?
      ensures State() == if ok then InsertVote(old(State()), postId, ip, kind, now).value else old(State())
    {
      var key := VoteKey(postId, ip);
      ok := key !in votes;
      if ok {
        votes := votes[key := VoteRow(now, kind, ACTIVE)];
      }
    }

    /** `dbHelpers.removeVote`; `changed` is `this.changes > 0`. */
    method RemoveVoteRow(postId: int, ip: string) returns (changed: bool)
      modifies this
      ensures changed == CurrentVote(old(State()), postId, ip).Some?
      ensures State() == RemoveVote(old(State()), postId, ip)
    {
      var key := VoteKey(postId, ip);
      changed := key in votes && votes[key].status == ACTIVE;
      if changed {
        votes := votes[key := votes[key].(status := INACTIVE)];
      }
    }

    /** `dbHelpers.updateVote`; `changed` is `this.changes > 0`. */
    method UpdateVoteRow(postId: int, ip: string, kind: VoteType) returns (changed: bool)
      modifies this
      ensures changed == CurrentVote(old(State()), postId, ip).Some?
      ensures State() == UpdateVote(old(State()), postId, ip, kind)
    {
      var key := VoteKey(postId, ip);
      changed := key in votes && votes[key].status == ACTIVE;
      if changed {
        votes := votes[key := votes[key].(kind := kind)];
      }
    }

    /** `dbHelpers.updatePostVoteCount`; `changed` is `this.changes > 0`. */
    method UpdatePostVoteCount(postId: int, kind: VoteType, change: int) returns (changed: bool)
      modifies this
      ensures changed == (postId in old(posts))
      ensures State() == AddToCounter(old(State()), postId, kind, change)
    {
      changed := postId in posts;
      if changed {
        var p := posts[postId];
        match kind
        case Like => posts := posts[postId := p.(likes := p.likes + change)];
        case Dislike => posts := posts[postId := p.(dislikes := p.dislikes + change)];
      }
    }

    /** `INSERT OR IGNORE INTO recommended_posts (post_id) VALUES (?)`. */
    method InsertRecommendationRow(postId: int, now: int) returns (changed: bool)
      modifies this
      ensures (State(), changed) == InsertOrIgnoreRecommendation(old(State()), postId, now)
    {
      changed := postId !in RecommendedPostIds(recommended);
      if changed {
        recommended := recommended[nextRecommendationId := Recommendation(postId, now)];
        nextRecommendationId := nextRecommendationId + 1;
      }
    }

    /** `promotePostsToRecommended()` run at time `now`: the rows the SELECT
        picks are inserted one by one, counting the inserts that changed a
        row. The new state and the count are those of one promotion run, so
        every eligible post ends up recommended and the count is the number
        of posts newly recommended (`PromoteRecommendsEligible`,
        `PromoteCount`). */
    method PromotePostsToRecommended(now: int) returns (promotedCount: nat)
      modifies this
      ensures State() == Promote(old(State()), now)
      ensures promotedCount == PromoteRun(old(State()), now).1
    {
      var rows := Candidates(State(), now);
      ghost var start := State();
      promotedCount := 0;
      for i := 0 to |rows|
        invariant (State(), promotedCount) == InsertAll(start, rows[..i], now)
      {
        assert rows[..i + 1][..i] == rows[..i];
        var changed := InsertRecommendationRow(rows[i], now);
        if changed {
          promotedCount := promotedCount + 1;
        }
      }
      assert rows[..|rows|] == rows;
    }
  }
}
