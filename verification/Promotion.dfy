/** The promotion rule (`promotePostsToRecommended`): recent posts with enough
    views or likes are copied into recommended_posts. One run is a step that
    takes the current time `now`, in seconds. */
module Promotion {
  import opened Common
  import opened Schema
  import opened Statements

  /** `datetime('now', '-24 hours')` is `now - Day`. */
  const Day: int := 86400
  const MinViews: int := 10
  const MinLikes: int := 2

  /** The WHERE clause on the post's own columns; the status is not looked at. */
  predicate Eligible(p: Post, now: int)
  {
    p.time >= now - Day && (p.views >= MinViews || p.likes >= MinLikes)
  }

  /** A post the run selects: eligible and not yet recommended. */
  predicate IsCandidate(t: Tables, now: int, id: int)
  {
    id in t.posts && Eligible(t.posts[id], now) && id !in RecommendedPostIds(t.recommended)
  }

  /** The selected ids in [1, hi], in the table's id order. */
  function CandidatesUpTo(t: Tables, now: int, hi: int): (ids: seq<int>)
    decreases hi
    ensures forall i :: 0 <= i < |ids| ==> 1 <= ids[i] <= hi && IsCandidate(t, now, ids[i])
    ensures forall i, j :: 0 <= i < j < |ids| ==> ids[i] < ids[j]
  {
    if hi < 1 then []
    else CandidatesUpTo(t, now, hi - 1) + (if IsCandidate(t, now, hi) then [hi] else [])
  }

  lemma {:induction false} CandidatesUpToComplete(t: Tables, now: int, hi: int, id: int)
    requires 1 <= id <= hi && IsCandidate(t, now, id)
    ensures id in CandidatesUpTo(t, now, hi)
    decreases hi
  {
    if id != hi {
      CandidatesUpToComplete(t, now, hi - 1, id);
    }
  }

  lemma {:induction false} NoCandidates(t: Tables, now: int, hi: int)
    requires forall id :: !IsCandidate(t, now, id)
    ensures CandidatesUpTo(t, now, hi) == []
    decreases hi
  {
    if hi >= 1 {
      NoCandidates(t, now, hi - 1);
      assert !IsCandidate(t, now, hi);
    }
  }

  /** The rows the SELECT returns. */
  function Candidates(t: Tables, now: int): seq<int>
  {
    CandidatesUpTo(t, now, t.nextPostId - 1)
  }

  /** The `forEach` over the selected rows: one INSERT OR IGNORE each, and the
      number of inserts that changed a row. */
  function InsertAll(t: Tables, ids: seq<int>, now: int): (Tables, nat)
    decreases |ids|
  {
    if ids == [] then (t, 0)
    else
      var before := InsertAll(t, ids[..|ids| - 1], now);
      var step := InsertOrIgnoreRecommendation(before.0, ids[|ids| - 1], now);
      (step.0, if step.1 then before.1 + 1 else before.1)
  }

  /** One promotion run and the number of posts it promoted. */
  function PromoteRun(t: Tables, now: int): (Tables, nat)
  {
    InsertAll(t, Candidates(t, now), now)
  }

  function Promote(t: Tables, now: int): Tables
  {
    PromoteRun(t, now).0
  }

  // ---------------------------------------------------------------- what a run does

  /** The recommendation ids stay below the counter (AUTOINCREMENT). */
  predicate FreshRecommendationIds(t: Tables)
  {
    forall r :: r in t.recommended ==> 1 <= r < t.nextRecommendationId
  }

  function Elements(ids: seq<int>): set<int>
  {
    set x | x in ids
  }

  /** Inserting a list of post ids: every listed post ends up recommended and
      nothing else does; old rows stay as they were; new rows are stamped
      `now` and get fresh ids; only recommended_posts changes. */
  lemma {:induction false} InsertAllEffect(t: Tables, ids: seq<int>, now: int)
    requires FreshRecommendationIds(t) && t.nextRecommendationId >= 1
    ensures var r := InsertAll(t, ids, now).0;
      && FreshRecommendationIds(r) && r.nextRecommendationId >= t.nextRecommendationId
      && RecommendedPostIds(r.recommended) == RecommendedPostIds(t.recommended) + Elements(ids)
      && (forall k :: k in t.recommended ==> k in r.recommended && r.recommended[k] == t.recommended[k])
      && (forall k :: k in r.recommended && k !in t.recommended ==>
            k >= t.nextRecommendationId && r.recommended[k].promotedAt == now)
      && r == t.(recommended := r.recommended, nextRecommendationId := r.nextRecommendationId)
    decreases |ids|
  {
    if ids != [] {
      var init := ids[..|ids| - 1];
      var last := ids[|ids| - 1];
      InsertAllEffect(t, init, now);
      assert Elements(ids) == Elements(init) + {last} by {
        assert ids == init + [last];
        forall x | x in ids ensures x in init || x == last {
          var i :| 0 <= i < |ids| && ids[i] == x;
          if i < |ids| - 1 { assert init[i] == x; }
        }
      }
      var mid := InsertAll(t, init, now).0;
      assert mid.nextRecommendationId !in mid.recommended;
    }
  }

  /** One INSERT OR IGNORE keeps one recommendation row per post. */
  lemma InsertOrIgnoreKeepsUnique(t: Tables, postId: int, now: int)
    requires t.nextRecommendationId !in t.recommended && UniqueRecommendations(t.recommended)
    ensures UniqueRecommendations(InsertOrIgnoreRecommendation(t, postId, now).0.recommended)
  {
    var r := InsertOrIgnoreRecommendation(t, postId, now).0;
    if postId !in RecommendedPostIds(t.recommended) {
      var k := t.nextRecommendationId;
      forall r1, r2 | r1 in r.recommended && r2 in r.recommended && r1 != r2
        ensures r.recommended[r1].postId != r.recommended[r2].postId
      {
        if r1 == k {
          assert r.recommended[r2] == t.recommended[r2];
        } else if r2 == k {
          assert r.recommended[r1] == t.recommended[r1];
        }
      }
    }
  }

  /** So does a list of them. */
  lemma {:induction false} InsertAllKeepsUnique(t: Tables, ids: seq<int>, now: int)
    requires FreshRecommendationIds(t) && t.nextRecommendationId >= 1
    requires UniqueRecommendations(t.recommended)
    ensures UniqueRecommendations(InsertAll(t, ids, now).0.recommended)
    decreases |ids|
  {
    if ids != [] {
      var init := ids[..|ids| - 1];
      InsertAllKeepsUnique(t, init, now);
      InsertAllEffect(t, init, now);
      InsertOrIgnoreKeepsUnique(InsertAll(t, init, now).0, ids[|ids| - 1], now);
    }
  }

  /** When the list is free of repeats and of already recommended posts, every
      insert counts. */
  lemma {:induction false} InsertAllCount(t: Tables, ids: seq<int>, now: int)
    requires FreshRecommendationIds(t) && t.nextRecommendationId >= 1
    requires forall i, j :: 0 <= i < j < |ids| ==> ids[i] != ids[j]
    requires forall i :: 0 <= i < |ids| ==> ids[i] !in RecommendedPostIds(t.recommended)
    ensures InsertAll(t, ids, now).1 == |ids|
    decreases |ids|
  {
    if ids != [] {
      var init := ids[..|ids| - 1];
      var last := ids[|ids| - 1];
      assert forall i, j :: 0 <= i < j < |init| ==> init[i] != init[j] by {
        forall i, j | 0 <= i < j < |init| ensures init[i] != init[j] {
          assert init[i] == ids[i] && init[j] == ids[j];
        }
      }
      assert forall i :: 0 <= i < |init| ==> init[i] !in RecommendedPostIds(t.recommended) by {
        forall i | 0 <= i < |init| ensures init[i] !in RecommendedPostIds(t.recommended) {
          assert init[i] == ids[i];
        }
      }
      InsertAllCount(t, init, now);
      InsertAllEffect(t, init, now);
      assert last !in Elements(init) by {
        forall i | 0 <= i < |init| ensures init[i] != last {
          assert init[i] == ids[i];
        }
      }
      assert last !in RecommendedPostIds(InsertAll(t, init, now).0.recommended);
    }
  }

  /** The set of ids a run selects. */
  lemma CandidateElements(t: Tables, now: int)
    requires WellFormed(t)
    ensures Elements(Candidates(t, now)) == set id | id in t.posts && IsCandidate(t, now, id)
  {
    forall id | IsCandidate(t, now, id) ensures id in Candidates(t, now) {
      CandidatesUpToComplete(t, now, t.nextPostId - 1, id);
    }
  }

  /** After a run, the recommended posts are exactly those recommended before
      plus every eligible post: nothing eligible is missed, nothing ineligible
      is added, and no recommendation is lost or altered. */
  lemma PromoteRecommendsEligible(t: Tables, now: int)
    requires WellFormed(t)
    ensures var r := Promote(t, now);
      && RecommendedPostIds(r.recommended) ==
           RecommendedPostIds(t.recommended) + (set id | id in t.posts && Eligible(t.posts[id], now))
      && (forall k :: k in t.recommended ==> k in r.recommended && r.recommended[k] == t.recommended[k])
      && (forall k :: k in r.recommended && k !in t.recommended ==> r.recommended[k].promotedAt == now)
  {
    InsertAllEffect(t, Candidates(t, now), now);
    CandidateElements(t, now);
  }

  /** The count a run reports is the number of posts it promoted. */
  lemma PromoteCount(t: Tables, now: int)
    requires WellFormed(t)
    ensures PromoteRun(t, now).1 == |Candidates(t, now)|
    ensures Elements(Candidates(t, now)) ==
      RecommendedPostIds(Promote(t, now).recommended) - RecommendedPostIds(t.recommended)
  {
    var c := Candidates(t, now);
    assert forall i, j :: 0 <= i < j < |c| ==> c[i] != c[j];
    InsertAllCount(t, c, now);
    InsertAllEffect(t, c, now);
  }

  /** A run changes recommended_posts (and its id counter) and nothing else,
      and it keeps the schema invariants. */
  lemma PromoteKeepsTables(t: Tables, now: int)
    requires WellFormed(t)
    ensures var r := Promote(t, now);
      && r == t.(recommended := r.recommended, nextRecommendationId := r.nextRecommendationId)
      && WellFormed(r)
  {
    var c := Candidates(t, now);
    InsertAllEffect(t, c, now);
    InsertAllKeepsUnique(t, c, now);
    var r := Promote(t, now);
    forall k | k in r.recommended ensures r.recommended[k].postId in r.posts {
      if k !in t.recommended {
        assert r.recommended[k].postId in RecommendedPostIds(r.recommended);
        CandidateElements(t, now);
      }
    }
  }

  /** A second run at the same time adds nothing. */
  lemma PromoteIdempotent(t: Tables, now: int)
    requires WellFormed(t)
    ensures Promote(Promote(t, now), now) == Promote(t, now)
    ensures PromoteRun(Promote(t, now), now).1 == 0
  {
    var r := Promote(t, now);
    PromoteRecommendsEligible(t, now);
    PromoteKeepsTables(t, now);
    var c := Candidates(r, now);
    var eligible := set id | id in t.posts && Eligible(t.posts[id], now);
    forall id ensures !IsCandidate(r, now, id) {
      if id in r.posts && Eligible(r.posts[id], now) {
        assert id in eligible;
      }
    }
    NoCandidates(r, now, r.nextPostId - 1);
  }

  /** Both thresholds are inclusive: ten views or two likes suffice, nine
      views and one like do not. */
  lemma ThresholdsInclusive(p: Post, now: int)
    requires p.time >= now - Day
    ensures Eligible(p.(views := 10, likes := 0), now)
    ensures Eligible(p.(views := 0, likes := 2), now)
    ensures !Eligible(p.(views := 9, likes := 1), now)
  {
  }

  /** A soft-deleted post can still be promoted: the status column plays no
      part in the rule. */
  lemma PromotesDeletedPosts(t: Tables, now: int, id: int)
    requires WellFormed(t)
    requires id in t.posts && t.posts[id].status == INACTIVE && Eligible(t.posts[id], now)
    ensures id in RecommendedPostIds(Promote(t, now).recommended)
  {
    PromoteRecommendsEligible(t, now);
  }
}
