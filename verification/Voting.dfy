/** What the vote handler guarantees: validation before any write, the three
    transitions with their counter changes, the counters kept equal to the
    active vote rows, and what happens to a pair whose vote was retracted. */
module Voting {
  import opened Common
  import opened Schema
  import opened Statements
  import opened Handlers

  /** The counter column of a post for one vote type. */
  function Counter(p: Post, x: VoteType): int
  {
    if x == Like then p.likes else p.dislikes
  }

  function Delta(kind: VoteType, x: VoteType): int
  {
    if kind == x then 1 else 0
  }

  /** Only the pair's vote row and the post's two counters may differ between
      `t` and `t'`; no row is dropped. */
  ghost predicate TouchesOnlyPair(t: Tables, t': Tables, postId: int, ip: string)
  {
    && t' == t.(votes := t'.votes, posts := t'.posts)
    && t'.posts.Keys == t.posts.Keys
    && (forall id :: id in t.posts && id != postId ==> t'.posts[id] == t.posts[id])
    && (postId in t.posts ==>
          t'.posts[postId] == t.posts[postId].(likes := t'.posts[postId].likes, dislikes := t'.posts[postId].dislikes))
    && (forall k :: k in t.votes || k in t'.votes ==>
          k in t'.votes && (k != VoteKey(postId, ip) ==> k in t.votes && t'.votes[k] == t.votes[k]))
  }

  /** A successful reply reports the post's new counters and the pair's new
      vote, which is null exactly for `removed`. */
  predicate ReportsNewState(reply: Result<VoteReply, Failure>, t': Tables, postId: int, ip: string)
  {
    reply.Ok? ==>
      && postId in t'.posts
      && reply.value.postId == postId
      && reply.value.currentVote == CurrentVote(t', postId, ip)
      && (reply.value.currentVote.None? <==> reply.value.action == Removed)
      && reply.value.likes == t'.posts[postId].likes
      && reply.value.dislikes == t'.posts[postId].dislikes
  }

  /** The only failure once the checks passed is the server error, answered
      with status 500. */
  lemma ApplyVoteFailsOnlyInStorage(t: Tables, postId: int, kind: VoteType, ip: string, now: int)
    ensures var reply := ApplyVote(t, postId, kind, ip, now).0;
      reply.Err? ==> reply.error == StorageError && HttpStatus(reply.error) == 500
  {
    match CurrentVote(t, postId, ip)
    case None =>
    case Some(current) =>
  }

  /** Any request the checks refuse (status 400), and any vote on a post that
      is missing or soft-deleted (status 404), is answered before a single
      statement writes. */
  lemma VoteValidationFirst(t: Tables, req: VoteRequest, ip: string, now: int)
    ensures var check := CheckVoteRequest(req);
      var r := CastVote(t, req, ip, now);
      && (check.Err? ==> r == (Err(check.error), t) && HttpStatus(check.error) == 400)
      && (check.Ok? && !PostIsActive(t, check.value.0) ==>
            r == (Err(PostNotFound), t) && HttpStatus(PostNotFound) == 404)
      && (r.0.Err? && r.0.error != StorageError ==> r.1 == t)
  {
    var check := CheckVoteRequest(req);
    if check.Ok? && PostIsActive(t, check.value.0) {
      ApplyVoteFailsOnlyInStorage(t, check.value.0, check.value.1, ip, now);
    }
  }

  /** No vote and no leftover row: the vote is `added`, one more of its type. */
  lemma AddedTransition(t: Tables, postId: int, kind: VoteType, ip: string, now: int)
    requires PostIsActive(t, postId) && VoteKey(postId, ip) !in t.votes
    ensures var (reply, t') := ApplyVote(t, postId, kind, ip, now);
      && reply.Ok? && reply.value.action == Added
      && CurrentVote(t', postId, ip) == Some(kind)
      && (forall x :: Counter(t'.posts[postId], x) == Counter(t.posts[postId], x) + Delta(kind, x))
      && ReportsNewState(reply, t', postId, ip)
      && TouchesOnlyPair(t, t', postId, ip)
  {
    var t1 := InsertVote(t, postId, ip, kind, now).value;
    var t2 := AddToCounter(t1, postId, kind, 1);
    assert ApplyVote(t, postId, kind, ip, now) == (ReplyWithCounts(t2, postId, Added, Some(kind)), t2);
  }

  /** The same type again: the vote is `removed`, one fewer of its type. */
  lemma RemovedTransition(t: Tables, postId: int, kind: VoteType, ip: string, now: int)
    requires PostIsActive(t, postId) && CurrentVote(t, postId, ip) == Some(kind)
    ensures var (reply, t') := ApplyVote(t, postId, kind, ip, now);
      && reply.Ok? && reply.value.action == Removed
      && CurrentVote(t', postId, ip) == None
      && (forall x :: Counter(t'.posts[postId], x) == Counter(t.posts[postId], x) - Delta(kind, x))
      && ReportsNewState(reply, t', postId, ip)
      && TouchesOnlyPair(t, t', postId, ip)
  {
    var t1 := RemoveVote(t, postId, ip);
    var t2 := AddToCounter(t1, postId, kind, -1);
    assert ApplyVote(t, postId, kind, ip, now) == (ReplyWithCounts(t2, postId, Removed, None), t2);
  }

  /** The other type: the vote is `changed`, one fewer of the old type and
      one more of the new. */
  lemma ChangedTransition(t: Tables, postId: int, previous: VoteType, kind: VoteType, ip: string, now: int)
    requires PostIsActive(t, postId) && CurrentVote(t, postId, ip) == Some(previous) && previous != kind
    ensures var (reply, t') := ApplyVote(t, postId, kind, ip, now);
      && reply.Ok? && reply.value.action == Changed
      && CurrentVote(t', postId, ip) == Some(kind)
      && (forall x :: Counter(t'.posts[postId], x) == Counter(t.posts[postId], x) - Delta(previous, x) + Delta(kind, x))
      && ReportsNewState(reply, t', postId, ip)
      && TouchesOnlyPair(t, t', postId, ip)
  {
    var t1 := UpdateVote(t, postId, ip, kind);
    var t2 := AddToCounter(t1, postId, previous, -1);
    var t3 := AddToCounter(t2, postId, kind, 1);
    assert ApplyVote(t, postId, kind, ip, now) == (ReplyWithCounts(t3, postId, Changed, Some(kind)), t3);
  }

  /** The three transitions of a valid vote on an active post, seen from the
      pair's current vote: none (and no leftover row) gives `added` and one
      more vote of the type; the same type gives `removed` and one fewer; the
      other type gives `changed`, one fewer of the old type and one more of
      the new. Nothing but the pair's row and the post's counters changes,
      and a successful reply reports the new counters and the new current
      vote. */
  lemma VoteTransitions(t: Tables, req: VoteRequest, ip: string, now: int)
    requires CheckVoteRequest(req).Ok? && PostIsActive(t, CheckVoteRequest(req).value.0)
    ensures var (postId, kind) := CheckVoteRequest(req).value;
      var (reply, t') := CastVote(t, req, ip, now);
      var cur := CurrentVote(t, postId, ip);
      && (cur.None? && VoteKey(postId, ip) !in t.votes ==>
            && reply.Ok? && reply.value.action == Added
            && CurrentVote(t', postId, ip) == Some(kind)
            && forall x :: Counter(t'.posts[postId], x) == Counter(t.posts[postId], x) + Delta(kind, x))
      && (cur == Some(kind) ==>
            && reply.Ok? && reply.value.action == Removed
            && CurrentVote(t', postId, ip) == None
            && forall x :: Counter(t'.posts[postId], x) == Counter(t.posts[postId], x) - Delta(kind, x))
      && (cur.Some? && cur != Some(kind) ==>
            && reply.Ok? && reply.value.action == Changed
            && CurrentVote(t', postId, ip) == Some(kind)
            && forall x :: Counter(t'.posts[postId], x) ==
                 Counter(t.posts[postId], x) - Delta(cur.value, x) + Delta(kind, x))
      && ReportsNewState(reply, t', postId, ip)
      && TouchesOnlyPair(t, t', postId, ip)
  {
    var (postId, kind) := CheckVoteRequest(req).value;
    assert CastVote(t, req, ip, now) == ApplyVote(t, postId, kind, ip, now);
    match CurrentVote(t, postId, ip)
    case None =>
      if VoteKey(postId, ip) !in t.votes {
        AddedTransition(t, postId, kind, ip, now);
      } else {
        assert ApplyVote(t, postId, kind, ip, now) == (Err(StorageError), t);
      }
    case Some(current) =>
      if current == kind {
        RemovedTransition(t, postId, kind, ip, now);
      } else {
        ChangedTransition(t, postId, current, kind, ip, now);
      }
  }

  /** The counter columns a vote leaves behind: the post's counters move by
      the same amounts as its active vote tallies, everything else stays. */
  lemma CountersFollowTallies(t: Tables, t': Tables, postId: int, d: VoteType -> int)
    requires CountersMatch(t)
    requires t'.posts.Keys == t.posts.Keys
    requires forall id :: id in t.posts && id != postId ==> t'.posts[id] == t.posts[id]
    requires postId in t.posts ==> forall x :: Counter(t'.posts[postId], x) == Counter(t.posts[postId], x) + d(x)
    requires forall q, x :: Tally(t'.votes, q, x) == Tally(t.votes, q, x) + (if q == postId then d(x) else 0)
    ensures CountersMatch(t')
  {
    forall id | id in t'.posts
      ensures t'.posts[id].likes == Tally(t'.votes, id, Like)
      ensures t'.posts[id].dislikes == Tally(t'.votes, id, Dislike)
    {
      assert Counter(t'.posts[id], Like) == t'.posts[id].likes;
      assert Counter(t'.posts[id], Dislike) == t'.posts[id].dislikes;
    }
  }

  /** One transition keeps every post's counters equal to its active rows. */
  lemma ApplyVoteKeepsCountersMatched(t: Tables, postId: int, kind: VoteType, ip: string, now: int)
    requires CountersMatch(t) && PostIsActive(t, postId)
    ensures CountersMatch(ApplyVote(t, postId, kind, ip, now).1)
  {
    match CurrentVote(t, postId, ip)
    case None =>
      if VoteKey(postId, ip) !in t.votes {
        AddedKeepsCounters(t, postId, kind, ip, now);
      }
    case Some(current) =>
      if current == kind {
        RemovedKeepsCounters(t, postId, kind, ip, now);
      } else {
        ChangedKeepsCounters(t, postId, current, kind, ip, now);
      }
  }

  lemma AddedKeepsCounters(t: Tables, postId: int, kind: VoteType, ip: string, now: int)
    requires CountersMatch(t) && PostIsActive(t, postId) && VoteKey(postId, ip) !in t.votes
    ensures CountersMatch(ApplyVote(t, postId, kind, ip, now).1)
  {
    AddedTransition(t, postId, kind, ip, now);
    InsertVoteTallies(t, postId, ip, kind, now);
    CountersFollowTallies(t, ApplyVote(t, postId, kind, ip, now).1, postId, x => Delta(kind, x));
  }

  lemma RemovedKeepsCounters(t: Tables, postId: int, kind: VoteType, ip: string, now: int)
    requires CountersMatch(t) && PostIsActive(t, postId) && CurrentVote(t, postId, ip) == Some(kind)
    ensures CountersMatch(ApplyVote(t, postId, kind, ip, now).1)
  {
    RemovedTransition(t, postId, kind, ip, now);
    RemoveVoteTallies(t, postId, ip);
    CountersFollowTallies(t, ApplyVote(t, postId, kind, ip, now).1, postId, x => -Delta(kind, x));
  }

  lemma ChangedKeepsCounters(t: Tables, postId: int, previous: VoteType, kind: VoteType, ip: string, now: int)
    requires CountersMatch(t) && PostIsActive(t, postId)
    requires CurrentVote(t, postId, ip) == Some(previous) && previous != kind
    ensures CountersMatch(ApplyVote(t, postId, kind, ip, now).1)
  {
    ChangedTransition(t, postId, previous, kind, ip, now);
    UpdateVoteTallies(t, postId, ip, kind);
    CountersFollowTallies(t, ApplyVote(t, postId, kind, ip, now).1, postId, x => Delta(kind, x) - Delta(previous, x));
  }

  /** If every post's `likes` and `dislikes` equal its active like and
      dislike rows before a vote request, they still do after it, whatever
      the request. */
  lemma VoteKeepsCountersMatched(t: Tables, req: VoteRequest, ip: string, now: int)
    requires CountersMatch(t)
    ensures CountersMatch(CastVote(t, req, ip, now).1)
  {
    var check := CheckVoteRequest(req);
    if check.Ok? && PostIsActive(t, check.value.0) {
      ApplyVoteKeepsCountersMatched(t, check.value.0, check.value.1, ip, now);
    }
  }

  /** A vote request keeps the schema invariants: the only row it can add
      names the active post it was checked against. */
  lemma VoteKeepsWellFormed(t: Tables, req: VoteRequest, ip: string, now: int)
    requires WellFormed(t)
    ensures WellFormed(CastVote(t, req, ip, now).1)
  {
    var check := CheckVoteRequest(req);
    if check.Ok? && PostIsActive(t, check.value.0) {
      VoteTransitions(t, req, ip, now);
    }
  }

  /** Voting the same type twice from a pair that never voted on the post
      returns the post's counters to where they were, and the pair to no
      vote. */
  lemma VoteTwiceRestoresCounts(t: Tables, req: VoteRequest, ip: string, now1: int, now2: int)
    requires CheckVoteRequest(req).Ok? && PostIsActive(t, CheckVoteRequest(req).value.0)
    requires VoteKey(CheckVoteRequest(req).value.0, ip) !in t.votes
    ensures var postId := CheckVoteRequest(req).value.0;
      var t1 := CastVote(t, req, ip, now1).1;
      var r2 := CastVote(t1, req, ip, now2);
      && r2.0.Ok? && r2.0.value.action == Removed
      && r2.1.posts == t.posts
      && CurrentVote(r2.1, postId, ip) == None
  {
    var (postId, kind) := CheckVoteRequest(req).value;
    var t1 := CastVote(t, req, ip, now1).1;
    var t2 := CastVote(t1, req, ip, now2).1;
    VoteTransitions(t, req, ip, now1);
    VoteTransitions(t1, req, ip, now2);
    assert t2.posts[postId] == t.posts[postId] by {
      assert Counter(t2.posts[postId], Like) == Counter(t.posts[postId], Like);
      assert Counter(t2.posts[postId], Dislike) == Counter(t.posts[postId], Dislike);
    }
  }

  // ---------------------------------------------------------------- a retracted vote, as written

  /** Once a pair's vote was retracted, its row stays with status 0, and every
      later valid vote from the pair on that post reaches the plain INSERT,
      breaks UNIQUE(post_id, ip) and is answered with a server error, with
      nothing written. The pair can never vote on that post again. */
  lemma RetractedPairIsStuck(t: Tables, req: VoteRequest, ip: string, now: int)
    requires CheckVoteRequest(req).Ok? && PostIsActive(t, CheckVoteRequest(req).value.0)
    requires var key := VoteKey(CheckVoteRequest(req).value.0, ip);
      key in t.votes && t.votes[key].status != ACTIVE
    ensures CastVote(t, req, ip, now) == (Err(StorageError), t)
  {
  }

  /** Like, unlike, like again: the third request fails. */
  lemma RevoteAfterRetractionFails(t: Tables, req: VoteRequest, ip: string, now1: int, now2: int, now3: int)
    requires CheckVoteRequest(req).Ok? && PostIsActive(t, CheckVoteRequest(req).value.0)
    requires VoteKey(CheckVoteRequest(req).value.0, ip) !in t.votes
    ensures var t1 := CastVote(t, req, ip, now1).1;
      var t2 := CastVote(t1, req, ip, now2).1;
      CastVote(t2, req, ip, now3) == (Err(StorageError), t2)
  {
    var postId := CheckVoteRequest(req).value.0;
    var t1 := CastVote(t, req, ip, now1).1;
    var t2 := CastVote(t1, req, ip, now2).1;
    VoteTransitions(t, req, ip, now1);
    VoteTransitions(t1, req, ip, now2);
    assert PostIsActive(t2, postId);
    RetractedPairIsStuck(t2, req, ip, now3);
  }

  // ---------------------------------------------------------------- the corrected insert path

  /** The insert path that reuses the pair's leftover row: the row, present
      or not, becomes an active vote of the new type. */
  function InsertOrReactivateVote(t: Tables, postId: int, ip: string, kind: VoteType, now: int): (r: Tables)
    ensures CurrentVote(r, postId, ip) == Some(kind)
    ensures r == t.(votes := r.votes) && r.votes.Keys == t.votes.Keys + {VoteKey(postId, ip)}
  {
    t.(votes := t.votes[VoteKey(postId, ip) := VoteRow(now, kind, ACTIVE)])
  }

  /** The transition with the reactivating insert path. */
  function ApplyVoteReactivating(t: Tables, postId: int, kind: VoteType, ip: string, now: int): (Result<VoteReply, Failure>, Tables)
  {
    match CurrentVote(t, postId, ip)
    case None =>
      var t2 := AddToCounter(InsertOrReactivateVote(t, postId, ip, kind, now), postId, kind, 1);
      (ReplyWithCounts(t2, postId, Added, Some(kind)), t2)
    case Some(_) => ApplyVote(t, postId, kind, ip, now)
  }

  /** The vote handler with the reactivating insert path. */
  function CastVoteReactivating(t: Tables, req: VoteRequest, ip: string, now: int): (Result<VoteReply, Failure>, Tables)
  {
    match CheckVoteRequest(req)
    case Err(e) => (Err(e), t)
    case Ok(v) =>
      if !PostIsActive(t, v.0) then (Err(PostNotFound), t)
      else ApplyVoteReactivating(t, v.0, v.1, ip, now)
  }

  /** With no current vote, the reactivating path always adds the vote,
      whether or not a retracted row is left over. */
  lemma ReactivatedTransition(t: Tables, postId: int, kind: VoteType, ip: string, now: int)
    requires PostIsActive(t, postId) && CurrentVote(t, postId, ip).None?
    ensures var (reply, t') := ApplyVoteReactivating(t, postId, kind, ip, now);
      && reply.Ok? && reply.value.action == Added
      && CurrentVote(t', postId, ip) == Some(kind)
      && (forall x :: Counter(t'.posts[postId], x) == Counter(t.posts[postId], x) + Delta(kind, x))
      && ReportsNewState(reply, t', postId, ip)
      && TouchesOnlyPair(t, t', postId, ip)
  {
    var t1 := InsertOrReactivateVote(t, postId, ip, kind, now);
    var t2 := AddToCounter(t1, postId, kind, 1);
    assert ApplyVoteReactivating(t, postId, kind, ip, now) == (ReplyWithCounts(t2, postId, Added, Some(kind)), t2);
  }

  /** The corrected handler answers every valid vote on an active post, it
      agrees with the handler as written whenever that one succeeds, and
      after a retraction a new vote is `added` with one more vote of its
      type. */
  lemma ReactivatingVoteAlwaysAnswers(t: Tables, req: VoteRequest, ip: string, now: int)
    requires CheckVoteRequest(req).Ok? && PostIsActive(t, CheckVoteRequest(req).value.0)
    ensures var (postId, kind) := CheckVoteRequest(req).value;
      var (reply, t') := CastVoteReactivating(t, req, ip, now);
      && reply.Ok?
      && (CastVote(t, req, ip, now).0.Ok? ==> CastVoteReactivating(t, req, ip, now) == CastVote(t, req, ip, now))
      && (CurrentVote(t, postId, ip).None? ==>
            && reply.value.action == Added && CurrentVote(t', postId, ip) == Some(kind)
            && forall x :: Counter(t'.posts[postId], x) == Counter(t.posts[postId], x) + Delta(kind, x))
  {
    var (postId, kind) := CheckVoteRequest(req).value;
    assert CastVoteReactivating(t, req, ip, now) == ApplyVoteReactivating(t, postId, kind, ip, now);
    if CurrentVote(t, postId, ip).Some? {
      VoteTransitions(t, req, ip, now);
    } else {
      ReactivatedTransition(t, postId, kind, ip, now);
    }
  }

  /** Retracting a vote and casting it again on the reactivating path adds it
      back and leaves the post's row as it was before the retraction. */
  lemma RetractAndRevote(t: Tables, postId: int, kind: VoteType, ip: string, now2: int, now3: int)
    requires PostIsActive(t, postId) && CurrentVote(t, postId, ip) == Some(kind)
    ensures var t2 := ApplyVoteReactivating(t, postId, kind, ip, now2).1;
      var r3 := ApplyVoteReactivating(t2, postId, kind, ip, now3);
      r3.0.Ok? && r3.0.value.action == Added && r3.1.posts == t.posts
  {
    assert ApplyVoteReactivating(t, postId, kind, ip, now2) == ApplyVote(t, postId, kind, ip, now2);
    RemovedTransition(t, postId, kind, ip, now2);
    var t2 := ApplyVoteReactivating(t, postId, kind, ip, now2).1;
    ReactivatedTransition(t2, postId, kind, ip, now3);
    var t3 := ApplyVoteReactivating(t2, postId, kind, ip, now3).1;
    assert t3.posts[postId] == t.posts[postId] by {
      assert Counter(t3.posts[postId], Like) == Counter(t.posts[postId], Like);
      assert Counter(t3.posts[postId], Dislike) == Counter(t.posts[postId], Dislike);
    }
  }

  /** With the reactivating insert a retracted pair can vote again. */
  lemma RevoteAfterRetractionAdds(t: Tables, req: VoteRequest, ip: string, now1: int, now2: int, now3: int)
    requires CheckVoteRequest(req).Ok? && PostIsActive(t, CheckVoteRequest(req).value.0)
    requires VoteKey(CheckVoteRequest(req).value.0, ip) !in t.votes
    ensures var t1 := CastVoteReactivating(t, req, ip, now1).1;
      var t2 := CastVoteReactivating(t1, req, ip, now2).1;
      var r3 := CastVoteReactivating(t2, req, ip, now3);
      r3.0.Ok? && r3.0.value.action == Added && r3.1.posts == t1.posts
  {
    var (postId, kind) := CheckVoteRequest(req).value;
    assert CastVoteReactivating(t, req, ip, now1) == ApplyVoteReactivating(t, postId, kind, ip, now1);
    ReactivatedTransition(t, postId, kind, ip, now1);
    var t1 := CastVoteReactivating(t, req, ip, now1).1;
    assert CastVoteReactivating(t1, req, ip, now2) == ApplyVoteReactivating(t1, postId, kind, ip, now2);
    RetractAndRevote(t1, postId, kind, ip, now2, now3);
    var t2 := CastVoteReactivating(t1, req, ip, now2).1;
    assert PostIsActive(t2, postId);
    assert CastVoteReactivating(t2, req, ip, now3) == ApplyVoteReactivating(t2, postId, kind, ip, now3);
  }

  /** The corrected handler keeps the counters equal to the active rows too. */
  lemma ReactivatingVoteKeepsCountersMatched(t: Tables, req: VoteRequest, ip: string, now: int)
    requires CountersMatch(t)
    ensures CountersMatch(CastVoteReactivating(t, req, ip, now).1)
  {
    var check := CheckVoteRequest(req);
    if check.Ok? && PostIsActive(t, check.value.0) {
      var (postId, kind) := check.value;
      if CurrentVote(t, postId, ip).None? {
        var key := VoteKey(postId, ip);
        var row := VoteRow(now, kind, ACTIVE);
        var t' := CastVoteReactivating(t, req, ip, now).1;
        assert CastVoteReactivating(t, req, ip, now) == ApplyVoteReactivating(t, postId, kind, ip, now);
        ReactivatedTransition(t, postId, kind, ip, now);
        forall q, x ensures Tally(t'.votes, q, x) == Tally(t.votes, q, x) + (if q == postId then Delta(kind, x) else 0) {
          TallyAfterWrite(t.votes, key, row, q, x);
        }
        CountersFollowTallies(t, t', postId, x => Delta(kind, x));
      } else {
        VoteKeepsCountersMatched(t, req, ip, now);
      }
    }
  }
}
