/** What the comment, post, single-post and listing handlers guarantee. */
module Posting {
  import opened Common
  import opened Text
  import opened Masking
  import opened Schema
  import opened Statements
  import opened Queries
  import opened Handlers

  // ---------------------------------------------------------------- comments

  /** A comment is stored exactly when the request passes its checks, the post
      is active and a given parent is an active comment on the same post; a
      refused request writes nothing and names the first check it failed. */
  lemma CommentAcceptance(t: Tables, req: CommentRequest, ip: string, now: int)
    ensures var check := CheckCommentRequest(req);
      var (reply, t') := SubmitComment(t, req, ip, now);
      && (check.Err? ==> reply == Err(check.error) && t' == t && HttpStatus(check.error) == 400)
      && (check.Ok? ==>
            var (postId, parentId) := check.value;
            && (!PostIsActive(t, postId) ==> reply == Err(PostNotFound) && t' == t && HttpStatus(PostNotFound) == 404)
            && (PostIsActive(t, postId) && parentId.Some? && !CommentIsActiveOn(t, parentId.value, postId) ==>
                  reply == Err(ParentNotFound) && t' == t && HttpStatus(ParentNotFound) == 404)
            && (PostIsActive(t, postId) && (parentId.None? || CommentIsActiveOn(t, parentId.value, postId)) ==>
                  && reply.Ok?
                  && reply.value == NewComment(t.nextCommentId, ip, postId, parentId,
                                               req.author.value, req.content.value, ACTIVE)
                  && t' == t.(comments := t'.comments, nextCommentId := t.nextCommentId + 1)
                  && t'.comments.Keys == t.comments.Keys + {reply.value.id}
                  && t'.comments[reply.value.id] ==
                       Comment(ip, now, postId, parentId, req.author.value, req.content.value, ACTIVE)))
  {
  }

  /** Because ids only grow, a stored reply's parent is an earlier comment on
      the same post; comment creation keeps every schema invariant. */
  lemma CommentKeepsWellFormed(t: Tables, req: CommentRequest, ip: string, now: int)
    requires WellFormed(t)
    ensures var (reply, t') := SubmitComment(t, req, ip, now);
      && WellFormed(t')
      && (reply.Ok? && reply.value.parentId.Some? ==>
            reply.value.parentId.value < reply.value.id
            && t'.comments[reply.value.parentId.value].postId == reply.value.postId)
  {
    match CheckCommentRequest(req)
    case Err(_) =>
    case Ok(v) =>
      var (postId, parentId) := v;
      if PostIsActive(t, postId) && (parentId.None? || CommentIsActiveOn(t, parentId.value, postId)) {
        InsertCommentKeepsWellFormed(t, ip, postId, parentId, req.author.value, req.content.value, now);
      }
  }

  /** Storing a comment on a stored post, under a parent on the same post,
      keeps the schema invariants. */
  lemma InsertCommentKeepsWellFormed(t: Tables, ip: string, postId: int, parentId: Option<int>,
                                     author: string, content: string, now: int)
    requires WellFormed(t) && postId in t.posts
    requires parentId.Some? ==> parentId.value in t.comments && t.comments[parentId.value].postId == postId
    ensures var (id, t') := InsertComment(t, ip, postId, parentId, author, content, now);
      && WellFormed(t')
      && (parentId.Some? ==> parentId.value < id)
  {
    var (id, t') := InsertComment(t, ip, postId, parentId, author, content, now);
    assert id !in t.comments;
    forall c | c in t'.comments && t'.comments[c].parentId.Some?
      ensures ParentIsEarlierOnSamePost(t'.comments, c)
    {
      if c != id {
        assert t'.comments[c] == t.comments[c];
        assert ParentIsEarlierOnSamePost(t.comments, c);
      }
    }
  }

  // ---------------------------------------------------------------- posts

  /** A post is stored exactly when author, title and content are all given;
      it starts active with no likes, dislikes or views. */
  lemma PostAcceptance(t: Tables, req: PostRequest, ip: string, now: int)
    ensures var (reply, t') := SubmitPost(t, req, ip, now);
      && (reply.Ok? <==> Truthy(req.author) && Truthy(req.title) && Truthy(req.content))
      && (reply.Err? ==> reply.error == MissingFields && t' == t && HttpStatus(reply.error) == 400)
      && (reply.Ok? ==>
            && reply.value.id == t.nextPostId && reply.value.likes == 0 && reply.value.dislikes == 0
            && t' == t.(posts := t'.posts, nextPostId := t.nextPostId + 1)
            && t'.posts[reply.value.id] == Post(ip, now, req.author.value, req.title.value, req.content.value, 0, 0, 0, ACTIVE))
  {
  }

  /** A new post keeps the schema invariants, and its zero counters match its
      (absent) votes. */
  lemma PostKeepsInvariants(t: Tables, req: PostRequest, ip: string, now: int)
    requires WellFormed(t) && CountersMatch(t)
    ensures WellFormed(SubmitPost(t, req, ip, now).1) && CountersMatch(SubmitPost(t, req, ip, now).1)
  {
    var (reply, t') := SubmitPost(t, req, ip, now);
    if reply.Ok? {
      var id := reply.value.id;
      assert id !in t.posts;
      TallyOfUnvotedPost(t.votes, id, Like);
      TallyOfUnvotedPost(t.votes, id, Dislike);
    }
  }

  // ---------------------------------------------------------------- reading one post

  /** Reading a post counts a view first: a soft-deleted post gets its view
      counted and is still answered 404; an active one is answered with its
      views already raised, its masked address and the caller's vote. Only
      the view count ever changes. */
  lemma ViewPostEffect(t: Tables, idText: string, ip: string)
    ensures var (reply, t') := ViewPost(t, idText, ip);
      && (PositiveId(idText).None? ==> reply == Err(InvalidPostId) && t' == t && HttpStatus(InvalidPostId) == 400)
      && (PositiveId(idText).Some? ==>
            var id := PositiveId(idText).value;
            && t' == IncrementViews(t, id)
            && (reply.Ok? <==> PostIsActive(t, id))
            && (reply.Err? ==> reply.error == PostNotFound && HttpStatus(reply.error) == 404)
            && (reply.Ok? ==>
                  && reply.value.id == id
                  && reply.value.post == t.posts[id].(views := t.posts[id].views + 1)
                  && reply.value.authorIp == MaskIP(Some(t.posts[id].ip))
                  && reply.value.userVote == CurrentVote(t, id, ip)))
  {
  }

  /** A deleted post's views still grow on every read. */
  lemma DeletedPostViewsGrow(t: Tables, idText: string, ip: string)
    requires PositiveId(idText).Some?
    requires var id := PositiveId(idText).value; id in t.posts && t.posts[id].status != ACTIVE
    ensures var id := PositiveId(idText).value;
      var (reply, t') := ViewPost(t, idText, ip);
      reply == Err(PostNotFound) && t'.posts[id].views == t.posts[id].views + 1
  {
  }

  /** Reading a post keeps the schema invariants and the vote counters. */
  lemma ViewKeepsInvariants(t: Tables, idText: string, ip: string)
    requires WellFormed(t) && CountersMatch(t)
    ensures WellFormed(ViewPost(t, idText, ip).1) && CountersMatch(ViewPost(t, idText, ip).1)
  {
    match PositiveId(idText)
    case None =>
    case Some(id) =>
      assert ViewPost(t, idText, ip).1 == IncrementViews(t, id);
      IncrementViewsKeepsInvariants(t, id);
  }

  /** Counting a view touches neither a key nor a counter column. */
  lemma IncrementViewsKeepsInvariants(t: Tables, postId: int)
    requires WellFormed(t) && CountersMatch(t)
    ensures WellFormed(IncrementViews(t, postId)) && CountersMatch(IncrementViews(t, postId))
  {
    var t' := IncrementViews(t, postId);
    forall id | id in t'.posts
      ensures t'.posts[id].likes == t.posts[id].likes && t'.posts[id].dislikes == t.posts[id].dislikes
    {
    }
  }

  // ---------------------------------------------------------------- listings

  /** `hasNext` claims another page exactly when this one is full; a short page
      is the last one, since the next page is then empty. */
  lemma ShortPageIsLast(t: Tables, page: int, limit: int, ip: string)
    requires page >= 1 && limit >= 1
    requires |BoardPosts(t, page, limit, ip)| < limit
    ensures BoardPosts(t, page + 1, limit, ip) == []
  {
    assert (page - 1) * limit >= 0 && (page + 1 - 1) * limit == (page - 1) * limit + limit;
    ShortWindowIsLast(BoardListing(t, ip), (page - 1) * limit, limit);
  }

  /** A window shorter than its limit reaches the end of the rows. */
  lemma ShortWindowIsLast<T>(all: seq<T>, offset: int, limit: int)
    requires offset >= 0 && limit >= 1 && |Window(all, offset, limit)| < limit
    ensures Window(all, offset + limit, limit) == []
  {
  }

  /** The converse fails: a last page that happens to be full says `hasNext`
      (see `BoardPageShape`), and the page it promises is empty. */
  lemma FullLastPageClaimsNext(t: Tables, limit: int, ip: string)
    requires limit >= 1 && |BoardListing(t, ip)| == limit
    ensures |BoardPosts(t, 1, limit, ip)| == limit
    ensures BoardPosts(t, 2, limit, ip) == []
  {
    assert (1 - 1) * limit == 0 && (2 - 1) * limit == limit;
  }

  /** The reply lists a board page (active posts, newest first, each with its
      own columns, the caller's vote and its promotion time, at most `limit`
      of them), each row with its masked address; `hasNext` is exactly "the
      page is full"; page and limit default to 1 and 15. */
  lemma BoardPageShape(t: Tables, pageQ: Option<string>, limitQ: Option<string>, ip: string)
    ensures var p := BoardPage(t, pageQ, limitQ, ip);
      var rows := BoardPosts(t, p.page, p.limit, ip);
      && p.page == PageParam(pageQ, 1) && p.limit == PageParam(limitQ, 15)
      && IsBoardPage(t, rows, p.limit, ip)
      && |p.rows| == |rows|
      && (forall i :: 0 <= i < |rows| ==> p.rows[i] == MaskedPost(rows[i], MaskIP(Some(rows[i].ip))))
      && (p.hasNext <==> |rows| == p.limit)
      && (p.limit < 0 ==> !p.hasNext)
  {
    var p := BoardPage(t, pageQ, limitQ, ip);
    BoardPostsShape(t, p.page, p.limit, ip);
  }

  /** A listed row keeps the post's raw `ip` column beside its masked
      address, because the reply spreads the whole row before adding
      `author_ip`. */
  lemma BoardRowsCarryRawAddress(t: Tables, pageQ: Option<string>, limitQ: Option<string>, ip: string, i: int)
    requires 0 <= i < |BoardPage(t, pageQ, limitQ, ip).rows|
    ensures var m := BoardPage(t, pageQ, limitQ, ip).rows[i];
      && m.row.id in t.posts
      && m.row.ip == t.posts[m.row.id].ip
      && m.authorIp == MaskIP(Some(t.posts[m.row.id].ip))
  {
    BoardPageShape(t, pageQ, limitQ, ip);
  }

  /** The same for the recommended feed: the rows are the posts of the
      recommendations after the first `(page - 1) * limit`, newest
      recommendation first. */
  lemma RecommendedPageShape(t: Tables, pageQ: Option<string>, limitQ: Option<string>, ip: string)
    ensures var p := RecommendedPage(t, pageQ, limitQ, ip);
      var rows := RecommendedPosts(t, p.page, p.limit, ip);
      var start := if (p.page - 1) * p.limit < 0 then 0 else (p.page - 1) * p.limit;
      && p.page == PageParam(pageQ, 1) && p.limit == PageParam(limitQ, 15)
      && IsRecommendedPage(t, rows, RecommendationIds(t), start, p.limit, ip)
      && |p.rows| == |rows|
      && (forall i :: 0 <= i < |rows| ==> p.rows[i] == MaskedPost(rows[i], MaskIP(Some(rows[i].ip))))
      && (p.hasNext <==> |rows| == p.limit)
      && (p.limit < 0 ==> !p.hasNext)
  {
    var p := RecommendedPage(t, pageQ, limitQ, ip);
    RecommendedPostsShape(t, p.page, p.limit, ip);
  }
}
