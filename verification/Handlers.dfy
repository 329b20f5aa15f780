/** The public API route handlers. Request fields arrive as text (None for an
    absent field); the client address and the clock are parameters. Each
    handler that writes is a pure function giving the reply and the tables
    after it, and a method on the database that issues the same statements in
    the same order. */
module Handlers {
  import opened Common
  import opened Text
  import opened Masking
  import opened Schema
  import opened Statements
  import opened Queries
  import opened CommentTree
  import opened Store

  /** Why a request is refused. StorageError is the statement failure that
      surfaces as a server error. */
  datatype Failure =
    | MissingFields
    | InvalidPostId
    | InvalidParentId
    | InvalidVoteType
    | PostNotFound
    | ParentNotFound
    | StorageError

  /** The HTTP status each failure is answered with. */
  function HttpStatus(f: Failure): (code: int)
    ensures code == 400 <==> f in {MissingFields, InvalidPostId, InvalidParentId, InvalidVoteType}
    ensures code == 404 <==> f in {PostNotFound, ParentNotFound}
    ensures code == 500 <==> f == StorageError
  {
    match f
    case MissingFields | InvalidPostId | InvalidParentId | InvalidVoteType => 400
    case PostNotFound | ParentNotFound => 404
    case StorageError => 500
  }

  /** JavaScript truthiness of a text field: present and not empty. */
  predicate Truthy(v: Option<string>)
  {
    v.Some? && v.value != ""
  }

  /** `const id = parseInt(s); if (!id || id < 1) reject`: the id when it
      parses to at least 1. */
  function PositiveId(s: string): (r: Option<int>)
    ensures r.Some? <==> (ParseInt(s).Some? && ParseInt(s).value >= 1)
    ensures r.Some? ==> r == ParseInt(s)
  {
    match ParseInt(s)
    case Some(n) => if n >= 1 then Some(n) else None
    case None => None
  }

  /** `parseInt(q) || fallback`: NaN and 0 give the fallback. */
  function PageParam(q: Option<string>, fallback: int): (n: int)
    ensures q.None? ==> n == fallback
    ensures q.Some? && ParseInt(q.value).Some? && ParseInt(q.value).value != 0 ==> n == ParseInt(q.value).value
    ensures q.Some? && (ParseInt(q.value).None? || ParseInt(q.value) == Some(0)) ==> n == fallback
  {
    if q.None? then fallback
    else match ParseInt(q.value)
      case None => fallback
      case Some(v) => if v == 0 then fallback else v
  }

  // ---------------------------------------------------------------- voting

  datatype VoteRequest = VoteRequest(postId: Option<string>, kind: Option<string>)

  datatype Action = Added | Removed | Changed

  datatype VoteReply = VoteReply(
    postId: int, action: Action, currentVote: Option<VoteType>, likes: int, dislikes: int)

  function VoteTypeOf(s: string): (r: Option<VoteType>)
    ensures r == Some(Like) <==> s == "like"
    ensures r == Some(Dislike) <==> s == "dislike"
  {
    if s == "like" then Some(Like) else if s == "dislike" then Some(Dislike) else None
  }

  /** The checks that run before any statement, in the handler's order. */
  function CheckVoteRequest(req: VoteRequest): (r: Result<(int, VoteType), Failure>)
    ensures r == Err(MissingFields) <==> !Truthy(req.postId) || !Truthy(req.kind)
    ensures r == Err(InvalidPostId) <==>
      Truthy(req.postId) && Truthy(req.kind) && PositiveId(req.postId.value).None?
    ensures r == Err(InvalidVoteType) <==>
      Truthy(req.postId) && Truthy(req.kind) && PositiveId(req.postId.value).Some?
      && VoteTypeOf(req.kind.value).None?
    ensures (Truthy(req.postId) && Truthy(req.kind)
      && PositiveId(req.postId.value).Some? && VoteTypeOf(req.kind.value).Some?) ==>
      r == Ok((PositiveId(req.postId.value).value, VoteTypeOf(req.kind.value).value))
  {
    if !Truthy(req.postId) || !Truthy(req.kind) then Err(MissingFields)
    else match PositiveId(req.postId.value)
      case None => Err(InvalidPostId)
      case Some(postId) =>
        match VoteTypeOf(req.kind.value)
        case None => Err(InvalidVoteType)
        case Some(kind) => Ok((postId, kind))
  }

  /** The reply built from `getVoteCounts` after the transition. */
  function ReplyWithCounts(t: Tables, postId: int, action: Action, current: Option<VoteType>): (r: Result<VoteReply, Failure>)
    ensures r.Err? <==> postId !in t.posts
    ensures r.Err? ==> r.error == StorageError
    ensures r.Ok? ==> r.value == VoteReply(postId, action, current, t.posts[postId].likes, t.posts[postId].dislikes)
  {
    match GetVoteCounts(t, postId)
    case None => Err(StorageError)
    case Some(counts) => Ok(VoteReply(postId, action, current, counts.0, counts.1))
  }

  /** The transition for a valid vote on an active post. */
  function ApplyVote(t: Tables, postId: int, kind: VoteType, ip: string, now: int): (Result<VoteReply, Failure>, Tables)
  {
    match CurrentVote(t, postId, ip)
    case None =>
      (match InsertVote(t, postId, ip, kind, now)
       case None => (Err(StorageError), t)
       case Some(t1) =>
         var t2 := AddToCounter(t1, postId, kind, 1);
         (ReplyWithCounts(t2, postId, Added, Some(kind)), t2))
    case Some(current) =>
      if current == kind then
        var t1 := RemoveVote(t, postId, ip);
        var t2 := AddToCounter(t1, postId, kind, -1);
        (ReplyWithCounts(t2, postId, Removed, None), t2)
      else
        var t1 := UpdateVote(t, postId, ip, kind);
        var t2 := AddToCounter(t1, postId, current, -1);
        var t3 := AddToCounter(t2, postId, kind, 1);
        (ReplyWithCounts(t3, postId, Changed, Some(kind)), t3)
  }

  /** `POST /api/public/vote/`: the reply and the tables after it. */
  function CastVote(t: Tables, req: VoteRequest, ip: string, now: int): (Result<VoteReply, Failure>, Tables)
  {
    match CheckVoteRequest(req)
    case Err(e) => (Err(e), t)
    case Ok(v) =>
      if !PostIsActive(t, v.0) then (Err(PostNotFound), t)
      else ApplyVote(t, v.0, v.1, ip, now)
  }

  // ---------------------------------------------------------------- comments and posts

  datatype CommentRequest = CommentRequest(
    postId: Option<string>, parentId: Option<string>, author: Option<string>, content: Option<string>)

  /** The created comment as the reply reports it. */
  datatype NewComment = NewComment(
    id: int, ip: string, postId: int, parentId: Option<int>, author: string, content: string, status: int)

  /** The checks of the comment handler that need no table. */
  function CheckCommentRequest(req: CommentRequest): (r: Result<(int, Option<int>), Failure>)
    ensures r == Err(MissingFields) <==> !Truthy(req.postId) || !Truthy(req.author) || !Truthy(req.content)
    ensures r == Err(InvalidPostId) <==>
      Truthy(req.postId) && Truthy(req.author) && Truthy(req.content)
      && PositiveId(req.postId.value).None?
    ensures r == Err(InvalidParentId) <==>
      Truthy(req.postId) && Truthy(req.author) && Truthy(req.content)
      && PositiveId(req.postId.value).Some? && Truthy(req.parentId) && PositiveId(req.parentId.value).None?
    ensures r.Ok? ==> (PositiveId(req.postId.value) == Some(r.value.0)
      && (r.value.1.None? <==> !Truthy(req.parentId))
      && (r.value.1.Some? ==> PositiveId(req.parentId.value) == r.value.1))
    ensures (Truthy(req.postId) && Truthy(req.author) && Truthy(req.content)
      && PositiveId(req.postId.value).Some?
      && (!Truthy(req.parentId) || PositiveId(req.parentId.value).Some?)) ==>
      r == Ok((PositiveId(req.postId.value).value,
               if Truthy(req.parentId) then PositiveId(req.parentId.value) else None))
  {
    if !Truthy(req.postId) || !Truthy(req.author) || !Truthy(req.content) then Err(MissingFields)
    else match PositiveId(req.postId.value)
      case None => Err(InvalidPostId)
      case Some(postId) =>
        if !Truthy(req.parentId) then Ok((postId, None))
        else match PositiveId(req.parentId.value)
          case None => Err(InvalidParentId)
          case Some(parentId) => Ok((postId, Some(parentId)))
  }

  /** `POST /api/public/comment/`: the reply and the tables after it. */
  function SubmitComment(t: Tables, req: CommentRequest, ip: string, now: int): (Result<NewComment, Failure>, Tables)
  {
    match CheckCommentRequest(req)
    case Err(e) => (Err(e), t)
    case Ok(v) =>
      var (postId, parentId) := v;
      if !PostIsActive(t, postId) then (Err(PostNotFound), t)
      else if parentId.Some? && !CommentIsActiveOn(t, parentId.value, postId) then (Err(ParentNotFound), t)
      else
        var ins := InsertComment(t, ip, postId, parentId, req.author.value, req.content.value, now);
        (Ok(NewComment(ins.0, ip, postId, parentId, req.author.value, req.content.value, ACTIVE)), ins.1)
  }

  datatype PostRequest = PostRequest(author: Option<string>, title: Option<string>, content: Option<string>)

  /** The created post as the reply reports it. */
  datatype NewPost = NewPost(
    id: int, ip: string, author: string, title: string, content: string,
    likes: int, dislikes: int, status: int)

  /** `POST /api/public/post/`: the reply and the tables after it. */
  function SubmitPost(t: Tables, req: PostRequest, ip: string, now: int): (Result<NewPost, Failure>, Tables)
  {
    if !Truthy(req.author) || !Truthy(req.title) || !Truthy(req.content) then (Err(MissingFields), t)
    else
      var ins := InsertPost(t, ip, req.author.value, req.title.value, req.content.value, now);
      (Ok(NewPost(ins.0, ip, req.author.value, req.title.value, req.content.value, 0, 0, ACTIVE)), ins.1)
  }

  // ---------------------------------------------------------------- reading a post

  /** The post as `GET /api/public/post/:id` reports it. */
  datatype PostView = PostView(id: int, post: Post, authorIp: string, userVote: Option<VoteType>)

  /** `GET /api/public/post/:id`: the view count goes up before the post is
      looked up, so a soft-deleted post is counted and still answered 404. */
  function ViewPost(t: Tables, idText: string, ip: string): (Result<PostView, Failure>, Tables)
  {
    match PositiveId(idText)
    case None => (Err(InvalidPostId), t)
    case Some(postId) =>
      var t1 := IncrementViews(t, postId);
      match GetPost(t1, postId)
      case None => (Err(PostNotFound), t1)
      case Some(p) => (Ok(PostView(postId, p, MaskIP(Some(p.ip)), CurrentVote(t1, postId, ip))), t1)
  }

  // ---------------------------------------------------------------- listings

  /** A listing row with the masked address the reply adds. */
  datatype MaskedPost = MaskedPost(row: ListedPost, authorIp: string)

  datatype Page = Page(rows: seq<MaskedPost>, page: int, limit: int, hasNext: bool)

  function MaskRows(rows: seq<ListedPost>): (masked: seq<MaskedPost>)
    ensures |masked| == |rows|
    ensures forall i :: 0 <= i < |rows| ==>
      masked[i].row == rows[i] && masked[i].authorIp == MaskIP(Some(rows[i].ip))
  {
    if rows == [] then [] else [MaskedPost(rows[0], MaskIP(Some(rows[0].ip)))] + MaskRows(rows[1..])
  }

  /** `GET /api/public/posts?page&limit`. */
  function BoardPage(t: Tables, pageQ: Option<string>, limitQ: Option<string>, ip: string): Page
  {
    var page := PageParam(pageQ, 1);
    var limit := PageParam(limitQ, 15);
    var rows := BoardPosts(t, page, limit, ip);
    Page(MaskRows(rows), page, limit, |rows| == limit)
  }

  /** `GET /api/public/recommended-posts?page&limit`. */
  function RecommendedPage(t: Tables, pageQ: Option<string>, limitQ: Option<string>, ip: string): Page
  {
    var page := PageParam(pageQ, 1);
    var limit := PageParam(limitQ, 15);
    var rows := RecommendedPosts(t, page, limit, ip);
    Page(MaskRows(rows), page, limit, |rows| == limit)
  }

  // ---------------------------------------------------------------- what the checks accept

  /** The text a client sends for a vote type. */
  function VoteTypeName(kind: VoteType): string
  {
    match kind
    case Like => "like"
    case Dislike => "dislike"
  }

  /** The vote type check reads back each type's name and accepts no other
      text; the comparison is case-sensitive. */
  lemma VoteTypeNames(s: string, kind: VoteType)
    ensures VoteTypeOf(VoteTypeName(kind)) == Some(kind)
    ensures VoteTypeOf(s) == Some(kind) ==> s == VoteTypeName(kind)
    ensures VoteTypeOf("Like") == None && VoteTypeOf("") == None
  {
  }

  /** Every id written in decimal from 1 on passes the id check, whatever
      non-alphanumeric text follows it. */
  lemma PositiveIdOfDecimal(n: nat, tail: string)
    requires n >= 1
    requires tail == [] || DigitValue(tail[0], 36).None?
    ensures PositiveId(DecimalString(n) + tail) == Some(n)
  {
    ParseIntDecimal(n, tail);
  }

  /** What `parseInt` lets through and what the `< 1` test stops: zero, a
      negative number and text without a leading digit are refused; white
      space before the number, text after it and a hexadecimal prefix are
      accepted. */
  lemma PositiveIdExamples()
    ensures PositiveId("") == None && PositiveId("0") == None
    ensures PositiveId("-3") == None && PositiveId("abc") == None
    ensures PositiveId(" 7") == Some(7) && PositiveId("7.5") == Some(7)
    ensures PositiveId("0x10") == Some(16)
  {
    ParseIntExamples();
  }

  /** The decimal text of an id from 1 on is a present field that passes the
      id check with that id. */
  lemma DecimalIdPasses(n: nat)
    requires n >= 1
    ensures Truthy(Some(DecimalString(n))) && PositiveId(DecimalString(n)) == Some(n)
  {
    PositiveIdOfDecimal(n, "");
    assert DecimalString(n) + "" == DecimalString(n);
  }

  /** A well-formed vote request is accepted with its own id and type, and a
      type in the wrong case is refused. */
  lemma CheckVoteRequestAccepts(n: nat, kind: VoteType)
    requires n >= 1
    ensures CheckVoteRequest(VoteRequest(Some(DecimalString(n)), Some(VoteTypeName(kind)))) == Ok((n, kind))
    ensures CheckVoteRequest(VoteRequest(Some(DecimalString(n)), Some("Like"))) == Err(InvalidVoteType)
  {
    DecimalIdPasses(n);
    VoteTypeNames("Like", kind);
    assert Truthy(Some(VoteTypeName(kind))) && Truthy(Some("Like"));
  }

  /** A well-formed comment request is accepted with its own post and parent. */
  lemma CheckCommentRequestAccepts(n: nat, parent: Option<int>, author: string, content: string)
    requires n >= 1 && author != "" && content != ""
    requires parent.Some? ==> parent.value >= 1
    ensures var parentText := if parent.None? then None else Some(DecimalString(parent.value));
      CheckCommentRequest(CommentRequest(Some(DecimalString(n)), parentText, Some(author), Some(content)))
        == Ok((n, parent))
  {
    var postText := DecimalString(n);
    DecimalIdPasses(n);
    match parent
    case None =>
      CommentParentText(postText, author, content);
    case Some(p) =>
      var parentText := DecimalString(p);
      DecimalIdPasses(p);
      assert CheckCommentRequest(CommentRequest(Some(postText), Some(parentText), Some(author), Some(content)))
        == Ok((n, Some(p)));
  }

  /** An absent and an empty parent both mean a top-level comment, while a
      parent written as `0` is refused. */
  lemma CommentParentText(postId: string, author: string, content: string)
    requires PositiveId(postId).Some? && author != "" && content != ""
    ensures CheckCommentRequest(CommentRequest(Some(postId), None, Some(author), Some(content)))
      == Ok((PositiveId(postId).value, None))
    ensures CheckCommentRequest(CommentRequest(Some(postId), Some(""), Some(author), Some(content)))
      == Ok((PositiveId(postId).value, None))
    ensures CheckCommentRequest(CommentRequest(Some(postId), Some("0"), Some(author), Some(content)))
      == Err(InvalidParentId)
  {
    var id := PositiveId(postId).value;
    assert postId != "" by { ParseNoDigits(); }
    assert Truthy(Some(postId)) && Truthy(Some(author)) && Truthy(Some(content));
    assert !Truthy(Some("")) && Truthy(Some("0"));
    assert PositiveId("0") == None by { ParseZero(); }
    assert CheckCommentRequest(CommentRequest(Some(postId), None, Some(author), Some(content))) == Ok((id, None));
    assert CheckCommentRequest(CommentRequest(Some(postId), Some(""), Some(author), Some(content))) == Ok((id, None));
  }

  /** A page or limit written in decimal from 1 on is taken as written; `0`
      gives the default, yet a negative value passes unchanged. */
  lemma PageParamOfDecimal(n: nat, fallback: int)
    requires n >= 1
    ensures PageParam(Some(DecimalString(n)), fallback) == n
    ensures PageParam(Some("0"), fallback) == fallback
    ensures PageParam(Some("-3"), fallback) == -3
  {
    assert PageParam(Some(DecimalString(n)), fallback) == n by {
      ParseIntDecimal(n, "");
      assert DecimalString(n) + "" == DecimalString(n);
    }
    assert PageParam(Some("0"), fallback) == fallback by { ParseZero(); }
    assert PageParam(Some("-3"), fallback) == -3 by { ParseNegative(); }
  }

  /** With a non-zero default, the parameter is never 0. */
  lemma PageParamNeverZero(q: Option<string>, fallback: int)
    requires fallback != 0
    ensures PageParam(q, fallback) != 0
  {
  }

  // ---------------------------------------------------------------- the handlers as statement sequences

  /** The vote handler: the checks, then the statements of the transition. */
  method Vote(db: Database, req: VoteRequest, ip: string, now: int) returns (reply: Result<VoteReply, Failure>)
    modifies db
    ensures (reply, db.State()) == CastVote(old(db.State()), req, ip, now)
  {
    var check := CheckVoteRequest(req);
    if check.Err? {
      return Err(check.error);
    }
    var (postId, kind) := check.value;
    if !PostIsActive(db.State(), postId) {
      return Err(PostNotFound);
    }
    var current := CurrentVote(db.State(), postId, ip);
    var action: Action;
    if current.None? {
      var ok := db.InsertVoteRow(postId, ip, kind, now);
      if !ok {
        return Err(StorageError);
      }
      var _ := db.UpdatePostVoteCount(postId, kind, 1);
      action := Added;
    } else if current.value == kind {
      var _ := db.RemoveVoteRow(postId, ip);
      var _ := db.UpdatePostVoteCount(postId, kind, -1);
      action := Removed;
    } else {
      var _ := db.UpdateVoteRow(postId, ip, kind);
      var _ := db.UpdatePostVoteCount(postId, current.value, -1);
      var _ := db.UpdatePostVoteCount(postId, kind, 1);
      action := Changed;
    }
    reply := ReplyWithCounts(db.State(), postId, action, if action == Removed then None else Some(kind));
  }

  /** The comment handler. */
  method CreateComment(db: Database, req: CommentRequest, ip: string, now: int) returns (reply: Result<NewComment, Failure>)
    modifies db
    ensures (reply, db.State()) == SubmitComment(old(db.State()), req, ip, now)
  {
    var check := CheckCommentRequest(req);
    if check.Err? {
      return Err(check.error);
    }
    var (postId, parentId) := check.value;
    if !PostIsActive(db.State(), postId) {
      return Err(PostNotFound);
    }
    if parentId.Some? && !CommentIsActiveOn(db.State(), parentId.value, postId) {
      return Err(ParentNotFound);
    }
    var id := db.InsertCommentRow(ip, postId, parentId, req.author.value, req.content.value, now);
    reply := Ok(NewComment(id, ip, postId, parentId, req.author.value, req.content.value, ACTIVE));
  }

  /** The post handler. */
  method CreatePost(db: Database, req: PostRequest, ip: string, now: int) returns (reply: Result<NewPost, Failure>)
    modifies db
    ensures (reply, db.State()) == SubmitPost(old(db.State()), req, ip, now)
  {
    if !Truthy(req.author) || !Truthy(req.title) || !Truthy(req.content) {
      return Err(MissingFields);
    }
    var id := db.InsertPostRow(ip, req.author.value, req.title.value, req.content.value, now);
    reply := Ok(NewPost(id, ip, req.author.value, req.title.value, req.content.value, 0, 0, ACTIVE));
  }

  /** The single-post handler. */
  method ReadPost(db: Database, idText: string, ip: string) returns (reply: Result<PostView, Failure>)
    modifies db
    ensures (reply, db.State()) == ViewPost(old(db.State()), idText, ip)
  {
    var parsed := PositiveId(idText);
    if parsed.None? {
      return Err(InvalidPostId);
    }
    var postId := parsed.value;
    db.IncrementPostViews(postId);
    var post := GetPost(db.State(), postId);
    if post.None? {
      return Err(PostNotFound);
    }
    reply := Ok(PostView(postId, post.value, MaskIP(Some(post.value.ip)), CurrentVote(db.State(), postId, ip)));
  }

  /** A comment row as `getComments` hands it on: its id, its columns and the
      masked address it adds. */
  datatype ListedComment = ListedComment(id: int, comment: Comment, authorIp: string)

  /** `rows.map(row => ({ ...row, author_ip: maskIP(row.ip) }))` over the
      comment rows of the tables. */
  function MaskComments(t: Tables, rows: seq<CommentRow>): (listed: seq<ListedComment>)
    requires forall i :: 0 <= i < |rows| ==> rows[i].id in t.comments
    ensures |listed| == |rows|
    ensures forall i :: 0 <= i < |rows| ==>
      var c := t.comments[rows[i].id];
      listed[i] == ListedComment(rows[i].id, c, MaskIP(Some(c.ip)))
  {
    if rows == [] then []
    else
      var c := t.comments[rows[0].id];
      [ListedComment(rows[0].id, c, MaskIP(Some(c.ip)))] + MaskComments(t, rows[1..])
  }

  /** The comment thread of a post as `GET /api/public/comments/:post_id`
      reports it: the comments (every node of the forest names one of them by
      id), the forest and the total. */
  datatype Thread = Thread(postId: int, comments: seq<ListedComment>, forest: Forest, totalCount: int)

  /** The comment-list handler: the post's active comments, lowest id first,
      each with its masked address, arranged by `OrganizeComments`. The thread's roots are the parentless
      comments, each comment's replies are the comments naming it, in id
      order, and the total counts every active comment, orphans included. */
  method ListComments(db: Database, idText: string) returns (reply: Result<Thread, Failure>)
    ensures PositiveId(idText).None? ==> reply == Err(InvalidPostId)
    ensures PositiveId(idText).Some? ==>
      var postId := PositiveId(idText).value;
      var rows := CommentRows(db.State(), postId);
      && (!PostIsActive(db.State(), postId) ==> reply == Err(PostNotFound))
      && (PostIsActive(db.State(), postId) ==>
            && reply.Ok? && reply.value.postId == postId
            && reply.value.totalCount == |rows|
            && |reply.value.comments| == |rows|
            && (forall i :: 0 <= i < |rows| ==>
                  var c := reply.value.comments[i];
                  && c.id == rows[i].id && CommentIsActiveOn(db.State(), c.id, postId)
                  && c.comment == db.State().comments[c.id]
                  && c.authorIp == MaskIP(Some(c.comment.ip)))
            && reply.value.forest.roots == Roots(rows)
            && reply.value.forest.replies.Keys == Ids(rows)
            && forall id :: id in reply.value.forest.replies ==>
                 reply.value.forest.replies[id] == Children(rows, Some(id)))
  {
    var parsed := PositiveId(idText);
    if parsed.None? {
      return Err(InvalidPostId);
    }
    var postId := parsed.value;
    if !PostIsActive(db.State(), postId) {
      return Err(PostNotFound);
    }
    var rows := CommentRows(db.State(), postId);
    var comments := MaskComments(db.State(), rows);
    var forest := OrganizeComments(rows);
    reply := Ok(Thread(postId, comments, forest, |rows|));
  }
}
