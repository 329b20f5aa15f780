# mukgall board core, modelled in Dafny

This project models the core of the mukgall anonymous bulletin board. In the
board, visitors write posts and threaded comments. Each originating address
casts at most one like or dislike per post. A periodic job copies popular
recent posts into a "recommended" feed. All pages sit behind one shared
Basic-auth password.

The model covers these parts:

- the four SQLite tables (posts, comments, votes, recommended_posts) as
  values, with the constraints their schemas declare (`Schema`);
- the statements the server issues, as functions from tables to tables
  (`Statements`), and as methods of a `Database` class whose fields are the
  tables (`Store`);
- the listing queries with their `ORDER BY … LIMIT … OFFSET`, and the
  comment query (`Queries`);
- the promotion job (`Promotion`, `Store.Database.PromotePostsToRecommended`);
- address masking (`Masking`), the password gate (`Auth`) and the comment
  tree builder (`CommentTree`);
- the public API handlers (`Handlers`), each as a pure function from the old
  tables to the reply and the new tables, and as a method on the database
  that issues the same statements in the same order;
- what the handlers guarantee (`Voting`, `Posting`). The vote state machine
  keeps each post's `likes`/`dislikes` columns equal to its active vote rows.
  Requests keep the schema invariants. A promotion run recommends exactly
  the eligible posts and is idempotent.

The JavaScript string operations the code relies on (`split` with one
separator character, `join`, `parseInt` without a radix) are modelled in
`Text`. The client address, the request body fields and the clock are
parameters of the handlers. A request field is `None` when it is absent.

Three behaviours of the code are worth noting:

- Promotion looks neither at a notice flag (the posts table has none) nor at
  the post's status, so a soft-deleted post is promoted too
  (`Promotion.PromotesDeletedPosts`).
- Reading a post counts a view before the post is looked up, so a
  soft-deleted post still gets views (`Posting.DeletedPostViewsGrow`).
- Every reply that shows a masked address spreads the whole row first, so the
  raw `ip` column travels beside `author_ip` (`Posting.BoardRowsCarryRawAddress`;
  the post view's `post` and each listed comment's `comment` hold it too).

## Model

| member | source | states |
|---|---|---|
| Text.Split | app.js:61 | `split` on one character: never empty, no part holds the separator, joining gives back the string, two or more parts exactly when the separator occurs |
| Text.SplitJoin | app.js:61 | splitting undoes joining for separator-free parts |
| Text.ParseIntDecimal | app.js:287-288 | `parseInt` reads back the decimal text of any natural number, whatever non-alphanumeric text follows |
| Text.ParseInt | app.js:287-288 | `parseInt(s)` without a radix: leading white space, a sign, a `0x` prefix and the longest digit prefix; NaN is `None` (properties in `Text.ParseIntDecimal`, `Text.ParseIntExamples`) |
| Text.ParseSkipsSpace | app.js:335 | `parseInt` ignores a leading white-space character |
| Text.ParseIntExamples | app.js:335 | `parseInt` gives 0 for `0`, -3 for `-3`, 7 for ` 7` and `7.5`, 16 for `0x10`, and NaN for `abc` and the empty string |
| Masking.MaskIPCases | app.js:47-68 | a missing or empty address gives `(?.?.?.?)`; a normal form without a dot gives `?.?.?.?`; otherwise the result is the normal form's text up to its second dot |
| Masking.MaskIP | app.js:47-68 | `maskIP(ip)`: the missing-address placeholder, or the masking of the normalised address (its cases in `Masking.MaskIPCases`) |
| Masking.Normalize | app.js:50-58 | `::1` becomes `127.0.0.1`, then a leading `::ffff:` is dropped (`Masking.NormalizeLoopback`, `Masking.NormalizeMapped`) |
| Masking.MaskIPHasAtMostOneDot | app.js:60-67 | a masked address other than the placeholders `(?.?.?.?)` and `?.?.?.?` never shows two dots |
| Masking.PlaceholderExactlyWhenUndotted | app.js:47-68 | a placeholder is shown exactly when the address is missing or empty or its normal form has no dot |
| Masking.MaskOfFields | app.js:60-64 | an address whose first two fields are `a` and `b` masks to `a.b` |
| Masking.MaskLoopback | app.js:52-54 | `::1` is shown as `127.0` |
| Masking.NormalizeMapped | app.js:56-58 | the `::ffff:` prefix is dropped from whatever follows it |
| Masking.MaskMappedIPv4 | app.js:56-58 | an IPv4-mapped address masks like the address it carries, except for the remainders ruled out in the precondition |
| Masking.MaskMappedEmpty | app.js:48-58 | the bare `::ffff:` prefix masks as unparseable, not as missing |
| Masking.MaskMappedLoopback | app.js:52-58 | a mapped loopback `::ffff:::1` is not rewritten and masks as unparseable |
| Masking.MaskWithoutDot | app.js:60-66 | a normal form without a dot masks as `?.?.?.?` |
| Masking.NormalizeLoopback | app.js:52-54 | `::1` is normalised to `127.0.0.1` |
| Auth.AdmitsIff | app.js:24-28 | the gate admits a decoded `user:pass` string exactly when `smemda` follows the first `:` and is followed by the end of the string or another `:` |
| Auth.Admits | app.js:24-28 | the gate: the second `:`-field of the decoded credentials is `smemda` (characterised by `Auth.AdmitsIff`) |
| Auth.PasswordField | app.js:25 | the second field of `credentials.split(':')`, absent when there is no `:` |
| Auth.AdmittedHasShape | app.js:24-28 | an admitted string has `smemda` after its first `:`, ending the string or followed by `:` |
| Auth.ShapeIsAdmitted | app.js:24-28 | every string of that shape is admitted |
| Auth.AdmitsExtraField | app.js:25-28 | a trailing `:x` is ignored, so the gate admits a password that RFC 7617 reads as `smemda:x` |
| Auth.AgreesWithRfcWithoutSecondColon | app.js:25-28 | when the RFC 7617 password has no `:`, the gate admits exactly the password `smemda` |
| CommentTree.OrganizeComments | app.js:238-259 | the roots are the parentless rows in input order; every id gets a reply list; each list holds, in input order, the rows naming that id as parent |
| CommentTree.Children | app.js:247-256 | the ids of the rows naming a parent, in input order: the replies the builder collects for it (`CommentTree.ChildrenMembership`) |
| CommentTree.Roots | app.js:248-249 | the ids of the parentless rows, in input order |
| CommentTree.ChildrenMembership | app.js:247-256 | an id is listed under a parent exactly when a row with that id names that parent |
| CommentTree.ChildrenAtMostOnce | app.js:247-256 | with unique ids no id is listed twice under one parent |
| CommentTree.Placement | app.js:247-256 | with unique ids each comment is placed once: as a root, or in its parent's list when the parent is in the input; an orphan is in no list |
| CommentTree.ChildrenPermutation | app.js:218-221 | reordering the input rows keeps each list's elements and their multiplicities |
| CommentTree.ReorderingKeepsIds | app.js:242-245 | reordering the input rows keeps the set of forest nodes |
| Schema.EmptyTables | database.js:37-112 | freshly created tables satisfy the schema invariants, and every post's counters match its votes |
| Schema.TallyAfterWrite | database.js:61-69 | writing one vote row moves a tally by what that row counted before and after |
| Schema.TallyOfUnvotedPost | database.js:61-69 | a post without vote rows has no votes of either type |
| Statements.PostIsActive | app.js:73-81 | `checkPost`: the post exists and its status is 1; a soft-deleted or missing post is not found (used by `Posting.CommentAcceptance` and `Voting.VoteValidationFirst` for the 404 answers) |
| Statements.CommentIsActiveOn | app.js:84-92 | `checkComment`: the comment exists, belongs to the given post and its status is 1 (`Posting.CommentAcceptance`: a parent that is not such a comment is answered with 404 and nothing is written) |
| Statements.InsertPost | app.js:95-112 | the new post gets the next id and zero likes, dislikes and views, and is active; nothing else changes |
| Statements.InsertComment | app.js:115-131 | the new active comment gets the next id; nothing else changes |
| Statements.InsertVote | app.js:145-153 | the insert fails exactly when the (post, address) pair already has a row, whatever its status; otherwise only the row `(now, type, active)` is added and every other row is kept |
| Statements.RemoveVote | app.js:156-164 | the pair's active row gets status 0 and keeps its type and time; without an active row nothing changes; every other row is kept and none is added or dropped |
| Statements.UpdateVote | app.js:167-175 | the pair's active row takes the new type and keeps the rest; without one nothing changes; every other row is kept |
| Statements.AddToCounter | app.js:178-187 | only the named post's `likes` (for a like) or `dislikes` column moves by `change`; its other columns and every other post are kept; a missing post changes nothing |
| Statements.IncrementViews | database.js:134-146 | the post's views go up by one and nothing else changes; a missing post changes nothing |
| Statements.CurrentVote | app.js:134-142 | `getCurrentVote`: the type of the pair's active vote, none when its row is absent or retracted (used by `Statements.InsertVote` and the vote lemmas) |
| Statements.GetPost | app.js:200-209 | `getPost`: the post when it is active, none otherwise |
| Statements.GetVoteCounts | app.js:190-198 | `getVoteCounts`: the post's likes and dislikes, whatever its status; none for a missing post |
| Statements.InsertOrIgnoreRecommendation | database.js:187-195 | a row `(post, now)` is added under the next id exactly when the post is not yet recommended, and then the recommended set gains the post; otherwise nothing changes; only recommended_posts and its counter move, and the existing rows are kept |
| Statements.InsertVoteTallies | app.js:145-153 | a successful insert adds one vote of its type to its post's tally and to no other |
| Statements.RemoveVoteTallies | app.js:156-164 | a retraction removes one vote of the active type; without an active vote no tally moves |
| Statements.UpdateVoteTallies | app.js:167-175 | a type change moves one vote from the old type to the new one |
| Queries.Window | database.js:218 | `LIMIT`/`OFFSET`: row `i` of the window is row `offset + i` of the input; the length is the limit or what remains; a negative offset skips nothing and a negative limit sets no bound |
| Queries.WindowKeepsOrder | database.js:217-218 | a window of a listing ordered by falling id holds rows of that listing, still ordered by falling id |
| Queries.WindowAt | database.js:218 | row `i` of page `page` is row `(page - 1) * limit + i` of the full listing |
| Queries.PromotedAtIsJoin | database.js:212-215 | the LEFT JOIN finds a `promoted_at` exactly when the post is recommended, and then the one of its recommendation row |
| Queries.BoardListingBelowComplete | database.js:213-217 | every active post appears in the full board listing |
| Queries.BoardWindowShape | database.js:208-219 | any window of the board listing holds only active posts with their own columns, the caller's active vote and their promotion time; ids fall; at most `limit` rows |
| Queries.BoardPostsShape | database.js:205-225 | `getBoardPosts` returns such a board page |
| Queries.BoardPosts | database.js:205-225 | `getBoardPosts`: the window after `(page - 1) * limit` rows of the board listing (its shape in `Queries.BoardPostsShape`) |
| Queries.BoardPagesCoverActivePosts | database.js:207-218 | with a positive page size, every active post appears on some page |
| Queries.RecommendedWindowShape | database.js:230-241 | row `i` of a recommended window is the post of the recommendation at that position, active, with the caller's vote and its promotion time; recommendation ids fall; no post twice when recommendations are unique |
| Queries.RecommendationIdsBelowComplete | database.js:235-238 | every listed recommendation appears in the id-ordered scan |
| Queries.RecommendedRows | database.js:230-234 | one row per recommendation, in the same order, joined with its post |
| Queries.RecommendedPostsShape | database.js:227-247 | `getRecommendedPosts` returns such a recommended page |
| Queries.RecommendedPosts | database.js:227-247 | the second `getRecommendedPosts`: the window after `(page - 1) * limit` rows of the recommended listing (its shape in `Queries.RecommendedPostsShape`) |
| Queries.RecommendedListingComplete | database.js:235-238 | a recommendation is listed exactly when its post is active |
| Queries.CommentRowsAreActiveComments | app.js:212-222 | the comment query returns each active comment of the post exactly once |
| Queries.CommentRows | app.js:212-222 | `getComments`' rows: the id and parent of the post's active comments, lowest id first (`Queries.CommentRowsAreActiveComments`) |
| Queries.CommentRowsUpToComplete | app.js:212-222 | every active comment of the post up to an id appears in the scan |
| Promotion.CandidateElements | database.js:172-178 | the SELECT picks exactly the stored, eligible, not yet recommended posts |
| Promotion.Eligible | database.js:175-176 | a post from the last 24 hours with at least 10 views or 2 likes (`Promotion.ThresholdsInclusive`) |
| Promotion.Candidates | database.js:172-178 | the rows the SELECT returns (`Promotion.CandidateElements`) |
| Promotion.PromoteRun | database.js:171-204 | one run: the selected rows inserted in order, with the count of inserts that changed a row (`Promotion.PromoteCount`) |
| Promotion.Promote | database.js:171-204 | the tables after one run (`Promotion.PromoteRecommendsEligible`, `Promotion.PromoteIdempotent`) |
| Promotion.CandidatesUpToComplete | database.js:172-178 | every candidate up to an id is selected |
| Promotion.NoCandidates | database.js:172-178 | without candidates the SELECT returns no rows |
| Promotion.InsertAllEffect | database.js:186-196 | inserting a list of posts recommends exactly the listed ones in addition; old rows are kept unchanged; new rows are stamped with the run's time and get fresh ids; only recommended_posts changes |
| Promotion.InsertOrIgnoreKeepsUnique | database.js:100 | one INSERT OR IGNORE keeps `post_id` unique |
| Promotion.InsertAllKeepsUnique | database.js:187-196 | so does the whole loop |
| Promotion.InsertAllCount | database.js:189-196 | for a list without repeats or already recommended posts, every insert is counted |
| Promotion.PromoteRecommendsEligible | database.js:171-204 | after a run, the recommended posts are the old ones plus every post from the last 24 hours with at least 10 views or 2 likes; old recommendation rows are unchanged |
| Promotion.PromoteCount | database.js:189-196 | the count a run reports is the number of posts it newly recommended |
| Promotion.PromoteKeepsTables | database.js:171-204 | a run changes only recommended_posts and keeps the schema invariants |
| Promotion.PromoteIdempotent | database.js:177 | a second run at the same time changes nothing and counts zero |
| Promotion.ThresholdsInclusive | database.js:175-176 | 10 views or 2 likes suffice; 9 views and 1 like do not |
| Promotion.PromotesDeletedPosts | database.js:173-177 | a soft-deleted eligible post is promoted too |
| Store.Database.constructor | database.js:37-112 | a fresh database holds empty tables |
| Store.Database.IncrementPostViews | database.js:134-146 | the new state is the view-count statement applied to the old one |
| Store.Database.InsertPostRow | app.js:95-112 | the returned id and the new state are those of the post insert |
| Store.Database.InsertCommentRow | app.js:115-131 | the returned id and the new state are those of the comment insert |
| Store.Database.InsertVoteRow | app.js:145-153 | reports whether the UNIQUE constraint let the row in; a refused insert leaves the state unchanged |
| Store.Database.RemoveVoteRow | app.js:156-164 | `changes > 0` exactly when the pair had an active vote; the new state is the retraction statement applied |
| Store.Database.UpdateVoteRow | app.js:167-175 | `changes > 0` exactly when the pair had an active vote; the new state is the type update applied |
| Store.Database.UpdatePostVoteCount | app.js:178-187 | `changes > 0` exactly when the post exists; the new state is the counter update applied |
| Store.Database.InsertRecommendationRow | database.js:187-195 | the new state and the changed flag are those of INSERT OR IGNORE |
| Store.Database.PromotePostsToRecommended | database.js:171-204 | the loop over the selected rows leaves the state of one promotion run and counts the posts it promoted |
| Handlers.PositiveId | app.js:335-338 | the id check (refuse a falsy id or one below 1): the id is accepted exactly when `parseInt` gives a number of at least 1, and then with that number; what that means for written ids is `Handlers.PositiveIdOfDecimal` and `Handlers.PositiveIdExamples` |
| Handlers.PageParam | app.js:311-312 | `parseInt` with the default as fallback: an absent, unparseable or zero value gives the default and any other parsed value is kept, negatives included (`Handlers.PageParamOfDecimal`, `Handlers.PageParamNeverZero`) |
| Handlers.VoteTypeOf | app.js:520 | only the exact texts `like` and `dislike` are vote types (`Handlers.VoteTypeNames`: the round trip with the wire names, case-sensitive) |
| Handlers.CheckVoteRequest | app.js:505-525 | the vote checks in source order: a missing field, then a bad id, then a bad type, each answered by its own refusal, and otherwise the parsed id and type (`Handlers.CheckVoteRequestAccepts`) |
| Handlers.CheckCommentRequest | app.js:439-463 | the comment checks in source order: a missing field, a bad post id, a present but bad parent id; a request passing all three is accepted with the parsed post id and, when a parent is given, the parsed parent id, and an absent or empty parent means top level (`Handlers.CheckCommentRequestAccepts`, `Handlers.CommentParentText`) |
| Handlers.ReplyWithCounts | app.js:560-573 | the vote reply carries the post's counters as stored after the transition; a post without a row gives the storage error |
| Handlers.PositiveIdOfDecimal | app.js:335-338 | every id written in decimal from 1 on passes the id check with its own value, whatever non-alphanumeric text follows |
| Handlers.PositiveIdExamples | app.js:335-338 | `0`, `-3`, `abc` and the empty text are refused; ` 7` and `7.5` give 7 and `0x10` gives 16 |
| Handlers.DecimalIdPasses | app.js:505-518 | the decimal text of an id from 1 on is a present field that passes the id check |
| Handlers.PageParamOfDecimal | app.js:311-312 | a page or limit written in decimal from 1 on is taken as written; `0` gives the default; `-3` passes unchanged |
| Handlers.PageParamNeverZero | app.js:311-312 | with a non-zero default, page and limit are never 0 |
| Handlers.VoteTypeNames | app.js:520 | the type check reads back `like` and `dislike` as their own types and accepts no other text; `Like` is refused |
| Handlers.CheckVoteRequestAccepts | app.js:505-525 | a request with a decimal id from 1 on and a type name is accepted with that id and type; a type in the wrong case is refused |
| Handlers.CheckCommentRequestAccepts | app.js:439-463 | a request with a decimal post id, an author, content and an absent or decimal parent id from 1 on is accepted with those ids |
| Handlers.CommentParentText | app.js:454-463 | an absent and an empty parent both mean a top-level comment; a parent written as `0` is refused |
| Handlers.MaskRows | app.js:316-319 | each listed row gets its masked address |
| Handlers.MaskComments | app.js:226-229 | each comment row gets its columns and its masked address |
| Handlers.CastVote | app.js:501-582 | the vote handler: checks, then the transition (its properties in `Voting`) |
| Handlers.ApplyVote | app.js:536-573 | the transition for a valid vote on an active post: add, retract or change, then the counts (`Voting.VoteTransitions`) |
| Handlers.SubmitComment | app.js:435-498 | the comment handler (`Posting.CommentAcceptance`) |
| Handlers.SubmitPost | app.js:366-392 | the post handler (`Posting.PostAcceptance`) |
| Handlers.ViewPost | app.js:333-363 | the single-post handler (`Posting.ViewPostEffect`) |
| Handlers.BoardPage | app.js:309-330 | the board listing handler (`Posting.BoardPageShape`) |
| Handlers.RecommendedPage | app.js:285-306 | the recommended feed handler (`Posting.RecommendedPageShape`) |
| Handlers.Vote | app.js:501-582 | the reply and the new state are those of the vote handler function |
| Handlers.CreateComment | app.js:435-498 | the reply and the new state are those of the comment handler function |
| Handlers.CreatePost | app.js:366-392 | the reply and the new state are those of the post handler function |
| Handlers.ReadPost | app.js:333-363 | the reply and the new state are those of the single-post handler function |
| Handlers.ListComments | app.js:395-432 | a bad id gives 400 and an inactive post 404; otherwise the thread lists the post's active comments, each with its columns and masked address, and its roots, reply lists and total are those of those comments |
| Voting.ApplyVoteFailsOnlyInStorage | app.js:541-581 | once the checks passed, the only failure is a server error, answered 500 |
| Voting.VoteValidationFirst | app.js:505-533 | a refused request (400) and a vote on a missing or deleted post (404) write nothing |
| Voting.AddedTransition | app.js:541-546 | with no vote row for the pair: `added`, the pair's vote is the type, one more of that type |
| Voting.RemovedTransition | app.js:547-552 | the same type again: `removed`, no vote, one fewer of that type |
| Voting.ChangedTransition | app.js:553-560 | the other type: `changed`, one fewer of the old type and one more of the new |
| Voting.VoteTransitions | app.js:536-573 | the three transitions of a valid vote; only the pair's row and the post's two counters change (the post's other columns, every other post and every other vote row are kept); the reply reports the new counters and the new vote, null exactly for `removed` |
| Voting.ApplyVoteKeepsCountersMatched | app.js:541-560 | each transition keeps every post's counters equal to its active vote rows |
| Voting.CountersFollowTallies | database.js:39-69 | when each counter moves by exactly what its tally moves, the counters keep matching the active vote rows |
| Voting.AddedKeepsCounters | app.js:541-546 | the `added` transition keeps the counters equal to the active rows |
| Voting.RemovedKeepsCounters | app.js:547-552 | the `removed` transition keeps the counters equal to the active rows |
| Voting.ChangedKeepsCounters | app.js:553-560 | the `changed` transition keeps the counters equal to the active rows |
| Voting.VoteKeepsCountersMatched | app.js:501-582 | any vote request keeps every post's counters equal to its active vote rows |
| Voting.VoteKeepsWellFormed | app.js:527-560 | any vote request keeps the schema invariants |
| Voting.VoteTwiceRestoresCounts | app.js:541-552 | voting the same type twice restores the post and leaves no vote |
| Voting.RetractedPairIsStuck | app.js:541-544 | after a retraction, every later valid vote of the pair on that post fails with a server error and writes nothing |
| Voting.RevoteAfterRetractionFails | app.js:541-552 | like, unlike, like: the third request fails |
| Voting.InsertOrReactivateVote | app.js:543 | the corrected insert leaves the pair with an active vote of the new type, whatever row was there |
| Voting.ReactivatedTransition | app.js:541-546 | the corrected path adds the vote whenever the pair has no active vote |
| Voting.ReactivatingVoteAlwaysAnswers | app.js:536-573 | the corrected handler answers every valid vote on an active post and agrees with the handler as written whenever that one succeeds |
| Voting.RetractAndRevote | app.js:541-552 | on the corrected path, retracting and voting again adds the vote and restores the post |
| Voting.RevoteAfterRetractionAdds | app.js:541-552 | like, unlike, like on the corrected path: the third request is `added` |
| Voting.ReactivatingVoteKeepsCountersMatched | app.js:541-560 | the corrected handler keeps the counters equal to the active rows |
| Posting.CommentAcceptance | app.js:435-498 | a comment is stored exactly when the checks pass, the post is active and any parent is an active comment on the same post; otherwise the first failed check is reported (400 for the request checks, 404 for a missing post or parent) and nothing is written |
| Posting.CommentKeepsWellFormed | app.js:465-484 | comment creation keeps the schema invariants; a stored reply's parent is an earlier comment on the same post |
| Posting.InsertCommentKeepsWellFormed | app.js:115-131 | storing a comment under a parent on the same post keeps the schema invariants |
| Posting.PostAcceptance | app.js:366-384 | a post is stored exactly when author, title and content are all given; it starts active with zero counters; otherwise 400 and nothing is written |
| Posting.PostKeepsInvariants | app.js:377-378 | post creation keeps the schema invariants and the counter match |
| Posting.ViewPostEffect | app.js:333-358 | a bad id gives 400; otherwise a view is counted first; an active post is answered with raised views, masked address and the caller's vote; otherwise 404 |
| Posting.DeletedPostViewsGrow | app.js:340-350 | a soft-deleted post is answered 404 yet its views grow |
| Posting.ViewKeepsInvariants | app.js:340 | reading a post keeps the schema invariants and the counter match |
| Posting.IncrementViewsKeepsInvariants | database.js:134-146 | counting a view keeps `WellFormed` and `CountersMatch` |
| Posting.ShortPageIsLast | app.js:321-325 | a page shorter than its limit is the last: the next page is empty |
| Posting.ShortWindowIsLast | database.js:218 | a window shorter than its limit reaches the end of the rows |
| Posting.FullLastPageClaimsNext | app.js:324 | a full last page claims a next page, and that page is empty |
| Posting.BoardPageShape | app.js:309-330 | the reply's rows are a board page of `getBoardPosts` (active posts, newest first, own columns, caller's vote, promotion time, at most `limit`), each with its masked address; `hasNext` holds exactly when the page is full; the defaults are page 1 and limit 15 |
| Posting.BoardRowsCarryRawAddress | app.js:316-319 | each listed row holds the post's raw address beside its masked one |
| Posting.RecommendedPageShape | app.js:285-306 | the reply's rows are a recommended page (the posts of the recommendations after the first `(page - 1) * limit`, newest recommendation first, active, no post twice under unique recommendations), each with its masked address; `hasNext` as for the board |

## Left out

- Express wiring, the static pages, the view routes and the 404 page are not modelled.
- The address resolution `getClientIP` is not modelled; the client address is a parameter.
- Handlers.ViewPost: the reply carries the whole post row, `status` included, while `getPost` selects every column but `status`; the extra field is always 1 there, since only active posts are returned.
- The Authorization header parsing and base64 decoding are not modelled. The gate starts from the decoded `user:pass` string.
- The one-minute cron schedule is not modelled. The promotion run takes the current time as a parameter.
- The SQLite driver is not modelled, nor the asynchronous callbacks, nor concurrency. The statements of one request run in order with no other request between them; interleaved requests are not modelled.
- Logging and the text of reply messages are left out; failures are the `Failure` values.
- Timestamps are integer seconds. SQLite's `CURRENT_TIMESTAMP` text and the `datetime('now', '-24 hours')` text comparison are modelled as `time >= now - 86400`.
- Integer columns are unbounded; SQLite's 64-bit limits are not modelled.
- JSON body fields are modelled as text; JSON numbers, booleans and objects in the body are not modelled. A numeric field is read as its decimal text. That reading differs from the source only for a numeric `0`, which JavaScript treats as falsy, in the three ways below.
- Handlers.CheckCommentRequest: a numeric `0` as `parent_id` means "no parent" in the source, which stores a top-level comment; the model reads it as the text `"0"` and refuses it as an invalid parent id (`Handlers.CommentParentText`).
- Handlers.CheckCommentRequest: a numeric `0` as `post_id` is refused as a missing field in the source, and as an invalid post id in the model; both answer 400. The same holds for `post_id` in `Handlers.CheckVoteRequest`.
- Handlers.SubmitPost: a numeric `0` as `author`, `title` or `content` is refused as missing in the source, while the model stores the text `"0"`; `Handlers.SubmitComment` does the same for `author` and `content`.
- `parseInt` is modelled on ASCII white space, a sign, an optional `0x` prefix and the longest digit prefix. Exponents, `Infinity` and the precision of large numbers are not modelled.
- The votes table's own id and the recommendation's `promoted_at` text format are not modelled.
- Each table is scanned over its id range `[1, next id)`. `ORDER BY id` walks that range.
- The promotion SELECT has no ORDER BY. The model takes ascending id order.
- The first definition of `getRecommendedPosts` (database.js:147-170) is not modelled. The second definition, with the same name, replaces it in the class.
- CommentTree.ChildrenPermutation: proves only that reordering the input keeps each list's elements with their multiplicities. The model orders comment rows by ascending id. The SQL `ORDER BY` (app.js:218-221) also gives ascending ids within each parent's replies and among the roots. That the two orders build identical lists is argued here, not proved.
- Statements.InsertOrIgnoreRecommendation: its guarantees that the existing rows are kept and that the set of recommended posts gains the post hold only when the next recommendation id is unused. That is always so under the schema invariants (`Promotion.FreshRecommendationIds`), which the promotion lemmas assume.

## Findings

| source | as written | input that shows it | evidently intended | confidence | as-written member | corrected member |
|---|---|---|---|---|---|---|
| app.js:541-544 | Retracting a vote keeps the row with status 0 (app.js:158). The next vote of the same pair finds no active vote and issues a plain INSERT, which UNIQUE(post_id, ip) (database.js:68) rejects. The handler answers 500, and the pair can never vote on that post again. | Like, unlike, like from one address on one active post. | The retracted row is reused: it becomes an active vote of the new type, the vote is `added` and the counter goes up. | not executed | Voting.RevoteAfterRetractionFails | Voting.RevoteAfterRetractionAdds |
