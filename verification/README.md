# LLMit core, modelled in Dafny

LLMit is a small Flask discussion site. Users post into named communities
called *subllmits*. Comments nest through a parent-comment link. Posts and
comments carry up- and down-vote counters. This project models the logic of
`app.py` that shapes and changes that data:

- **the comment tree** (`build_comment_tree`, as `api_get_comments` and
  `index` use it): a flat comment list becomes a forest of nodes, each with
  its children and its level;
- **the feed paginator** (`api_get_posts`): scope the posts to one group or
  to the frontpage (the groups of the first ten subllmits), sort them by
  timestamp (`sort == 'new'`) or by `upvotes - downvotes` (any other value),
  then cut the window `OFFSET (page - 1) * limit LIMIT limit`;
- **the vote ledger** (`api_vote_post`, `api_vote_comment`): look the row up
  (404 when it is missing), then raise exactly one counter by one, or answer
  400 for an unknown vote type;
- **the subllmit registry** (`create_subllmit`, `api_search_subllmits`,
  `api_get_all_subllmits`) and **record creation** (`api_submit_post`,
  `api_submit_comment`).

Modules, one file each:

| file | module | form |
|---|---|---|
| `entities.dfy` | `Entities` | the table rows as datatypes, `Option`, status codes |
| `text.dfy` | `Text` | Python's `str.strip()`, and the case folding and substring test behind `ilike` |
| `comment_tree.dfy` | `CommentTree` | pure functions and lemmas for the tree |
| `feed.dfy` | `Feed` | pure functions and lemmas for the paginator |
| `registry.dfy` | `Registry` | search and creation as functions on the table, with their invariant |
| `votes.dfy` | `Votes` | the vote handlers as functions on a table, with the ledger's lemmas |
| `submissions.dfy` | `Submissions` | record creation as functions on a table, with the table invariants |
| `store.dfy` | `Store` | class `Store`: the three tables as fields, one method per writing handler |

The handlers that write (votes, creation, submission) are methods of
`Store.Store`. Each one is proved to leave the tables equal to its pure
function applied to the old tables, and to keep `Valid()`. `Valid()` holds
the following invariants:

- ids ascend in each table;
- subllmit names are unique, non-empty and trimmed;
- every post names a registered subllmit;
- no counter is negative.

The readers (`api_get_posts`, `api_get_comments`, `api_search_subllmits`) are
pure functions over the tables.

The model assumes four things:

- **Tables are sequences in row order.** A new row takes the id after the
  last one, as SQLite's rowid does in a table that never loses rows.
- **Equal sort keys keep table order.** SQL leaves the order of equal keys
  open, so the model picks a stable sort.
- **OFFSET and LIMIT follow SQLite.** A negative offset counts as 0, and a
  negative limit means no limit.
- **The id-to-comment dictionary is the comment list.** With unique ids,
  `comments_by_id.values()` is the list itself, in order.

`build_comment_tree` does not recurse forever on a parent cycle. The
recursion starts at the roots and only descends to comments whose parent id
is the current node's id. With primary-key ids, a comment on a cycle never
has a root as an ancestor, so it is never reached, and the recursion ends on
every input; on a very deep thread it stops at Python's recursion limit (see
"Left out"). The model follows the code, with one limit: Dafny needs a
termination measure. The model therefore takes a ghost `rank` map and covers
comment sets whose parent links are acyclic (`CommentTree.Ranked`).
`Submissions.ParentsPrecedeRanked` (the whole table, for `index`) and
`Submissions.ThreadRanked` (one post's comments, for `api_get_comments`) show
that the store's comments have such a rank whenever every reply names an
earlier id.

The code gives no tie-break for equal timestamps under `new`; the model keeps
table order.

## Model

| member | source | states |
|---|---|---|
| Text.Strip | app.py:134 | the result is empty exactly when the input is all whitespace; otherwise it neither starts nor ends with whitespace; it is an infix of the input with only whitespace cut on either side |
| Text.StripKeepsTrimmed | app.py:134 | a string that neither starts nor ends with whitespace is left unchanged by stripping |
| Text.StripIdempotent | app.py:134 | stripping twice is the same as stripping once |
| Text.EmptyQueryMatches | app.py:328-329 | the default query `''` matches every name |
| CommentTree.Roots | app.py:204 | the candidate roots are exactly the comments with no parent |
| CommentTree.ChildrenOf | app.py:208-211 | the candidate children of a node are exactly the comments whose parent id is the node's id |
| CommentTree.OfPost | app.py:202 | a post's comments are exactly the comments with that post id |
| CommentTree.Find | app.py:203 | a lookup by id returns an index holding that id, or fails only when no comment has it |
| CommentTree.Build | app.py:207-223 | no contract of its own; see `BuildShape` (the node's comment, level and children) and `SubtreeCount` (each descendant exactly once, at its depth) |
| CommentTree.Kids | app.py:208-211 | no contract of its own; see `KidsShape` and `KidsCount` |
| CommentTree.RootsFrom | app.py:204 | no contract of its own; see `RootsShape` and `RootsCount` |
| CommentTree.Forest | app.py:83 | the forest that `index` and `api_get_comments` build; no contract of its own; see `ForestShape`, `ForestExactlyOnce` and `OrphanNeverAppears` |
| CommentTree.BuildShape | app.py:207-223 | a built node carries its comment and its level; its children are the comment's children in list order, each one level deeper |
| CommentTree.KidsShape | app.py:208-211 | the child list built from position `i` holds, in order, the children found from `i` on, all at the given level |
| CommentTree.ForestShape | app.py:204 | the forest's nodes are the roots in input order, all at level 0 |
| CommentTree.RootsShape | app.py:204 | the node list built from position `i` holds the roots found from `i` on, in order, at level 0 |
| CommentTree.ParentIsFound | app.py:203 | with unique ids, looking up a comment's id finds that comment |
| CommentTree.AncestorsLinear | app.py:207-211 | two ancestors of one comment are ordered: one is an ancestor of the other |
| CommentTree.SiblingOnChainUnique | app.py:208-211 | at most one child of a node lies on a given comment's ancestor chain |
| CommentTree.SubtreeCount | app.py:207-223 | the subtree built at a comment holds each pair (descendant, depth of that descendant) exactly once and no other pair |
| CommentTree.KidsCount | app.py:208-211 | the child list from position `i` holds each descendant reached through a child at or after `i` exactly once, at its depth |
| CommentTree.RootsCount | app.py:204 | the node list from position `i` holds each comment whose chain ends at a root at or after `i` exactly once, at its depth |
| CommentTree.ForestExactlyOnce | app.py:207-223 | every comment whose ancestor chain ends at a root appears exactly once, at a level equal to its chain length; no other (comment, level) pair appears |
| CommentTree.OrphanNeverAppears | app.py:204-210 | a comment whose parent, or some ancestor's parent, is missing from the set appears nowhere in the forest |
| CommentTree.PostThread | app.py:201-205 | every node of a post's thread is a comment of the table that belongs to that post |
| Feed.FrontpageGroups | app.py:171-172 | the frontpage groups are the names of the first ten subllmits (all of them when there are fewer), in table order |
| Feed.Scoped | app.py:170-175 | exactly the posts in scope are kept, each at most as often as in the table |
| Feed.InScope | app.py:170-175 | the WHERE filter of one post: under the group's name, or under one of the frontpage groups; no contract of its own; see `Scoped` and `PageScopedAndOrdered` |
| Feed.Score | app.py:180 | the score `upvotes - downvotes`; no contract of its own; see `PageScopedAndOrdered` and `TopTwoOfTech` |
| Feed.Key | app.py:177-180 | the `order_by` key: the timestamp, or the score; no contract of its own; see `SortDesc`, `PageScopedAndOrdered` and `StrictBestLeads` |
| Feed.OrderOf | app.py:177-180 | the order is by timestamp exactly when `sort` is `'new'`; any other value orders by score |
| Feed.Insert | app.py:177-180 | inserting into a descending list keeps it descending and adds exactly that post |
| Feed.SortDesc | app.py:177-180 | the sorted list is descending in the key and is a permutation of the input |
| Feed.Window | app.py:183 | the window starts at the offset clamped to `[0, n]` and holds `limit` posts, or fewer at the end, or all the rest when `limit` is negative |
| Feed.Ranked | app.py:170-180 | the scoped posts, best first; no contract of its own; see `SortDesc` (descending, a permutation) and `Scoped` |
| Feed.Page | app.py:162-183 | `api_get_posts`; no contract of its own; see `PageIsWindow`, `PageScopedAndOrdered`, `PagesConcatenate`, `PagesDistinct` and `StrictBestLeads` |
| Feed.PageIsWindow | app.py:168-183 | a page is the contiguous slice of the ranked posts starting at `(page - 1) * limit` clamped to `[0, n]`; for a non-negative limit it holds at most `limit` posts |
| Feed.PageScopedAndOrdered | app.py:170-180 | every post on a page is a post of the table in scope: under the group's name, or under one of the frontpage groups; the page is descending in the chosen key |
| Feed.NegativeLimitWholeRanking | app.py:166-183 | with a negative limit, which SQLite reads as no limit, every page from 1 on is the whole ranking, because the offset `(page - 1) * limit` is at most 0 |
| Feed.ZeroLimitEmpty | app.py:166-183 | a zero limit gives an empty page, whatever the page number |
| Feed.UnknownGroupIsEmpty | app.py:174-175 | a group that no post names gives an empty page, not an error |
| Feed.NothingInScope | app.py:170-175 | when no post is in scope, the scoped list is empty |
| Feed.WindowsTile | app.py:183 | consecutive windows of a positive size concatenate to a prefix of the list |
| Feed.PagesAreWindows | app.py:168 | pages `1..k` are the windows `1..k` of the ranked posts |
| Feed.PagesConcatenate | app.py:168-183 | for a positive limit, pages `1..k`, read one after another, are exactly the first `k * limit` ranked posts, or all of them |
| Feed.PagesDistinct | app.py:168-183 | for a positive limit, when the table holds no post twice, pages `1..k` together repeat no post |
| Feed.StrictBestLeads | app.py:177-183 | for a non-zero limit, a post whose key beats every other post in scope is the first post of page 1 |
| Feed.TopTwoOfTech | app.py:162-183 | a worked example: three "tech" posts scored 10, -2 and 5 give the posts scored 10 and 5 as the first page of two by score |
| Text.ContainsIgnoringCase | app.py:329 | `name.ilike('%query%')` with the query read literally and ASCII case folding; no contract of its own; see `Registry.Search` and `Text.EmptyQueryMatches` |
| Registry.Search | app.py:328-329 | a subllmit is returned exactly when its name contains the query, ignoring ASCII case |
| Registry.EmptyQueryListsAll | app.py:328-329 | the empty query returns the whole table, in order |
| Registry.HasName | app.py:139 | the `filter_by(name=...).first()` lookup, also used at app.py:237; no contract of its own; see `Create`, `CreateTwice` and `CreatedIsFound` |
| Registry.NextId | app.py:144-146 | in a valid table the next id is positive and above every id present |
| Registry.Create | app.py:132-148 | a missing field, a name that strips to empty, and a name already present are each refused with the table unchanged; otherwise exactly one row is appended, under the stripped name |
| Registry.CreateKeepsValid | app.py:134-146 | creation keeps names unique, non-empty and trimmed, and ids ascending |
| Registry.AppendKeepsValid | app.py:144-146 | appending a fresh, trimmed, non-empty name with the next id keeps the registry valid |
| Registry.CreateTwice | app.py:139-142 | submitting the same name a second time is refused and changes nothing |
| Registry.CreatedIsFound | app.py:139-146 | a successful creation grows the table by one and makes a name findable that was not findable before |
| Votes.ParseVote | app.py:293-298 | only the exact strings `'upvote'` and `'downvote'` are votes |
| Votes.PostIndex | app.py:289-291 | the lookup finds a row with that id, or fails only when there is none or the id is missing |
| Votes.CastOnPost | app.py:293-296 | a vote raises the counters' sum by one, moves the score by one in the vote's direction, and changes no other field |
| Votes.OnPost | app.py:284-301 | a missing post gives 404 and an unknown vote type gives 400, both with no change; otherwise 200, and only the found row takes the vote |
| Votes.PostTallyUpdate | app.py:294-296 | replacing one row moves the total vote count by that row's change |
| Votes.PostVoteCountsOnce | app.py:289-300 | a recorded vote adds exactly one to the total votes of the table; a refused one adds nothing |
| Votes.PostVoteMonotone | app.py:289-300 | no counter decreases, no id changes, and every post with another id is untouched |
| Votes.CommentIndex | app.py:311-313 | the lookup finds a comment with that id, or fails only when there is none or the id is missing |
| Votes.CastOnComment | app.py:315-318 | a vote raises the counters' sum by one, moves the score by one in the vote's direction, and changes no other field |
| Votes.OnComment | app.py:306-323 | a missing comment gives 404 and an unknown vote type gives 400, both with no change; otherwise 200, and only the found row takes the vote |
| Votes.CommentTallyUpdate | app.py:316-318 | replacing one comment moves the total vote count by that comment's change |
| Votes.CommentVoteCountsOnce | app.py:311-322 | a recorded comment vote adds exactly one to the total; a refused one adds nothing |
| Votes.CommentVoteMonotone | app.py:311-322 | no counter decreases, ids and parent links stay, and every comment with another id is untouched |
| Submissions.NextPostId | app.py:250-251 | in a table with ascending ids the next post id is positive and above every id present |
| Submissions.StoredImageUrl | app.py:246 | a missing or empty image URL is stored as NULL; any other is stored as given |
| Submissions.AddPost | app.py:228-257 | a missing or unregistered group gives 400 and a missing title gives 500, both with no change; otherwise 201 and one new post with the next id, zero votes, the human flag, the user's id and the given time |
| Submissions.AddPostKeepsValid | app.py:236-251 | submitting a post keeps ids ascending, every post under a registered group, and counters non-negative |
| Submissions.PostsValidUnderCreate | app.py:144-146 | creating a subllmit never orphans an existing post |
| Submissions.PostsValidUnderAppend | app.py:144-146 | a post under a registered name stays registered when the registry grows |
| Submissions.NewPostLeadsNewest | app.py:242-251 | for a non-zero limit, a post submitted later than every other post is first on page 1 of its group under `'new'` |
| Submissions.PostIdsAscendDistinct | app.py:44 | primary-key ids that ascend make the posts table hold no post twice |
| Submissions.StorePagesDistinct | app.py:168-183 | for a positive limit, pages `1..k` over the store's posts table together repeat no post |
| Submissions.NextCommentId | app.py:276-277 | in a table with ascending ids the next comment id is positive and above every id present |
| Submissions.AddComment | app.py:263-279 | a missing post id or content gives 500 with no change; otherwise 200 and one new comment with the next id, the given parent link unchecked, zero votes and the user's id |
| Submissions.AddCommentKeepsValid | app.py:269-277 | submitting a comment keeps ids ascending and counters non-negative |
| Submissions.AddCommentKeepsParentsPrecede | app.py:267-272 | a top-level comment, or a reply to an existing comment, keeps every reply pointing to an earlier id |
| Submissions.AscendingIdsUnique | app.py:59 | ascending comment ids are unique keys: looking up a comment's id finds that comment |
| Submissions.IdOrderIsRowOrder | app.py:59 | under ascending ids, a smaller id sits in an earlier row |
| Submissions.IndexRank | app.py:59 | with ascending ids, each comment's id maps to its row index |
| Submissions.ParentsPrecedeRanked | app.py:83 | when every reply names an earlier id, the table's comments satisfy the tree's preconditions: ids are unique and the row index ranks the parent links |
| Submissions.OfPostAscends | app.py:202 | the comments of one post, taken from a table with ascending ids, have ascending ids |
| Submissions.ThreadRanked | app.py:201-204 | when every reply names an earlier id, one post's comments satisfy the tree's preconditions for `PostThread`: ids are unique and the row index ranks the parent links |
| Store.Store.constructor | app.py:75-77 | a new database has three empty tables and is valid |
| Store.Store.CreateSubllmit | app.py:132-148 | strips the name, refuses an empty or existing one, else appends it; the result is `Registry.Create` on the old table, and the invariant holds |
| Store.Store.AllSubllmits | app.py:347-352 | the whole table, which equals a search for the empty query |
| Store.Store.VotePost | app.py:284-301 | the status and the new posts table are `Votes.OnPost` of the old table; the other tables are unchanged and the invariant holds |
| Store.Store.VoteComment | app.py:306-323 | the status and the new comments table are `Votes.OnComment` of the old table; the other tables are unchanged and the invariant holds |
| Store.Store.SubmitPost | app.py:228-257 | the status and the new posts table are `Submissions.AddPost` of the old table; the other tables are unchanged and the invariant holds |
| Store.Store.SubmitComment | app.py:263-279 | the status and the new comments table are `Submissions.AddComment` of the old table; the other tables are unchanged and the invariant holds |
| Store.PostVoteKeepsValid | app.py:294-296 | raising a counter of one post keeps the posts table valid |
| Store.CommentVoteKeepsValid | app.py:316-318 | raising a counter of one comment keeps the comments table valid |

## Left out

- Flask routing, templates, `flash`, `redirect` and JSON serialisation are not modelled. The handlers return a status code and the new tables. Their reply bodies, `timestamp.isoformat()` and the author's name (`"Anonymous"` when there is none) are left out.
- Login, bcrypt and the session are not modelled. The signed-in user's id is a parameter of the submitting methods, and `@login_required` is assumed to have passed.
- The clock (`datetime.utcnow`) is a parameter `now`, and timestamps are integers.
- Concurrency is not modelled. Each handler is one atomic step, so the lost update of `upvotes += 1` under concurrent requests is not captured.
- Storage limits are not modelled. Integers are unbounded, so SQLite's 64-bit overflow is not captured. `String(50)` length limits are not captured either, since SQLite does not enforce them.
- `ilike` is read with the query taken literally. In the source, `%` and `_` in the query act as wildcards. Case folding is ASCII only, as in SQLite.
- The request arguments of `api_get_posts` are not parsed in the model. `Feed.Page` takes the values after the defaults are applied: `group` defaults to `'frontpage'`, `sort` to `'top'`, `page` to 1 and `limit` to 10. The parsing of `page` and `limit` with `int()` is not modelled either. A non-numeric value, which raises a 500 in the source, is not covered. The feed functions take integers.
- Request bodies that are not JSON objects are not modelled. A JSON body that is not an object raises in `data.get` before any check; a body that is not JSON fails inside `request.get_json()`. The status the client then sees depends on the handler and on Flask, and the model does not cover it. Values of a wrong JSON type are not modelled either. The model's parameters are typed, with `None` for a missing field.
- `create_subllmit` with GET (the form page) and `view_subllmit` are presentation only, and are not modelled.
- CommentTree.Forest and CommentTree.PostThread: they require acyclic parent links (`Ranked`). The source also handles cyclic links, which never appear in its output. The store can reach such a state when a reply names an id not yet issued. Those states are outside the model. Python's recursion limit (1000 frames by default) is not modelled either. `build_comment_tree` recurses once per level, and before Python 3.12 it takes two frames per level, because the list comprehension has its own frame. `api_submit_comment` lets a client build a reply chain one reply at a time. On a thread a few hundred levels deep, `api_get_comments` and `index` raise `RecursionError` and answer 500, where the model returns the whole forest.
- Feed.SortDesc: equal keys keep table order. SQL leaves their order unspecified, so this is one admissible order, not the only one. `Feed.PagesConcatenate` and `Feed.PagesDistinct` rest on this: they assume every page query orders tied keys the same way. SQL does not promise that across two queries with different OFFSETs, and `api_get_posts` has no tie-break key.
- The frontpage takes the first ten subllmits in table order. `Subllmit.query.limit(10)` has no ORDER BY, so the database may pick another ten.
- Registry.EmptyQueryListsAll and Store.Store.AllSubllmits: they return the subllmits in table order. `api_search_subllmits` and `api_get_all_subllmits` have no ORDER BY, and SQLite may scan the index of the unique name column instead, which returns the rows in name order. The model promises the same rows, in one admissible order.
- The start-up seeding under `__main__` is not modelled: default subllmits and a sample post. It is a one-off setup, not a handler.
- `populate_db.py`, `create_bots.py`, `initialize_db.py` and the browser script are not part of this model. They are LLM and image-generation calls, schema set-up and DOM code.
