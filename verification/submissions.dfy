/** Record creation: `api_submit_post` and `api_submit_comment`. A new row
    takes the id after the last one, starts with zero votes, is marked as
    human-written and carries the submitting user's id and the clock. */
module Submissions {
  import opened Entities
  import Registry
  import CommentTree
  import Feed

  // ---------------------------------------------------------------------
  // Posts

  /** Post ids ascend in row order and are positive. */
  ghost predicate PostIdsAscend(posts: seq<Post>)
  {
    && (forall i, j :: 0 <= i < j < |posts| ==> posts[i].id < posts[j].id)
    && (forall p :: p in posts ==> p.id >= 1)
  }

  /** Ascending ids are distinct, so the posts table holds no post twice. */
  lemma {:induction false} PostIdsAscendDistinct(posts: seq<Post>)
    requires PostIdsAscend(posts)
    ensures Feed.Distinct(posts)
  {
    if posts != [] {
      var tail := posts[1..];
      assert PostIdsAscend(tail) by {
        forall i, j | 0 <= i < j < |tail| ensures tail[i].id < tail[j].id {
          assert tail[i] == posts[i + 1] && tail[j] == posts[j + 1];
        }
      }
      PostIdsAscendDistinct(tail);
      assert posts == [posts[0]] + tail;
      assert posts[0] !in tail by {
        forall k | 0 <= k < |tail| ensures tail[k] != posts[0] {
          assert tail[k] == posts[k + 1];
        }
      }
      forall p ensures multiset(posts)[p] <= 1 {
        assert multiset(posts)[p] == multiset([posts[0]])[p] + multiset(tail)[p];
      }
    }
  }

  /** The feed never repeats a post of the store's own table across pages `1..k`. */
  lemma StorePagesDistinct(posts: seq<Post>, subs: seq<Subllmit>, group: string, sort: string, k: nat, limit: int)
    requires PostIdsAscend(posts) && limit > 0
    ensures Feed.Distinct(Feed.FirstPages(posts, subs, group, sort, k, limit))
  {
    PostIdsAscendDistinct(posts);
    Feed.PagesDistinct(posts, subs, group, sort, k, limit);
  }

  /** The posts table's invariant: ascending ids, every post filed under a
      registered subllmit, and no negative counter. */
  ghost predicate PostsValid(posts: seq<Post>, subs: seq<Subllmit>)
  {
    && PostIdsAscend(posts)
    && (forall p :: p in posts ==> Registry.HasName(subs, p.groupName) && p.upvotes >= 0 && p.downvotes >= 0)
  }

  /** The id of the next post: one past the last, or 1. */
  function NextPostId(posts: seq<Post>): (id: int)
    ensures PostIdsAscend(posts) ==> id >= 1 && forall p :: p in posts ==> p.id < id
  {
    if posts == [] then 1 else posts[|posts| - 1].id + 1
  }

  /** `image_url if image_url else None`: a missing or empty URL is stored as NULL. */
  function StoredImageUrl(imageUrl: Option<string>): (r: Option<string>)
    ensures r.Some? <==> imageUrl.Some? && imageUrl.value != []
    ensures r.Some? ==> r == imageUrl
  {
    if imageUrl.Some? && imageUrl.value != [] then imageUrl else None
  }

  /** `api_submit_post` by user `userId` at time `now`: the status code and the
      posts table afterwards. A missing or unknown group is a 400; a missing
      title breaks the NOT NULL constraint, the handler rolls back and answers 500. */
  function AddPost(posts: seq<Post>, subs: seq<Subllmit>, userId: int, group: Option<string>,
                   title: Option<string>, content: Option<string>, imageUrl: Option<string>, now: int): (r: (int, seq<Post>))
    ensures r.0 == BAD_REQUEST <==> group.None? || !Registry.HasName(subs, group.value)
    ensures r.0 == SERVER_ERROR <==> group.Some? && Registry.HasName(subs, group.value) && title.None?
    ensures r.0 == CREATED <==> group.Some? && Registry.HasName(subs, group.value) && title.Some?
    ensures r.0 != CREATED ==> r.1 == posts
    ensures r.0 == CREATED ==>
      && |r.1| == |posts| + 1 && r.1[..|posts|] == posts
      && var p := r.1[|posts|];
      && p.id == NextPostId(posts) && p.groupName == group.value && p.title == title.value
      && p.content == content && p.imageUrl == StoredImageUrl(imageUrl)
      && p.upvotes == 0 && p.downvotes == 0 && !p.isAiGenerated
      && p.timestamp == now && p.userId == Some(userId)
  {
    if group.None? || !Registry.HasName(subs, group.value) then (BAD_REQUEST, posts)
    else if title.None? then (SERVER_ERROR, posts)
    else
      var p := Post(NextPostId(posts), group.value, title.value, content, StoredImageUrl(imageUrl),
                    0, 0, false, now, Some(userId));
      assert (posts + [p])[..|posts|] == posts;
      (CREATED, posts + [p])
  }

  /** Submitting a post keeps the posts table valid. */
  lemma AddPostKeepsValid(posts: seq<Post>, subs: seq<Subllmit>, userId: int, group: Option<string>,
                          title: Option<string>, content: Option<string>, imageUrl: Option<string>, now: int)
    requires PostsValid(posts, subs)
    ensures PostsValid(AddPost(posts, subs, userId, group, title, content, imageUrl, now).1, subs)
  {
    var r := AddPost(posts, subs, userId, group, title, content, imageUrl, now);
    if r.0 == CREATED {
      var t := r.1;
      assert t == posts + [t[|posts|]];
      forall i, j | 0 <= i < j < |t| ensures t[i].id < t[j].id {
        if j == |posts| {
          assert t[i] in posts;
        }
      }
    }
  }

  /** Registering a subllmit never orphans a post. */
  lemma PostsValidUnderCreate(posts: seq<Post>, subs: seq<Subllmit>, raw: Option<string>)
    requires PostsValid(posts, subs)
    ensures PostsValid(posts, Registry.Create(subs, raw).1)
  {
    var r := Registry.Create(subs, raw);
    if r.0.Created? {
      PostsValidUnderAppend(posts, subs, r.1[|subs|]);
      assert r.1 == subs + [r.1[|subs|]];
    }
  }

  /** A post filed under a registered name stays filed when the registry grows. */
  lemma PostsValidUnderAppend(posts: seq<Post>, subs: seq<Subllmit>, s: Subllmit)
    requires PostsValid(posts, subs)
    ensures PostsValid(posts, subs + [s])
  {
    forall p | p in posts ensures Registry.HasName(subs + [s], p.groupName) {
      var t :| t in subs && t.name == p.groupName;
      assert t in subs + [s];
    }
  }

  /** A post submitted later than every other post heads the first page of
      its group sorted by 'new', whatever the page size. */
  lemma NewPostLeadsNewest(posts: seq<Post>, subs: seq<Subllmit>, userId: int, group: Option<string>,
                           title: Option<string>, content: Option<string>, imageUrl: Option<string>,
                           now: int, limit: int)
    requires AddPost(posts, subs, userId, group, title, content, imageUrl, now).0 == CREATED
    requires group.value != Feed.FRONTPAGE && limit != 0
    requires forall p :: p in posts ==> p.timestamp < now
    ensures var t := AddPost(posts, subs, userId, group, title, content, imageUrl, now).1;
      var pg := Feed.Page(t, subs, group.value, "new", 1, limit);
      pg != [] && pg[0] == t[|posts|]
  {
    var t := AddPost(posts, subs, userId, group, title, content, imageUrl, now).1;
    var p := t[|posts|];
    assert t == posts + [p];
    assert Feed.OrderOf("new") == Feed.ByTime;
    forall y | y in t && y != p ensures y.timestamp < now {
      assert y in posts;
    }
    Feed.StrictBestLeads(t, subs, group.value, "new", limit, p);
  }

  // ---------------------------------------------------------------------
  // Comments

  /** Comment ids ascend in row order and are positive. */
  ghost predicate CommentIdsAscend(cs: seq<Comment>)
  {
    && (forall i, j :: 0 <= i < j < |cs| ==> cs[i].id < cs[j].id)
    && (forall c :: c in cs ==> c.id >= 1)
  }

  /** The comments table's invariant: ascending ids and no negative counter. */
  ghost predicate CommentsValid(cs: seq<Comment>)
  {
    && CommentIdsAscend(cs)
    && (forall c :: c in cs ==> c.upvotes >= 0 && c.downvotes >= 0)
  }

  /** The id of the next comment: one past the last, or 1. */
  function NextCommentId(cs: seq<Comment>): (id: int)
    ensures CommentIdsAscend(cs) ==> id >= 1 && forall c :: c in cs ==> c.id < id
  {
    if cs == [] then 1 else cs[|cs| - 1].id + 1
  }

  /** `api_submit_comment` by user `userId` at time `now`: the status code and
      the comments table afterwards. A missing `post_id` or `content` breaks a
      NOT NULL constraint and the unguarded commit fails with a 500. Neither the
      post nor the parent comment is looked up. */
  function AddComment(cs: seq<Comment>, userId: int, postId: Option<int>, content: Option<string>,
                      parentId: Option<int>, now: int): (r: (int, seq<Comment>))
    ensures r.0 == OK <==> postId.Some? && content.Some?
    ensures r.0 != OK ==> r.0 == SERVER_ERROR && r.1 == cs
    ensures r.0 == OK ==>
      && |r.1| == |cs| + 1 && r.1[..|cs|] == cs
      && var c := r.1[|cs|];
      && c.id == NextCommentId(cs) && c.postId == postId.value && c.parentId == parentId
      && c.content == content.value && c.upvotes == 0 && c.downvotes == 0 && !c.isAiGenerated
      && c.timestamp == now && c.userId == Some(userId)
  {
    if postId.None? || content.None? then (SERVER_ERROR, cs)
    else
      var c := Comment(NextCommentId(cs), postId.value, parentId, content.value, 0, 0, false, now, Some(userId));
      assert (cs + [c])[..|cs|] == cs;
      (OK, cs + [c])
  }

  /** Submitting a comment keeps the comments table valid. */
  lemma AddCommentKeepsValid(cs: seq<Comment>, userId: int, postId: Option<int>, content: Option<string>,
                             parentId: Option<int>, now: int)
    requires CommentsValid(cs)
    ensures CommentsValid(AddComment(cs, userId, postId, content, parentId, now).1)
  {
    var r := AddComment(cs, userId, postId, content, parentId, now);
    if r.0 == OK {
      var t := r.1;
      assert t == cs + [t[|cs|]];
      forall i, j | 0 <= i < j < |t| ensures t[i].id < t[j].id {
        if j == |cs| {
          assert t[i] in cs;
        }
      }
    }
  }

  // ---------------------------------------------------------------------
  // From the comments table to the comment tree

  /** Every reply names an id issued before its own. The handler does not check
      this; it holds whenever clients reply only to comments that exist. */
  ghost predicate ParentsPrecede(cs: seq<Comment>)
  {
    forall c :: c in cs && c.parentId.Some? ==> c.parentId.value < c.id
  }

  /** A reply to an existing comment (or a top-level comment) keeps replies
      pointing backwards. */
  lemma AddCommentKeepsParentsPrecede(cs: seq<Comment>, userId: int, postId: Option<int>, content: Option<string>,
                                      parentId: Option<int>, now: int)
    requires CommentIdsAscend(cs) && ParentsPrecede(cs)
    requires parentId.None? || exists c :: c in cs && c.id == parentId.value
    ensures ParentsPrecede(AddComment(cs, userId, postId, content, parentId, now).1)
  {
    var r := AddComment(cs, userId, postId, content, parentId, now);
    if r.0 == OK {
      assert r.1 == cs + [r.1[|cs|]];
    }
  }

  /** Ascending ids are unique: looking up a comment's id finds that comment. */
  lemma {:induction false} AscendingIdsUnique(cs: seq<Comment>)
    requires CommentIdsAscend(cs)
    ensures CommentTree.UniqueIds(cs)
  {
    if cs != [] {
      AscendingIdsUnique(cs[1..]);
      forall i | 0 <= i < |cs| ensures CommentTree.Find(cs, cs[i].id) == Some(i) {
        if i > 0 {
          assert cs[1..][i - 1] == cs[i];
        }
      }
    }
  }

  /** The row index of each comment, as a rank. */
  ghost function IndexRank(cs: seq<Comment>): (rank: map<int, nat>)
    requires CommentIdsAscend(cs)
    ensures forall j :: 0 <= j < |cs| ==> cs[j].id in rank && rank[cs[j].id] == j
  {
    map j | 0 <= j < |cs| :: cs[j].id := j
  }

  /** When replies point backwards, the row index ranks the parent links, so
      the tree of the whole table (the `index` page) is defined and each
      comment appears in it as `ForestExactlyOnce` says. */
  lemma ParentsPrecedeRanked(cs: seq<Comment>)
    requires CommentIdsAscend(cs) && ParentsPrecede(cs)
    ensures CommentTree.UniqueIds(cs) && CommentTree.Ranked(cs, IndexRank(cs))
  {
    AscendingIdsUnique(cs);
    var rank := IndexRank(cs);
    forall j | 0 <= j < |cs| && cs[j].parentId.Some? && CommentTree.Find(cs, cs[j].parentId.value).Some?
      ensures cs[j].parentId.value in rank && rank[cs[j].parentId.value] < rank[cs[j].id]
    {
      var k := CommentTree.Find(cs, cs[j].parentId.value).value;
      assert cs[j] in cs;
      IdOrderIsRowOrder(cs, k, j);
    }
  }

  /** The comments of one post keep the table's properties: ascending ids,
      and replies that point backwards. */
  lemma {:induction false} OfPostAscends(cs: seq<Comment>, postId: int)
    requires CommentIdsAscend(cs)
    ensures CommentIdsAscend(CommentTree.OfPost(cs, postId))
  {
    if cs != [] {
      var tail := cs[1..];
      TailAscends(cs);
      OfPostAscends(tail, postId);
      var rest := CommentTree.OfPost(tail, postId);
      if cs[0].postId == postId {
        assert cs[0] in cs;
        ConsAscends(cs[0], rest);
        assert CommentTree.OfPost(cs, postId) == [cs[0]] + rest;
      } else {
        assert CommentTree.OfPost(cs, postId) == rest;
      }
    }
  }

  /** Dropping the first row keeps ids ascending, and the first id is below the rest. */
  lemma TailAscends(cs: seq<Comment>)
    requires CommentIdsAscend(cs) && cs != []
    ensures CommentIdsAscend(cs[1..])
    ensures forall c :: c in cs[1..] ==> cs[0].id < c.id
  {
    var tail := cs[1..];
    forall i, j | 0 <= i < j < |tail| ensures tail[i].id < tail[j].id {
      assert tail[i] == cs[i + 1] && tail[j] == cs[j + 1];
    }
    forall c | c in tail ensures cs[0].id < c.id {
      var k :| 0 <= k < |tail| && tail[k] == c;
      assert tail[k] == cs[k + 1];
    }
  }

  /** A row whose id is positive and below every id of an ascending table can go in front. */
  lemma ConsAscends(c: Comment, rest: seq<Comment>)
    requires CommentIdsAscend(rest) && c.id >= 1
    requires forall x :: x in rest ==> c.id < x.id
    ensures CommentIdsAscend([c] + rest)
  {
    var r := [c] + rest;
    forall i, j | 0 <= i < j < |r| ensures r[i].id < r[j].id {
      assert r[j] == rest[j - 1];
      if i > 0 {
        assert r[i] == rest[i - 1];
      } else {
        assert rest[j - 1] in rest;
      }
    }
  }

  /** When replies point backwards, the tree of one post's comments (the
      `api_get_comments` thread) is defined, ranked by row index. */
  lemma ThreadRanked(cs: seq<Comment>, postId: int)
    requires CommentIdsAscend(cs) && ParentsPrecede(cs)
    ensures CommentIdsAscend(CommentTree.OfPost(cs, postId))
    ensures var own := CommentTree.OfPost(cs, postId);
      CommentTree.UniqueIds(own) && CommentTree.Ranked(own, IndexRank(own))
  {
    var own := CommentTree.OfPost(cs, postId);
    OfPostAscends(cs, postId);
    assert ParentsPrecede(own);
    ParentsPrecedeRanked(own);
  }

  /** Under ascending ids, a smaller id sits in an earlier row. */
  lemma IdOrderIsRowOrder(cs: seq<Comment>, k: nat, j: nat)
    requires CommentIdsAscend(cs) && k < |cs| && j < |cs| && cs[k].id < cs[j].id
    ensures k < j
  {
  }
}
