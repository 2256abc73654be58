/** The shared database state the request handlers mutate: the `subllmits`,
    `posts` and `comments` tables, each a sequence in row order. Each handler
    is one atomic step (one request, one commit). The signed-in user's id and
    the clock are parameters. */
module Store {
  import opened Entities
  import Text
  import Registry
  import Votes
  import Submissions

  class Store {
    var subllmits: seq<Subllmit>
    var posts: seq<Post>
    var comments: seq<Comment>

    /** The invariant every handler keeps: see `Registry.Valid`,
        `Submissions.PostsValid` and `Submissions.CommentsValid`. */
    ghost predicate Valid()
      reads this
    {
      && Registry.Valid(subllmits)
      && Submissions.PostsValid(posts, subllmits)
      && Submissions.CommentsValid(comments)
    }

    /** A fresh database with empty tables. */
    constructor()
      ensures Valid()
      ensures subllmits == [] && posts == [] && comments == []
    {
      subllmits := [];
      posts := [];
      comments := [];
    }

    /** `create_subllmit` (POST) with the form field `raw`. */
    method CreateSubllmit(raw: Option<string>) returns (outcome: Registry.Outcome)
      requires Valid()
      modifies this
      ensures Valid()
      ensures (outcome, subllmits) == Registry.Create(old(subllmits), raw)
      ensures posts == old(posts) && comments == old(comments)
    {
      ghost var r := Registry.Create(subllmits, raw);
      if raw.None? {
        assert r == (Registry.MissingName, subllmits);
        return Registry.MissingName;
      }
      var name := Text.Strip(raw.value);
      if name == [] {
        assert r == (Registry.EmptyName, subllmits);
        return Registry.EmptyName;
      }
      if Registry.HasName(subllmits, name) {
        assert r == (Registry.NameTaken, subllmits);
        return Registry.NameTaken;
      }
      var id := Registry.NextId(subllmits);
      assert r == (Registry.Created(id), subllmits + [Subllmit(id, name)]);
      Registry.AppendKeepsValid(subllmits, Subllmit(id, name));
      Submissions.PostsValidUnderAppend(posts, subllmits, Subllmit(id, name));
      subllmits := subllmits + [Subllmit(id, name)];
      outcome := Registry.Created(id);
    }

    /** `api_get_all_subllmits`: the whole table, which is what a search
        for the empty query returns. */
    function AllSubllmits(): (r: seq<Subllmit>)
      reads this
      ensures r == Registry.Search(subllmits, "")
    {
      Registry.EmptyQueryListsAll(subllmits);
      subllmits
    }

    /** `api_vote_post`. */
    method VotePost(postId: Option<int>, voteType: Option<string>) returns (status: int)
      requires Valid()
      modifies this
      ensures Valid()
      ensures (status, posts) == Votes.OnPost(old(posts), postId, voteType)
      ensures subllmits == old(subllmits) && comments == old(comments)
    {
      var found := Votes.PostIndex(posts, postId);
      if found.None? {
        return NOT_FOUND;
      }
      var i := found.value;
      var p := posts[i];
      if voteType == Some("upvote") {
        p := p.(upvotes := p.upvotes + 1);
      } else if voteType == Some("downvote") {
        p := p.(downvotes := p.downvotes + 1);
      } else {
        return BAD_REQUEST;
      }
      PostVoteKeepsValid(posts, subllmits, i, p);
      posts := posts[i := p];
      status := OK;
    }

    /** `api_vote_comment`. */
    method VoteComment(commentId: Option<int>, voteType: Option<string>) returns (status: int)
      requires Valid()
      modifies this
      ensures Valid()
      ensures (status, comments) == Votes.OnComment(old(comments), commentId, voteType)
      ensures subllmits == old(subllmits) && posts == old(posts)
    {
      var found := Votes.CommentIndex(comments, commentId);
      if found.None? {
        return NOT_FOUND;
      }
      var i := found.value;
      var c := comments[i];
      if voteType == Some("upvote") {
        c := c.(upvotes := c.upvotes + 1);
      } else if voteType == Some("downvote") {
        c := c.(downvotes := c.downvotes + 1);
      } else {
        return BAD_REQUEST;
      }
      CommentVoteKeepsValid(comments, i, c);
      comments := comments[i := c];
      status := OK;
    }

    /** `api_submit_post` by the signed-in user `userId` at time `now`. */
    method SubmitPost(userId: int, group: Option<string>, title: Option<string>, content: Option<string>,
                      imageUrl: Option<string>, now: int) returns (status: int)
      requires Valid()
      modifies this
      ensures Valid()
      ensures (status, posts) == Submissions.AddPost(old(posts), subllmits, userId, group, title, content, imageUrl, now)
      ensures subllmits == old(subllmits) && comments == old(comments)
    {
      Submissions.AddPostKeepsValid(posts, subllmits, userId, group, title, content, imageUrl, now);
      if group.None? || !Registry.HasName(subllmits, group.value) {
        return BAD_REQUEST;
      }
      if title.None? {
        return SERVER_ERROR;
      }
      var p := Post(Submissions.NextPostId(posts), group.value, title.value, content,
                    Submissions.StoredImageUrl(imageUrl), 0, 0, false, now, Some(userId));
      posts := posts + [p];
      status := CREATED;
    }

    /** `api_submit_comment` by the signed-in user `userId` at time `now`. */
    method SubmitComment(userId: int, postId: Option<int>, content: Option<string>, parentId: Option<int>,
                         now: int) returns (status: int)
      requires Valid()
      modifies this
      ensures Valid()
      ensures (status, comments) == Submissions.AddComment(old(comments), userId, postId, content, parentId, now)
      ensures subllmits == old(subllmits) && posts == old(posts)
    {
      Submissions.AddCommentKeepsValid(comments, userId, postId, content, parentId, now);
      if postId.None? || content.None? {
        return SERVER_ERROR;
      }
      var c := Comment(Submissions.NextCommentId(comments), postId.value, parentId, content.value,
                       0, 0, false, now, Some(userId));
      comments := comments + [c];
      status := OK;
    }
  }

  /** Raising a counter of one post keeps the posts table valid. */
  lemma PostVoteKeepsValid(posts: seq<Post>, subs: seq<Subllmit>, i: nat, p: Post)
    requires Submissions.PostsValid(posts, subs) && i < |posts|
    requires p.id == posts[i].id && p.groupName == posts[i].groupName
    requires p.upvotes >= posts[i].upvotes && p.downvotes >= posts[i].downvotes
    ensures Submissions.PostsValid(posts[i := p], subs)
  {
    assert posts[i] in posts;
  }

  /** Raising a counter of one comment keeps the comments table valid. */
  lemma CommentVoteKeepsValid(cs: seq<Comment>, i: nat, c: Comment)
    requires Submissions.CommentsValid(cs) && i < |cs|
    requires c.id == cs[i].id && c.upvotes >= cs[i].upvotes && c.downvotes >= cs[i].downvotes
    ensures Submissions.CommentsValid(cs[i := c])
  {
    assert cs[i] in cs;
  }
}
