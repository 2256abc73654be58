/** The vote ledger: `api_vote_post` and `api_vote_comment`. A vote looks the
    row up by primary key, answers 404 when there is none, then raises one of
    its two counters by one, or answers 400 for an unknown vote type. The
    lookup comes first: a bad vote type on a missing row is a 404. */
module Votes {
  import opened Entities
  import CommentTree

  datatype Vote = Up | Down

  /** The `vote_type` field: only the exact strings 'upvote' and 'downvote' are votes. */
  function ParseVote(voteType: Option<string>): (v: Option<Vote>)
    ensures v == Some(Up) <==> voteType == Some("upvote")
    ensures v == Some(Down) <==> voteType == Some("downvote")
  {
    if voteType == Some("upvote") then Some(Up)
    else if voteType == Some("downvote") then Some(Down)
    else None
  }

  // ---------------------------------------------------------------------
  // Posts

  /** `Post.query.get(post_id)`: the index of the row with that id; a missing
      id (JSON null) finds nothing. */
  function PostIndex(posts: seq<Post>, id: Option<int>): (r: Option<nat>)
    ensures id.None? ==> r.None?
    ensures r.Some? ==> r.value < |posts| && posts[r.value].id == id.value
    ensures r.None? && id.Some? ==> forall p :: p in posts ==> p.id != id.value
  {
    if id.None? || posts == [] then None
    else if posts[0].id == id.value then Some(0)
    else match PostIndex(posts[1..], id)
      case None => None
      case Some(k) => Some(k + 1)
  }

  /** One vote on a post: the two counters add up to one more than before,
      the score moves by one in the vote's direction, and nothing else changes. */
  function CastOnPost(p: Post, v: Vote): (q: Post)
    ensures q.upvotes + q.downvotes == p.upvotes + p.downvotes + 1
    ensures q.upvotes - q.downvotes == p.upvotes - p.downvotes + (if v == Up then 1 else -1)
    ensures q.(upvotes := p.upvotes, downvotes := p.downvotes) == p
  {
    match v
    case Up => p.(upvotes := p.upvotes + 1)
    case Down => p.(downvotes := p.downvotes + 1)
  }

  /** `api_vote_post`: the status code and the table afterwards. */
  function OnPost(posts: seq<Post>, postId: Option<int>, voteType: Option<string>): (r: (int, seq<Post>))
    ensures r.0 == NOT_FOUND <==> PostIndex(posts, postId).None?
    ensures r.0 == BAD_REQUEST <==> PostIndex(posts, postId).Some? && ParseVote(voteType).None?
    ensures r.0 == OK <==> PostIndex(posts, postId).Some? && ParseVote(voteType).Some?
    ensures r.0 != OK ==> r.1 == posts
    ensures r.0 == OK ==> var i := PostIndex(posts, postId).value;
      r.1 == posts[i := CastOnPost(posts[i], ParseVote(voteType).value)]
  {
    match PostIndex(posts, postId)
    case None => (NOT_FOUND, posts)
    case Some(i) =>
      match ParseVote(voteType)
      case None => (BAD_REQUEST, posts)
      case Some(v) => (OK, posts[i := CastOnPost(posts[i], v)])
  }

  /** All votes ever cast on the posts of a table. */
  function PostTally(posts: seq<Post>): int
  {
    if posts == [] then 0 else posts[0].upvotes + posts[0].downvotes + PostTally(posts[1..])
  }

  /** Replacing one row moves the tally by the change in that row's votes. */
  lemma {:induction false} PostTallyUpdate(posts: seq<Post>, i: nat, q: Post)
    requires i < |posts|
    ensures PostTally(posts[i := q]) == PostTally(posts) - (posts[i].upvotes + posts[i].downvotes) + q.upvotes + q.downvotes
  {
    if i == 0 {
      assert posts[i := q][1..] == posts[1..];
    } else {
      assert posts[i := q][1..] == posts[1..][i - 1 := q];
      PostTallyUpdate(posts[1..], i - 1, q);
    }
  }

  /** A recorded vote adds exactly one to the ledger; a refused one adds nothing. */
  lemma PostVoteCountsOnce(posts: seq<Post>, postId: Option<int>, voteType: Option<string>)
    ensures var r := OnPost(posts, postId, voteType);
      PostTally(r.1) == PostTally(posts) + (if r.0 == OK then 1 else 0)
  {
    var r := OnPost(posts, postId, voteType);
    if r.0 == OK {
      var i := PostIndex(posts, postId).value;
      PostTallyUpdate(posts, i, CastOnPost(posts[i], ParseVote(voteType).value));
    }
  }

  /** Counters never go down, rows keep their place and their ids, and only the
      voted row changes. */
  lemma PostVoteMonotone(posts: seq<Post>, postId: Option<int>, voteType: Option<string>)
    ensures var t := OnPost(posts, postId, voteType).1;
      && |t| == |posts|
      && (forall k :: 0 <= k < |t| ==>
            (t[k].id == posts[k].id && t[k].upvotes >= posts[k].upvotes && t[k].downvotes >= posts[k].downvotes))
      && (forall k :: 0 <= k < |t| && Some(posts[k].id) != postId ==> t[k] == posts[k])
  {
  }

  // ---------------------------------------------------------------------
  // Comments

  /** `Comment.query.get(comment_id)`: the id lookup of the comment tree;
      a missing id (JSON null) finds nothing. */
  function CommentIndex(cs: seq<Comment>, id: Option<int>): (r: Option<nat>)
    ensures id.None? ==> r.None?
    ensures r.Some? ==> r.value < |cs| && cs[r.value].id == id.value
    ensures r.None? && id.Some? ==> forall c :: c in cs ==> c.id != id.value
  {
    if id.None? then None else CommentTree.Find(cs, id.value)
  }

  /** One vote on a comment, as `CastOnPost`. */
  function CastOnComment(c: Comment, v: Vote): (d: Comment)
    ensures d.upvotes + d.downvotes == c.upvotes + c.downvotes + 1
    ensures d.upvotes - d.downvotes == c.upvotes - c.downvotes + (if v == Up then 1 else -1)
    ensures d.(upvotes := c.upvotes, downvotes := c.downvotes) == c
  {
    match v
    case Up => c.(upvotes := c.upvotes + 1)
    case Down => c.(downvotes := c.downvotes + 1)
  }

  /** `api_vote_comment`: the status code and the table afterwards. */
  function OnComment(cs: seq<Comment>, commentId: Option<int>, voteType: Option<string>): (r: (int, seq<Comment>))
    ensures r.0 == NOT_FOUND <==> CommentIndex(cs, commentId).None?
    ensures r.0 == BAD_REQUEST <==> CommentIndex(cs, commentId).Some? && ParseVote(voteType).None?
    ensures r.0 == OK <==> CommentIndex(cs, commentId).Some? && ParseVote(voteType).Some?
    ensures r.0 != OK ==> r.1 == cs
    ensures r.0 == OK ==> var i := CommentIndex(cs, commentId).value;
      r.1 == cs[i := CastOnComment(cs[i], ParseVote(voteType).value)]
  {
    match CommentIndex(cs, commentId)
    case None => (NOT_FOUND, cs)
    case Some(i) =>
      match ParseVote(voteType)
      case None => (BAD_REQUEST, cs)
      case Some(v) => (OK, cs[i := CastOnComment(cs[i], v)])
  }

  /** All votes ever cast on the comments of a table. */
  function CommentTally(cs: seq<Comment>): int
  {
    if cs == [] then 0 else cs[0].upvotes + cs[0].downvotes + CommentTally(cs[1..])
  }

  lemma {:induction false} CommentTallyUpdate(cs: seq<Comment>, i: nat, d: Comment)
    requires i < |cs|
    ensures CommentTally(cs[i := d]) == CommentTally(cs) - (cs[i].upvotes + cs[i].downvotes) + d.upvotes + d.downvotes
  {
    if i == 0 {
      assert cs[i := d][1..] == cs[1..];
    } else {
      assert cs[i := d][1..] == cs[1..][i - 1 := d];
      CommentTallyUpdate(cs[1..], i - 1, d);
    }
  }

  /** A recorded comment vote adds exactly one to the ledger; a refused one adds nothing. */
  lemma CommentVoteCountsOnce(cs: seq<Comment>, commentId: Option<int>, voteType: Option<string>)
    ensures var r := OnComment(cs, commentId, voteType);
      CommentTally(r.1) == CommentTally(cs) + (if r.0 == OK then 1 else 0)
  {
    var r := OnComment(cs, commentId, voteType);
    if r.0 == OK {
      var i := CommentIndex(cs, commentId).value;
      CommentTallyUpdate(cs, i, CastOnComment(cs[i], ParseVote(voteType).value));
    }
  }

  /** Comment counters never go down, and only the voted comment changes. */
  lemma CommentVoteMonotone(cs: seq<Comment>, commentId: Option<int>, voteType: Option<string>)
    ensures var t := OnComment(cs, commentId, voteType).1;
      && |t| == |cs|
      && (forall k :: 0 <= k < |t| ==>
            (t[k].id == cs[k].id && t[k].parentId == cs[k].parentId
             && t[k].upvotes >= cs[k].upvotes && t[k].downvotes >= cs[k].downvotes))
      && (forall k :: 0 <= k < |t| && Some(cs[k].id) != commentId ==> t[k] == cs[k])
  {
  }
}
