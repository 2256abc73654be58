/** `build_comment_tree` and the root selection of `api_get_comments` and
    `index`: a flat list of comments becomes a forest of nodes, each node
    carrying its comment, its children and its level (depth).

    The source recursion starts at the roots and follows parent links
    downwards, so it only reaches comments whose ancestor chain ends at a
    root; a cycle of parent links is never entered. The model needs a measure
    for that recursion and takes a ghost `rank` map (`Ranked`): a child's rank
    exceeds its parent's, and every rank is below the number of comments. It
    therefore covers the comment sets whose parent links are acyclic. */
module CommentTree {
  import opened Entities

  datatype Node = Node(comment: Comment, children: seq<Node>, level: nat)

  /** Comment ids are the table's primary key: the first comment carrying
      the id of `cs[i]` is `cs[i]` itself. */
  ghost predicate UniqueIds(cs: seq<Comment>)
  {
    forall i :: 0 <= i < |cs| ==> Find(cs, cs[i].id) == Some(i)
  }

  /** `rank` orders parent links: the parent of a comment (when it is in `cs`)
      has a strictly smaller rank, and every rank is below `|cs|`. Such a map
      exists exactly when the links inside `cs` are acyclic. */
  ghost predicate Ranked(cs: seq<Comment>, rank: map<int, nat>)
  {
    forall j :: 0 <= j < |cs| ==>
      && cs[j].id in rank && rank[cs[j].id] < |cs|
      && (cs[j].parentId.Some? && Find(cs, cs[j].parentId.value).Some? ==>
            cs[j].parentId.value in rank && rank[cs[j].parentId.value] < rank[cs[j].id])
  }

  /** The comments of a sequence of nodes, in order. */
  function Comments(ns: seq<Node>): (r: seq<Comment>)
    ensures |r| == |ns| && forall i :: 0 <= i < |ns| ==> r[i] == ns[i].comment
  {
    seq(|ns|, i requires 0 <= i < |ns| => ns[i].comment)
  }

  /** The top-level comments (`parent_comment_id is None`), in list order. */
  function Roots(cs: seq<Comment>): (r: seq<Comment>)
    ensures |r| <= |cs|
    ensures forall c :: c in r <==> c in cs && c.parentId == None
  {
    if cs == [] then []
    else (if cs[0].parentId == None then [cs[0]] else []) + Roots(cs[1..])
  }

  /** The comments whose parent id is `pid`, in list order. */
  function ChildrenOf(cs: seq<Comment>, pid: int): (r: seq<Comment>)
    ensures |r| <= |cs|
    ensures forall c :: c in r <==> c in cs && c.parentId == Some(pid)
  {
    if cs == [] then []
    else (if cs[0].parentId == Some(pid) then [cs[0]] else []) + ChildrenOf(cs[1..], pid)
  }

  /** `build_comment_tree(c, comments_by_id, level)`. */
  function Build(cs: seq<Comment>, ghost rank: map<int, nat>, c: Comment, level: nat): Node
    requires Ranked(cs, rank) && c in cs
    decreases |cs| - rank[c.id], 1
  {
    Node(c, Kids(cs, rank, c, 0, level + 1), level)
  }

  /** The children list comprehension of `build_comment_tree`, over `cs[i..]`. */
  function Kids(cs: seq<Comment>, ghost rank: map<int, nat>, parent: Comment, i: nat, level: nat): seq<Node>
    requires Ranked(cs, rank) && parent in cs && i <= |cs|
    decreases |cs| - rank[parent.id], 0, |cs| - i
  {
    if i == |cs| then []
    else if cs[i].parentId == Some(parent.id) then
      [Build(cs, rank, cs[i], level)] + Kids(cs, rank, parent, i + 1, level)
    else
      Kids(cs, rank, parent, i + 1, level)
  }

  /** The root comprehension of `api_get_comments` and `index`, over `cs[i..]`. */
  function RootsFrom(cs: seq<Comment>, ghost rank: map<int, nat>, i: nat): seq<Node>
    requires Ranked(cs, rank) && i <= |cs|
    decreases |cs| - i
  {
    if i == |cs| then []
    else if cs[i].parentId == None then [Build(cs, rank, cs[i], 0)] + RootsFrom(cs, rank, i + 1)
    else RootsFrom(cs, rank, i + 1)
  }

  /** The comment forest of `cs` (`api_get_comments` and `index` build it the same way). */
  function Forest(cs: seq<Comment>, ghost rank: map<int, nat>): seq<Node>
    requires Ranked(cs, rank)
  {
    RootsFrom(cs, rank, 0)
  }

  /** A node's children are exactly the comments whose parent id is the
      node's id, in list order, each one level deeper. */
  lemma BuildShape(cs: seq<Comment>, rank: map<int, nat>, c: Comment, level: nat)
    requires Ranked(cs, rank) && c in cs
    ensures Build(cs, rank, c, level).comment == c && Build(cs, rank, c, level).level == level
    ensures Comments(Build(cs, rank, c, level).children) == ChildrenOf(cs, c.id)
    ensures forall k :: k in Build(cs, rank, c, level).children ==> k.level == level + 1
  {
    KidsShape(cs, rank, c, 0, level + 1);
    assert cs[0..] == cs;
  }

  lemma {:induction false} KidsShape(cs: seq<Comment>, rank: map<int, nat>, parent: Comment, i: nat, level: nat)
    requires Ranked(cs, rank) && parent in cs && i <= |cs|
    ensures Comments(Kids(cs, rank, parent, i, level)) == ChildrenOf(cs[i..], parent.id)
    ensures forall k :: k in Kids(cs, rank, parent, i, level) ==> k.level == level
    decreases |cs| - i
  {
    if i < |cs| {
      KidsShape(cs, rank, parent, i + 1, level);
      ChildrenOfStep(cs, parent.id, i);
      var rest := Kids(cs, rank, parent, i + 1, level);
      if cs[i].parentId == Some(parent.id) {
        var n := Build(cs, rank, cs[i], level);
        assert Kids(cs, rank, parent, i, level) == [n] + rest;
        CommentsCons(n, rest);
      } else {
        assert Kids(cs, rank, parent, i, level) == rest;
      }
    }
  }

  lemma ChildrenOfStep(cs: seq<Comment>, pid: int, i: nat)
    requires i < |cs|
    ensures ChildrenOf(cs[i..], pid) == (if cs[i].parentId == Some(pid) then [cs[i]] else []) + ChildrenOf(cs[i + 1..], pid)
  {
    assert cs[i..][0] == cs[i] && cs[i..][1..] == cs[i + 1..];
  }

  lemma RootsStep(cs: seq<Comment>, i: nat)
    requires i < |cs|
    ensures Roots(cs[i..]) == (if cs[i].parentId == None then [cs[i]] else []) + Roots(cs[i + 1..])
  {
    assert cs[i..][0] == cs[i] && cs[i..][1..] == cs[i + 1..];
  }

  lemma CommentsCons(n: Node, rest: seq<Node>)
    ensures Comments([n] + rest) == [n.comment] + Comments(rest)
    ensures forall k :: k in [n] + rest ==> k == n || k in rest
  {
    assert Comments([n] + rest) == [n.comment] + Comments(rest);
  }

  /** The forest's roots are exactly the top-level comments, in list order, each at level 0. */
  lemma ForestShape(cs: seq<Comment>, rank: map<int, nat>)
    requires Ranked(cs, rank)
    ensures Comments(Forest(cs, rank)) == Roots(cs)
    ensures forall n :: n in Forest(cs, rank) ==> n.level == 0
  {
    RootsShape(cs, rank, 0);
    assert cs[0..] == cs;
  }

  lemma {:induction false} RootsShape(cs: seq<Comment>, rank: map<int, nat>, i: nat)
    requires Ranked(cs, rank) && i <= |cs|
    ensures Comments(RootsFrom(cs, rank, i)) == Roots(cs[i..])
    ensures forall n :: n in RootsFrom(cs, rank, i) ==> n.level == 0
    decreases |cs| - i
  {
    if i < |cs| {
      RootsShape(cs, rank, i + 1);
      RootsStep(cs, i);
      var rest := RootsFrom(cs, rank, i + 1);
      if cs[i].parentId == None {
        var n := Build(cs, rank, cs[i], 0);
        assert RootsFrom(cs, rank, i) == [n] + rest;
        CommentsCons(n, rest);
      } else {
        assert RootsFrom(cs, rank, i) == rest;
      }
    }
  }

  /** The comments of one post (`Comment.query.filter_by(post_id=...)`), in table order. */
  function OfPost(cs: seq<Comment>, postId: int): (r: seq<Comment>)
    ensures |r| <= |cs|
    ensures forall c :: c in r <==> c in cs && c.postId == postId
  {
    if cs == [] then []
    else (if cs[0].postId == postId then [cs[0]] else []) + OfPost(cs[1..], postId)
  }

  /** Every (comment, level) pair of a forest, in pre-order. */
  function Flatten(ns: seq<Node>): seq<(Comment, nat)>
    decreases ns
  {
    if ns == [] then []
    else [(ns[0].comment, ns[0].level)] + Flatten(ns[0].children) + Flatten(ns[1..])
  }

  // ---------------------------------------------------------------------
  // The ancestor chain, walked upwards from a comment.

  /** The index of the comment with id `id`, if any. */
  function Find(cs: seq<Comment>, id: int): (r: Option<nat>)
    ensures r.Some? ==> r.value < |cs| && cs[r.value].id == id
    ensures r.None? ==> forall c :: c in cs ==> c.id != id
  {
    if cs == [] then None
    else if cs[0].id == id then Some(0)
    else match Find(cs[1..], id)
      case None => None
      case Some(k) => Some(k + 1)
  }

  /** `a` is `d` or one of its ancestors, following parent ids inside `cs`. */
  ghost predicate AncOrSelf(cs: seq<Comment>, rank: map<int, nat>, a: Comment, d: Comment)
    requires Ranked(cs, rank) && d in cs
    decreases rank[d.id]
  {
    || a == d
    || (d.parentId.Some? && Find(cs, d.parentId.value).Some?
        && AncOrSelf(cs, rank, a, cs[Find(cs, d.parentId.value).value]))
  }

  /** The ancestor chain of `d` ends at a top-level comment of `cs`. */
  ghost predicate Rooted(cs: seq<Comment>, rank: map<int, nat>, d: Comment)
    requires Ranked(cs, rank) && d in cs
    decreases rank[d.id]
  {
    match d.parentId
    case None => true
    case Some(p) => Find(cs, p).Some? && Rooted(cs, rank, cs[Find(cs, p).value])
  }

  /** The length of the ancestor chain of `d` inside `cs`. */
  ghost function Depth(cs: seq<Comment>, rank: map<int, nat>, d: Comment): nat
    requires Ranked(cs, rank) && d in cs
    decreases rank[d.id]
  {
    match d.parentId
    case None => 0
    case Some(p) => if Find(cs, p).Some? then Depth(cs, rank, cs[Find(cs, p).value]) + 1 else 0
  }

  /** With unique ids, the parent of a child of `c` is `c` itself. */
  lemma ParentIsFound(cs: seq<Comment>, c: Comment)
    requires UniqueIds(cs) && c in cs
    ensures Find(cs, c.id).Some? && cs[Find(cs, c.id).value] == c
  {
    var i :| 0 <= i < |cs| && cs[i] == c;
    var k := Find(cs, c.id).value;
    assert cs[k].id == cs[i].id;
  }

  lemma {:induction false} AncestorRank(cs: seq<Comment>, rank: map<int, nat>, a: Comment, d: Comment)
    requires Ranked(cs, rank) && d in cs && AncOrSelf(cs, rank, a, d)
    ensures a in cs && rank[a.id] <= rank[d.id]
    decreases rank[d.id]
  {
    if a != d {
      var p := cs[Find(cs, d.parentId.value).value];
      AncestorRank(cs, rank, a, p);
    }
  }

  lemma {:induction false} AncestorTrans(cs: seq<Comment>, rank: map<int, nat>, a: Comment, b: Comment, d: Comment)
    requires Ranked(cs, rank) && d in cs
    requires AncOrSelf(cs, rank, b, d)
    requires b in cs && AncOrSelf(cs, rank, a, b)
    ensures AncOrSelf(cs, rank, a, d)
    decreases rank[d.id]
  {
    if b != d {
      var p := cs[Find(cs, d.parentId.value).value];
      AncestorTrans(cs, rank, a, b, p);
    }
  }

  /** Two ancestors of one comment lie on one chain. */
  lemma {:induction false} AncestorsLinear(cs: seq<Comment>, rank: map<int, nat>, a: Comment, b: Comment, d: Comment)
    requires Ranked(cs, rank) && d in cs
    requires AncOrSelf(cs, rank, a, d) && AncOrSelf(cs, rank, b, d)
    ensures a in cs && b in cs
    ensures AncOrSelf(cs, rank, a, b) || AncOrSelf(cs, rank, b, a)
    decreases rank[d.id]
  {
    AncestorRank(cs, rank, a, d);
    AncestorRank(cs, rank, b, d);
    if a != d && b != d {
      var p := cs[Find(cs, d.parentId.value).value];
      AncestorsLinear(cs, rank, a, b, p);
    }
  }

  /** Two siblings that are both ancestors of one comment are the same comment. */
  lemma SiblingOnChainUnique(cs: seq<Comment>, rank: map<int, nat>, c: Comment, k1: Comment, k2: Comment, d: Comment)
    requires UniqueIds(cs) && Ranked(cs, rank) && c in cs && d in cs
    requires k1.parentId == Some(c.id) && k2.parentId == Some(c.id)
    requires AncOrSelf(cs, rank, k1, d) && AncOrSelf(cs, rank, k2, d)
    ensures k1 == k2
  {
    AncestorsLinear(cs, rank, k1, k2, d);
    ParentIsFound(cs, c);
    if k1 != k2 {
      if AncOrSelf(cs, rank, k1, k2) {
        AncestorRank(cs, rank, k1, c);
      } else {
        AncestorRank(cs, rank, k2, c);
      }
    }
  }

  /** Two top-level ancestors of one comment are the same comment. */
  lemma RootOnChainUnique(cs: seq<Comment>, rank: map<int, nat>, r1: Comment, r2: Comment, d: Comment)
    requires Ranked(cs, rank) && d in cs
    requires r1.parentId == None && r2.parentId == None
    requires AncOrSelf(cs, rank, r1, d) && AncOrSelf(cs, rank, r2, d)
    ensures r1 == r2
  {
    AncestorsLinear(cs, rank, r1, r2, d);
  }

  /** The comment at index `j` has parent id `pid` and is `d` or an ancestor of `d`. */
  ghost predicate Above(cs: seq<Comment>, rank: map<int, nat>, pid: Option<int>, j: int, d: Comment)
    requires Ranked(cs, rank) && d in cs
  {
    0 <= j < |cs| && cs[j].parentId == pid && AncOrSelf(cs, rank, cs[j], d)
  }

  /** Some comment at index `i` or later has parent id `pid` and is `d` or an ancestor of `d`. */
  ghost predicate AboveFrom(cs: seq<Comment>, rank: map<int, nat>, pid: Option<int>, i: int, d: Comment)
    requires Ranked(cs, rank) && d in cs
  {
    exists j :: i <= j && Above(cs, rank, pid, j, d)
  }

  /** A strict descendant of `c` descends from a child of `c`. */
  lemma {:induction false} ChildOnChain(cs: seq<Comment>, rank: map<int, nat>, c: Comment, d: Comment)
    requires UniqueIds(cs) && Ranked(cs, rank) && c in cs && d in cs
    requires AncOrSelf(cs, rank, c, d) && d != c
    ensures AboveFrom(cs, rank, Some(c.id), 0, d)
    decreases rank[d.id]
  {
    var p := cs[Find(cs, d.parentId.value).value];
    var jd :| 0 <= jd < |cs| && cs[jd] == d;
    if p == c {
      assert Above(cs, rank, Some(c.id), jd, d);
    } else {
      ChildOnChain(cs, rank, c, p);
      var j :| 0 <= j && Above(cs, rank, Some(c.id), j, p);
      assert Above(cs, rank, Some(c.id), j, d);
    }
  }

  /** The chain of a comment ends at a top-level comment exactly when some
      top-level comment is an ancestor-or-self of it. */
  lemma {:induction false} RootedIffRootAbove(cs: seq<Comment>, rank: map<int, nat>, d: Comment)
    requires Ranked(cs, rank) && d in cs
    ensures Rooted(cs, rank, d) <==> AboveFrom(cs, rank, None, 0, d)
    decreases rank[d.id]
  {
    var jd :| 0 <= jd < |cs| && cs[jd] == d;
    match d.parentId
    case None =>
      assert Above(cs, rank, None, jd, d);
    case Some(pid) =>
      if Find(cs, pid).Some? {
        var p := cs[Find(cs, pid).value];
        RootedIffRootAbove(cs, rank, p);
        if Rooted(cs, rank, d) {
          var j :| 0 <= j && Above(cs, rank, None, j, p);
          assert Above(cs, rank, None, j, d);
        }
        if AboveFrom(cs, rank, None, 0, d) {
          var j :| 0 <= j && Above(cs, rank, None, j, d);
          assert Above(cs, rank, None, j, p);
        }
      }
  }

  // ---------------------------------------------------------------------
  // Exactly once: counting occurrences of one (comment, level) pair.

  lemma FlattenCons(n: Node, rest: seq<Node>)
    ensures multiset(Flatten([n] + rest)) == multiset(Flatten([n])) + multiset(Flatten(rest))
    ensures multiset(Flatten([n])) == multiset{(n.comment, n.level)} + multiset(Flatten(n.children))
  {
    assert ([n] + rest)[0] == n && ([n] + rest)[1..] == rest;
    assert [n][1..] == [];
  }

  /** The subtree built at `c` holds each descendant-or-self of `c` once, at its depth, and nothing else. */
  lemma {:induction false} SubtreeCount(cs: seq<Comment>, rank: map<int, nat>, c: Comment, l: nat, d: Comment, m: nat)
    requires UniqueIds(cs) && Ranked(cs, rank) && c in cs && l == Depth(cs, rank, c)
    ensures multiset(Flatten([Build(cs, rank, c, l)]))[(d, m)]
      == if d in cs && AncOrSelf(cs, rank, c, d) && m == Depth(cs, rank, d) then 1 else 0
    decreases |cs| - rank[c.id], 1
  {
    var n := Build(cs, rank, c, l);
    FlattenCons(n, []);
    KidsCount(cs, rank, c, 0, l + 1, d, m);
    if d in cs {
      BelowIffStrictDescendant(cs, rank, c, d);
    }
  }

  /** `d` lies below a child of `c` exactly when `d` is a strict descendant of `c`. */
  lemma BelowIffStrictDescendant(cs: seq<Comment>, rank: map<int, nat>, c: Comment, d: Comment)
    requires UniqueIds(cs) && Ranked(cs, rank) && c in cs && d in cs
    ensures AboveFrom(cs, rank, Some(c.id), 0, d) <==> AncOrSelf(cs, rank, c, d) && d != c
  {
    if AncOrSelf(cs, rank, c, d) && d != c {
      ChildOnChain(cs, rank, c, d);
    }
    if AboveFrom(cs, rank, Some(c.id), 0, d) {
      var j :| 0 <= j && Above(cs, rank, Some(c.id), j, d);
      ParentIsFound(cs, c);
      assert AncOrSelf(cs, rank, c, cs[j]);
      AncestorTrans(cs, rank, c, cs[j], d);
      AncestorRank(cs, rank, cs[j], d);
    }
  }

  lemma AboveFromStep(cs: seq<Comment>, rank: map<int, nat>, pid: Option<int>, i: int, d: Comment)
    requires Ranked(cs, rank) && d in cs
    ensures AboveFrom(cs, rank, pid, i, d) <==> Above(cs, rank, pid, i, d) || AboveFrom(cs, rank, pid, i + 1, d)
  {
    if AboveFrom(cs, rank, pid, i, d) && !Above(cs, rank, pid, i, d) {
      var j :| i <= j && Above(cs, rank, pid, j, d);
      assert i + 1 <= j;
    }
  }

  /** The children built from `cs[i..]` hold, once each at its depth, the
      descendants-or-self of those children of `parent` found in `cs[i..]`. */
  lemma {:induction false} KidsCount(cs: seq<Comment>, rank: map<int, nat>, parent: Comment, i: nat, l: nat, d: Comment, m: nat)
    requires UniqueIds(cs) && Ranked(cs, rank) && parent in cs && i <= |cs|
    requires l == Depth(cs, rank, parent) + 1
    ensures multiset(Flatten(Kids(cs, rank, parent, i, l)))[(d, m)]
      == if d in cs && m == Depth(cs, rank, d) && AboveFrom(cs, rank, Some(parent.id), i, d) then 1 else 0
    decreases |cs| - rank[parent.id], 0, |cs| - i, 1
  {
    var pid := Some(parent.id);
    if i == |cs| {
      assert Kids(cs, rank, parent, i, l) == [];
      if d in cs {
        assert !AboveFrom(cs, rank, pid, i, d);
      }
    } else if cs[i].parentId == pid {
      KidsCountChild(cs, rank, parent, i, l, d, m);
    } else {
      KidsCount(cs, rank, parent, i + 1, l, d, m);
      assert Kids(cs, rank, parent, i, l) == Kids(cs, rank, parent, i + 1, l);
      if d in cs {
        AboveFromStep(cs, rank, pid, i, d);
        assert !Above(cs, rank, pid, i, d);
      }
    }
  }

  /** The step of `KidsCount` where `cs[i]` is a child of `parent`. */
  lemma {:induction false} KidsCountChild(cs: seq<Comment>, rank: map<int, nat>, parent: Comment, i: nat, l: nat, d: Comment, m: nat)
    requires UniqueIds(cs) && Ranked(cs, rank) && parent in cs && i < |cs| && cs[i].parentId == Some(parent.id)
    requires l == Depth(cs, rank, parent) + 1
    ensures multiset(Flatten(Kids(cs, rank, parent, i, l)))[(d, m)]
      == if d in cs && m == Depth(cs, rank, d) && AboveFrom(cs, rank, Some(parent.id), i, d) then 1 else 0
    decreases |cs| - rank[parent.id], 0, |cs| - i, 0
  {
    var pid := Some(parent.id);
    var rest := Kids(cs, rank, parent, i + 1, l);
    var n := Build(cs, rank, cs[i], l);
    var here := multiset(Flatten([n]))[(d, m)];
    var later := multiset(Flatten(rest))[(d, m)];
    assert multiset(Flatten(Kids(cs, rank, parent, i, l)))[(d, m)] == here + later by {
      assert Kids(cs, rank, parent, i, l) == [n] + rest;
      FlattenCons(n, rest);
    }
    assert later == if d in cs && m == Depth(cs, rank, d) && AboveFrom(cs, rank, pid, i + 1, d) then 1 else 0 by {
      KidsCount(cs, rank, parent, i + 1, l, d, m);
    }
    assert here == if d in cs && AncOrSelf(cs, rank, cs[i], d) && m == Depth(cs, rank, d) then 1 else 0 by {
      ChildDepth(cs, rank, parent, i);
      SubtreeCount(cs, rank, cs[i], l, d, m);
    }
    if d in cs {
      ChildStep(cs, rank, parent, i, d);
    }
  }

  /** A child sits one level below its parent. */
  lemma ChildDepth(cs: seq<Comment>, rank: map<int, nat>, parent: Comment, i: nat)
    requires UniqueIds(cs) && Ranked(cs, rank) && parent in cs && i < |cs| && cs[i].parentId == Some(parent.id)
    ensures Depth(cs, rank, cs[i]) == Depth(cs, rank, parent) + 1
  {
    ParentIsFound(cs, parent);
  }

  /** `d` lies below the child `cs[i]` of `parent`, or below a later child, but not both. */
  lemma ChildStep(cs: seq<Comment>, rank: map<int, nat>, parent: Comment, i: nat, d: Comment)
    requires UniqueIds(cs) && Ranked(cs, rank) && parent in cs && d in cs
    requires i < |cs| && cs[i].parentId == Some(parent.id)
    ensures AboveFrom(cs, rank, Some(parent.id), i, d)
      <==> AncOrSelf(cs, rank, cs[i], d) || AboveFrom(cs, rank, Some(parent.id), i + 1, d)
    ensures !(AncOrSelf(cs, rank, cs[i], d) && AboveFrom(cs, rank, Some(parent.id), i + 1, d))
  {
    var pid := Some(parent.id);
    AboveFromStep(cs, rank, pid, i, d);
    assert Above(cs, rank, pid, i, d) <==> AncOrSelf(cs, rank, cs[i], d);
    if AncOrSelf(cs, rank, cs[i], d) && AboveFrom(cs, rank, pid, i + 1, d) {
      var j :| i + 1 <= j && Above(cs, rank, pid, j, d);
      SiblingOnChainUnique(cs, rank, parent, cs[i], cs[j], d);
      assert false;
    }
  }

  /** The roots built from `cs[i..]` hold, once each at its depth, the
      descendants-or-self of the top-level comments found in `cs[i..]`. */
  lemma {:induction false} RootsCount(cs: seq<Comment>, rank: map<int, nat>, i: nat, d: Comment, m: nat)
    requires UniqueIds(cs) && Ranked(cs, rank) && i <= |cs|
    ensures multiset(Flatten(RootsFrom(cs, rank, i)))[(d, m)]
      == if d in cs && m == Depth(cs, rank, d) && AboveFrom(cs, rank, None, i, d) then 1 else 0
    decreases |cs| - i, 1
  {
    if i < |cs| {
      if cs[i].parentId == None {
        RootsCountRoot(cs, rank, i, d, m);
      } else {
        RootsCount(cs, rank, i + 1, d, m);
        assert RootsFrom(cs, rank, i) == RootsFrom(cs, rank, i + 1);
        if d in cs {
          AboveFromStep(cs, rank, None, i, d);
          assert !Above(cs, rank, None, i, d);
        }
      }
    } else if d in cs {
      assert !AboveFrom(cs, rank, None, i, d);
    }
  }

  /** The step of `RootsCount` where `cs[i]` is a top-level comment. */
  lemma {:induction false} RootsCountRoot(cs: seq<Comment>, rank: map<int, nat>, i: nat, d: Comment, m: nat)
    requires UniqueIds(cs) && Ranked(cs, rank) && i < |cs| && cs[i].parentId == None
    ensures multiset(Flatten(RootsFrom(cs, rank, i)))[(d, m)]
      == if d in cs && m == Depth(cs, rank, d) && AboveFrom(cs, rank, None, i, d) then 1 else 0
    decreases |cs| - i, 0
  {
    var rest := RootsFrom(cs, rank, i + 1);
    var n := Build(cs, rank, cs[i], 0);
    var here := multiset(Flatten([n]))[(d, m)];
    var later := multiset(Flatten(rest))[(d, m)];
    assert multiset(Flatten(RootsFrom(cs, rank, i)))[(d, m)] == here + later by {
      assert RootsFrom(cs, rank, i) == [n] + rest;
      FlattenCons(n, rest);
    }
    assert later == if d in cs && m == Depth(cs, rank, d) && AboveFrom(cs, rank, None, i + 1, d) then 1 else 0 by {
      RootsCount(cs, rank, i + 1, d, m);
    }
    assert here == if d in cs && AncOrSelf(cs, rank, cs[i], d) && m == Depth(cs, rank, d) then 1 else 0 by {
      assert Depth(cs, rank, cs[i]) == 0;
      SubtreeCount(cs, rank, cs[i], 0, d, m);
    }
    if d in cs {
      RootStep(cs, rank, i, d);
    }
  }

  /** `d` lies below the top-level comment `cs[i]`, or below a later one, but not both. */
  lemma RootStep(cs: seq<Comment>, rank: map<int, nat>, i: nat, d: Comment)
    requires UniqueIds(cs) && Ranked(cs, rank) && d in cs && i < |cs| && cs[i].parentId == None
    ensures AboveFrom(cs, rank, None, i, d) <==> AncOrSelf(cs, rank, cs[i], d) || AboveFrom(cs, rank, None, i + 1, d)
    ensures !(AncOrSelf(cs, rank, cs[i], d) && AboveFrom(cs, rank, None, i + 1, d))
  {
    AboveFromStep(cs, rank, None, i, d);
    assert Above(cs, rank, None, i, d) <==> AncOrSelf(cs, rank, cs[i], d);
    if AncOrSelf(cs, rank, cs[i], d) && AboveFrom(cs, rank, None, i + 1, d) {
      var j :| i + 1 <= j && Above(cs, rank, None, j, d);
      RootOnChainUnique(cs, rank, cs[i], cs[j], d);
      assert false;
    }
  }

  /** The forest holds every comment whose ancestor chain ends at a top-level
      comment exactly once, at a level equal to the length of that chain, and
      nothing else: orphans and their descendants never appear. */
  lemma ForestExactlyOnce(cs: seq<Comment>, rank: map<int, nat>, d: Comment, m: nat)
    requires UniqueIds(cs) && Ranked(cs, rank)
    ensures multiset(Flatten(Forest(cs, rank)))[(d, m)]
      == if d in cs && Rooted(cs, rank, d) && m == Depth(cs, rank, d) then 1 else 0
  {
    RootsCount(cs, rank, 0, d, m);
    if d in cs {
      RootedIffRootAbove(cs, rank, d);
    }
  }

  /** A comment whose parent is missing from `cs`, or whose chain reaches one, appears nowhere. */
  lemma OrphanNeverAppears(cs: seq<Comment>, rank: map<int, nat>, d: Comment)
    requires UniqueIds(cs) && Ranked(cs, rank) && d in cs && !Rooted(cs, rank, d)
    ensures forall m: nat :: (d, m) !in Flatten(Forest(cs, rank))
  {
    forall m: nat ensures (d, m) !in Flatten(Forest(cs, rank)) {
      ForestExactlyOnce(cs, rank, d, m);
    }
  }

  /** `api_get_comments(post_id)`: the forest of one post's comments; every
      node in it belongs to that post. */
  function PostThread(cs: seq<Comment>, postId: int, ghost rank: map<int, nat>): (f: seq<Node>)
    requires UniqueIds(OfPost(cs, postId)) && Ranked(OfPost(cs, postId), rank)
    ensures forall x :: x in Flatten(f) ==> x.0 in cs && x.0.postId == postId
  {
    var own := OfPost(cs, postId);
    var f := Forest(own, rank);
    forall x | x in Flatten(f) ensures x.0 in cs && x.0.postId == postId {
      ForestExactlyOnce(own, rank, x.0, x.1);
    }
    f
  }
}
