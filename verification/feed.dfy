/** `api_get_posts`: scope the posts to one group (or to the frontpage),
    order them by score or by timestamp, newest or best first, and cut the
    window `[offset, offset + limit)` with `offset = (page - 1) * limit`.

    SQL leaves the order of equal keys open; the model keeps such posts in
    table order (a stable sort). OFFSET and LIMIT follow SQLite: a negative
    offset counts as 0, a negative limit means "no limit". */
module Feed {
  import opened Entities

  const FRONTPAGE := "frontpage"
  /** How many subllmits `Subllmit.query.limit(10)` takes for the frontpage. */
  const FRONTPAGE_SIZE := 10

  /** The names of the first ten subllmits, in table order. */
  function FrontpageGroups(subs: seq<Subllmit>): (names: seq<string>)
    ensures |names| == if |subs| < FRONTPAGE_SIZE then |subs| else FRONTPAGE_SIZE
    ensures forall k :: 0 <= k < |names| ==> names[k] == subs[k].name
  {
    var n := if |subs| < FRONTPAGE_SIZE then |subs| else FRONTPAGE_SIZE;
    seq(n, k requires 0 <= k < n => subs[k].name)
  }

  /** The filter of `api_get_posts` for one post. */
  predicate InScope(p: Post, subs: seq<Subllmit>, group: string)
  {
    if group == FRONTPAGE then p.groupName in FrontpageGroups(subs) else p.groupName == group
  }

  /** The posts in scope, in table order. */
  function Scoped(posts: seq<Post>, subs: seq<Subllmit>, group: string): (r: seq<Post>)
    ensures |r| <= |posts|
    ensures forall p :: p in r <==> p in posts && InScope(p, subs, group)
    ensures multiset(r) <= multiset(posts)
  {
    if posts == [] then []
    else
      assert posts == [posts[0]] + posts[1..];
      (if InScope(posts[0], subs, group) then [posts[0]] else []) + Scoped(posts[1..], subs, group)
  }

  /** The score `upvotes - downvotes`. */
  function Score(p: Post): int
  {
    p.upvotes - p.downvotes
  }

  /** The two orders of the feed. */
  datatype Order = ByTime | ByScore

  /** `sort == 'new'` orders by timestamp; any other value orders by score. */
  function OrderOf(sort: string): (o: Order)
    ensures o == ByTime <==> sort == "new"
  {
    if sort == "new" then ByTime else ByScore
  }

  /** The sort key of a post under an order. */
  function Key(p: Post, sort: Order): int
  {
    match sort
    case ByTime => p.timestamp
    case ByScore => Score(p)
  }

  /** `s` is in descending order of `Key`. */
  ghost predicate Descending(s: seq<Post>, sort: Order)
  {
    forall i, j :: 0 <= i < j < |s| ==> Key(s[i], sort) >= Key(s[j], sort)
  }

  /** Inserts `p` before the first element whose key is not above `p`'s. */
  function Insert(p: Post, s: seq<Post>, sort: Order): (r: seq<Post>)
    requires Descending(s, sort)
    ensures Descending(r, sort)
    ensures multiset(r) == multiset(s) + multiset{p}
    ensures |r| == |s| + 1
  {
    if s == [] || Key(p, sort) >= Key(s[0], sort) then
      ConsDescending(p, s, sort);
      [p] + s
    else
      var t := Insert(p, s[1..], sort);
      assert s == [s[0]] + s[1..];
      HeadAbove(s[0], t, sort, p, s[1..]);
      [s[0]] + t
  }

  /** A head no worse than the old head keeps the order. */
  lemma ConsDescending(p: Post, s: seq<Post>, sort: Order)
    requires Descending(s, sort) && (s == [] || Key(p, sort) >= Key(s[0], sort))
    ensures Descending([p] + s, sort)
  {
    var r := [p] + s;
    forall i, j | 0 <= i < j < |r| ensures Key(r[i], sort) >= Key(r[j], sort) {
      assert r[j] == s[j - 1];
      if i > 0 {
        assert r[i] == s[i - 1];
      } else {
        assert Key(s[0], sort) >= Key(s[j - 1], sort) || j == 1;
      }
    }
  }

  /** Putting `h` in front of `t` keeps the order when `h`'s key bounds every element of `t`,
      which holds when `t`'s elements are `p` or elements of `u`, both bounded by `h`. */
  lemma HeadAbove(h: Post, t: seq<Post>, sort: Order, p: Post, u: seq<Post>)
    requires Descending(t, sort) && Descending([h] + u, sort)
    requires multiset(t) == multiset(u) + multiset{p} && Key(h, sort) >= Key(p, sort)
    ensures Descending([h] + t, sort)
  {
    forall x | x in t ensures Key(h, sort) >= Key(x, sort) {
      if x != p {
        assert x in multiset(t);
        assert multiset(t)[x] == multiset(u)[x] + multiset{p}[x];
        assert x in multiset(u);
        assert x in u;
        var k :| 0 <= k < |u| && u[k] == x;
        var hu := [h] + u;
        assert hu[0] == h && hu[k + 1] == x;
        assert Key(hu[0], sort) >= Key(hu[k + 1], sort);
      }
    }
    var r := [h] + t;
    forall i, j | 0 <= i < j < |r| ensures Key(r[i], sort) >= Key(r[j], sort) {
      assert r[j] == t[j - 1];
      assert r[j] in t;
      if i > 0 {
        assert r[i] == t[i - 1];
      }
    }
  }

  /** `order_by(key.desc())`: a stable sort, best first. */
  function SortDesc(s: seq<Post>, sort: Order): (r: seq<Post>)
    ensures Descending(r, sort)
    ensures multiset(r) == multiset(s)
    ensures |r| == |s|
  {
    if s == [] then []
    else
      assert s == [s[0]] + s[1..];
      Insert(s[0], SortDesc(s[1..], sort), sort)
  }

  function Max(a: int, b: int): int { if a < b then b else a }
  function Min(a: int, b: int): int { if a < b then a else b }

  /** `OFFSET offset LIMIT limit`, as SQLite evaluates them. */
  function Window(s: seq<Post>, offset: int, limit: int): (r: seq<Post>)
    ensures var lo := Min(Max(offset, 0), |s|);
      && |r| == (if limit < 0 then |s| - lo else Min(limit, |s| - lo))
      && forall k :: 0 <= k < |r| ==> r[k] == s[lo + k]
  {
    var lo := Min(Max(offset, 0), |s|);
    var hi := if limit < 0 then |s| else Min(lo + limit, |s|);
    s[lo..hi]
  }

  /** The posts in scope, best first. */
  function Ranked(posts: seq<Post>, subs: seq<Subllmit>, group: string, sort: Order): seq<Post>
  {
    SortDesc(Scoped(posts, subs, group), sort)
  }

  /** `api_get_posts(group, sort, page, limit)` over a snapshot of the tables. */
  function Page(posts: seq<Post>, subs: seq<Subllmit>, group: string, sort: string, page: int, limit: int): seq<Post>
  {
    Window(Ranked(posts, subs, group, OrderOf(sort)), (page - 1) * limit, limit)
  }

  /** A page is the window of the ranked posts that starts at `(page - 1) * limit`;
      it holds at most `limit` posts when `limit` is not negative. */
  lemma PageIsWindow(posts: seq<Post>, subs: seq<Subllmit>, group: string, sort: string, page: int, limit: int)
    ensures var all := Ranked(posts, subs, group, OrderOf(sort));
      var lo := Min(Max((page - 1) * limit, 0), |all|);
      var r := Page(posts, subs, group, sort, page, limit);
      && lo + |r| <= |all| && r == all[lo..lo + |r|]
      && (limit >= 0 ==> |r| <= limit)
  {
    var all := Ranked(posts, subs, group, OrderOf(sort));
    var lo := Min(Max((page - 1) * limit, 0), |all|);
    var r := Page(posts, subs, group, sort, page, limit);
    assert r == all[lo..lo + |r|];
  }

  /** Every post of a page is in scope, and the page is in descending key order. */
  lemma PageScopedAndOrdered(posts: seq<Post>, subs: seq<Subllmit>, group: string, sort: string, page: int, limit: int)
    ensures var r := Page(posts, subs, group, sort, page, limit);
      && Descending(r, OrderOf(sort))
      && (forall p :: p in r ==> p in posts && InScope(p, subs, group))
      && (group != FRONTPAGE ==> forall p :: p in r ==> p.groupName == group)
      && (group == FRONTPAGE ==> forall p :: p in r ==> p.groupName in FrontpageGroups(subs))
  {
    var all := Ranked(posts, subs, group, OrderOf(sort));
    var r := Page(posts, subs, group, sort, page, limit);
    PageIsWindow(posts, subs, group, sort, page, limit);
    forall p | p in r ensures p in posts && InScope(p, subs, group) {
      assert p in all;
      assert p in multiset(all);
      assert p in Scoped(posts, subs, group);
    }
  }

  /** A post whose key beats every other post in scope leads the ranking,
      and so the first page of any non-zero size. */
  lemma StrictBestLeads(posts: seq<Post>, subs: seq<Subllmit>, group: string, sort: string, limit: int, x: Post)
    requires x in posts && InScope(x, subs, group) && limit != 0
    requires forall y :: y in posts && InScope(y, subs, group) && y != x ==> Key(y, OrderOf(sort)) < Key(x, OrderOf(sort))
    ensures var pg := Page(posts, subs, group, sort, 1, limit);
      pg != [] && pg[0] == x
  {
    var o := OrderOf(sort);
    var all := Ranked(posts, subs, group, o);
    var sc := Scoped(posts, subs, group);
    assert multiset(all) == multiset(sc);
    assert x in all by {
      assert x in sc;
      assert x in multiset(sc);
    }
    forall y | y in all && y != x ensures Key(y, o) < Key(x, o) {
      assert y in multiset(sc);
      assert y in sc;
    }
    BestLeadsDescending(all, o, x);
    var pg := Page(posts, subs, group, sort, 1, limit);
    assert pg == Window(all, 0, limit) by {
      assert (1 - 1) * limit == 0;
    }
  }

  /** In a descending sequence, an element whose key beats every other element comes first. */
  lemma BestLeadsDescending(s: seq<Post>, sort: Order, x: Post)
    requires Descending(s, sort) && x in s
    requires forall y :: y in s && y != x ==> Key(y, sort) < Key(x, sort)
    ensures s[0] == x
  {
    var k :| 0 <= k < |s| && s[k] == x;
    assert s[0] in s;
  }

  /** A negative limit means no limit, and from page 1 on the offset
      `(page - 1) * limit` is at most 0: every such page is the whole ranking. */
  lemma NegativeLimitWholeRanking(posts: seq<Post>, subs: seq<Subllmit>, group: string, sort: string, page: int, limit: int)
    requires page >= 1 && limit < 0
    ensures Page(posts, subs, group, sort, page, limit) == Ranked(posts, subs, group, OrderOf(sort))
  {
    var all := Ranked(posts, subs, group, OrderOf(sort));
    var a := (page - 1) * limit;
    assert a <= 0 by {
      NonPositiveOffset(page, limit);
    }
    assert Window(all, a, limit) == all[0..|all|];
  }

  lemma NonPositiveOffset(page: int, limit: int)
    requires page >= 1 && limit < 0
    ensures (page - 1) * limit <= 0
  {
  }

  /** A zero limit gives an empty page, whatever the page number. */
  lemma ZeroLimitEmpty(posts: seq<Post>, subs: seq<Subllmit>, group: string, sort: string, page: int)
    ensures Page(posts, subs, group, sort, page, 0) == []
  {
  }

  /** A group that no post names gives an empty page, not an error. */
  lemma UnknownGroupIsEmpty(posts: seq<Post>, subs: seq<Subllmit>, group: string, sort: string, page: int, limit: int)
    requires group != FRONTPAGE
    requires forall p :: p in posts ==> p.groupName != group
    ensures Page(posts, subs, group, sort, page, limit) == []
  {
    NothingInScope(posts, subs, group);
  }

  /** Posts none of which is in scope scope to nothing. */
  lemma {:induction false} NothingInScope(posts: seq<Post>, subs: seq<Subllmit>, group: string)
    requires forall p :: p in posts ==> !InScope(p, subs, group)
    ensures Scoped(posts, subs, group) == []
  {
    if posts != [] {
      assert posts[0] in posts;
      NothingInScope(posts[1..], subs, group);
    }
  }

  /** Pages `1..k`, concatenated. */
  function FirstPages(posts: seq<Post>, subs: seq<Subllmit>, group: string, sort: string, k: nat, limit: int): seq<Post>
  {
    if k == 0 then [] else FirstPages(posts, subs, group, sort, k - 1, limit) + Page(posts, subs, group, sort, k, limit)
  }

  /** The windows `1..k` of `all`, concatenated. */
  function Windows(all: seq<Post>, k: nat, limit: int): seq<Post>
  {
    if k == 0 then [] else Windows(all, k - 1, limit) + Window(all, (k - 1) * limit, limit)
  }

  /** Pages `1..k` are the windows `1..k` of the ranked posts. */
  lemma {:induction false} PagesAreWindows(posts: seq<Post>, subs: seq<Subllmit>, group: string, sort: string, k: nat, limit: int)
    ensures FirstPages(posts, subs, group, sort, k, limit) == Windows(Ranked(posts, subs, group, OrderOf(sort)), k, limit)
  {
    if k > 0 {
      PagesAreWindows(posts, subs, group, sort, k - 1, limit);
    }
  }

  /** Consecutive windows of a positive size tile a prefix of `all`. */
  lemma {:induction false} WindowsTile(all: seq<Post>, k: nat, limit: int)
    requires limit > 0
    ensures Windows(all, k, limit) == all[..Min(k * limit, |all|)]
  {
    if k > 0 {
      var a := (k - 1) * limit;
      PageOffsetStep(k, limit);
      var lo := Min(a, |all|);
      var hi := Min(a + limit, |all|);
      assert Windows(all, k - 1, limit) == all[..lo] by {
        WindowsTile(all, k - 1, limit);
      }
      assert Window(all, a, limit) == all[lo..hi] by {
        WindowSlice(all, a, limit);
      }
      assert all[..lo] + all[lo..hi] == all[..hi];
    }
  }

  /** Page `k` starts where page `k - 1` ends. */
  lemma PageOffsetStep(k: nat, limit: int)
    requires k > 0 && limit > 0
    ensures 0 <= (k - 1) * limit && k * limit == (k - 1) * limit + limit
  {
  }

  /** A window at a non-negative offset with a positive limit is a slice. */
  lemma WindowSlice(s: seq<Post>, offset: int, limit: int)
    requires offset >= 0 && limit > 0
    ensures Window(s, offset, limit) == s[Min(offset, |s|)..Min(offset + limit, |s|)]
  {
  }

  /** Reading pages `1..k` one after another yields the first `k * limit`
      ranked posts (all of them once `k * limit` passes the end), each once. */
  lemma PagesConcatenate(posts: seq<Post>, subs: seq<Subllmit>, group: string, sort: string, k: nat, limit: int)
    requires limit > 0
    ensures var all := Ranked(posts, subs, group, OrderOf(sort));
      FirstPages(posts, subs, group, sort, k, limit) == all[..Min(k * limit, |all|)]
  {
    PagesAreWindows(posts, subs, group, sort, k, limit);
    WindowsTile(Ranked(posts, subs, group, OrderOf(sort)), k, limit);
  }

  /** No post occurs twice in `s`. */
  ghost predicate Distinct(s: seq<Post>)
  {
    forall p :: multiset(s)[p] <= 1
  }

  /** A sequence whose multiset lies under that of a distinct one is distinct. */
  lemma DistinctBelow(s: seq<Post>, t: seq<Post>)
    requires multiset(s) <= multiset(t) && Distinct(t)
    ensures Distinct(s)
  {
    forall p ensures multiset(s)[p] <= 1 {
      assert multiset(s)[p] <= multiset(t)[p];
    }
  }

  /** A prefix of a distinct sequence is distinct. */
  lemma PrefixDistinct(s: seq<Post>, h: nat)
    requires h <= |s| && Distinct(s)
    ensures Distinct(s[..h])
  {
    assert s == s[..h] + s[h..];
    DistinctBelow(s[..h], s);
  }

  /** Ranking keeps a distinct table distinct. */
  lemma RankedDistinct(posts: seq<Post>, subs: seq<Subllmit>, group: string, sort: Order)
    requires Distinct(posts)
    ensures Distinct(Ranked(posts, subs, group, sort))
  {
    DistinctBelow(Ranked(posts, subs, group, sort), posts);
  }

  /** When the table holds no post twice, the pages never repeat a post. */
  lemma PagesDistinct(posts: seq<Post>, subs: seq<Subllmit>, group: string, sort: string, k: nat, limit: int)
    requires limit > 0 && Distinct(posts)
    ensures Distinct(FirstPages(posts, subs, group, sort, k, limit))
  {
    var all := Ranked(posts, subs, group, OrderOf(sort));
    var h := Min(k * limit, |all|);
    assert Distinct(all) by {
      RankedDistinct(posts, subs, group, OrderOf(sort));
    }
    assert Distinct(all[..h]) by {
      PrefixDistinct(all, h);
    }
    PagesConcatenate(posts, subs, group, sort, k, limit);
  }

  /** A post no worse than the head of a descending sequence goes in front. */
  lemma InsertFront(p: Post, s: seq<Post>, sort: Order)
    requires Descending(s, sort) && (s == [] || Key(p, sort) >= Key(s[0], sort))
    ensures Insert(p, s, sort) == [p] + s
  {
  }

  /** A post worse than the head of a descending sequence goes past it. */
  lemma InsertPast(p: Post, s: seq<Post>, sort: Order)
    requires Descending(s, sort) && s != [] && Key(p, sort) < Key(s[0], sort)
    ensures Insert(p, s, sort) == [s[0]] + Insert(p, s[1..], sort)
  {
  }

  /** The scenario of a "tech" group holding three posts scored 10, -2 and 5:
      the first page of two, by score, holds the posts scored 10 and 5. */
  lemma TopTwoOfTech(a: Post, b: Post, c: Post)
    requires a.groupName == "tech" && b.groupName == "tech" && c.groupName == "tech"
    requires Score(a) == 10 && Score(b) == -2 && Score(c) == 5
    ensures Page([a, b, c], [], "tech", "top", 1, 2) == [a, c]
  {
    var all := Ranked([a, b, c], [], "tech", ByScore);
    assert all == [a, c, b] by {
      TechRanked(a, b, c);
    }
    var w := Window(all, 0, 2);
    assert w == [a, c] by {
      WindowHead(all, 2);
      assert all[..2] == [a, c];
    }
    TopFirstPage([a, b, c], [], "tech", 2);
  }

  /** The first window of size `limit` is the first `limit` elements. */
  lemma WindowHead(s: seq<Post>, limit: int)
    requires 0 <= limit <= |s|
    ensures Window(s, 0, limit) == s[..limit]
  {
  }

  /** The first page under "top" is the head of the ranking by score. */
  lemma TopFirstPage(posts: seq<Post>, subs: seq<Subllmit>, group: string, limit: int)
    ensures Page(posts, subs, group, "top", 1, limit) == Window(Ranked(posts, subs, group, ByScore), 0, limit)
  {
    assert OrderOf("top") == ByScore by { assert "top"[0] != "new"[0]; }
  }

  lemma TechRanked(a: Post, b: Post, c: Post)
    requires a.groupName == "tech" && b.groupName == "tech" && c.groupName == "tech"
    requires Score(a) == 10 && Score(b) == -2 && Score(c) == 5
    ensures Ranked([a, b, c], [], "tech", ByScore) == [a, c, b]
  {
    AllTechInScope(a, b, c);
    TechByScore(a, b, c);
  }

  lemma AllTechInScope(a: Post, b: Post, c: Post)
    requires a.groupName == "tech" && b.groupName == "tech" && c.groupName == "tech"
    ensures Scoped([a, b, c], [], "tech") == [a, b, c]
  {
    assert "tech" != FRONTPAGE by { assert "tech"[0] != FRONTPAGE[0]; }
    assert [a, b, c][1..] == [b, c] && [b, c][1..] == [c] && [c][1..] == [];
    assert Scoped([c], [], "tech") == [c];
    assert Scoped([b, c], [], "tech") == [b, c];
  }

  lemma TechByScore(a: Post, b: Post, c: Post)
    requires Score(a) == 10 && Score(b) == -2 && Score(c) == 5
    ensures SortDesc([a, b, c], ByScore) == [a, c, b]
  {
    assert [a, b, c][1..] == [b, c] && [b, c][1..] == [c] && [c][1..] == [];
    assert SortDesc([c], ByScore) == [c];
    InsertFront(b, [], ByScore);
    InsertPast(b, [c], ByScore);
    assert SortDesc([b, c], ByScore) == [c, b];
    InsertFront(a, [c, b], ByScore);
  }
}
