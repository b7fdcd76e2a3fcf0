/** The public listing pipeline: the home page (GET '') sorts newest first and pages
    with skip/limit, GET /search applies the requested sort. MongoDB's sort is stood
    for by an insertion sort on `createdAt`. */
module Listing {
  import opened Common
  import opened Posts

  /** `perPage` */
  const PerPage: nat := 6

  /** A page number: the handler is only modelled for positive integers. */
  type PageNo = n: nat | 1 <= n witness 1

  // ---------------------------------------------------------------------------
  // Sorting on createdAt
  // ---------------------------------------------------------------------------

  /** The sort key: `{ createdAt: -1 }` when `newestFirst`, `{ createdAt: 1 }` otherwise. */
  function Key(p: Post, newestFirst: bool): int
  {
    if newestFirst then -p.createdAt else p.createdAt
  }

  /** `a` may come before `b`. */
  predicate InOrder(a: Post, b: Post, newestFirst: bool)
  {
    Key(a, newestFirst) <= Key(b, newestFirst)
  }

  predicate SortedBy(s: seq<Post>, newestFirst: bool)
  {
    forall i, j | 0 <= i < j < |s| :: InOrder(s[i], s[j], newestFirst)
  }

  /** A sorted sequence stays sorted behind an item that may precede its head. */
  lemma SortedCons(x: Post, t: seq<Post>, newestFirst: bool)
    requires SortedBy(t, newestFirst)
    requires t != [] ==> InOrder(x, t[0], newestFirst)
    ensures SortedBy([x] + t, newestFirst)
  {
    var r := [x] + t;
    forall i, j | 0 <= i < j < |r|
      ensures InOrder(r[i], r[j], newestFirst)
    {
      if i == 0 && j > 1 {
        assert InOrder(t[0], t[j - 1], newestFirst);
      }
    }
  }

  lemma SortedTail(s: seq<Post>, newestFirst: bool)
    requires s != [] && SortedBy(s, newestFirst)
    ensures SortedBy(s[1..], newestFirst)
    ensures s[1..] != [] ==> InOrder(s[0], s[1], newestFirst)
  {
  }

  /** Puts `p` in front of the first item it may precede. */
  function Insert(p: Post, s: seq<Post>, newestFirst: bool): (r: seq<Post>)
    ensures |r| == |s| + 1
    ensures r[0] == p || (s != [] && r[0] == s[0])
    ensures multiset(r) == multiset(s) + multiset{p}
  {
    if s == [] then [p]
    else if InOrder(p, s[0], newestFirst) then [p] + s
    else
      assert s == [s[0]] + s[1..];
      [s[0]] + Insert(p, s[1..], newestFirst)
  }

  /** Inserting into a sorted sequence keeps it sorted. */
  lemma {:induction false} InsertSorted(p: Post, s: seq<Post>, newestFirst: bool)
    requires SortedBy(s, newestFirst)
    ensures SortedBy(Insert(p, s, newestFirst), newestFirst)
  {
    if s == [] {
    } else if InOrder(p, s[0], newestFirst) {
      SortedCons(p, s, newestFirst);
    } else {
      SortedTail(s, newestFirst);
      InsertSorted(p, s[1..], newestFirst);
      var tail := Insert(p, s[1..], newestFirst);
      assert InOrder(s[0], tail[0], newestFirst);
      SortedCons(s[0], tail, newestFirst);
    }
  }

  /** The posts ordered on `createdAt`: sorted, and a permutation of the input. */
  function SortByCreated(s: seq<Post>, newestFirst: bool): (r: seq<Post>)
    ensures SortedBy(r, newestFirst)
    ensures multiset(r) == multiset(s)
  {
    if s == [] then []
    else
      var rest := SortByCreated(s[1..], newestFirst);
      InsertSorted(s[0], rest, newestFirst);
      assert s == [s[0]] + s[1..];
      Insert(s[0], rest, newestFirst)
  }

  // ---------------------------------------------------------------------------
  // GET /search: the sort selection
  // ---------------------------------------------------------------------------

  /** The posts GET /search shows for the `sort` query parameter: `newest` and `oldest`
      sort on `createdAt`, any other value (or none) leaves the natural order. */
  function SortedListing(posts: seq<Post>, sort: Option<string>): (r: seq<Post>)
    ensures multiset(r) == multiset(posts)
    ensures sort == Some("newest") ==> SortedBy(r, true)
    ensures sort == Some("oldest") ==> SortedBy(r, false)
    ensures sort != Some("newest") && sort != Some("oldest") ==> r == posts
  {
    if sort == Some("newest") then SortByCreated(posts, true)
    else if sort == Some("oldest") then SortByCreated(posts, false)
    else posts
  }

  // ---------------------------------------------------------------------------
  // GET '': pagination
  // ---------------------------------------------------------------------------

  /** `req.query.page || 1` */
  function CurrentPage(query: Option<PageNo>): PageNo
  {
    if query.Some? then query.value else 1
  }

  /** `perPage * page - perPage` */
  function Skip(p: PageNo): nat
  {
    PerPage * p - PerPage
  }

  function Min(a: nat, b: nat): nat
  {
    if a <= b then a else b
  }

  /** `.skip(Skip(p)).limit(perPage)`: the items at positions [6(p-1), 6p) of `s`. */
  function Window(s: seq<Post>, p: PageNo): (r: seq<Post>)
    ensures |r| <= PerPage
    ensures r == [] <==> |s| <= Skip(p)
    ensures forall k | 0 <= k < |r| :: Skip(p) + k < |s| && r[k] == s[Skip(p) + k]
    ensures |s| >= Skip(p) + PerPage ==> |r| == PerPage
    ensures |s| > Skip(p) ==> |r| == Min(PerPage, |s| - Skip(p))
  {
    var skip := Skip(p);
    if skip >= |s| then [] else s[skip .. Min(skip + PerPage, |s|)]
  }

  /** `Math.ceil(count / perPage)`: the number of pages. */
  function PageCount(count: nat): (n: nat)
    ensures PerPage * n >= count
    ensures n == 0 || PerPage * (n - 1) < count
  {
    (count + PerPage - 1) / PerPage
  }

  /** `nextPage <= Math.ceil(count / perPage)` with `nextPage = page + 1`. */
  function HasNextPage(p: PageNo, count: nat): (r: bool)
    ensures r <==> PerPage * p < count
  {
    p + 1 <= PageCount(count)
  }

  datatype HomeView = HomeView(data: seq<Post>, current: PageNo, nextPage: Option<nat>)

  /** GET '' over the posts of the collection (one snapshot serves both the aggregate
      and the count). */
  function HomePage(posts: seq<Post>, query: Option<PageNo>): (v: HomeView)
    ensures v.current == (if query.Some? then query.value else 1)
    ensures v.data == Window(SortByCreated(posts, true), v.current)
    ensures v.nextPage.Some? <==> PerPage * v.current < |posts|
    ensures v.nextPage.Some? ==> v.nextPage.value == v.current + 1
  {
    var page := CurrentPage(query);
    var data := Window(SortByCreated(posts, true), page);
    var count := |posts|;
    var nextPage := page + 1;
    HomeView(data, page, if HasNextPage(page, count) then Some(nextPage) else None)
  }

  /** A next page is offered exactly when it has posts to show. */
  lemma NextPageNotEmpty(posts: seq<Post>, query: Option<PageNo>)
    ensures var v := HomePage(posts, query);
      v.nextPage.Some? <==> Window(SortByCreated(posts, true), v.current + 1) != []
  {
    var v := HomePage(posts, query);
    var sorted := SortByCreated(posts, true);
    assert |sorted| == |posts| by {
      assert |multiset(sorted)| == |multiset(posts)|;
    }
    assert Skip(v.current + 1) == PerPage * v.current;
  }

  /** Position `k` lies in the window of page `p` exactly when `p` is `k / 6 + 1`, so the
      windows of distinct pages are disjoint. */
  lemma PageOfPosition(k: nat, p: PageNo)
    ensures Skip(p) <= k < Skip(p) + PerPage <==> p == k / PerPage + 1
  {
  }

  /** Pages 1 to `m` put together. */
  function Pages(s: seq<Post>, m: nat): seq<Post>
  {
    if m == 0 then [] else Pages(s, m - 1) + Window(s, m)
  }

  /** The window of page `p` as one slice, clipped to the end of `s`. */
  lemma WindowSlice(s: seq<Post>, p: PageNo)
    ensures Min(Skip(p), |s|) <= Min(Skip(p) + PerPage, |s|)
    ensures Window(s, p) == s[Min(Skip(p), |s|) .. Min(Skip(p) + PerPage, |s|)]
  {
  }

  /** Pages 1 to `m` are, in order, the first `6m` items. */
  lemma {:induction false} PagesArePrefix(s: seq<Post>, m: nat)
    ensures Pages(s, m) == s[..Min(PerPage * m, |s|)]
  {
    if m > 0 {
      PagesArePrefix(s, m - 1);
      var lo, hi := Min(PerPage * (m - 1), |s|), Min(PerPage * m, |s|);
      assert Window(s, m) == s[lo..hi] by {
        WindowSlice(s, m);
      }
      assert s[..lo] + s[lo..hi] == s[..hi];
    }
  }

  /** Pages 1 to `Math.ceil(count / 6)` show every post once, in order. */
  lemma PagesCoverAll(s: seq<Post>)
    ensures Pages(s, PageCount(|s|)) == s
  {
    PagesArePrefix(s, PageCount(|s|));
    assert s[..|s|] == s;
  }

  /** With ten posts, page 1 shows six and offers page 2, which shows the other four and
      offers nothing. */
  lemma TenPosts(posts: seq<Post>)
    requires |posts| == 10
    ensures |HomePage(posts, None).data| == 6 && HomePage(posts, None).nextPage == Some(2)
    ensures |HomePage(posts, Some(2)).data| == 4 && HomePage(posts, Some(2)).nextPage == None
    ensures HomePage(posts, None).data == SortByCreated(posts, true)[..6]
    ensures HomePage(posts, Some(2)).data == SortByCreated(posts, true)[6..]
  {
    var sorted := SortByCreated(posts, true);
    assert |sorted| == 10 by {
      assert |multiset(sorted)| == |multiset(posts)|;
    }
  }
}
