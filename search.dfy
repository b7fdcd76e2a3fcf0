/** POST /search: the search term is stripped of everything but ASCII letters, digits
    and spaces, then used as a case-insensitive pattern against title and body. Once
    sanitised the term holds no pattern metacharacter, so matching it is a substring test. */
module Search {
  import opened Common
  import opened Posts

  /** The characters `[a-zA-Z0-9 ]` keeps. */
  predicate Allowed(c: char)
  {
    ('a' <= c <= 'z') || ('A' <= c <= 'Z') || ('0' <= c <= '9') || c == ' '
  }

  predicate Clean(s: string)
  {
    forall i | 0 <= i < |s| :: Allowed(s[i])
  }

  /** `searchTerm.replace(/[^a-zA-Z0-9 ]/g, "")` */
  function Sanitize(s: string): (r: string)
    ensures Clean(r)
    ensures |r| <= |s|
    ensures Clean(s) ==> r == s
  {
    if s == [] then []
    else (if Allowed(s[0]) then [s[0]] else []) + Sanitize(s[1..])
  }

  /** Sanitising is idempotent. */
  lemma SanitizeIdempotent(s: string)
    ensures Sanitize(Sanitize(s)) == Sanitize(s)
  {
  }

  /** Sanitising is a filter: it works piecewise, so the kept characters stay in order. */
  lemma {:induction false} SanitizeAppend(a: string, b: string)
    ensures Sanitize(a + b) == Sanitize(a) + Sanitize(b)
  {
    if a == [] {
      assert a + b == b;
    } else {
      assert (a + b)[1..] == a[1..] + b;
      SanitizeAppend(a[1..], b);
    }
  }

  /** Every allowed character is kept as often as it occurs; no other character is kept. */
  lemma {:induction false} SanitizeKeepsAllowed(s: string, c: char)
    ensures multiset(Sanitize(s))[c] == if Allowed(c) then multiset(s)[c] else 0
  {
    if s != [] {
      SanitizeKeepsAllowed(s[1..], c);
      assert s == [s[0]] + s[1..];
    }
  }

  /** One step of `Sanitize`: the first character is kept exactly when it is allowed. */
  lemma SanitizeCons(c: char, s: string)
    ensures Sanitize([c] + s) == (if Allowed(c) then [c] else []) + Sanitize(s)
  {
    assert ([c] + s)[0] == c && ([c] + s)[1..] == s;
  }

  /** The angle brackets of a tag are dropped and its content is sanitised as it stands. */
  lemma SanitizeDropsBrackets(s: string)
    ensures Sanitize(['<'] + s + ['>']) == Sanitize(s)
  {
    SanitizeAppend(['<'] + s, ['>']);
    SanitizeCons('<', s);
    SanitizeCons('>', []);
    assert ['>'] + [] == ['>'];
    assert Sanitize(s) + [] == Sanitize(s);
  }

  /** The sanitised form of `<script>` is `script`. */
  lemma SanitizeScriptTag()
    ensures Sanitize("<script>") == "script"
  {
    assert "<script>" == ['<'] + "script" + ['>'];
    SanitizeDropsBrackets("script");
    assert Clean("script");
  }

  /** ASCII-only case folding, which is what the `i` flag does to a pattern made of
      ASCII letters, digits and spaces. */
  function LowerChar(c: char): char
  {
    if 'A' <= c <= 'Z' then (c as int + 32) as char else c
  }

  function Lower(s: string): (r: string)
    ensures |r| == |s|
    ensures forall i | 0 <= i < |s| :: r[i] == LowerChar(s[i])
  {
    seq(|s|, i requires 0 <= i < |s| => LowerChar(s[i]))
  }

  /** `term` occurs in `text` at position `i`, ignoring case. */
  predicate OccursAt(text: string, term: string, i: nat)
  {
    i + |term| <= |text| && Lower(text[i..i + |term|]) == Lower(term)
  }

  /** `new RegExp(term, 'i')` finds `term` somewhere in `text`. */
  predicate ContainsIgnoringCase(text: string, term: string)
  {
    exists i: nat | i <= |text| :: OccursAt(text, term, i)
  }

  /** The `$or` of the two `$regex` conditions. */
  predicate Matches(p: Post, term: string)
  {
    ContainsIgnoringCase(p.title, term) || ContainsIgnoringCase(p.body, term)
  }

  /** The posts that match `term`, in the order of `posts`. */
  function Filter(posts: seq<Post>, term: string): (r: seq<Post>)
    ensures |r| <= |posts|
    ensures forall p :: p in r <==> p in posts && Matches(p, term)
  {
    if posts == [] then []
    else (if Matches(posts[0], term) then [posts[0]] else []) + Filter(posts[1..], term)
  }

  /** POST /search over the collection `posts` in natural order. */
  function SearchPosts(posts: seq<Post>, searchTerm: string): (r: seq<Post>)
    ensures forall p :: p in r <==> p in posts && Matches(p, Sanitize(searchTerm))
  {
    Filter(posts, Sanitize(searchTerm))
  }

  /** Filtering works piecewise. */
  lemma {:induction false} FilterAppend(a: seq<Post>, b: seq<Post>, term: string)
    ensures Filter(a + b, term) == Filter(a, term) + Filter(b, term)
  {
    if a == [] {
      assert a + b == b;
    } else {
      assert (a + b)[1..] == a[1..] + b;
      FilterAppend(a[1..], b, term);
    }
  }

  /** The result keeps the collection's order: searching two runs of posts gives the two
      results one after the other. */
  lemma SearchKeepsOrder(a: seq<Post>, b: seq<Post>, searchTerm: string)
    ensures SearchPosts(a + b, searchTerm) == SearchPosts(a, searchTerm) + SearchPosts(b, searchTerm)
  {
    FilterAppend(a, b, Sanitize(searchTerm));
  }

  /** The empty term occurs in every text. */
  lemma EmptyTermMatches(p: Post)
    ensures Matches(p, "")
  {
    assert OccursAt(p.title, "", 0);
  }

  /** A term with nothing left after sanitising returns every post. */
  lemma {:induction false} EmptyTermListsAll(posts: seq<Post>, searchTerm: string)
    requires Sanitize(searchTerm) == ""
    ensures SearchPosts(posts, searchTerm) == posts
  {
    if posts != [] {
      EmptyTermMatches(posts[0]);
      EmptyTermListsAll(posts[1..], searchTerm);
    }
  }

  /** Searching with a raw term and with its sanitised form give the same posts. */
  lemma SearchSanitizedTerm(posts: seq<Post>, searchTerm: string)
    ensures SearchPosts(posts, searchTerm) == SearchPosts(posts, Sanitize(searchTerm))
  {
    SanitizeIdempotent(searchTerm);
  }

  /** A post whose title contains the term in another case is found. */
  lemma FoundIgnoringCase(p: Post, posts: seq<Post>, searchTerm: string, i: nat)
    requires p in posts && i + |Sanitize(searchTerm)| <= |p.title|
    requires Lower(p.title[i..i + |Sanitize(searchTerm)|]) == Lower(Sanitize(searchTerm))
    ensures p in SearchPosts(posts, searchTerm)
  {
    assert OccursAt(p.title, Sanitize(searchTerm), i);
  }
}
