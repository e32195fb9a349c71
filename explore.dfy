/**
 * The explore page (src/pages/Explore.tsx): loading the approved posts
 * through the cache and the rate limiter, and the case-insensitive search
 * over title, content and author.
 */
module Explore {
  import opened Wrappers
  import opened JsText
  import opened FirebaseLib

  const EXPLORE_CACHE_KEY: string := "explore-posts"

  datatype Post = Post(id: string, title: string, content: string, slug: string,
                       status: string, author: string)

  /** Lower-casing twice is lower-casing once. */
  lemma LowerIdempotent(s: string)
    ensures Lower(Lower(s)) == Lower(s)
  {
    assert forall i :: 0 <= i < |s| ==> Lower(Lower(s))[i] == Lower(s)[i];
  }

  /** Every string includes the empty string (at index 0). */
  lemma IncludesEmpty(hay: string)
    ensures Includes(hay, "")
  {
    assert OccursAt(hay, "", 0);
  }

  /** The search predicate: the lower-cased term occurs in the lower-cased title, content or author. */
  predicate Matches(post: Post, term: string)
    ensures Lower(term) == [] ==> Matches(post, term)
  {
    IncludesEmpty(Lower(post.title));
    || Includes(Lower(post.title), Lower(term))
    || Includes(Lower(post.content), Lower(term))
    || Includes(Lower(post.author), Lower(term))
  }

  /** The search effect's filter: the matching posts, in their order. */
  function SearchFilter(posts: seq<Post>, term: string): (r: seq<Post>)
    ensures |r| <= |posts|
    ensures forall p :: p in r <==> p in posts && Matches(p, term)
  {
    if posts == [] then []
    else if Matches(posts[0], term) then [posts[0]] + SearchFilter(posts[1..], term)
    else SearchFilter(posts[1..], term)
  }

  /** The search keeps the order of the loaded posts. */
  lemma {:induction false} SearchFilterKeepsOrder(posts: seq<Post>, term: string)
    ensures SubsequenceOf(SearchFilter(posts, term), posts)
    decreases |posts|
  {
    if posts != [] {
      SearchFilterKeepsOrder(posts[1..], term);
      var rest := SearchFilter(posts[1..], term);
      if !Matches(posts[0], term) && rest != [] {
        // rest cannot start with posts[0], since every element of rest matches
        assert rest[0] in rest;
      }
    }
  }

  /** An empty search box shows every loaded post. */
  lemma {:induction false} EmptySearchKeepsAll(posts: seq<Post>)
    ensures SearchFilter(posts, "") == posts
    decreases |posts|
  {
    if posts != [] {
      IncludesEmpty(Lower(posts[0].title));
      EmptySearchKeepsAll(posts[1..]);
    }
  }

  /** The search ignores case: a term and its lower-cased form select the same posts. */
  lemma {:induction false} SearchIgnoresCase(posts: seq<Post>, term: string)
    ensures SearchFilter(posts, Lower(term)) == SearchFilter(posts, term)
    decreases |posts|
  {
    LowerIdempotent(term);
    if posts != [] {
      SearchIgnoresCase(posts[1..], term);
    }
  }

  /** What `getDocs` on the approved-posts query gave: the documents, or a thrown error. */
  datatype QueryResponse = Docs(posts: seq<Post>) | QueryFailed

  /** Which way `fetchPosts` went. */
  datatype FetchPath = CacheHit | RateLimited | Fetched | FetchFailed

  /** The page's state: the search box, the loaded posts, the shown posts and the spinner. */
  class ExplorePage {
    var searchTerm: string
    var posts: seq<Post>
    var filteredPosts: seq<Post>
    var loading: bool

    /** The first render: the `q` parameter of the address (absent or empty gives ""). */
    constructor (q: Option<string>)
      ensures searchTerm == (if q.Some? then q.value else "")
      ensures posts == [] && filteredPosts == [] && loading
    {
      searchTerm := if q.Some? then q.value else "";
      posts := [];
      filteredPosts := [];
      loading := true;
    }

    /**
     * `fetchPosts`. `now` is the clock when the cache and the limiter are
     * consulted, `storedAt` the clock when the fetched list is cached, and
     * `response` what the store answered. A fresh cached list is shown without
     * touching the limiter; a refused request leaves the page (spinner
     * included) as it was; otherwise the spinner stops whatever the store
     * answers, and a list the store returns is shown and cached.
     */
    method FetchPosts(cache: QueryCache<seq<Post>>, limiter: RateLimiter, now: int, storedAt: int,
                      response: QueryResponse) returns (path: FetchPath)
      requires limiter.Valid()
      modifies this, cache, limiter
      ensures limiter.Valid()
      ensures searchTerm == old(searchTerm)
      ensures path == CacheHit <==> Lookup(old(cache.entries), EXPLORE_CACHE_KEY, now).Some?
      ensures path == CacheHit ==>
        && posts == filteredPosts == Lookup(old(cache.entries), EXPLORE_CACHE_KEY, now).value
        && !loading
        && limiter.requestTimestamps == old(limiter.requestTimestamps)
      ensures path != CacheHit ==> limiter.requestTimestamps == Check(old(limiter.requestTimestamps), now).queue
      ensures path == RateLimited <==> path != CacheHit && !Check(old(limiter.requestTimestamps), now).allowed
      ensures path == RateLimited ==>
        posts == old(posts) && filteredPosts == old(filteredPosts) && loading == old(loading)
      ensures path == Fetched <==> path != CacheHit && path != RateLimited && response.Docs?
      ensures path == Fetched ==>
        && posts == filteredPosts == response.posts
        && cache.entries == old(cache.entries)[EXPLORE_CACHE_KEY := CacheEntry(response.posts, storedAt)]
      ensures path != Fetched ==> cache.entries == old(cache.entries)
      ensures path == FetchFailed ==> posts == old(posts) && filteredPosts == old(filteredPosts)
      ensures path == Fetched || path == FetchFailed ==> !loading
    {
      var cachedPosts := cache.GetCachedData(EXPLORE_CACHE_KEY, now);
      if cachedPosts.Some? {
        posts := cachedPosts.value;
        filteredPosts := cachedPosts.value;
        loading := false;
        return CacheHit;
      }
      var allowed := limiter.CheckRateLimit(now);
      if !allowed {
        return RateLimited;
      }
      match response {
        case Docs(postsData) =>
          posts := postsData;
          filteredPosts := postsData;
          cache.SetCachedData(EXPLORE_CACHE_KEY, postsData, storedAt);
          path := Fetched;
        case QueryFailed =>
          path := FetchFailed;
      }
      loading := false;
    }

    /** The search effect, run when the term or the loaded posts change. */
    method ApplySearch()
      modifies this
      ensures filteredPosts == SearchFilter(posts, searchTerm)
      ensures posts == old(posts) && searchTerm == old(searchTerm) && loading == old(loading)
    {
      filteredPosts := SearchFilter(posts, searchTerm);
    }
  }
}
