/**
 * The client-side request throttle and query cache of src/lib/firebase.ts.
 * The source keeps both as module-level singletons and reads the clock with
 * `Date.now()`; here each is an object and the clock reading is the `now`
 * parameter (milliseconds).
 */
module FirebaseLib {
  import opened Wrappers
  import opened JsText

  /** How long a cached query result is served: 15 minutes. */
  const CACHE_DURATION: int := 15 * 60 * 1000
  /** The sliding window of the rate limiter: 5 minutes. */
  const RATE_LIMIT_DURATION: int := 5 * 60 * 1000
  /** How many requests the window admits. */
  const RATE_LIMIT_REQUESTS: nat := 100

  // ---------------------------------------------------------------------
  // Rate limiter

  /** A timestamp is expired at `now` when it is strictly older than the window. */
  predicate Expired(t: int, now: int) {
    t < now - RATE_LIMIT_DURATION
  }

  /** What the pruning loop leaves: the queue after dropping expired timestamps from the front. */
  function Pruned(q: seq<int>, now: int): (r: seq<int>)
    ensures |r| <= |q| && r == q[|q| - |r|..]
    ensures r == [] || !Expired(r[0], now)
    ensures forall i :: 0 <= i < |q| - |r| ==> Expired(q[i], now)
  {
    if q != [] && Expired(q[0], now) then Pruned(q[1..], now) else q
  }

  /** Oldest first. */
  predicate Sorted(q: seq<int>) {
    forall i, j :: 0 <= i < j < |q| ==> q[i] <= q[j]
  }

  /** The timestamps of `q` that are not expired, in order: what a full scan would keep. */
  function Live(q: seq<int>, now: int): (r: seq<int>)
    ensures forall t :: t in r <==> t in q && !Expired(t, now)
  {
    if q == [] then []
    else if Expired(q[0], now) then Live(q[1..], now)
    else [q[0]] + Live(q[1..], now)
  }

  /**
   * On a sorted queue, dropping from the front only is enough: the loop keeps
   * exactly the unexpired timestamps (one at exactly the boundary included).
   */
  lemma {:induction false} PrunedIsLive(q: seq<int>, now: int)
    requires Sorted(q)
    ensures Pruned(q, now) == Live(q, now)
  {
    if q != [] {
      assert Sorted(q[1..]);
      if Expired(q[0], now) {
        PrunedIsLive(q[1..], now);
      } else {
        assert forall i :: 0 <= i < |q| ==> !Expired(q[i], now);
        LiveOfAllLive(q, now);
      }
    }
  }

  lemma {:induction false} LiveOfAllLive(q: seq<int>, now: int)
    requires forall i :: 0 <= i < |q| ==> !Expired(q[i], now)
    ensures Live(q, now) == q
  {
    if q != [] {
      LiveOfAllLive(q[1..], now);
    }
  }

  /** The outcome of one `checkRateLimit` call: the answer and the queue afterwards. */
  datatype Decision = Decision(allowed: bool, queue: seq<int>)

  /**
   * One `checkRateLimit()` at time `now` on queue `q`: prune, then refuse when
   * the window is full, else record `now`.
   */
  function Check(q: seq<int>, now: int): (d: Decision)
    ensures d.allowed <==> |Pruned(q, now)| < RATE_LIMIT_REQUESTS
    ensures d.allowed ==> d.queue == Pruned(q, now) + [now]
    ensures !d.allowed ==> d.queue == Pruned(q, now)
    ensures |q| <= RATE_LIMIT_REQUESTS ==> |d.queue| <= RATE_LIMIT_REQUESTS
  {
    var p := Pruned(q, now);
    if |p| >= RATE_LIMIT_REQUESTS then Decision(false, p) else Decision(true, p + [now])
  }

  /** With a clock that does not go backwards, the queue stays oldest first. */
  lemma CheckKeepsSorted(q: seq<int>, now: int)
    requires Sorted(q)
    requires forall i :: 0 <= i < |q| ==> q[i] <= now
    ensures Sorted(Check(q, now).queue)
  {
    var p := Pruned(q, now);
    SortedSuffix(q, |q| - |p|);
    if |p| < RATE_LIMIT_REQUESTS {
      SortedSnoc(p, now);
    }
  }

  lemma SortedSuffix(q: seq<int>, off: nat)
    requires Sorted(q) && off <= |q|
    ensures Sorted(q[off..])
  {
    forall i, j | 0 <= i < j < |q| - off ensures q[off..][i] <= q[off..][j] {
      assert q[off..][i] == q[off + i] && q[off..][j] == q[off + j];
    }
  }

  lemma SortedSnoc(p: seq<int>, x: int)
    requires Sorted(p) && forall i :: 0 <= i < |p| ==> p[i] <= x
    ensures Sorted(p + [x])
  {
    forall i, j | 0 <= i < j < |p| + 1 ensures (p + [x])[i] <= (p + [x])[j] {
      if j < |p| { assert (p + [x])[i] == p[i] && (p + [x])[j] == p[j]; }
    }
  }

  /** After a full `checkRateLimit`, every recorded request lies inside the window. */
  lemma {:induction false} CheckLeavesOnlyLive(q: seq<int>, now: int)
    requires Sorted(q)
    ensures forall t :: t in Check(q, now).queue ==> !Expired(t, now)
  {
    PrunedIsLive(q, now);
    PrunedLiveLeavesOnlyLive(Pruned(q, now), now);
  }

  /** Pruned timestamps that are all live stay so after the call records `now`. */
  lemma PrunedLiveLeavesOnlyLive(p: seq<int>, now: int)
    requires forall t :: t in p ==> !Expired(t, now)
    ensures forall t :: t in p + [now] ==> !Expired(t, now)
  {
    forall t | t in p + [now] ensures !Expired(t, now) {
      assert t in p || t == now;
    }
  }

  /** `n` calls to `checkRateLimit` at the given instants, from queue `q`. */
  function Run(q: seq<int>, times: seq<int>): (r: (seq<bool>, seq<int>))
    ensures |r.0| == |times|
    decreases |times|
  {
    if times == [] then ([], q)
    else
      var d := Check(q, times[0]);
      var rest := Run(d.queue, times[1..]);
      ([d.allowed] + rest.0, rest.1)
  }

  /** `n` copies of `t`. */
  function Repeat<T>(t: T, n: nat): (r: seq<T>)
    ensures |r| == n && forall i :: 0 <= i < n ==> r[i] == t
  {
    if n == 0 then [] else [t] + Repeat(t, n - 1)
  }

  /**
   * A burst at a single instant: while the window has room, every call is
   * admitted and recorded.
   */
  lemma {:induction false} BurstAdmitted(k: nat, n: nat, t: int)
    requires k + n <= RATE_LIMIT_REQUESTS
    ensures Run(Repeat(t, k), Repeat(t, n)) == (Repeat(true, n), Repeat(t, k + n))
    decreases n
  {
    if n > 0 {
      var q := Repeat(t, k);
      var times := Repeat(t, n);
      NothingExpiredAtOwnInstant(q, t);
      RepeatSnoc(t, k);
      assert Check(q, t) == Decision(true, Repeat(t, k + 1));
      assert times[0] == t && times[1..] == Repeat(t, n - 1);
      BurstAdmitted(k + 1, n - 1, t);
      assert Run(q, times) == ([true] + Repeat(true, n - 1), Repeat(t, k + n));
    }
  }

  /** A queue holding only the current instant loses nothing to pruning. */
  lemma NothingExpiredAtOwnInstant(q: seq<int>, now: int)
    requires forall i :: 0 <= i < |q| ==> q[i] == now
    ensures Pruned(q, now) == q
  {
    if |Pruned(q, now)| < |q| {
      assert Expired(q[0], now);
    }
  }

  lemma RepeatSnoc<T>(t: T, k: nat)
    ensures Repeat(t, k) + [t] == Repeat(t, k + 1)
  {
    assert forall i :: 0 <= i < k + 1 ==> (Repeat(t, k) + [t])[i] == t;
  }

  /** From an empty queue, the first RATE_LIMIT_REQUESTS calls at one instant pass and the next one is refused. */
  lemma LimitReachedAtOneInstant(t: int)
    ensures Run([], Repeat(t, RATE_LIMIT_REQUESTS)) == (Repeat(true, RATE_LIMIT_REQUESTS), Repeat(t, RATE_LIMIT_REQUESTS))
    ensures !Check(Repeat(t, RATE_LIMIT_REQUESTS), t).allowed
  {
    BurstAdmitted(0, RATE_LIMIT_REQUESTS, t);
    assert Pruned(Repeat(t, RATE_LIMIT_REQUESTS), t) == Repeat(t, RATE_LIMIT_REQUESTS);
  }

  /** Once every recorded request has left the window, the next call is admitted and starts a new queue. */
  lemma {:induction false} AdmittedAfterWindow(q: seq<int>, now: int)
    requires forall i :: 0 <= i < |q| ==> Expired(q[i], now)
    ensures Check(q, now) == Decision(true, [now])
  {
    assert Pruned(q, now) == [];
  }

  /** The process-wide limiter: `requestTimestamps` is the queue of admitted requests. */
  class RateLimiter {
    var requestTimestamps: seq<int>

    /** The queue never holds more than RATE_LIMIT_REQUESTS entries. */
    ghost predicate Valid()
      reads this
    {
      |requestTimestamps| <= RATE_LIMIT_REQUESTS
    }

    constructor ()
      ensures Valid() && requestTimestamps == []
    {
      requestTimestamps := [];
    }

    /** `checkRateLimit()`: the pruning loop, then the limit test, then the push. */
    method CheckRateLimit(now: int) returns (allowed: bool)
      requires Valid()
      modifies this
      ensures Valid()
      ensures Check(old(requestTimestamps), now) == Decision(allowed, requestTimestamps)
    {
      while |requestTimestamps| > 0 && Expired(requestTimestamps[0], now)
        invariant Pruned(requestTimestamps, now) == Pruned(old(requestTimestamps), now)
        invariant |requestTimestamps| <= |old(requestTimestamps)|
      {
        requestTimestamps := requestTimestamps[1..];
      }
      if |requestTimestamps| >= RATE_LIMIT_REQUESTS {
        return false;
      }
      requestTimestamps := requestTimestamps + [now];
      return true;
    }
  }

  // ---------------------------------------------------------------------
  // Query cache

  /** A cached query result and the time it was stored. */
  datatype CacheEntry<D> = CacheEntry(data: D, timestamp: int)

  /** `getCachedData`: the stored value while it is younger than CACHE_DURATION, else nothing. */
  function Lookup<D>(entries: map<string, CacheEntry<D>>, key: string, now: int): (r: Option<D>)
    ensures r.Some? <==> key in entries && now - entries[key].timestamp < CACHE_DURATION
    ensures r.Some? ==> r.value == entries[key].data
  {
    if key in entries && now - entries[key].timestamp < CACHE_DURATION then Some(entries[key].data) else None
  }

  /** Keys that `invalidatePostCache` removes. */
  predicate IsPostKey(key: string)
    ensures IsPostKey(key) ==> Includes(key, "post")
  {
    if StartsWith(key, "post-") then
      assert key[..4] == "post";
      assert OccursAt(key, "post", 0);
      true
    else if key == "home-posts" then
      assert OccursAt(key, "post", 5);
      true
    else false
  }

  /** A value stored at `now` is served until CACHE_DURATION has elapsed, and other keys are untouched. */
  lemma SetThenLookup<D>(entries: map<string, CacheEntry<D>>, key: string, data: D, stored: int, now: int, other: string)
    requires other != key
    ensures var m := entries[key := CacheEntry(data, stored)];
      && (now - stored < CACHE_DURATION ==> Lookup(m, key, now) == Some(data))
      && (now - stored >= CACHE_DURATION ==> Lookup(m, key, now) == None)
      && Lookup(m, other, now) == Lookup(entries, other, now)
  {
  }

  /** The shared query cache; `entries` is the source's `queryCache` Map. */
  class QueryCache<D> {
    var entries: map<string, CacheEntry<D>>

    constructor ()
      ensures entries == map[]
    {
      entries := map[];
    }

    /** `getCachedData(key)`; a stale entry is reported missing but left in place. */
    method GetCachedData(key: string, now: int) returns (r: Option<D>)
      ensures r.Some? <==> key in entries && now - entries[key].timestamp < CACHE_DURATION
      ensures r.Some? ==> r.value == entries[key].data
    {
      if key in entries && now - entries[key].timestamp < CACHE_DURATION {
        r := Some(entries[key].data);
      } else {
        r := None;
      }
    }

    /** `setCachedData(key, data)`: store or overwrite, stamped with `now`. */
    method SetCachedData(key: string, data: D, now: int)
      modifies this
      ensures entries == old(entries)[key := CacheEntry(data, now)]
    {
      entries := entries[key := CacheEntry(data, now)];
    }

    /** `invalidateCache(key)`: only `key` goes. */
    method InvalidateCache(key: string)
      modifies this
      ensures entries == old(entries) - {key}
    {
      entries := entries - {key};
    }

    /**
     * `invalidatePostCache()`: walks the keys and deletes every one that
     * starts with "post-" or equals "home-posts"; every other entry stays as it was.
     */
    method InvalidatePostCache()
      modifies this
      ensures forall k :: k in entries <==> k in old(entries) && !IsPostKey(k)
      ensures forall k :: k in entries ==> entries[k] == old(entries)[k]
    {
      var keys := entries.Keys;
      while keys != {}
        invariant keys <= old(entries).Keys
        invariant forall k :: k in entries <==> k in old(entries) && (k in keys || !IsPostKey(k))
        invariant forall k :: k in entries ==> entries[k] == old(entries)[k]
        decreases keys
      {
        var k :| k in keys;
        if IsPostKey(k) {
          entries := entries - {k};
        }
        keys := keys - {k};
      }
    }
  }
}
