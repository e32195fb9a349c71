/**
 * The one-off migration of src/utils/updateOldPosts.ts: every post missing a
 * slug gets one derived from its title (made unique with the document id when
 * taken), and every post missing a status is approved. The store is a
 * sequence of documents; the slug function is a parameter
 * (src/utils/slugify.ts is not part of this model).
 */
module UpdateOldPosts {
  import opened Wrappers

  const APPROVED: string := "approved"

  /** A post document; "" stands for a field that is absent or otherwise falsy. */
  datatype PostDoc = PostDoc(id: string, title: string, slug: string, status: string)

  /** The `updates` object: a field is present only when it is to be written. */
  datatype Updates = Updates(slug: Option<string>, status: Option<string>)

  /** One `updateDoc` call. */
  datatype PostWrite = PostWrite(id: string, updates: Updates)

  /** The slugs of the store's documents, empty (falsy) ones dropped. */
  function ExistingSlugs(store: seq<PostDoc>): (r: seq<string>)
    ensures "" !in r
    ensures forall i :: 0 <= i < |store| && store[i].slug != "" ==> store[i].slug in r
    ensures forall s :: s in r ==> exists i :: 0 <= i < |store| && store[i].slug == s
  {
    if store == [] then []
    else
      var rest := ExistingSlugs(store[1..]);
      assert forall s :: s in rest ==> exists i :: 0 <= i < |store| && store[i].slug == s by {
        forall s | s in rest ensures exists i :: 0 <= i < |store| && store[i].slug == s {
          var j :| 0 <= j < |store[1..]| && store[1..][j].slug == s;
          assert store[j + 1].slug == s;
        }
      }
      if store[0].slug != "" then [store[0].slug] + rest else rest
  }

  /** The slug chosen for a post: its title's slug, or that slug and the id when the slug is taken. */
  function NewSlug(post: PostDoc, existing: seq<string>, slugify: string -> string): (s: string)
    ensures slugify(post.title) !in existing ==> s == slugify(post.title)
    ensures slugify(post.title) in existing ==> s == slugify(post.title) + "-" + post.id
  {
    var base := slugify(post.title);
    if base in existing then base + "-" + post.id else base
  }

  /** A chosen slug is not taken, unless the title's slug and its id-suffixed form both are. */
  lemma NewSlugIsFree(post: PostDoc, existing: seq<string>, slugify: string -> string)
    requires slugify(post.title) + "-" + post.id !in existing
    ensures NewSlug(post, existing, slugify) !in existing
  {
  }

  /** The updates computed for one post against the slugs taken at that moment. */
  function BackfillFor(post: PostDoc, existing: seq<string>, slugify: string -> string): (u: Updates)
    ensures u.slug.Some? <==> post.slug == ""
    ensures u.slug.Some? ==> u.slug.value == NewSlug(post, existing, slugify)
    ensures u.status.Some? <==> post.status == ""
    ensures u.status.Some? ==> u.status.value == APPROVED
  {
    Updates(if post.slug == "" then Some(NewSlug(post, existing, slugify)) else None,
            if post.status == "" then Some(APPROVED) else None)
  }

  /** A document after `updateDoc` with `u`: the present fields replaced, the rest kept. */
  function Patch(d: PostDoc, u: Updates): (e: PostDoc)
    ensures e.id == d.id && e.title == d.title
    ensures e.slug == (if u.slug.Some? then u.slug.value else d.slug)
    ensures e.status == (if u.status.Some? then u.status.value else d.status)
  {
    d.(slug := if u.slug.Some? then u.slug.value else d.slug,
       status := if u.status.Some? then u.status.value else d.status)
  }

  /** The store after a write to document `id`. */
  function Apply(store: seq<PostDoc>, w: PostWrite): (r: seq<PostDoc>)
    ensures |r| == |store|
    ensures forall i :: 0 <= i < |store| ==>
      r[i] == (if store[i].id == w.id then Patch(store[i], w.updates) else store[i])
  {
    seq(|store|, i requires 0 <= i < |store| =>
      if store[i].id == w.id then Patch(store[i], w.updates) else store[i])
  }

  /** A post with a field to fill. */
  predicate NeedsBackfill(post: PostDoc) {
    post.slug == "" || post.status == ""
  }

  /** The posts with a field to fill, in snapshot order. */
  function Pending(posts: seq<PostDoc>): (r: seq<PostDoc>)
    ensures |r| <= |posts|
    ensures forall p :: p in r <==> p in posts && NeedsBackfill(p)
  {
    if posts == [] then []
    else if NeedsBackfill(posts[0]) then [posts[0]] + Pending(posts[1..])
    else Pending(posts[1..])
  }

  /**
   * The writes of the migration over the snapshot `posts`, where `store` is the
   * collection as the next slug query sees it (earlier writes included).
   */
  function RunBackfill(posts: seq<PostDoc>, store: seq<PostDoc>, slugify: string -> string): (r: seq<PostWrite>)
    ensures |r| <= |posts|
    ensures forall w :: w in r ==> w.updates != Updates(None, None)
  {
    if posts == [] then []
    else
      var u := BackfillFor(posts[0], ExistingSlugs(store), slugify);
      if u == Updates(None, None) then RunBackfill(posts[1..], store, slugify)
      else
        var w := PostWrite(posts[0].id, u);
        [w] + RunBackfill(posts[1..], Apply(store, w), slugify)
  }

  /**
   * The migration writes exactly once per post with a missing field, in
   * snapshot order, to that post's id; a write carries a slug exactly when the
   * slug was missing and carries "approved" exactly when the status was missing,
   * so no present field is ever overwritten.
   */
  lemma {:induction false} WritesFillMissingFields(posts: seq<PostDoc>, store: seq<PostDoc>, slugify: string -> string)
    ensures FillsMissingFields(RunBackfill(posts, store, slugify), Pending(posts))
    decreases |posts|
  {
    if posts != [] {
      var u := BackfillFor(posts[0], ExistingSlugs(store), slugify);
      if u == Updates(None, None) {
        WritesFillMissingFields(posts[1..], store, slugify);
      } else {
        var w0 := PostWrite(posts[0].id, u);
        WritesFillMissingFields(posts[1..], Apply(store, w0), slugify);
        FillsCons(w0, posts[0], RunBackfill(posts[1..], Apply(store, w0), slugify), Pending(posts[1..]));
      }
    }
  }

  /**
   * The writes `w` are those of the pending posts `p`: one per post, in order, to
   * its id, carrying a slug exactly when the slug was missing and "approved"
   * exactly when the status was missing.
   */
  predicate FillsMissingFields(w: seq<PostWrite>, p: seq<PostDoc>) {
    && |w| == |p|
    && forall k :: 0 <= k < |w| ==>
      && w[k].id == p[k].id
      && (w[k].updates.slug.Some? <==> p[k].slug == "")
      && w[k].updates.status == (if p[k].status == "" then Some(APPROVED) else None)
  }

  /** A write that fills the missing fields of a post, put in front of writes that fill theirs. */
  lemma FillsCons(w0: PostWrite, p0: PostDoc, w: seq<PostWrite>, p: seq<PostDoc>)
    requires w0.id == p0.id
    requires w0.updates.slug.Some? <==> p0.slug == ""
    requires w0.updates.status == (if p0.status == "" then Some(APPROVED) else None)
    requires FillsMissingFields(w, p)
    ensures FillsMissingFields([w0] + w, [p0] + p)
  {
    var W, P := [w0] + w, [p0] + p;
    forall k | 1 <= k < |W| ensures W[k] == w[k - 1] && P[k] == p[k - 1] {
    }
  }

  /** One step of the backfill: the first post's updates are computed against the store as it stands. */
  lemma RunBackfillStep(posts: seq<PostDoc>, store: seq<PostDoc>, slugify: string -> string, u: Updates)
    requires posts != [] && u == BackfillFor(posts[0], ExistingSlugs(store), slugify)
    ensures u == Updates(None, None) ==> RunBackfill(posts, store, slugify) == RunBackfill(posts[1..], store, slugify)
    ensures u != Updates(None, None) ==>
      RunBackfill(posts, store, slugify)
        == [PostWrite(posts[0].id, u)] + RunBackfill(posts[1..], Apply(store, PostWrite(posts[0].id, u)), slugify)
  {
  }

  /** The body of the loop: the `updates` object built field by field, the slugs read from `current`. */
  method PostUpdates(post: PostDoc, current: seq<PostDoc>, slugify: string -> string) returns (updates: Updates)
    ensures updates == BackfillFor(post, ExistingSlugs(current), slugify)
  {
    var slugUpdate: Option<string> := None;
    var statusUpdate: Option<string> := None;
    if post.slug == "" {
      var slug := slugify(post.title);
      var existingSlugs := ExistingSlugs(current);
      if slug in existingSlugs {
        slug := slug + "-" + post.id;
      }
      slugUpdate := Some(slug);
    }
    if post.status == "" {
      statusUpdate := Some(APPROVED);
    }
    updates := Updates(slugUpdate, statusUpdate);
  }

  /** The posts with a field to fill grow by one post at a time. */
  lemma {:induction false} PendingSnoc(posts: seq<PostDoc>, p: PostDoc)
    ensures Pending(posts + [p]) == Pending(posts) + (if NeedsBackfill(p) then [p] else [])
    decreases |posts|
  {
    if posts == [] {
      assert [p][1..] == [];
    } else {
      assert (posts + [p])[1..] == posts[1..] + [p];
      PendingSnoc(posts[1..], p);
    }
  }

  /**
   * `updateOldPosts`: one pass over the snapshot, re-reading the slugs before
   * each new slug. `rejectAt` is the index of the post whose store calls (the
   * slug query or the `updateDoc`) reject, if any; nothing catches the
   * rejection, so the run stops there (`failed`) with the writes already made.
   * A post with nothing to fill makes no store call and cannot fail.
   */
  method UpdateOldPosts(snapshot: seq<PostDoc>, slugify: string -> string, rejectAt: Option<nat>)
    returns (writes: seq<PostWrite>, failed: bool)
    ensures failed <==> rejectAt.Some? && rejectAt.value < |snapshot| && NeedsBackfill(snapshot[rejectAt.value])
    ensures !failed ==> writes == RunBackfill(snapshot, snapshot, slugify)
    ensures writes <= RunBackfill(snapshot, snapshot, slugify)
    ensures failed ==> |writes| == |Pending(snapshot[..rejectAt.value])|
  {
    var current := snapshot;
    writes := [];
    failed := false;
    var i := 0;
    ghost var full := RunBackfill(snapshot, snapshot, slugify);
    while i < |snapshot|
      invariant 0 <= i <= |snapshot|
      invariant writes + RunBackfill(snapshot[i..], current, slugify) == full
      invariant |writes| == |Pending(snapshot[..i])|
      invariant rejectAt.Some? && rejectAt.value < i ==> !NeedsBackfill(snapshot[rejectAt.value])
      invariant !failed
    {
      var post := snapshot[i];
      var updates := PostUpdates(post, current, slugify);
      if updates != Updates(None, None) && rejectAt == Some(i) {
        failed := true;
        break;
      }
      var nextWrites, nextCurrent := writes, current;
      if updates != Updates(None, None) {
        var w := PostWrite(post.id, updates);
        nextWrites := writes + [w];
        nextCurrent := Apply(current, w);
      }
      BackfillLoopStep(snapshot, i, current, writes, updates, nextCurrent, nextWrites, slugify);
      writes, current := nextWrites, nextCurrent;
      i := i + 1;
    }
    BackfillPrefix(writes, RunBackfill(snapshot[i..], current, slugify), full);
    if !failed {
      assert snapshot[i..] == [];
    } else {
      PostNeedsBackfill(snapshot[i], current, slugify);
    }
  }

  /** A post gets a non-empty `updates` object exactly when it has a field to fill. */
  lemma PostNeedsBackfill(post: PostDoc, current: seq<PostDoc>, slugify: string -> string)
    ensures BackfillFor(post, ExistingSlugs(current), slugify) != Updates(None, None) <==> NeedsBackfill(post)
  {
  }

  /** One turn of the loop of `updateOldPosts`: the loop's invariant holds again one post further. */
  lemma BackfillLoopStep(snapshot: seq<PostDoc>, i: nat, current: seq<PostDoc>, writes: seq<PostWrite>,
                         updates: Updates, nextCurrent: seq<PostDoc>, nextWrites: seq<PostWrite>,
                         slugify: string -> string)
    requires i < |snapshot|
    requires writes + RunBackfill(snapshot[i..], current, slugify) == RunBackfill(snapshot, snapshot, slugify)
    requires |writes| == |Pending(snapshot[..i])|
    requires updates == BackfillFor(snapshot[i], ExistingSlugs(current), slugify)
    requires updates == Updates(None, None) ==> nextWrites == writes && nextCurrent == current
    requires updates != Updates(None, None) ==>
      && nextWrites == writes + [PostWrite(snapshot[i].id, updates)]
      && nextCurrent == Apply(current, PostWrite(snapshot[i].id, updates))
    ensures nextWrites + RunBackfill(snapshot[i + 1..], nextCurrent, slugify) == RunBackfill(snapshot, snapshot, slugify)
    ensures |nextWrites| == |Pending(snapshot[..i + 1])|
    ensures updates != Updates(None, None) <==> NeedsBackfill(snapshot[i])
  {
    PostNeedsBackfill(snapshot[i], current, slugify);
    PendingCountStep(snapshot, i);
    var rest := snapshot[i..];
    assert rest[0] == snapshot[i] && rest[1..] == snapshot[i + 1..];
    RunBackfillStep(rest, current, slugify, updates);
    if updates != Updates(None, None) {
      var w := PostWrite(snapshot[i].id, updates);
      AppendOne(writes, RunBackfill(rest, current, slugify), w,
                RunBackfill(rest[1..], Apply(current, w), slugify), RunBackfill(snapshot, snapshot, slugify));
    }
  }

  /** One more post of the snapshot adds one pending post exactly when it has a field to fill. */
  lemma PendingCountStep(snapshot: seq<PostDoc>, i: nat)
    requires i < |snapshot|
    ensures |Pending(snapshot[..i + 1])| == |Pending(snapshot[..i])| + if NeedsBackfill(snapshot[i]) then 1 else 0
  {
    assert snapshot[..i + 1] == snapshot[..i] + [snapshot[i]];
    PendingSnoc(snapshot[..i], snapshot[i]);
  }

  /** What comes before the rest of a sequence is a prefix of it. */
  lemma BackfillPrefix(writes: seq<PostWrite>, rest: seq<PostWrite>, full: seq<PostWrite>)
    requires writes + rest == full
    ensures writes <= full
  {
    assert full[..|writes|] == writes;
  }

  /** Moving one element from the front of the rest to the end of the part done. */
  lemma AppendOne<T>(done: seq<T>, rest: seq<T>, x: T, tail: seq<T>, whole: seq<T>)
    requires done + rest == whole && rest == [x] + tail
    ensures (done + [x]) + tail == whole
  {
    assert (done + [x]) + tail == done + ([x] + tail);
  }

  /** The store as each write of the backfill finds it, one entry per write. */
  function StoresSeen(posts: seq<PostDoc>, store: seq<PostDoc>, slugify: string -> string): seq<seq<PostDoc>>
  {
    if posts == [] then []
    else
      var u := BackfillFor(posts[0], ExistingSlugs(store), slugify);
      if u == Updates(None, None) then StoresSeen(posts[1..], store, slugify)
      else [store] + StoresSeen(posts[1..], Apply(store, PostWrite(posts[0].id, u)), slugify)
  }

  /**
   * The run as a trace: the k-th write goes to the k-th post with a field to
   * fill and is that post's backfill against the store `seen[k]`; the first
   * write sees the initial store, and each write's store is the previous one
   * after the previous write.
   */
  lemma {:induction false} BackfillTrace(posts: seq<PostDoc>, store: seq<PostDoc>, slugify: string -> string)
    ensures var w := RunBackfill(posts, store, slugify); var seen := StoresSeen(posts, store, slugify);
      var p := Pending(posts);
      && |seen| == |w| == |p|
      && (forall k :: 0 <= k < |w| ==> w[k] == PostWrite(p[k].id, BackfillFor(p[k], ExistingSlugs(seen[k]), slugify)))
      && (forall k :: 0 <= k < |w| - 1 ==> seen[k + 1] == Apply(seen[k], w[k]))
      && (w != [] ==> seen[0] == store)
    decreases |posts|
  {
    if posts != [] {
      var u := BackfillFor(posts[0], ExistingSlugs(store), slugify);
      if u == Updates(None, None) {
        BackfillTrace(posts[1..], store, slugify);
      } else {
        var w0 := PostWrite(posts[0].id, u);
        var next := Apply(store, w0);
        BackfillTrace(posts[1..], next, slugify);
        TraceCons(w0, store, posts[0], RunBackfill(posts[1..], next, slugify),
                  StoresSeen(posts[1..], next, slugify), Pending(posts[1..]), slugify);
      }
    }
  }

  /** Putting one write in front of a trace gives a trace. */
  lemma TraceCons(w0: PostWrite, store: seq<PostDoc>, p0: PostDoc,
                  w: seq<PostWrite>, seen: seq<seq<PostDoc>>, p: seq<PostDoc>, slugify: string -> string)
    requires w0 == PostWrite(p0.id, BackfillFor(p0, ExistingSlugs(store), slugify))
    requires |seen| == |w| == |p|
    requires forall k :: 0 <= k < |w| ==> w[k] == PostWrite(p[k].id, BackfillFor(p[k], ExistingSlugs(seen[k]), slugify))
    requires forall k :: 0 <= k < |w| - 1 ==> seen[k + 1] == Apply(seen[k], w[k])
    requires w != [] ==> seen[0] == Apply(store, w0)
    ensures var W := [w0] + w; var S := [store] + seen; var P := [p0] + p;
      && |S| == |W| == |P|
      && (forall k :: 0 <= k < |W| ==> W[k] == PostWrite(P[k].id, BackfillFor(P[k], ExistingSlugs(S[k]), slugify)))
      && (forall k :: 0 <= k < |W| - 1 ==> S[k + 1] == Apply(S[k], W[k]))
  {
    var W, S, P := [w0] + w, [store] + seen, [p0] + p;
    forall k | 1 <= k < |W| ensures W[k] == PostWrite(P[k].id, BackfillFor(P[k], ExistingSlugs(S[k]), slugify)) {
      assert W[k] == w[k - 1] && P[k] == p[k - 1] && S[k] == seen[k - 1];
    }
    forall k | 1 <= k < |W| - 1 ensures S[k + 1] == Apply(S[k], W[k]) {
      assert S[k + 1] == seen[k] && S[k] == seen[k - 1] && W[k] == w[k - 1];
    }
  }

  /**
   * Each slug the backfill writes is free in the store it is chosen against
   * (the initial slugs and those of every earlier write), unless the title's
   * slug with the post id appended was itself taken there.
   */
  lemma WrittenSlugIsFree(posts: seq<PostDoc>, store: seq<PostDoc>, slugify: string -> string)
    ensures var w := RunBackfill(posts, store, slugify); var seen := StoresSeen(posts, store, slugify);
      var p := Pending(posts);
      |seen| == |w| == |p| &&
      forall k :: 0 <= k < |w| && w[k].updates.slug.Some?
        && slugify(p[k].title) + "-" + p[k].id !in ExistingSlugs(seen[k])
        ==> w[k].updates.slug.value !in ExistingSlugs(seen[k])
  {
    BackfillTrace(posts, store, slugify);
    var w, seen, p := RunBackfill(posts, store, slugify), StoresSeen(posts, store, slugify), Pending(posts);
    forall k | 0 <= k < |w| && w[k].updates.slug.Some? && slugify(p[k].title) + "-" + p[k].id !in ExistingSlugs(seen[k])
      ensures w[k].updates.slug.value !in ExistingSlugs(seen[k])
    {
      NewSlugIsFree(p[k], ExistingSlugs(seen[k]), slugify);
    }
  }

  /** Document ids are unique in the collection. */
  predicate IdsDistinct(posts: seq<PostDoc>) {
    forall a, b :: 0 <= a < b < |posts| ==> posts[a].id != posts[b].id
  }

  /** The posts with a field to fill have distinct ids when the snapshot has. */
  lemma {:induction false} PendingIdsDistinct(posts: seq<PostDoc>)
    requires IdsDistinct(posts)
    ensures IdsDistinct(Pending(posts))
    decreases |posts|
  {
    if posts != [] {
      assert IdsDistinct(posts[1..]) by {
        forall a, b | 0 <= a < b < |posts[1..]| ensures posts[1..][a].id != posts[1..][b].id {
          assert posts[1..][a] == posts[a + 1] && posts[1..][b] == posts[b + 1];
        }
      }
      PendingIdsDistinct(posts[1..]);
      var rest := Pending(posts[1..]);
      if NeedsBackfill(posts[0]) {
        forall b | 0 <= b < |rest| ensures rest[b].id != posts[0].id {
          assert rest[b] in posts[1..];
          var i :| 0 <= i < |posts[1..]| && posts[1..][i] == rest[b];
          assert posts[i + 1] == rest[b];
        }
        var p := [posts[0]] + rest;
        forall a, b | 0 <= a < b < |p| ensures p[a].id != p[b].id {
          assert p[b] == rest[b - 1];
          if a > 0 {
            assert p[a] == rest[a - 1];
          }
        }
      }
    }
  }

  /** Every store along the trace has the documents of the first, at the same places. */
  lemma {:induction false} SeenKeepsIds(w: seq<PostWrite>, seen: seq<seq<PostDoc>>, m: nat)
    requires |seen| == |w| && m < |seen|
    requires forall k :: 0 <= k < |w| - 1 ==> seen[k + 1] == Apply(seen[k], w[k])
    ensures |seen[m]| == |seen[0]|
    ensures forall i :: 0 <= i < |seen[0]| ==> seen[m][i].id == seen[0][i].id
    decreases m
  {
    if m > 0 {
      SeenKeepsIds(w, seen, m - 1);
    }
  }

  /**
   * A slug written to document `idx` by write `j` is still there in the store
   * of every later write, since the later writes go to other documents.
   */
  lemma {:induction false} SlugStays(w: seq<PostWrite>, seen: seq<seq<PostDoc>>, p: seq<PostDoc>,
                                     idx: nat, j: nat, m: nat, s: string)
    requires |seen| == |w| == |p| && j < m < |w|
    requires forall k :: 0 <= k < |w| ==> w[k].id == p[k].id
    requires forall k :: 0 <= k < |w| - 1 ==> seen[k + 1] == Apply(seen[k], w[k])
    requires IdsDistinct(p)
    requires idx < |seen[0]| && seen[0][idx].id == p[j].id
    requires w[j].updates.slug == Some(s)
    ensures idx < |seen[m]| && seen[m][idx].slug == s
    decreases m
  {
    SeenKeepsIds(w, seen, m - 1);
    SeenKeepsIds(w, seen, m);
    if m > j + 1 {
      SlugStays(w, seen, p, idx, j, m - 1, s);
      assert p[j].id != p[m - 1].id;
    }
  }

  /**
   * The backfill's de-duplication over a whole run of `updateOldPosts` (the
   * snapshot is the collection, document ids unique): a slug written to a post
   * differs from every non-empty slug written to an earlier post, and from every
   * slug in the store it was chosen against, unless the title's slug with the
   * post id appended was itself taken there.
   */
  lemma BackfillSlugsDistinct(posts: seq<PostDoc>, slugify: string -> string)
    requires IdsDistinct(posts)
    ensures var w := RunBackfill(posts, posts, slugify); var seen := StoresSeen(posts, posts, slugify);
      var p := Pending(posts);
      |seen| == |w| == |p| &&
      forall j, k :: 0 <= j < k < |w| && w[j].updates.slug.Some? && w[j].updates.slug.value != ""
        && w[k].updates.slug.Some?
        && slugify(p[k].title) + "-" + p[k].id !in ExistingSlugs(seen[k])
        ==> (w[k].updates.slug.value != w[j].updates.slug.value
             && w[k].updates.slug.value !in ExistingSlugs(seen[k]))
  {
    BackfillTrace(posts, posts, slugify);
    WrittenSlugIsFree(posts, posts, slugify);
    PendingIdsDistinct(posts);
    var w, seen, p := RunBackfill(posts, posts, slugify), StoresSeen(posts, posts, slugify), Pending(posts);
    forall j, k | 0 <= j < k < |w| && w[j].updates.slug.Some? && w[j].updates.slug.value != ""
        && w[k].updates.slug.Some?
        && slugify(p[k].title) + "-" + p[k].id !in ExistingSlugs(seen[k])
      ensures w[k].updates.slug.value != w[j].updates.slug.value
    {
      assert w[j].id == p[j].id;
      assert p[j] in posts;
      var idx :| 0 <= idx < |posts| && posts[idx] == p[j];
      SlugStays(w, seen, p, idx, j, k, w[j].updates.slug.value);
      assert w[j].updates.slug.value in ExistingSlugs(seen[k]);
    }
  }

  /**
   * Two untitled-slug posts with the same title: the first gets the title's
   * slug, and the second, seeing the first's write, gets its id appended.
   */
  lemma SameTitleGetsIdSuffix(slugify: string -> string)
    requires slugify("Hello") == "hello"
    ensures var posts := [PostDoc("a", "Hello", "", ""), PostDoc("b", "Hello", "", "")];
      RunBackfill(posts, posts, slugify) ==
        [PostWrite("a", Updates(Some("hello"), Some(APPROVED))),
         PostWrite("b", Updates(Some("hello-b"), Some(APPROVED)))]
  {
    var posts := [PostDoc("a", "Hello", "", ""), PostDoc("b", "Hello", "", "")];
    var w0 := PostWrite("a", Updates(Some("hello"), Some(APPROVED)));
    var w1 := PostWrite("b", Updates(Some("hello-b"), Some(APPROVED)));
    assert ExistingSlugs(posts) == [];
    assert BackfillFor(posts[0], [], slugify) == w0.updates;
    var store1 := Apply(posts, w0);
    assert store1 == [PostDoc("a", "Hello", "hello", APPROVED), PostDoc("b", "Hello", "", "")];
    assert "hello" in ExistingSlugs(store1);
    assert "hello" + "-" + "b" == "hello-b";
    assert BackfillFor(posts[1], ExistingSlugs(store1), slugify) == w1.updates;
    assert posts[1..][1..] == [];
    assert RunBackfill(posts[1..], store1, slugify) == [w1] + RunBackfill([], Apply(store1, w1), slugify);
  }
}
