# INFOiyo client logic in Dafny

A verified model of the deterministic logic of the INFOiyo blogging client, a
React application whose storage and accounts live in Firebase:

- the client-side sliding-window **rate limiter** and the **TTL query cache**
  (`src/lib/firebase.ts`): classes `FirebaseLib.RateLimiter` and
  `FirebaseLib.QueryCache`, specified by the functions `Check` and `Lookup`;
- the **SEO utilities** (`src/utils/seo.ts`): markdown stripping and word-boundary
  truncation of the meta description, keyword extraction (word filter, counting,
  stable sort by frequency, top ten), the article-schema description and the
  breadcrumb list;
- the **sign-up validation chain** (`src/pages/SignUp.tsx`) and the message the
  user then sees;
- the **explore page** (`src/pages/Explore.tsx`): cache first, then the rate
  limiter, then the store, and the case-insensitive search filter;
- the **ban/unban toggle** of the user administration page (`src/pages/AdminUsers.tsx`);
- the **legacy-post backfill** (`src/utils/updateOldPosts.ts`): slug assignment
  with de-duplication and the default status;
- **error classification** (`src/utils/errorHandler.ts`) with the message table
  of `src/utils/errorMessages.ts`.

The clock (`Date.now()`), `navigator.onLine`, the answers of store reads and
the outcome of store writes are parameters; store writes are returned as
values. `JsText` models the JavaScript string built-ins the code relies on
(`trim` with JavaScript's whitespace set, ASCII `toLowerCase`, `includes`,
`lastIndexOf`, `split`/`join`, UTF-16 `length`).

Files: `js_text.dfy` (modules `Wrappers`, `JsText`), `errors.dfy`
(`ErrorMessages`, `ErrorHandler`), `firebase.dfy` (`FirebaseLib`), `seo.dfy`
(`Seo`), `signup.dfy` (`SignUp`), `explore.dfy` (`Explore`), `admin_users.dfy`
(`AdminUsers`), `update_old_posts.dfy` (`UpdateOldPosts`).

The username length message says "less than 20 characters" while the code
rejects only lengths above 20; the model follows the code (a 20-character
username is accepted, `SignUp.UsernameBoundsInclusive`).

## Model

| member | source | states |
|---|---|---|
| FirebaseLib.Pruned | src/lib/firebase.ts:46-48 | the pruned queue is a suffix of the old one, its front is not older than `now - RATE_LIMIT_DURATION`, and every dropped timestamp is strictly older (a timestamp exactly at the boundary stays) |
| FirebaseLib.PrunedIsLive | src/lib/firebase.ts:46-48 | on a sorted queue, front-only pruning leaves exactly the unexpired timestamps |
| FirebaseLib.LiveOfAllLive | src/lib/firebase.ts:46-48 | a queue with nothing expired is left as it is |
| FirebaseLib.Check | src/lib/firebase.ts:43-56 | the request is allowed iff fewer than 100 timestamps survive pruning; allowed appends `now`, refused records nothing; a queue of at most 100 stays at most 100 |
| FirebaseLib.CheckKeepsSorted | src/lib/firebase.ts:46-54 | with a clock that does not go backwards the queue stays sorted ascending |
| FirebaseLib.CheckLeavesOnlyLive | src/lib/firebase.ts:46-54 | on a sorted queue no expired timestamp survives a call |
| FirebaseLib.Run | src/lib/firebase.ts:43-56 | a sequence of calls gives one verdict per call |
| FirebaseLib.BurstAdmitted | src/lib/firebase.ts:50-55 | calls at one instant are all admitted while the queue holds at most 100, each adding one timestamp |
| FirebaseLib.LimitReachedAtOneInstant | src/lib/firebase.ts:50-52 | 100 calls at one instant pass and the 101st is refused |
| FirebaseLib.AdmittedAfterWindow | src/lib/firebase.ts:46-55 | once every recorded timestamp has expired the next call is admitted and the queue is just `[now]` |
| FirebaseLib.RateLimiter.constructor | src/lib/firebase.ts:28 | the queue starts empty |
| FirebaseLib.RateLimiter.CheckRateLimit | src/lib/firebase.ts:43-56 | the while/shift loop and the push compute exactly `Check` of the old queue (verdict and new queue), keeping the 100-entry bound |
| FirebaseLib.Lookup | src/lib/firebase.ts:58-64 | data is returned iff an entry exists and is younger than 15 minutes, and it is the stored data |
| FirebaseLib.SetThenLookup | src/lib/firebase.ts:58-71 | a value set at time t is served until 15 minutes have elapsed, and other keys read as before |
| FirebaseLib.QueryCache.constructor | src/lib/firebase.ts:23 | the cache starts empty |
| FirebaseLib.QueryCache.GetCachedData | src/lib/firebase.ts:58-64 | same as `Lookup`, and nothing is evicted |
| FirebaseLib.QueryCache.SetCachedData | src/lib/firebase.ts:66-71 | the key now maps to the data stamped with `now`; no other key changes |
| FirebaseLib.QueryCache.InvalidateCache | src/lib/firebase.ts:31-33 | exactly that key is removed |
| FirebaseLib.IsPostKey | src/lib/firebase.ts:38 | every key the post invalidation removes contains `post` |
| FirebaseLib.QueryCache.InvalidatePostCache | src/lib/firebase.ts:36-42 | exactly the keys starting with `post-` or equal to `home-posts` are removed; the others keep their entries |
| Seo.StripHeaders | src/utils/seo.ts:8 | removing `#{1,6}` plus one whitespace never lengthens the text, and text without `#` is unchanged |
| Seo.StripLinks | src/utils/seo.ts:9 | replacing `[text](url)` by `text` never lengthens the text, and text without `[` is unchanged |
| Seo.RemoveEmphasis | src/utils/seo.ts:10 | every `*`, `_`, `~` and backquote is dropped and every other character kept with its multiplicity, in order (a subsequence of the input) |
| Seo.NewlinesToSpaces | src/utils/seo.ts:11 | same length; position by position, a newline becomes a space and every other character is kept |
| Seo.Unmarked | src/utils/seo.ts:7-11 | after the replace chain the text is no longer than the content and holds no emphasis marker and no newline |
| Seo.PlainText | src/utils/seo.ts:7-12 | the plain text is no longer than the content and neither starts nor ends with whitespace |
| Seo.PlainTextIsClean | src/utils/seo.ts:7-12 | the text before truncation has no emphasis marker and no newline and is trimmed |
| Seo.TruncateAtWord | src/utils/seo.ts:14-19 | a text that fits is returned unchanged; otherwise the result is its prefix up to the last space at an index at most `maxLength` (empty when there is none) followed by `...` |
| Seo.GenerateMetaDescription | src/utils/seo.ts:5-20 | a text that fits is returned unchanged; otherwise the result is its prefix up to the last space at an index at most `maxLength` (empty when there is none) followed by `...` |
| Seo.ReplaceSymbols | src/utils/seo.ts:32 | same length; position by position, a character of `[a-z0-9]` or whitespace is kept and any other becomes a space |
| Seo.NonBlank | src/utils/seo.ts:33-34 | the characters that are not whitespace, in order |
| Seo.CollapseWhitespace | src/utils/seo.ts:33-34 | the result holds only spaces and characters of the input that are not whitespace, never two adjacent spaces, and the input's non-whitespace characters in order; empty iff the input is; a leading run gives a leading space; text without whitespace is unchanged |
| Seo.CollapseMatchesReference | src/utils/seo.ts:33 | the result equals the one-character-at-a-time replace `CollapseRef`: every maximal whitespace run becomes exactly one space in its place, and every other character is kept |
| Seo.CollapseRefRun | src/utils/seo.ts:33 | under the reference replace, a leading whitespace run gives one space followed by the replace of the text after the run |
| Seo.CollapseKeepsWordBoundary | src/utils/seo.ts:33-38 | `"a \t b"` becomes `"a b"`: the words stay apart for the split at line 38 |
| Seo.FilterWords | src/utils/seo.ts:38-40 | every word longer than 2 and not common is kept with its multiplicity, in order, and every other word is dropped |
| Seo.CleanText | src/utils/seo.ts:28-34 | the cleaned text holds only spaces and `[a-z0-9]`, neither starts nor ends with a space, and is no longer than `${title} ${content}` |
| Seo.Words | src/utils/seo.ts:38-40 | every word kept is longer than 2 and not a common word |
| Seo.WordsAreValid | src/utils/seo.ts:28-40 | every word counted is longer than 2, uses only `[a-z0-9]` and is not a common word |
| Seo.FirstOccurrences | src/utils/seo.ts:43-46 | the distinct words, in first-occurrence order (the map's insertion order) |
| Seo.Entries | src/utils/seo.ts:43-49 | one entry per distinct word, with its number of occurrences |
| Seo.CountWords | src/utils/seo.ts:43-46 | the counting loop yields the words in first-occurrence order, and each count is the number of occurrences |
| Seo.InsertByCount | src/utils/seo.ts:49-50 | insertion is a permutation step |
| Seo.SortByCount | src/utils/seo.ts:49-50 | the sort is a permutation of the entries |
| Seo.SortByCountOrders | src/utils/seo.ts:50 | the sorted entries have non-increasing counts |
| Seo.SortByCountStable | src/utils/seo.ts:50 | entries with equal counts keep their relative order (a stable sort) |
| Seo.SortByCountDistinct | src/utils/seo.ts:49-50 | sorting keeps the words distinct |
| Seo.TopEntries | src/utils/seo.ts:51 | at most 10 entries are kept |
| Seo.KeywordsOf | src/utils/seo.ts:49-52 | the words of the top entries, one per entry, in their order |
| Seo.TopKeywords | src/utils/seo.ts:43-52 | at most 10 keywords |
| Seo.KeywordsDistinct | src/utils/seo.ts:43-52 | at most 10 keywords, pairwise distinct, each a word of the text |
| Seo.KeywordsByFrequency | src/utils/seo.ts:49-52 | keywords come in non-increasing order of frequency |
| Seo.KeywordsComplete | src/utils/seo.ts:49-52 | a word is left out only when 10 keywords at least as frequent are reported |
| Seo.KeywordsRanked | src/utils/seo.ts:43-52 | at most 10 keywords, distinct, each from the text, in non-increasing frequency, and a word left out is never more frequent than a reported one (and is left out only when 10 are reported) |
| Seo.KeywordsAreValid | src/utils/seo.ts:31-52 | every keyword is longer than 2, uses only `[a-z0-9]` and is not a common word |
| Seo.KeywordTiesInFirstOccurrenceOrder | src/utils/seo.ts:43-52 | the reported keywords of equal frequency are a prefix of those words in first-occurrence order |
| Seo.RankKeywords | src/utils/seo.ts:43-54 | the counting loop, sort, cut and join give the ranked keywords joined by `, ` |
| Seo.ExtractKeywords | src/utils/seo.ts:26-55 | the result is the ranked keywords of the cleaned title and content, joined by `, ` |
| Seo.ArticleDescription | src/utils/seo.ts:69 | content of at most 160 characters is kept; longer content becomes its first 157 characters plus `...`, exactly 160 |
| Seo.GenerateArticleSchema | src/utils/seo.ts:60-96 | headline, author and image come from the post, the description is the truncated content, the page address is the site's `/post/<slug>` |
| Seo.GenerateBreadcrumbSchema | src/utils/seo.ts:101-112 | one item per crumb, in order, the i-th at position i+1 with the crumb's name and url |
| Seo.BreadcrumbAppend | src/utils/seo.ts:105-110 | appending a crumb appends one item at position n+1 and leaves the others |
| SignUp.ValidateSignUp | src/pages/SignUp.tsx:19-38 | passes iff all conditions hold (order-free); otherwise the message is that of the first failing check in source order |
| SignUp.UsernameBoundsInclusive | src/pages/SignUp.tsx:25-33 | a 3 to 20 character username of letters, digits and underscores passes, 20 included |
| SignUp.HandleSubmit | src/pages/SignUp.tsx:16-45 | `signup` is called iff validation passes; a rejected form shows `handleApiError` of a plain Error; a sign-up error shows `handleApiError` of it; success navigates |
| SignUp.ValidationMessageHidden | src/pages/SignUp.tsx:19-44 | as written, every rejected form shows the generic UNKNOWN_ERROR message |
| SignUp.ShortPasswordShowsGenericMessage | src/pages/SignUp.tsx:19-43 | a form the page's own field constraints accept (email `a@b.c`, username `abc`, password `abcdefg`) fails the password-length check, yet the user sees UNKNOWN_ERROR rather than its message |
| SignUp.HandleSubmitIntended | src/pages/SignUp.tsx:19-44 | with the checks raising a ValidationError, a rejected form shows the failing check's own message; otherwise it behaves as written |
| Explore.LowerIdempotent | src/pages/Explore.tsx:78-80 | lower-casing is idempotent |
| Explore.IncludesEmpty | src/pages/Explore.tsx:78-80 | every string includes the empty string |
| Explore.Matches | src/pages/Explore.tsx:77-81 | a term that lower-cases to the empty string matches every post |
| Explore.SearchFilter | src/pages/Explore.tsx:77-81 | a post is kept iff the lower-cased term occurs in its lower-cased title, content or author |
| Explore.SearchFilterKeepsOrder | src/pages/Explore.tsx:77-82 | the result is a subsequence of the loaded posts |
| Explore.EmptySearchKeepsAll | src/pages/Explore.tsx:77-81 | an empty term keeps every post |
| Explore.SearchIgnoresCase | src/pages/Explore.tsx:77-81 | a term and its lower-cased form select the same posts |
| Explore.ExplorePage.constructor | src/pages/Explore.tsx:25-31 | the search term is the `q` parameter or empty, nothing loaded, the spinner on |
| Explore.ExplorePage.FetchPosts | src/pages/Explore.tsx:32-70 | a fresh cache entry is shown and neither limiter nor store is consulted; a refused request changes no page state (the spinner stays on); otherwise the spinner stops, and a store answer is shown and cached under `explore-posts` |
| Explore.ExplorePage.ApplySearch | src/pages/Explore.tsx:76-83 | the shown posts become the search over the loaded posts; nothing else changes |
| AdminUsers.NextStatus | src/pages/AdminUsers.tsx:29 | `banned` iff the current status is `active`, otherwise `active` |
| AdminUsers.ToggleTwice | src/pages/AdminUsers.tsx:29 | flipping twice restores `active` and `banned` |
| AdminUsers.WithStatus | src/pages/AdminUsers.tsx:33-35 | same length; matching entries get the status, all other entries are identical |
| AdminUsers.HandleToggleUserStatus | src/pages/AdminUsers.tsx:28-36 | the write carries the flipped status for the uid; after an acknowledged write only matching entries change, and only in their status; a rejected write leaves the list |
| AdminUsers.ToggleTwiceRestoresUsers | src/pages/AdminUsers.tsx:28-36 | pressing the toggle twice restores the list |
| UpdateOldPosts.ExistingSlugs | src/utils/updateOldPosts.ts:19-22 | every non-empty slug of the store is listed, nothing else, and never an empty one |
| UpdateOldPosts.NewSlug | src/utils/updateOldPosts.ts:16-27 | the title's slug when free, otherwise that slug plus `-` and the id |
| UpdateOldPosts.NewSlugIsFree | src/utils/updateOldPosts.ts:16-27 | the chosen slug is not taken unless the id-suffixed form is taken too |
| UpdateOldPosts.BackfillFor | src/utils/updateOldPosts.ts:12-34 | a slug update iff the slug is missing, a status update (`approved`) iff the status is missing |
| UpdateOldPosts.Patch | src/utils/updateOldPosts.ts:38 | the written fields are replaced and the others kept |
| UpdateOldPosts.Apply | src/utils/updateOldPosts.ts:38 | only the written document changes |
| UpdateOldPosts.Pending | src/utils/updateOldPosts.ts:15-37 | exactly the posts with a missing field |
| UpdateOldPosts.RunBackfill | src/utils/updateOldPosts.ts:10-40 | at most one write per post of the snapshot, and no write has an empty `updates` object (line 37) |
| UpdateOldPosts.WritesFillMissingFields | src/utils/updateOldPosts.ts:10-40 | one write per post with a missing field, in order, to its id, carrying a slug iff the slug was missing and `approved` iff the status was; present fields are never overwritten |
| UpdateOldPosts.PostUpdates | src/utils/updateOldPosts.ts:11-34 | the `updates` object built field by field is the backfill rule applied to the slugs currently in the store |
| UpdateOldPosts.UpdateOldPosts | src/utils/updateOldPosts.ts:6-41 | the loop, re-reading the slugs of the store as updated by its own earlier writes, issues a prefix of the writes of the backfill specification: all of them when no store call rejects; when the calls for a post with a field to fill reject, the run fails and stops with the writes of the posts before it |
| UpdateOldPosts.BackfillTrace | src/utils/updateOldPosts.ts:10-40 | the k-th write is the k-th pending post's backfill against the store it finds, which is the previous store after the previous write |
| UpdateOldPosts.WrittenSlugIsFree | src/utils/updateOldPosts.ts:18-28 | every written slug is absent from the store it was chosen against, unless the id-suffixed slug was taken there too |
| UpdateOldPosts.PendingIdsDistinct | src/utils/updateOldPosts.ts:10-15 | the posts with a field to fill keep the unique ids of the snapshot |
| UpdateOldPosts.SlugStays | src/utils/updateOldPosts.ts:38 | a slug written to a document stays in the stores of all later writes, which go to other documents |
| UpdateOldPosts.BackfillSlugsDistinct | src/utils/updateOldPosts.ts:18-28 | over a whole run with unique ids, a written slug differs from every non-empty slug written before it and from every slug of the store it was chosen against, unless the id-suffixed slug was taken there |
| UpdateOldPosts.SameTitleGetsIdSuffix | src/utils/updateOldPosts.ts:10-28 | two posts with the same title: the first gets the title's slug, the second, seeing that write, gets its id appended |
| ErrorHandler.HandleFirebaseError | src/utils/errorHandler.ts:4-22 | each of the six known codes gives its own message, any other code UNKNOWN_ERROR |
| ErrorHandler.AuthMessagesDistinct | src/utils/errorHandler.ts:5-17 | the six messages are pairwise distinct and none is UNKNOWN_ERROR |
| ErrorHandler.HandleNetworkError | src/utils/errorHandler.ts:24-30 | NETWORK_ERROR iff offline, SERVER_ERROR iff online |
| ErrorHandler.HandleValidationError | src/utils/errorHandler.ts:32-38 | an Error's own message, VALIDATION_ERROR for anything else |
| ErrorHandler.HandleApiError | src/utils/errorHandler.ts:40-54 | FirebaseError first, then an Error named NetworkError, then ValidationError; everything else UNKNOWN_ERROR |
| ErrorHandler.PlainErrorIsUnknown | src/utils/errorHandler.ts:44-53 | a plain Error gives UNKNOWN_ERROR whatever its message |
| JsText.Trim | src/pages/SignUp.tsx:20 | the result is the slice of the input between its leading and its trailing whitespace runs, which are all JavaScript whitespace; it neither starts nor ends with whitespace, and is empty iff the input is all whitespace |
| JsText.Includes | src/pages/Explore.tsx:78-80 | true iff the needle occurs at some index |
| JsText.StartsWith | src/lib/firebase.ts:38 | true iff the prefix is no longer than the string and agrees with it character by character; a string includes each of its prefixes |
| JsText.Lower | src/pages/Explore.tsx:78-80 | same length, no ASCII upper-case letter left; each character is folded by `LowerChar` (ASCII upper case to lower case, everything else kept) |
| JsText.Join | src/utils/seo.ts:54 | only the edge cases: no pieces give the empty string, one piece gives that piece (the general case is stated by `SplitJoin`) |
| JsText.LastIndexOf | src/utils/seo.ts:16 | the last index at most `from` holding the character, or -1 when none |
| JsText.Split | src/utils/seo.ts:38 | at least one piece, none holding the separator |
| JsText.SplitJoin | src/utils/seo.ts:38 | joining the pieces with the separator gives back the string |
| JsText.Utf16Length | src/pages/SignUp.tsx:25-36 | the number of characters plus the number of characters outside the Basic Multilingual Plane (one code unit each, two for a surrogate pair) |

## Findings

| source | as written | input that shows it | evidently intended | confidence | as-written member | corrected member |
|---|---|---|---|---|---|---|
| src/pages/SignUp.tsx:19-43 | the checks throw a plain `Error`, and `handleApiError` maps any Error not named NetworkError or ValidationError to UNKNOWN_ERROR, so no check's message reaches the user | email `a@b.c`, username `abc`, password `abcdefg`, which the form's own field constraints let through | the failing check's message, here "Password must be at least 8 characters long" | not executed | SignUp.ValidationMessageHidden | SignUp.HandleSubmitIntended |

## Left out

- Firebase initialisation, the `getDocs`/`updateDoc` calls and the query itself (filter on `approved`, order by creation date, limit 50): store answers are parameters and writes are returned values.
- src/utils/slugify.ts is not part of this model; `slugify` is a function parameter.
- Console logging in the handlers and in `fetchPosts`.
- `Date.now()` and `navigator.onLine` are parameters; timestamps are unbounded integers rather than JavaScript numbers.
- `toLowerCase` folds ASCII letters only.
- Seo.GenerateMetaDescription, Seo.TruncateAtWord, Seo.ArticleDescription: the length test and the cuts (`substr`, `lastIndexOf`, `slice`) count characters (code points), while JavaScript counts UTF-16 code units; the two agree on text within the Basic Multilingual Plane, but, for example, 160 emoji (320 code units) are cut by the page and kept whole by the model. SignUp's length checks do use UTF-16 length.
- Seo.StripHeaders, Seo.StripLinks: their contracts state length and no-op properties, not the full regular-expression semantics that their bodies implement.
- FirebaseLib.QueryCache: the JavaScript cache holds values of any type under one map; the model is generic in one value type.
- UpdateOldPosts.UpdateOldPosts: writes by other clients during the run are not modelled; a document with a missing field is represented by the empty string; a rejection of the first `getDocs` (line 8), which ends the run before any write, is not modelled (the snapshot is a parameter).
- Seo.GenerateMetaDescription: `maxLength` is always an argument; the default of 160 when the caller omits it (seo.ts:5) is not modelled.
- SignUp: the browser's constraint validation of the form fields (`required`, `pattern`, `minLength`, `maxLength` on the inputs) is not modelled; it keeps an empty form and a malformed username from reaching `handleSubmit`, so the username checks of `handleSubmit` cannot fail from the page itself.
- Seo.GenerateArticleSchema: the dates (`createdAt` converted to ISO strings) and the constant `@context`/`@type` fields are not modelled.
- `generateWebsiteSchema` and `generateOrganizationSchema` return constant objects and are not modelled.
- Explore: image-error tracking and rendering are not modelled; the search effect is a method the caller runs after a change.
