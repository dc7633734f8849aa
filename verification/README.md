# Swipe-to-like people app: a Dafny model of its core

This project models the core of a small "swipe to like" application. It has
two halves.

The **mobile client** (React Native) shows a deck of people one card at a
time. Dragging the front card past a threshold, or flicking it fast enough,
likes the person (right) or passes on them (left). The screen keeps a page
number and a cursor into the current page. It advances after every choice
and asks for the next page when the cursor nears the end. Likes are
optimistic: the person is put into the cached "liked" list and their like
count is bumped on every cached people page before the server answers. A
failed like restores the liked list only. A dislike changes the cache only
after the server confirms it. The HTTP client derives its base URL from an
environment value and keeps the bearer token off the login call.

The **backend** (Laravel) serves:

- the recommendation listing: people the user has neither liked nor
  disliked, highest id first;
- `like` and `dislike`, each recorded at most once per user and person;
- the user's liked list, newest like first.

A console command mails a daily report of the most-liked people.

The model is written as pure functions over immutable values.

- The client's query cache is a `map` from query keys to person lists.
- The server's verdict on a mutation is a boolean parameter.
- Database tables are sequences of rows.
- The clock, the environment value and the mail transport are parameters.

Modules follow the source files:

| module | file |
|---|---|
| `ApiClient` | mobile/src/api/client.ts |
| `QueryCache` | mobile/src/api/hooks.ts |
| `SwipeDeck` | mobile/src/screens/SwipeScreen.tsx |
| `CardStack` | mobile/src/components/organisms/CardStack.tsx |
| `SwipeGesture` | mobile/src/components/SwipeCard.tsx |
| `PeopleApi` | backend/app/Http/Controllers/PersonController.php |
| `PopularReport` | backend/app/Console/Commands/PopularPeople.php |

Three modules hold shared helpers:

- `Wrappers`: `Option`.
- `Seqs`: element lookup, filtering, and a stable descending insertion sort with its
  permutation facts.
- `Text`: JavaScript `trim`, decimal rendering with its parser, and
  join/split.

Some behaviours of the code differ from what its API documentation, its
comments or the data it exchanges would suggest. The model states what the
code does:

- **Dropped like counts.** The server sends a like count named `likeCount`,
  but the client reads `like_count` and treats a missing value as 0. The
  client's `Person.likeCount` is therefore optional.
- **Repeated likes.** `like` records the like once, but it raises the
  person's like count on every call, repeated ones included
  (`PeopleApi.RepeatedLike`). It also touches the row's `updated_at`, as
  Laravel's `increment` does.
- **Prefetch moves the page.** Near the end of a page the screen does not
  append the next page. It moves the page number on and keeps the cursor,
  so the cursor then indexes the next page's data (`SwipeDeck.Advance`).
- **No rollback of page bumps.** A failed like does not undo the like-count
  bump on people pages (`QueryCache.FailedLikeRollsBackOnlyLiked`).
- **401 does not clear the session.** An unauthorized liked-list fetch is
  simply not retried (`QueryCache.FetchLiked`). Nothing in the modelled code
  clears the session.
- **Velocity only on the card.** The card stack decides on drag distance
  alone. The swipe card also accepts a fast flick. `CardStack.AgreesWithSwipeCard`
  relates the two.

## Model

| member | source | states |
|---|---|---|
| ApiClient.Host | mobile/src/api/client.ts:3-5 | the host is a prefix of the trimmed environment value (or default), does not end in `/`, and only `/` characters were removed from its end |
| ApiClient.HostKeepsCleanValue | mobile/src/api/client.ts:3-5 | an environment value without surrounding whitespace or a trailing `/` is used verbatim as the host |
| ApiClient.HostDefault | mobile/src/api/client.ts:3 | without an environment value the host is `http://127.0.0.1:8000` |
| ApiClient.BaseUrl | mobile/src/api/client.ts:7 | the base URL is the host followed by `/api`, with no doubled slash before `/api` |
| ApiClient.SetAuthToken | mobile/src/api/client.ts:19-25 | a non-empty token installs `Bearer <token>`; an absent or empty token removes the Authorization header; no other header changes |
| ApiClient.SetAuthTokenRoundTrip | mobile/src/api/client.ts:19-25 | the installed token reads back unchanged; clearing it restores the other headers exactly |
| ApiClient.InterceptRequest | mobile/src/api/client.ts:28-33 | a request whose URL ends in `/login` loses its Authorization header; any other request, or one without a URL, passes through unchanged |
| ApiClient.LoginCarriesNoToken | mobile/src/api/client.ts:19-33 | with a token installed, the login call carries no bearer token and every other call carries the installed one |
| Text.Trim | mobile/src/api/client.ts:4 | the result is a slice of the input with only JavaScript whitespace cut from either end, it has no whitespace at either end, and a string already without any is unchanged |
| Text.IntToStringRoundTrip | backend/app/Console/Commands/PopularPeople.php:38-40 | the decimal rendering used for ids, ages, counts and the threshold parses back to the same integer |
| QueryCache.Unwrap | mobile/src/api/hooks.ts:27 | an object body with a non-null `data` field unwraps to that field; any other body, absent included, is returned as it is |
| QueryCache.UnwrapEnvelopeOrBare | mobile/src/api/hooks.ts:99-102 | any object carrying the list under `data`, whatever its other fields (the resource collection's `links`/`meta`, the paginator's page fields), and a bare array both unwrap to the list |
| QueryCache.AddLiked | mobile/src/api/hooks.ts:46-48 | afterwards the person's id is listed; an already-listed id leaves the list unchanged, otherwise the person is prepended; uniqueness of ids is kept |
| QueryCache.AddLikedIdempotent | mobile/src/api/hooks.ts:47-48 | adding the same id twice is the same as adding it once |
| QueryCache.BumpPage | mobile/src/api/hooks.ts:55-58 | same length; each entry with the id has its count (missing = 0) plus one, every other entry is unchanged |
| QueryCache.BumpPeoplePages | mobile/src/api/hooks.ts:50-59 | every cached people page is bumped, other entries are untouched and no key is added or removed |
| QueryCache.OnMutateLike | mobile/src/api/hooks.ts:43-62 | the returned snapshot is the previous liked list (empty if none); the liked entry becomes AddLiked of it; people pages are bumped; the only key possibly added is the liked key |
| QueryCache.OnErrorLike | mobile/src/api/hooks.ts:64-68 | the liked list becomes the snapshot; no other entry changes |
| QueryCache.LikeFlow | mobile/src/api/hooks.ts:37-77 | on success the liked list holds the person and both query families are invalidated; on failure nothing is invalidated; either way every cached people page keeps the optimistic like-count bump and the only key added is the liked list |
| QueryCache.FailedLikeRollsBackOnlyLiked | mobile/src/api/hooks.ts:43-68 | after a failed like the liked list equals the snapshot while every people page keeps its bump |
| QueryCache.LikedOnceAfterLike | mobile/src/api/hooks.ts:46-48 | after a like the liked list holds the id exactly once, if it held no duplicate before |
| QueryCache.DislikeFlow | mobile/src/api/hooks.ts:80-93 | on failure the cache is unchanged; on success the liked list is the previous one filtered to the entries with another id, same entries in the same order, and people pages are invalidated; other entries are untouched |
| QueryCache.DislikeUndoesLike | mobile/src/api/hooks.ts:43-91 | a confirmed like of a new person followed by a confirmed dislike restores the original liked list |
| QueryCache.ShouldRetry | mobile/src/api/hooks.ts:106-110 | a 401 is never retried; any other failure is retried exactly while fewer than two failures have been counted |
| QueryCache.FetchLiked | mobile/src/api/hooks.ts:106-110 | at most three attempts; the fetch succeeds exactly when the last attempt did; every earlier attempt failed with a retryable error; a 401 on the first attempt stops at once; a final failure was not retryable |
| SwipeGesture.Threshold | mobile/src/components/SwipeCard.tsx:15 | the swipe threshold is exactly a quarter of the screen width (so positive and less than it); elsewhere the threshold is a parameter |
| SwipeGesture.QuarterWidthDecides | mobile/src/components/SwipeCard.tsx:15-83 | with the threshold taken from the screen width, a right swipe is exactly a drag past a quarter of the width or a fast right flick, and a snap back exactly a drag within a quarter either way with a slow flick |
| SwipeGesture.Decide | mobile/src/components/SwipeCard.tsx:53-83 | right exactly when the drag or flick passes to the right; left exactly when no right condition holds and one passes to the left; snap back exactly when both are within bounds |
| SwipeGesture.RightIsMonotone | mobile/src/components/SwipeCard.tsx:54 | dragging further or flicking faster to the right keeps a right swipe |
| SwipeGesture.MirrorSymmetry | mobile/src/components/SwipeCard.tsx:54-64 | mirroring maps left to right and snap back to snap back; a right swipe mirrors to left exactly when no left condition also held |
| SwipeGesture.RightWinsConflict | mobile/src/components/SwipeCard.tsx:54-64 | a far right drag with a fast left flick swipes right, and so does its mirror |
| SwipeGesture.OnRelease | mobile/src/components/SwipeCard.tsx:46-85 | a back card fires nothing; a front card fires the matching callback only when it exists; a snap back fires nothing |
| CardStack.Initial | mobile/src/components/organisms/CardStack.tsx:34-36 | the first card, not animating |
| CardStack.Decide | mobile/src/components/organisms/CardStack.tsx:73-99 | right exactly past the threshold, left exactly past its negative, nothing within it |
| CardStack.OnRelease | mobile/src/components/organisms/CardStack.tsx:70-100 | ignored while animating; a snap back changes nothing; a decision raises `animating` and leaves the callback for the card in play |
| CardStack.ProgrammaticSwipe | mobile/src/components/organisms/CardStack.tsx:112-123 | nothing without a card in play or while animating; otherwise the requested decision for that card |
| CardStack.Advance | mobile/src/components/organisms/CardStack.tsx:106-110 | for every cursor the result is `min(index + 1, length)`, so a cursor past the end (the list shrank) is pulled back to the end, and the animation is over |
| CardStack.CallUnguarded | mobile/src/components/organisms/CardStack.tsx:179 | the guarded call without a `try`: the callback runs exactly when it and the person are defined, and a throw from it escapes |
| CardStack.SafeCall | mobile/src/components/organisms/CardStack.tsx:177-183 | invokes the callback exactly when the unguarded call would, and no exception ever escapes |
| CardStack.AfterCall | mobile/src/components/organisms/CardStack.tsx:79-82 | after the awaited side effect the stack advances if nothing escaped, and stays as it was if an exception escaped |
| CardStack.UnguardedThrowFreezesStack | mobile/src/components/organisms/CardStack.tsx:177-183 | without the catch a throwing callback would leave the stack animating on the same card; with `safeCall` it advances |
| CardStack.Complete | mobile/src/components/organisms/CardStack.tsx:79-92 | a completion always advances; it invokes the like or nope callback exactly when that callback and the person exist |
| CardStack.Reset | mobile/src/components/organisms/CardStack.tsx:125-130 | back to the initial state, with `onReset` called once when provided |
| CardStack.FailureDoesNotBlockAdvance | mobile/src/components/organisms/CardStack.tsx:79-92 | the state after a completion does not depend on whether the side effect threw |
| CardStack.LikeGestureRoundTrip | mobile/src/components/organisms/CardStack.tsx:70-110 | a drag past the threshold followed by its completion hands the card in play to the like callback and moves to the next card |
| CardStack.RunKeepsValid | mobile/src/components/organisms/CardStack.tsx:106-130 | `index <= |data|` holds after any sequence of releases, presses, completions and resets |
| CardStack.AgreesWithSwipeCard | mobile/src/components/organisms/CardStack.tsx:73-99 | for a slow release the stack decides exactly as the swipe card does |
| SwipeDeck.Start | mobile/src/screens/SwipeScreen.tsx:21-22 | the screen starts on page 1 with the first person of that page in play |
| SwipeDeck.PagesFromStart | mobile/src/screens/SwipeScreen.tsx:21-75 | from the start, after `n` events the page is between 1 and `n + 1` |
| SwipeDeck.DeckOf | mobile/src/screens/SwipeScreen.tsx:28 | absent page data is an empty deck; present data is the deck |
| Seqs.At | mobile/src/screens/SwipeScreen.tsx:29 | the card in play is `deck[index]`, absent exactly past the end (the card stack's `current` is the same lookup) |
| SwipeDeck.Next | mobile/src/screens/SwipeScreen.tsx:30 | the card underneath is `deck[index + 1]`, absent exactly when the card in play is the last one or there is none |
| SwipeDeck.Advance | mobile/src/screens/SwipeScreen.tsx:65-75 | inside the deck the cursor moves on and the page moves on exactly when within two of the end; past the end, the next page from its first card; the page moves by at most one |
| SwipeDeck.OnChoice | mobile/src/screens/SwipeScreen.tsx:77-97 | without a card nothing happens; otherwise the mutation for that card is issued, the deck advances, and the banner shows exactly when the server accepted |
| SwipeDeck.AdvanceIgnoresServer | mobile/src/screens/SwipeScreen.tsx:77-97 | the deck position and the mutation issued are the same whether the server accepts or rejects |
| SwipeDeck.AdvanceBringsNextIntoPlay | mobile/src/screens/SwipeScreen.tsx:28-70 | away from the prefetch margin, advancing keeps the page and brings the card shown underneath into play |
| SwipeDeck.OnReset | mobile/src/screens/SwipeScreen.tsx:99-104 | first card of the same page, a refetch, no mutation |
| SwipeDeck.LoadMore | mobile/src/screens/SwipeScreen.tsx:156-160 | first card of the next page |
| SwipeDeck.PageMonotone | mobile/src/screens/SwipeScreen.tsx:65-104 | over any sequence of events the page never decreases and rises by at most one per event |
| SwipeDeck.OnCardRelease | mobile/src/screens/SwipeScreen.tsx:141-150 | a release on the front card likes on a right verdict, passes on a left verdict and does nothing on a snap back |
| SwipeDeck.SnapBackIsInert | mobile/src/screens/SwipeScreen.tsx:141-150 | a release within both thresholds leaves the deck as it was and issues no call |
| PeopleApi.Find | backend/app/Http/Controllers/PersonController.php:60 | the row found has the requested id and is in the table; absent exactly when no row has it |
| PeopleApi.ListingPerPage | backend/app/Http/Controllers/PersonController.php:34 | the page size is the requested one (10 by default) capped at 50 |
| PeopleApi.Index | backend/app/Http/Controllers/PersonController.php:31-45 | a person is listed exactly when they are in the table and the user has neither liked nor disliked them; ids descending; a sub-multiset of the table |
| PeopleApi.IndexStrictlyDescending | backend/app/Http/Controllers/PersonController.php:39-42 | with unique ids the listing is strictly descending by id, and it is the only strictly descending arrangement of the people it lists |
| PeopleApi.IncrementLikes | backend/app/Http/Controllers/PersonController.php:72 | same length; the row with the id has one more like and a fresh `updated_at`; other rows unchanged |
| PeopleApi.Like | backend/app/Http/Controllers/PersonController.php:58-76 | unknown id: 404 and nothing changes; otherwise 200, the pair is recorded once, the count rises by one, dislikes and other people are unchanged |
| PeopleApi.FindAfterIncrement | backend/app/Http/Controllers/PersonController.php:65-73 | after the increment the liked id finds the incremented row and every other id finds its old row |
| PeopleApi.RepeatedLike | backend/app/Http/Controllers/PersonController.php:65-73 | liking twice records one like but counts two |
| PeopleApi.Dislike | backend/app/Http/Controllers/PersonController.php:89-102 | unknown id: 404 and nothing changes; otherwise 200 and only the dislike pair is added |
| PeopleApi.DislikeIdempotent | backend/app/Http/Controllers/PersonController.php:96-99 | disliking twice equals disliking once |
| PeopleApi.DecidedPersonLeavesListing | backend/app/Http/Controllers/PersonController.php:36-42 | after a like or dislike the person no longer appears in the user's listing |
| PeopleApi.UserLikesNewestFirst | backend/app/Http/Controllers/PersonController.php:124-128 | exactly the user's likes, newest first, as a permutation of them |
| PeopleApi.JoinPeople | backend/app/Http/Controllers/PersonController.php:124-141 | every row comes from a like; when every like refers to an existing person, one shaped row per like in the same order |
| PeopleApi.LikedByMe | backend/app/Http/Controllers/PersonController.php:119-145 | page size is the requested one (20 by default), uncapped; every row is a person the user liked |
| PeopleApi.LikedByMeFollowsLikes | backend/app/Http/Controllers/PersonController.php:124-142 | with no dangling likes, one row per like of the user, in newest-first order |
| PopularReport.Select | backend/app/Console/Commands/PopularPeople.php:22-31 | at most twenty people, each from the table, at or above the threshold and updated today or never, ordered by like count descending, and no row is repeated (a sub-multiset of the table) |
| PopularReport.SelectIsTop | backend/app/Console/Commands/PopularPeople.php:23-31 | a qualifying person left out means the selection is full and everyone selected has at least as many likes |
| PopularReport.ReportLines | backend/app/Console/Commands/PopularPeople.php:38-41 | one formatted line per selected person, in order |
| PopularReport.ReportLinesRoundTrip | backend/app/Console/Commands/PopularPeople.php:38-41 | the mail body between the heading and the closing newline splits back into one line per selected person, in order, when no name or location holds a newline |
| PopularReport.Report | backend/app/Console/Commands/PopularPeople.php:43 | the body is the heading, a blank line, the report lines joined by newlines, and a closing newline |
| PopularReport.Handle | backend/app/Console/Commands/PopularPeople.php:13-51 | the exit status is always success; a mail is sent exactly when someone was selected, to the recipient (default `admin@example.com`) with the fixed subject and the report of the selection at the threshold (default 50) |

## Left out

- Pagination: `paginate()` is not modelled. The listings return the whole ordered sequence together with the effective page size. Page numbers, offsets and the `meta`/`links` envelope are left out.
- PHP `(int)` casts of query strings and command options are not modelled. Page sizes and the threshold arrive as optional integers. A non-positive page size is not given any special meaning.
- SQL ordering ties: `ORDER BY` leaves rows with equal keys in unspecified order. The model uses a stable sort, so its order among equals is one of the orders the database may return.
- React Query internals are not modelled: `cancelQueries`, `staleTime`, `keepPreviousData`, `enabled`, and refetching after invalidation. Invalidation appears only as the set of query families marked stale. The 150 ms delay before invalidating after a like is dropped.
- The onMutate context can be absent when onMutate itself throws. That case is not modelled, because the model's onMutate cannot fail.
- The axios transport, the `Content-Type` default header and the `console.log` lines are not modelled. The environment value is a parameter.
- Asynchrony: mutation calls, animations and state updates are modelled as atomic steps in the order they complete. Interleavings are covered only where events are arbitrary sequences (`CardStack.RunKeepsValid`, `SwipeDeck.PageMonotone`).
- Animation values, rotation and opacity interpolation, the vibration calls and the banner animation are left out. The banner is only "shown or not".
- The pan-responder start gate (`Math.abs(g.dx) > 6`) and vertical movement are left out, because they do not affect the release decision.
- The loading, error and "no more profiles" views of the swipe screen are left out. Only the Load More button's state change is modelled.
- Authentication and login are not part of this model: the login screen, the auth context and Sanctum's token guard. The authenticated user is a parameter.
- The photo relation is left out. A person's pictures are a sequence of strings.
- `Mail::raw` delivery is left out. The mail is returned as a value.
- Carbon's "today" and time zones are left out. Dates are whole days since the epoch of a seconds timestamp.
- `PHP_EOL` is taken to be `\n`.
- PeopleApi.LikedByMe: its contract gives the newest-first order of the rows only through `PeopleApi.LikedByMeFollowsLikes`. That lemma requires every like to refer to an existing person. The join drops dangling likes, which a foreign key would prevent.
- QueryCache.FetchLiked: requires at least three scripted outcomes, enough to cover the retry bound. The retryer's back-off delay is not modelled.
