# Video catalog: accounts, catalog queries and client state, in Dafny

This project models the core of a small video-streaming service written in
TypeScript: an Express/MongoDB back end and a Redux front end. The model covers:

- **The video schema** (`VideoModel`). This is the document a catalog entry is
  stored as:
  - the required fields and their defaults;
  - the rating bound [0, 5];
  - trimming of title and description;
  - the `formattedDuration` virtual (`"1h 2m 5s"`).
- **The catalog queries** (`CatalogQuery`). This is the public list endpoint:
  - a keyword matched in title or description, ignoring case;
  - a genre tag;
  - visibility for non-admin callers;
  - newest-first order and pages of 12, with `total` and `pages`.

  It also covers the three fixed views: featured, by genre and trending.
- **The catalog store** (`CatalogStore`). This is the collection of videos as an
  object that the handlers change in place:
  - the view count, bumped when a video is fetched by id;
  - the admin-only create, merge-update, delete, and publish and feature toggles.
- **The accounts** (`Accounts`):
  - registration, with its email-or-username uniqueness check;
  - the login decision;
  - reading and updating the profile;
  - the per-user watchlist, with add that refuses duplicates and remove that
    filters.
- **The client state** (`VideoSlice`, `AuthSlice`). These are the Redux reducers,
  as methods on state classes:
  - loading and error flags;
  - the page counter and replace-or-append accumulation;
  - prepend, replace-first and filter on the video list;
  - logout;
  - the watchlist copy that the watchlist requests keep.

Database calls are modelled as operations on an in-memory `seq`. Errors are values
of `Wrappers.Failure`:

- `AppError` carries the controllers' own messages and HTTP statuses.
- `ValidationError` is a schema refusal.
- `QueryError` is a query the database refuses.

Authentication middleware is represented by what it hands the handlers. The admin
guard in front of the catalog mutations becomes `requires caller.isAdmin`. The
identity on a private account route is an `Option<UserId>`.

The list handler reads `req.user?.isAdmin`, but its route is registered before the
authentication middleware, so as deployed every caller is listed as a visitor. The
model keeps the role as a parameter of `ListVideos`, exactly as the handler is
written.

Two behaviours of the code are worth stating on their own:

- `getVideoById` performs no publish check. Any caller who knows an id can fetch an
  unpublished video, and the fetch bumps its view count.
- The `genre` and `cast` arrays only require each entry to be non-empty. An empty
  genre array and an empty cast array are both accepted.

## Model

| member | source | states |
|---|---|---|
| VideoModel.Trim | backend/src/models/Video.ts:20-29 | the schema's `trim`: the result has no whitespace at either end (JavaScript's whitespace set) and is no longer than the input |
| VideoModel.TrimCutsWhitespace | backend/src/models/Video.ts:20-29 | the trimmed string is a stretch `s[i..j]` of the input, and everything before `i` and from `j` on is whitespace |
| VideoModel.TrimIdempotent | backend/src/models/Video.ts:20-29 | trimming a trimmed title or description changes nothing |
| VideoModel.TrimFixesTrimmed | backend/src/models/Video.ts:20-29 | trimming leaves a string unchanged exactly when neither end is whitespace |
| VideoModel.NatToString | backend/src/models/Video.ts:88 | the decimal rendering of a number is a non-empty digit string that starts with 0 only for zero |
| VideoModel.NatToStringRoundTrip | backend/src/models/Video.ts:88 | reading the decimal rendering back gives the number |
| VideoModel.SplitDuration | backend/src/models/Video.ts:84-86 | `hours*3600 + minutes*60 + seconds == duration`, `minutes < 60`, `seconds < 60` |
| VideoModel.SplitDurationUnique | backend/src/models/Video.ts:84-86 | any decomposition with minutes and seconds below 60 is the one `SplitDuration` computes |
| VideoModel.ClockText | backend/src/models/Video.ts:88 | the rendered clock always ends with `"<m>m <s>s"` |
| VideoModel.ClockTextHourMark | backend/src/models/Video.ts:88 | the text holds an `h` exactly when there are hours |
| VideoModel.FormattedDuration | backend/src/models/Video.ts:83-89 | `formattedDuration` always ends with `"<m>m <s>s"` of the decomposed duration |
| VideoModel.FormattedDurationHourMark | backend/src/models/Video.ts:88 | the `"<h>h "` prefix appears exactly when the duration is at least 3600 |
| VideoModel.FormattedDurationRoundTrip | backend/src/models/Video.ts:83-89 | parsing the formatted text gives back the duration, so the rendering is injective |
| VideoModel.SchemaErrors | backend/src/models/Video.ts:19-75 | the set of failing paths is empty exactly when the schema accepts the input: required fields, no empty genre or cast entry, rating within [0, 5] |
| VideoModel.NewDocument | backend/src/models/Video.ts:19-75 | an accepted input yields a well-formed document with the given id and creation time; title and description are the trimmed input; every other field is the input's value when supplied, and otherwise its default (rating and views 0, both flags false) |
| VideoModel.CreateDocument | backend/src/models/Video.ts:19-75 | validation then construction: Ok exactly when accepted, and then exactly the `NewDocument` of the input; otherwise a ValidationError naming at least one path |
| VideoModel.WellFormedAccepted | backend/src/models/Video.ts:19-75 | a stored document is well formed exactly when the schema accepts its fields and its title and description are trimmed |
| VideoModel.DocumentRoundTrip | backend/src/models/Video.ts:19-75 | a well-formed document is rebuilt exactly from its own fields |
| CatalogQuery.Lower | backend/src/controllers/videoController.ts:31-32 | the `i` option's case folding (ASCII): the length is kept, each capital letter becomes its small letter, every other character is unchanged, and no capital letter remains |
| CatalogQuery.VerbatimMatchIgnoresCase | backend/src/controllers/videoController.ts:29-34 | a keyword that occurs verbatim in a text matches it when case is ignored, and so does its lower-cased form |
| CatalogQuery.Select | backend/src/controllers/videoController.ts:27-45 | the filter keeps exactly the videos that satisfy every condition, each as often as in the catalog (a sub-multiset) |
| CatalogQuery.SortDesc | backend/src/controllers/videoController.ts:47 | the sort is a permutation, ordered by descending key |
| CatalogQuery.Window | backend/src/controllers/videoController.ts:48-49 | `skip(n).limit(m)` keeps positions n to n+m-1 of the ordered result |
| CatalogQuery.RequestedPage | backend/src/controllers/videoController.ts:23 | `Number(page) \|\| 1`: a missing, non-numeric or zero page reads as 1, and any other number is the page itself; the page is never 0 |
| CatalogQuery.ListFilter | backend/src/controllers/videoController.ts:27-43 | a non-empty keyword or genre becomes a condition on exactly that keyword or genre, and an empty one adds no condition; non-admins are limited to published videos, admins are not; the featured flag is not constrained |
| CatalogQuery.CeilDiv | backend/src/controllers/videoController.ts:56 | `Math.ceil(total / size)`: the least page count that covers every match |
| CatalogQuery.PageOf | backend/src/controllers/videoController.ts:46-49 | a page holds at most 12 videos, exactly positions 12*(p-1) onward of the newest-first matches, and its exact length; it stays newest first |
| CatalogQuery.ListVideos | backend/src/controllers/videoController.ts:21-60 | fails exactly for a negative page; otherwise the page's videos are catalog videos passing the filter, newest first, exactly the window of the newest-first matches, with `total` their count and `pages = ceil(total/12)` |
| CatalogQuery.ListedVideosPassFilter | backend/src/controllers/videoController.ts:29-43 | every listed video is published for a non-admin, contains the keyword in title or description ignoring case, and carries the genre |
| CatalogQuery.EveryMatchOnItsPage | backend/src/controllers/videoController.ts:45-57 | the i-th newest match is on page i/12+1 at position i%12 |
| CatalogQuery.NonEmptyPages | backend/src/controllers/videoController.ts:45-57 | pages 1 to `pages` are exactly the non-empty ones |
| CatalogQuery.TopN | backend/src/controllers/videoController.ts:66-68 | exactly min(n, number of matches) matches, each taken at most as often as the catalog holds it (a sub-multiset of the matches), ordered by descending key, and none left out that ranks above an included one |
| CatalogQuery.FeaturedVideos | backend/src/controllers/videoController.ts:65-74 | exactly min(6, number of featured published videos) of them, each at most as often as in the catalog, newest first, none newer left out |
| CatalogQuery.VideosByGenre | backend/src/controllers/videoController.ts:150-162 | exactly min(10, number of matches) published videos carrying the tag, each at most as often as in the catalog, newest first, none newer left out |
| CatalogQuery.TrendingVideos | backend/src/controllers/videoController.ts:167-176 | exactly min(10, number of published videos) of them, each at most as often as in the catalog, views non-increasing, none left out with more views than an included one |
| CatalogStore.IndexOf | backend/src/controllers/videoController.ts:80 | `findById`: the first position holding that id, or none exactly when no video has it |
| CatalogStore.IndexOfAfterReplace | backend/src/controllers/videoController.ts:80 | saving a video under its own id moves no id, so a later lookup finds the same position |
| CatalogStore.RemoveAtKeepsOthers | backend/src/controllers/videoController.ts:137 | removing one document keeps ids unique and below the next fresh id, keeps every document well formed, and keeps exactly the videos with another id |
| CatalogStore.Merge | backend/src/controllers/videoController.ts:118 | `Object.assign`: each field the body supplies overwrites the stored one (title and description through the schema's trim), each field it leaves out stays; the id and creation time stay, and an empty body changes nothing |
| CatalogStore.MergeIdempotent | backend/src/controllers/videoController.ts:118 | applying the same update body twice is applying it once |
| CatalogStore.MergeLastWins | backend/src/controllers/videoController.ts:118 | merging two bodies in turn is merging one body holding, for every field, the later body's value if it has one and the earlier one's otherwise; a later body that supplies every field the earlier one did makes the earlier one irrelevant |
| CatalogStore.MergeWellFormed | backend/src/controllers/videoController.ts:118-119 | a merged document the schema accepts is well formed |
| CatalogStore.Toggle | backend/src/controllers/videoController.ts:181-214 | fails with 404 exactly for an unknown id; otherwise only that video's flag is negated and every other video stays |
| CatalogStore.ToggleTwiceRestores | backend/src/controllers/videoController.ts:181-214 | toggling the same flag twice restores the collection |
| CatalogStore.PublishingRevealsVideo | backend/src/controllers/videoController.ts:40-43 | an unpublished video is absent from every visitor listing; after its publish toggle, the same query lists it |
| CatalogStore.VideoStore.GetVideoById | backend/src/controllers/videoController.ts:79-94 | an existing video's views go up by exactly 1 and nothing else changes; an unknown id gives 404 and no change |
| CatalogStore.VideoStore.CreateVideo | backend/src/controllers/videoController.ts:99-109 | admin only; Ok exactly when the schema accepts the body; the stored and returned video is exactly `NewDocument` of the body with `isPublished` forced to false, under the fresh id and the current time, appended at the end; a refusal changes nothing |
| CatalogStore.VideoStore.UpdateVideo | backend/src/controllers/videoController.ts:114-128 | admin only; 404 with no change for an unknown id; otherwise the merged video replaces the stored one, or a validation error leaves everything as it was |
| CatalogStore.VideoStore.DeleteVideo | backend/src/controllers/videoController.ts:133-145 | admin only; 404 with no change for an unknown id; otherwise the remaining videos are exactly those with another id, in order |
| CatalogStore.VideoStore.UpdatePublishStatus | backend/src/controllers/videoController.ts:181-195 | admin only; the collection becomes `Toggle(old, id, Published)`, and the response is the toggled video |
| CatalogStore.VideoStore.UpdateFeaturedStatus | backend/src/controllers/videoController.ts:200-214 | admin only; the collection becomes `Toggle(old, id, Featured)`, and the response is the toggled video |
| Accounts.FindFirst | backend/src/controllers/authController.ts:66 | `findOne`: the first user that satisfies the condition, or none exactly when no user does |
| Accounts.FindById | backend/src/controllers/authController.ts:115 | a user with that id and none with it before, or none exactly when no user has it |
| Accounts.FindByEmail | backend/src/controllers/authController.ts:66 | the first user with that email, or none exactly when no user has it |
| Accounts.ExistingUser | backend/src/controllers/authController.ts:30 | a user with the same email or the same username, or none exactly when every user differs in both |
| Accounts.Login | backend/src/controllers/authController.ts:62-82 | Ok exactly when the first user with that email passes the password check, and then the response is built from that user (id, name, email, admin flag, a token naming the id); an unknown email and a wrong password both give the same 401 |
| Accounts.LoginSucceedsIff | backend/src/controllers/authController.ts:66-68 | with unique emails: login succeeds exactly when some user has the email and a matching password, and then answers for that user |
| Accounts.LookupCaller | backend/src/controllers/authController.ts:88-92 | no caller id gives 401 "User ID not found"; an id with no stored user gives 404 "User not found"; otherwise the caller's position |
| Accounts.GetProfile | backend/src/controllers/authController.ts:87-105 | the caller's stored user without a password field, or the 401/404 of the lookup |
| Accounts.UpdatedUser | backend/src/controllers/authController.ts:117-123 | username, email and password change only to a truthy value; the id, the admin flag, the watchlist and the watch history are untouched |
| Accounts.UpdatedUserLaws | backend/src/controllers/authController.ts:117-123 | a body with nothing truthy changes nothing, and applying a body twice is applying it once |
| Accounts.WatchlistAdd | backend/src/controllers/authController.ts:157-161 | refused with 400 exactly when the id is present; otherwise the id is appended at the end, earlier entries keep their places, and a duplicate-free list stays duplicate-free |
| Accounts.WatchlistRemove | backend/src/controllers/authController.ts:186 | every occurrence of the id goes and every other count stays (a multiset); an absent id leaves the list unchanged |
| Accounts.WatchlistRemoveMembers | backend/src/controllers/authController.ts:186 | the removed id is absent afterwards, and exactly the other ids remain |
| Accounts.WatchlistRemoveNoDuplicates | backend/src/controllers/authController.ts:186 | a duplicate-free list stays duplicate-free |
| Accounts.WatchlistRemoveAppend | backend/src/controllers/authController.ts:186 | removal works piecewise over concatenation, so the kept ids keep their order |
| Accounts.WatchlistAddRemove | backend/src/controllers/authController.ts:157-186 | adding a new id and then removing it restores the list |
| Accounts.WatchlistRemoveAdd | backend/src/controllers/authController.ts:157-186 | after a removal the id can always be added again, and lands at the end |
| Accounts.UserStore.Register | backend/src/controllers/authController.ts:26-57 | 400 "User already exists", adding nobody, exactly when some user has that email or username; otherwise exactly one non-admin user with empty lists is appended under a fresh id, and the response carries no password |
| Accounts.UserStore.UpdateProfile | backend/src/controllers/authController.ts:110-140 | 401/404 with no change when there is no caller or record; otherwise only the caller's record becomes `UpdatedUser`, and the response is built from it |
| Accounts.UserStore.AddToWatchlist | backend/src/controllers/authController.ts:145-169 | 401/404 with no change when there is no caller or record; otherwise the result is `WatchlistAdd` of the caller's list, stored only on success, and duplicate-free lists are kept |
| Accounts.UserStore.RemoveFromWatchlist | backend/src/controllers/authController.ts:174-194 | 401/404 with no change when there is no caller or record; otherwise the caller's list becomes `WatchlistRemove` of it and is returned |
| VideoSlice.WithoutId | frontend/src/store/slices/videoSlice.ts:220 | the filter keeps exactly the videos with another id, and changes nothing when none has the id |
| VideoSlice.WithoutIdAppend | frontend/src/store/slices/videoSlice.ts:220 | the filter works piecewise, so the kept videos keep their relative order |
| VideoSlice.LoadedPagesArePrefix | frontend/src/store/slices/videoSlice.ts:172-178 | replacing on page 1 and appending afterwards, the pages 1 to k of one query leave the first 12*k newest-first matches (or all of them), with no video skipped or repeated |
| VideoSlice.HasMoreIffNextPageNonEmpty | frontend/src/store/slices/videoSlice.ts:176 | `page < pages` after loading a page holds exactly when the next page is non-empty |
| VideoSlice.VideoState.constructor | frontend/src/store/slices/videoSlice.ts:35-45 | the initial state: empty lists, no current video, not loading, no error, page 1 of 1, more to load |
| VideoSlice.VideoState.ClearVideoError | frontend/src/store/slices/videoSlice.ts:153-155 | only the error is cleared |
| VideoSlice.VideoState.ClearCurrentVideo | frontend/src/store/slices/videoSlice.ts:156-158 | only the current video is cleared |
| VideoSlice.VideoState.ResetVideos | frontend/src/store/slices/videoSlice.ts:159-163 | the list empties, page becomes 1 and hasMore true; every other field stays |
| VideoSlice.VideoState.Pending | frontend/src/store/slices/videoSlice.ts:168-171 | the pending case of `fetchVideos` (and, identically, of `fetchVideoById`): loading becomes true and the error is cleared; nothing else changes |
| VideoSlice.VideoState.Rejected | frontend/src/store/slices/videoSlice.ts:179-182 | the rejected case of `fetchVideos` (and, identically, of `fetchVideoById`): loading becomes false and the error becomes the payload; nothing else changes |
| VideoSlice.VideoState.FetchVideosFulfilled | frontend/src/store/slices/videoSlice.ts:172-178 | the payload replaces the list on page 1 and is appended after it otherwise; pages comes from the payload; hasMore is old page < pages; page goes up by 1; loading becomes false |
| VideoSlice.VideoState.FeaturedFulfilled | frontend/src/store/slices/videoSlice.ts:184-186 | only the featured list changes, to the payload |
| VideoSlice.VideoState.TrendingFulfilled | frontend/src/store/slices/videoSlice.ts:188-190 | only the trending list changes, to the payload |
| VideoSlice.VideoState.VideoByIdFulfilled | frontend/src/store/slices/videoSlice.ts:196-199 | loading becomes false and the payload becomes the current video |
| VideoSlice.VideoState.CreateFulfilled | frontend/src/store/slices/videoSlice.ts:205-207 | the new video comes first, followed by the old list; the length grows by 1 |
| VideoSlice.VideoState.UpdateFulfilled | frontend/src/store/slices/videoSlice.ts:209-217 | only the first entry with the payload's id is replaced, and the list is unchanged without a match; the current video is replaced exactly when its id matches |
| VideoSlice.VideoState.DeleteFulfilled | frontend/src/store/slices/videoSlice.ts:219-224 | no remaining video has the id and the others keep their order; the current video is cleared exactly when it had the id |
| AuthSlice.SessionUser | frontend/src/store/slices/authSlice.ts:132-135 | the user a successful login keeps on the client has the response's id, username, email, admin flag and token, and no lists |
| AuthSlice.LoginSession | backend/src/controllers/authController.ts:66-77 | after a successful login the client holds the stored user found by that email (its id, username and admin flag), a token naming that id, and no watchlist |
| AuthSlice.WithWatchlist | frontend/src/store/slices/authSlice.ts:82-83 | `{ ...user, watchlist }`: the watchlist becomes the server's list and every other field is kept |
| AuthSlice.WithWatchlistLaws | frontend/src/store/slices/authSlice.ts:82-83 | a later list replaces an earlier one, and putting back a user's own list restores the user |
| AuthSlice.AuthState.constructor | frontend/src/store/slices/authSlice.ts:20-24 | the stored user, if any, with loading false and no error |
| AuthSlice.AuthState.Logout | frontend/src/store/slices/authSlice.ts:115-120 | no user, loading false, no error |
| AuthSlice.AuthState.ClearError | frontend/src/store/slices/authSlice.ts:121-123 | only the error is cleared |
| AuthSlice.AuthState.AuthPending | frontend/src/store/slices/authSlice.ts:128-131 | the pending case of `login` (and, identically, of `register` and `updateProfile`): loading becomes true and the error is cleared; the user stays |
| AuthSlice.AuthState.AuthFulfilled | frontend/src/store/slices/authSlice.ts:132-135 | the fulfilled case of `login` (and, identically, of `register` and `updateProfile`): loading becomes false and the response body, read by `SessionUser`, becomes the user; the error stays |
| AuthSlice.AuthState.AuthRejected | frontend/src/store/slices/authSlice.ts:136-139 | the rejected case of `login` (and, identically, of `register` and `updateProfile`): loading becomes false and the error becomes the payload; the user stays |
| AuthSlice.AuthState.WatchlistFulfilled | frontend/src/store/slices/authSlice.ts:167-177 | with a user signed in at fulfilment, only that user's watchlist changes, to the payload (`WithWatchlist` of the user held then, which is the copy the request stored only if the user did not change in between); without one, nothing changes |

## Left out

- JWT signing and expiry (`generateToken`): a token only names its subject. The
  signing library and the secret from the environment are not part of this model.
- Password hashing and `comparePassword` live in the User model, which is not part
  of this model. The check is a function parameter (`PasswordCheck`), and the stored
  `password` field is whatever the model's save hook would store.
- The User schema is not part of this model either, and the model does not guess at
  it:
  - its uniqueness indexes and validators;
  - the duplicate-key error a profile update to a taken email or username would
    raise;
  - its `isAdmin` default, which is taken to be false.

  `Accounts.UserStore.UpdateProfile` therefore re-checks no uniqueness, as the
  handler does not.
- Accounts.Login: models `findOne` as the first user with that email. "Some user
  with that email" holds only when emails are unique (`Accounts.LoginSucceedsIff`).
- The keyword is a `$regex`. The model treats it as a literal substring with ASCII
  case folding. Regular-expression metacharacters and Unicode case folding are not
  modelled.
- The text index on title, description and genre is never used by the handlers, so
  it is not modelled.
- `populate` and `select('-password')` in `getUserProfile`: the profile carries
  video ids rather than populated titles and thumbnails.
- Create or update bodies carrying `_id` or `createdAt`: the handlers copy every
  key of the body (`{ ...req.body }` at backend/src/controllers/videoController.ts:100-103
  and `Object.assign` at line 118), so such a body could set either field. The model's
  bodies (`VideoInput`, `VideoPatch`) have no such fields, and that case is not
  modelled.
- Timestamps: `createdAt` is a given natural number, and `updatedAt` is not
  modelled.
- Ties in `createdAt` or `views`: the database leaves their order open, while the
  model uses one stable order. Every property proved is stated by the key order, the
  set of results and positions in that one order.
- Concurrency: the view increment and every other handler are modelled as atomic
  sequential steps. The lost update that a read-then-save increment allows under
  concurrent fetches is not modelled.
- Durations are natural numbers. `Math.floor` on a fractional duration and a
  fractional page number are not modelled. A negative page reaches the database as a
  negative skip, which it refuses; this is modelled as a `QueryError`.
- Ids are natural numbers. A malformed ObjectId, which makes `findById` or
  `new ObjectId(...)` throw, is not modelled.
- Schema type casting (a string where a number is expected) and the status that the
  error middleware, which is not part of this model, gives a validation error are not
  modelled. A refusal is a `ValidationError` naming the failing paths.
- `registerUser`'s "Invalid user data" branch cannot be reached when `User.create`
  returns, so it has no counterpart. Failures thrown by `User.create` belong to the
  User schema, which is not part of this model.
- The axios thunks, the HTTP requests and `localStorage` are not modelled. The
  initial client user is a constructor parameter. The watchlist copy built by the
  thunks is modelled (`AuthSlice.WithWatchlist`), and only its storage is left out.
- Routing, the Express bootstrap, CORS and the database connection are not modelled.
  The authentication and admin middleware appear only as the preconditions and
  caller identities described above.
