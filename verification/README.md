# Reader post actions — a verified model

This project models the local-state logic of the WordPress Android reader's
`ReaderPostActions`: liking and unliking a post with an optimistic local
update and rollback, refreshing a cached post from the server and merging it
with the cached copy, fetching a post that is not cached yet, and the gate in
front of the page-view tracking request.

The model is functional. The local database is one immutable `Store` value
holding the post table (`posts`, keyed by blog id and post id), the like
table (`likes`, the ids of the users who like each post), the user table
(`users`) and the current user's id. Every operation takes a store and
returns a new store with its result. The network is not modelled: the outcome
of each remote request is an explicit parameter, so the callbacks of the
source become the branches of a function.

Modules, one per concern:

- `Wrappers`: `Option`, for the references the Java code lets be null.
- `JavaInt`: Java's 32-bit `int`, with explicit two's-complement wrap-around.
- `ReaderModels`: `ReaderPost`, `ReaderUser`, `PostKey`.
- `ReaderTables`: the store and the table operations the actions call.
- `LikeActions`: `performLikeAction` and its response handlers.
- `PostUpdates`: `updatePost`, `handleUpdatePostResponse`, `handlePostLikes`, `requestPost`.
- `PageViews`: the admin/private gate of `bumpPageViewForPost`.

Points where the model fixes behaviour that lies outside the modelled class:

- The table classes lie outside the modelled class. The post table is
  modelled so that an uncached post reads as not liked with 0 likes, and
  setting the likes of an uncached post creates nothing (an SQL `UPDATE`).
  A post's like rows are the stored id list exactly as written, so an id that
  a likes section repeats is stored twice. The current user's like flag
  in that table is whether their id is among the post's rows. A post with no
  rows has no entry in the map.
- Like counts are Java `int`s. Liking a post that has `Integer.MAX_VALUE`
  likes wraps to a negative number, which the floor turns into 0. Unliking at
  `Integer.MIN_VALUE` wraps to `Integer.MAX_VALUE`. `NewLikeCount` states both.
- The rollback after a failed like request writes the like count and liked
  flag of the `post` object the caller passed in. These are not the values
  the action read from the store. So the rollback restores the pre-toggle
  values only when the snapshot is current. `FailedLikeRestoresStore` proves
  this case. `StaleSnapshotRollback` shows an input where the snapshot is
  stale and the rollback does not restore them.
- `hasFeaturedImage` and `hasFeaturedVideo` lie outside the modelled class.
  They are modelled as "the URL is non-empty".
- `isSameList` is a parameter; no order property is claimed.

## Model

| member | source | states |
|---|---|---|
| JavaInt.Add | WordPress/src/main/java/org/wordpress/android/ui/reader/actions/ReaderPostActions.java:58 | Java `int` addition: the exact sum when it fits, otherwise the sum shifted by 2^32 |
| LikeActions.NewLikeCount | WordPress/src/main/java/org/wordpress/android/ui/reader/actions/ReaderPostActions.java:57-61 | the optimistic count is never negative; it is max(current+1, 0) on like and max(current−1, 0) on unlike, except the two int-overflow edges, which are stated exactly |
| LikeActions.PerformLikeAction | WordPress/src/main/java/org/wordpress/android/ui/reader/actions/ReaderPostActions.java:49-63 | the action is performed iff the stored liked flag differs from the request; if not performed, the store is unchanged; if performed, a cached post gets the new count and the requested flag, the current user's like row is present iff liking, and no other post, like row or user changes |
| LikeActions.CompleteLikeAction | WordPress/src/main/java/org/wordpress/android/ui/reader/actions/ReaderPostActions.java:73-93 | success leaves the store as it is; failure, applied to whatever the store then holds, sets the post's count and liked flag and the current user's like row to the snapshot `post`'s values and touches nothing else |
| LikeActions.LikeAction | WordPress/src/main/java/org/wordpress/android/ui/reader/actions/ReaderPostActions.java:47-96 | the whole action returns true iff the flag differed; with no request nothing changes; a confirmed request keeps the optimistic state; a failed one is the rollback applied to the optimistic store, so a cached post holds the snapshot's count and flag, the current user's like row follows the snapshot's flag, and nothing else changes |
| LikeActions.LikeStepsKeepFlagsAgreeing | WordPress/src/main/java/org/wordpress/android/ui/reader/actions/ReaderPostActions.java:62-91 | the optimistic step and the rollback both keep the post table's liked flag in agreement with the current user's like row |
| LikeActions.FailedLikeRestoresStore | WordPress/src/main/java/org/wordpress/android/ui/reader/actions/ReaderPostActions.java:56-91 | with a current snapshot and no like row for the user, a failed like returns true and leaves the whole store exactly as before |
| LikeActions.FailedUnlikeRestoresLikeState | WordPress/src/main/java/org/wordpress/android/ui/reader/actions/ReaderPostActions.java:56-91 | with a current snapshot, a failed unlike restores the post table and the current user's like row |
| LikeActions.LikeThenUnlikeRestoresPost | WordPress/src/main/java/org/wordpress/android/ui/reader/actions/ReaderPostActions.java:57-62 | like then unlike, both confirmed, give back the original post record when the count was in 0..MAX−1 |
| LikeActions.StaleSnapshotRollback | WordPress/src/main/java/org/wordpress/android/ui/reader/actions/ReaderPostActions.java:50-91 | the rollback restores the snapshot's count (3), not the count the action read from the store (5) |
| LikeActions.LikeScenario | WordPress/src/main/java/org/wordpress/android/ui/reader/actions/ReaderPostActions.java:47-96 | a post with 3 likes, not liked: liking shows 4 and liked at once, and a failed request brings back 3, not liked, and the original store |
| ReaderTables.IsPostLikedByCurrentUser | WordPress/src/main/java/org/wordpress/android/ui/reader/actions/ReaderPostActions.java:50 | the stored liked flag of a cached post; a post that is not cached reads as not liked |
| ReaderTables.GetNumLikesForPost | WordPress/src/main/java/org/wordpress/android/ui/reader/actions/ReaderPostActions.java:57 | the stored like count of a cached post; a post that is not cached reads as 0 |
| ReaderTables.SetLikesForPost | WordPress/src/main/java/org/wordpress/android/ui/reader/actions/ReaderPostActions.java:62 | (also the rollback write at line 90) a cached post gets the given count and liked flag with every other field kept; an uncached post is not created; no other post and no other table changes |
| ReaderTables.AddOrUpdatePost | WordPress/src/main/java/org/wordpress/android/ui/reader/actions/ReaderPostActions.java:165 | (also the cold-fetch write at line 223) the post is stored under its own key, replacing any cached post with that key; no other post and no other table changes |
| ReaderTables.GetLikesForPost | WordPress/src/main/java/org/wordpress/android/ui/reader/actions/ReaderPostActions.java:203 | the stored liking-user ids of the post; a post with no like rows reads as the empty list, and in a store without empty entries the list is empty exactly when the post has no rows |
| ReaderModels.UserIds | WordPress/src/main/java/org/wordpress/android/ui/reader/actions/ReaderPostActions.java:201 | the id list of the parsed liking users, same length and same order |
| ReaderTables.SetCurrentUserLikesPost | WordPress/src/main/java/org/wordpress/android/ui/reader/actions/ReaderPostActions.java:63 | afterwards the current user's like row is present iff `liked`; no other user's row for the post and no other post's rows change |
| ReaderTables.LikeRowRoundTrip | WordPress/src/main/java/org/wordpress/android/ui/reader/actions/ReaderPostActions.java:63-91 | adding the current user's like row and then deleting it restores the like table exactly |
| ReaderTables.AddOrUpdateUsers | WordPress/src/main/java/org/wordpress/android/ui/reader/actions/ReaderPostActions.java:208 | every liking user is stored; for a repeated id the last entry wins; users not in the list keep their records |
| ReaderTables.SetLikingUserIds | WordPress/src/main/java/org/wordpress/android/ui/reader/actions/ReaderPostActions.java:209 | the post's like rows become exactly the given id list; other posts' rows and the other tables are unchanged |
| PostUpdates.ReconcilePost | WordPress/src/main/java/org/wordpress/android/ui/reader/actions/ReaderPostActions.java:146-163 | the merged post has the candidate's identity, content and counts, the original's timestamp and publish date, the original's featured image if it had one, and the original's featured video and VideoPress flag if it had a video; otherwise the candidate's |
| PostUpdates.ReconcileIdempotent | WordPress/src/main/java/org/wordpress/android/ui/reader/actions/ReaderPostActions.java:149-163 | merging an already merged post against the same original changes nothing |
| PostUpdates.ReconcileKeepsMedia | WordPress/src/main/java/org/wordpress/android/ui/reader/actions/ReaderPostActions.java:149-157 | a featured image or video present on either side is still present after the merge |
| PostUpdates.HandlePostLikes | WordPress/src/main/java/org/wordpress/android/ui/reader/actions/ReaderPostActions.java:190-211 | returns true iff the post and body are present, the likes section exists and its id list is not the same list as the stored one; if false, nothing changes; if true, the post's rows become the parsed ids, the liking users are stored and nothing else changes |
| PostUpdates.HandleUpdatePostResponse | WordPress/src/main/java/org/wordpress/android/ui/reader/actions/ReaderPostActions.java:126-184 | a null body reports FAILED and writes nothing; otherwise the post table gains the merged post iff it is not the same post, the like rows are replaced iff they differ, the result is CHANGED iff either happened, else UNCHANGED, and nothing is delivered without a listener |
| PostUpdates.UpdatePost | WordPress/src/main/java/org/wordpress/android/ui/reader/actions/ReaderPostActions.java:103-124 | FAILED is delivered exactly on a transport error or a null body, which write nothing; a response is handled exactly as `HandleUpdatePostResponse` states (CHANGED or UNCHANGED, post, like-row and user writes); the same post leaves the post table untouched; a persisted post keeps the original's timestamp and publish date |
| PostUpdates.SecondRefreshIsUnchanged | WordPress/src/main/java/org/wordpress/android/ui/reader/actions/ReaderPostActions.java:141-175 | refreshing twice with a reply that holds the same post: the post table is never written and the second refresh reports UNCHANGED and writes nothing |
| PostUpdates.RequestPost | WordPress/src/main/java/org/wordpress/android/ui/reader/actions/ReaderPostActions.java:216-241 | a response stores the parsed post unconditionally under its own key, reconciles its likes (replacing only that post's rows and upserting the liking users) and reports true; an error reports false and leaves the store unchanged |
| PostUpdates.RefreshAfterColdFetchIsUnchanged | WordPress/src/main/java/org/wordpress/android/ui/reader/actions/ReaderPostActions.java:221-227 | refreshing a freshly fetched post with the same reply reports UNCHANGED and writes nothing |
| PageViews.BumpPageViewForPost | WordPress/src/main/java/org/wordpress/android/ui/reader/actions/ReaderPostActions.java:252-263 | a view is reported iff the post is cached and (it is private or the user is not an admin of its blog), and it names the cached post |
| PageViews.BumpReportsRequestedPost | WordPress/src/main/java/org/wordpress/android/ui/reader/actions/ReaderPostActions.java:244-260 | in a well-keyed store the reported view names exactly the requested blog and post |
| PageViews.AdminViewOfPublicPostNotCounted | WordPress/src/main/java/org/wordpress/android/ui/reader/actions/ReaderPostActions.java:258-263 | an admin viewing a public post of their blog is never counted |
| PageViews.PrivatePostAlwaysCounted | WordPress/src/main/java/org/wordpress/android/ui/reader/actions/ReaderPostActions.java:258-263 | a cached private post is always counted |

## Left out

- `ThemeBrowserAdapter.java`: Android cursor-to-view binding with no state logic to model.
- The REST and Volley calls, request paths (lines 65-71, 105, 217) and the request header: remote requests are reduced to an explicit outcome.
- The `Handler` and `Thread` hops in `handleUpdatePostResponse`: parse, merge and persist happen in one step, and the delivered result is returned.
- Races between two like actions on one post are not modelled as concurrency. `CompleteLikeAction` takes whatever store is current when the response arrives, which covers a rollback overwriting a newer optimistic write.
- JSON parsing (`ReaderPost.fromJson`, `ReaderUserList.fromJsonLikes`, `JSONUtils.getJSONChild`): a payload carries the parsed post and the parsed likes section, which is absent when the reply has none.
- `isSamePost` and `isSameList` lie outside the modelled class. They are parameters.
- `isCurrentUserAdminOfRemoteBlogId` is a parameter.
- The tracking-pixel URL (`getTrackingPixelForPost`) depends on a random number and on URL encoding. `BumpPageViewForPost` returns only the blog and post the request would report.
- Logging (`AppLog`) and error-string extraction.
- PostUpdates.RequestPost: a response with a null body is excluded by a precondition. The source passes it to `ReaderPost.fromJson`, whose behaviour on null lies outside the modelled class.
- The internals of `ReaderPostTable`, `ReaderLikeTable` and `ReaderUserTable` lie outside the modelled class. Their read and write behaviour is modelled as described above.
