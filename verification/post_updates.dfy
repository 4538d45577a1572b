/**
  Refreshing a cached post from the server (`updatePost`,
  `handleUpdatePostResponse`, `handlePostLikes`) and fetching a post that is
  not cached yet (`requestPost`).

  The server reply is given as an explicit value. The JSON parsing the source
  delegates to other classes is not modelled: a payload carries the post
  parsed from it and, when the reply has a `meta/data/likes` section, the
  users parsed from that section. Post and id-list comparison are parameters.
 */
module PostUpdates {

  import opened Wrappers
  import opened ReaderModels
  import opened ReaderTables

  /** A parsed reply body. */
  datatype Payload = Payload(post: ReaderPost, likingUsers: Option<seq<ReaderUser>>)

  /** How a read request ended: a transport error, or a response whose body may be null. */
  datatype Reply = TransportError | Response(body: Option<Payload>)

  datatype UpdateResult = Changed | Unchanged | Failed

  /** The store after a refresh, and the result delivered to the listener (None when there is no listener). */
  datatype UpdateOutcome = UpdateOutcome(store: Store, delivered: Option<UpdateResult>)

  /** The store after the likes reconciliation, and whether the like rows were replaced. */
  datatype LikesOutcome = LikesOutcome(store: Store, changed: bool)

  /** The store after a cold fetch, and the success flag delivered to the listener, if any. */
  datatype RequestOutcome = RequestOutcome(store: Store, delivered: Option<bool>)

  /** Whether the likes section of `json` names a liking-user list that differs from the stored one. */
  predicate LikesDiffer(s: Store, key: PostKey, json: Payload, sameList: (seq<UserId>, seq<UserId>) -> bool) {
    json.likingUsers.Some? && !sameList(UserIds(json.likingUsers.value), GetLikesForPost(s, key))
  }

  /**
    The post to persist when the fetched candidate differs from the original:
    the candidate's own content and counts, with the original's featured
    image and video kept when the original has them, and the original's
    timestamp and publish date kept always, so the post keeps its place in
    date-sorted lists.
   */
  function ReconcilePost(original: ReaderPost, candidate: ReaderPost): (r: ReaderPost)
    ensures r.Key() == candidate.Key()
    ensures r.title == candidate.title && r.text == candidate.text && r.numReplies == candidate.numReplies
    ensures r.numLikes == candidate.numLikes && r.isLikedByCurrentUser == candidate.isLikedByCurrentUser
    ensures r.isPrivate == candidate.isPrivate
    ensures r.timestamp == original.timestamp && r.published == original.published
    ensures r.featuredImage == (if original.HasFeaturedImage() then original.featuredImage else candidate.featuredImage)
    ensures original.HasFeaturedVideo() ==>
      r.featuredVideo == original.featuredVideo && r.isVideoPress == original.isVideoPress
    ensures !original.HasFeaturedVideo() ==>
      r.featuredVideo == candidate.featuredVideo && r.isVideoPress == candidate.isVideoPress
  {
    var withImage :=
      if original.HasFeaturedImage() then candidate.(featuredImage := original.featuredImage) else candidate;
    var withVideo :=
      if original.HasFeaturedVideo() then
        withImage.(featuredVideo := original.featuredVideo, isVideoPress := original.isVideoPress)
      else withImage;
    withVideo.(timestamp := original.timestamp, published := original.published)
  }

  /** Reconciling an already reconciled post against the same original changes nothing. */
  lemma ReconcileIdempotent(original: ReaderPost, candidate: ReaderPost)
    ensures ReconcilePost(original, ReconcilePost(original, candidate)) == ReconcilePost(original, candidate)
  {
  }

  /** A featured image or video present on either side is never lost by the merge. */
  lemma ReconcileKeepsMedia(original: ReaderPost, candidate: ReaderPost)
    ensures var r := ReconcilePost(original, candidate);
      && (original.HasFeaturedImage() || candidate.HasFeaturedImage() ==> r.HasFeaturedImage())
      && (original.HasFeaturedVideo() || candidate.HasFeaturedVideo() ==> r.HasFeaturedVideo())
  {
  }

  /**
    `handlePostLikes`: replaces the post's like rows (and records the liking
    users) when the reply has a likes section whose id list is not the same
    list as the stored one; reports whether it did.
   */
  function HandlePostLikes(s: Store, post: Option<ReaderPost>, json: Option<Payload>,
                           sameList: (seq<UserId>, seq<UserId>) -> bool): (r: LikesOutcome)
    ensures r.changed <==> post.Some? && json.Some? && LikesDiffer(s, post.value.Key(), json.value, sameList)
    ensures !r.changed ==> r.store == s
    ensures r.changed ==>
      var key := post.value.Key();
      var users := json.value.likingUsers.value;
      && r.store.posts == s.posts
      && r.store.currentUserId == s.currentUserId
      && GetLikesForPost(r.store, key) == UserIds(users)
      && (forall k :: k != key ==> GetLikesForPost(r.store, k) == GetLikesForPost(s, k))
      && UsersUpserted(s.users, r.store.users, users)
    ensures Valid(s) ==> Valid(r.store)
  {
    if post.None? || json.None? then LikesOutcome(s, false)
    else if json.value.likingUsers.None? then LikesOutcome(s, false)
    else
      var key := post.value.Key();
      var users := json.value.likingUsers.value;
      var ids := UserIds(users);
      if sameList(ids, GetLikesForPost(s, key)) then LikesOutcome(s, false)
      else LikesOutcome(SetLikingUserIds(AddOrUpdateUsers(s, users), key, ids), true)
  }

  /**
    `handleUpdatePostResponse`: a null body fails; otherwise the reconciled
    candidate is persisted only if it is not the same post as the original,
    the likes are reconciled regardless, and the result is CHANGED when
    either wrote something.
   */
  function HandleUpdatePostResponse(s: Store, original: ReaderPost, json: Option<Payload>,
                                    samePost: (ReaderPost, ReaderPost) -> bool,
                                    sameList: (seq<UserId>, seq<UserId>) -> bool,
                                    hasListener: bool): (r: UpdateOutcome)
    ensures json.None? ==> r.store == s && r.delivered == (if hasListener then Some(Failed) else None)
    ensures json.Some? ==>
      var candidate := json.value.post;
      var key := candidate.Key();
      var postChanged := !samePost(original, candidate);
      var likesChanged := LikesDiffer(s, key, json.value, sameList);
      && r.store.posts == (if postChanged then s.posts[key := ReconcilePost(original, candidate)] else s.posts)
      && r.store.currentUserId == s.currentUserId
      && (likesChanged ==>
            && GetLikesForPost(r.store, key) == UserIds(json.value.likingUsers.value)
            && UsersUpserted(s.users, r.store.users, json.value.likingUsers.value))
      && (!likesChanged ==> r.store.likes == s.likes && r.store.users == s.users)
      && (forall k :: k != key ==> GetLikesForPost(r.store, k) == GetLikesForPost(s, k))
      && r.delivered == (if !hasListener then None
                         else if postChanged || likesChanged then Some(Changed)
                         else Some(Unchanged))
    ensures Valid(s) ==> Valid(r.store)
  {
    if json.None? then
      UpdateOutcome(s, if hasListener then Some(Failed) else None)
    else
      var candidate := json.value.post;
      var hasChanges := !samePost(original, candidate);
      var s1 := if hasChanges then AddOrUpdatePost(s, ReconcilePost(original, candidate)) else s;
      var likes := HandlePostLikes(s1, Some(candidate), json, sameList);
      var result := if hasChanges || likes.changed then Changed else Unchanged;
      UpdateOutcome(likes.store, if hasListener then Some(result) else None)
  }

  /** `updatePost`: a transport error fails without touching the store; a response is handled as above. */
  function UpdatePost(s: Store, original: ReaderPost, reply: Reply,
                      samePost: (ReaderPost, ReaderPost) -> bool,
                      sameList: (seq<UserId>, seq<UserId>) -> bool,
                      hasListener: bool): (r: UpdateOutcome)
    ensures reply.TransportError? || reply.body.None? ==>
      r.store == s && r.delivered == (if hasListener then Some(Failed) else None)
    ensures r.delivered == Some(Failed) <==> hasListener && (reply.TransportError? || reply.body.None?)
    ensures r.delivered.None? <==> !hasListener
    ensures reply.Response? ==>
      r == HandleUpdatePostResponse(s, original, reply.body, samePost, sameList, hasListener)
    ensures reply.Response? && reply.body.Some? && samePost(original, reply.body.value.post) ==>
      r.store.posts == s.posts
    ensures reply.Response? && reply.body.Some? && !samePost(original, reply.body.value.post) ==>
      var candidate := reply.body.value.post;
      && candidate.Key() in r.store.posts
      && r.store.posts[candidate.Key()].timestamp == original.timestamp
      && r.store.posts[candidate.Key()].published == original.published
    ensures Valid(s) ==> Valid(r.store)
  {
    match reply
    case TransportError => UpdateOutcome(s, if hasListener then Some(Failed) else None)
    case Response(body) => HandleUpdatePostResponse(s, original, body, samePost, sameList, hasListener)
  }

  /**
    Refreshing twice with the same reply: when the server post is the same
    post as the original, the second refresh reports UNCHANGED and writes
    nothing (in particular no timestamp or publish date is rewritten).
   */
  lemma SecondRefreshIsUnchanged(s: Store, original: ReaderPost, json: Payload,
                                 samePost: (ReaderPost, ReaderPost) -> bool,
                                 sameList: (seq<UserId>, seq<UserId>) -> bool)
    requires samePost(original, json.post)
    requires json.likingUsers.Some? ==>
      var ids := UserIds(json.likingUsers.value); sameList(ids, ids)
    ensures
      var first := UpdatePost(s, original, Response(Some(json)), samePost, sameList, true);
      var second := UpdatePost(first.store, original, Response(Some(json)), samePost, sameList, true);
      && first.store.posts == s.posts
      && second.store == first.store
      && second.delivered == Some(Unchanged)
  {
  }

  /**
    `requestPost`: a response stores the parsed post unconditionally,
    reconciles its likes and reports success; an error reports failure and
    leaves the store alone. The requested blog and post ids only address the
    request, so the post is stored under the parsed post's own key. The
    source does not handle a null body here.
   */
  function RequestPost(s: Store, reply: Reply,
                       sameList: (seq<UserId>, seq<UserId>) -> bool,
                       hasListener: bool): (r: RequestOutcome)
    requires reply.Response? ==> reply.body.Some?
    ensures reply.TransportError? ==>
      r.store == s && r.delivered == (if hasListener then Some(false) else None)
    ensures reply.Response? ==>
      var p := reply.body.value.post;
      && r.store.posts == s.posts[p.Key() := p]
      && r.store.currentUserId == s.currentUserId
      && (LikesDiffer(s, p.Key(), reply.body.value, sameList) ==>
            && GetLikesForPost(r.store, p.Key()) == UserIds(reply.body.value.likingUsers.value)
            && UsersUpserted(s.users, r.store.users, reply.body.value.likingUsers.value))
      && (forall k :: k != p.Key() ==> GetLikesForPost(r.store, k) == GetLikesForPost(s, k))
      && (!LikesDiffer(s, p.Key(), reply.body.value, sameList) ==>
            r.store.likes == s.likes && r.store.users == s.users)
      && r.delivered == (if hasListener then Some(true) else None)
    ensures Valid(s) ==> Valid(r.store)
  {
    match reply
    case TransportError => RequestOutcome(s, if hasListener then Some(false) else None)
    case Response(body) =>
      var post := body.value.post;
      var s1 := AddOrUpdatePost(s, post);
      var likes := HandlePostLikes(s1, Some(post), body, sameList);
      RequestOutcome(likes.store, if hasListener then Some(true) else None)
  }

  /**
    A cold fetch followed by a refresh of the fetched post with the same
    reply: the refresh finds nothing to change.
   */
  lemma RefreshAfterColdFetchIsUnchanged(s: Store, json: Payload,
                                         samePost: (ReaderPost, ReaderPost) -> bool,
                                         sameList: (seq<UserId>, seq<UserId>) -> bool)
    requires samePost(json.post, json.post)
    requires json.likingUsers.Some? ==>
      var ids := UserIds(json.likingUsers.value); sameList(ids, ids)
    ensures
      var fetched := RequestPost(s, Response(Some(json)), sameList, true);
      var refreshed := UpdatePost(fetched.store, json.post, Response(Some(json)), samePost, sameList, true);
      && fetched.delivered == Some(true)
      && refreshed.store == fetched.store
      && refreshed.delivered == Some(Unchanged)
  {
  }
}
