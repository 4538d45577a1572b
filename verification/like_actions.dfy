/**
  Liking and unliking a post (`performLikeAction`): an optimistic local update
  followed by a remote request whose outcome is passed in explicitly. On
  failure the local state is rolled back to the like count and liked flag of
  the post snapshot the caller passed in, not to the values read from the
  store when the action started.
 */
module LikeActions {

  import opened JavaInt
  import opened ReaderModels
  import opened ReaderTables

  /** How the remote like/unlike request ended. */
  datatype RemoteOutcome = Success | Failure

  /** The store after the action, and whether the action was performed (a request was sent). */
  datatype LikeStep = LikeStep(store: Store, performed: bool)

  /**
    The optimistic like count: one more on like, one fewer on unlike, computed
    in Java int arithmetic and then floored at 0.
   */
  function NewLikeCount(current: Int32, isAskingToLike: bool): (r: Int32)
    ensures r >= 0
    ensures isAskingToLike && current < MaxInt ==> r == if current + 1 < 0 then 0 else current + 1
    ensures isAskingToLike && current == MaxInt ==> r == 0
    ensures !isAskingToLike && current > MinInt ==> r == if current - 1 < 0 then 0 else current - 1
    ensures !isAskingToLike && current == MinInt ==> r == MaxInt
  {
    var n := if isAskingToLike then Add(current, 1) else Add(current, -1);
    if n < 0 then 0 else n
  }

  /**
    The synchronous part of `performLikeAction`: nothing happens when the
    stored flag already matches the request; otherwise the new count and
    flag are written to the post table, the current user's like row is
    added or removed, and the remote request is sent.
   */
  function PerformLikeAction(s: Store, post: ReaderPost, isAskingToLike: bool): (r: LikeStep)
    ensures r.performed <==> IsPostLikedByCurrentUser(s, post.Key()) != isAskingToLike
    ensures !r.performed ==> r.store == s
    ensures r.performed ==>
      var key := post.Key();
      && r.store.users == s.users
      && r.store.currentUserId == s.currentUserId
      && r.store.posts.Keys == s.posts.Keys
      && (forall k :: k in s.posts && k != key ==> r.store.posts[k] == s.posts[k])
      && (key in s.posts ==>
            r.store.posts[key] == s.posts[key].(numLikes := NewLikeCount(s.posts[key].numLikes, isAskingToLike),
                                                isLikedByCurrentUser := isAskingToLike))
      && (s.currentUserId in GetLikesForPost(r.store, key)) == isAskingToLike
      && (forall u :: u != s.currentUserId ==>
            (u in GetLikesForPost(r.store, key) <==> u in GetLikesForPost(s, key)))
      && (forall k :: k != key ==> GetLikesForPost(r.store, k) == GetLikesForPost(s, k))
    ensures Valid(s) ==> Valid(r.store)
  {
    var key := post.Key();
    if IsPostLikedByCurrentUser(s, key) == isAskingToLike then
      LikeStep(s, false)
    else
      var newNumLikes := NewLikeCount(GetNumLikesForPost(s, key), isAskingToLike);
      var s1 := SetLikesForPost(s, key, newNumLikes, isAskingToLike);
      LikeStep(SetCurrentUserLikesPost(s1, key, isAskingToLike), true)
  }

  /**
    The response handlers of the remote request, applied to whatever the
    store holds when the response arrives. Success changes nothing; failure
    writes back the snapshot's count and liked flag.
   */
  function CompleteLikeAction(s: Store, post: ReaderPost, outcome: RemoteOutcome): (r: Store)
    ensures outcome == Success ==> r == s
    ensures outcome == Failure ==>
      var key := post.Key();
      && r.users == s.users
      && r.currentUserId == s.currentUserId
      && r.posts.Keys == s.posts.Keys
      && (forall k :: k in s.posts && k != key ==> r.posts[k] == s.posts[k])
      && (key in s.posts ==>
            r.posts[key] == s.posts[key].(numLikes := post.numLikes,
                                          isLikedByCurrentUser := post.isLikedByCurrentUser))
      && (s.currentUserId in GetLikesForPost(r, key)) == post.isLikedByCurrentUser
      && (forall u :: u != s.currentUserId ==>
            (u in GetLikesForPost(r, key) <==> u in GetLikesForPost(s, key)))
      && (forall k :: k != key ==> GetLikesForPost(r, k) == GetLikesForPost(s, k))
    ensures Valid(s) ==> Valid(r)
  {
    match outcome
    case Success => s
    case Failure =>
      var key := post.Key();
      var s1 := SetLikesForPost(s, key, post.numLikes, post.isLikedByCurrentUser);
      SetCurrentUserLikesPost(s1, key, post.isLikedByCurrentUser)
  }

  /**
    The whole action with no other write in between: the optimistic step,
    then, only if a request was sent, its outcome.
   */
  function LikeAction(s: Store, post: ReaderPost, isAskingToLike: bool, outcome: RemoteOutcome): (r: LikeStep)
    ensures r.performed <==> IsPostLikedByCurrentUser(s, post.Key()) != isAskingToLike
    ensures !r.performed ==> r.store == s
    ensures r.performed && outcome == Success ==> r.store == PerformLikeAction(s, post, isAskingToLike).store
    ensures r.performed && outcome == Failure && post.Key() in s.posts ==>
      && post.Key() in r.store.posts
      && r.store.posts[post.Key()].numLikes == post.numLikes
      && r.store.posts[post.Key()].isLikedByCurrentUser == post.isLikedByCurrentUser
    ensures r.performed && outcome == Failure ==>
      && (s.currentUserId in GetLikesForPost(r.store, post.Key())) == post.isLikedByCurrentUser
      && r.store == CompleteLikeAction(PerformLikeAction(s, post, isAskingToLike).store, post, Failure)
  {
    var step := PerformLikeAction(s, post, isAskingToLike);
    if step.performed then LikeStep(CompleteLikeAction(step.store, post, outcome), true) else step
  }

  /** The post table's liked flag agrees with the presence of the current user's like row. */
  ghost predicate LikeFlagsAgree(s: Store, key: PostKey) {
    key in s.posts ==> s.posts[key].isLikedByCurrentUser == (s.currentUserId in GetLikesForPost(s, key))
  }

  /** Both the optimistic step and a rollback leave the two like records of the post in agreement. */
  lemma LikeStepsKeepFlagsAgreeing(s: Store, post: ReaderPost, isAskingToLike: bool, outcome: RemoteOutcome)
    requires LikeFlagsAgree(s, post.Key())
    ensures LikeFlagsAgree(PerformLikeAction(s, post, isAskingToLike).store, post.Key())
    ensures LikeFlagsAgree(CompleteLikeAction(s, post, outcome), post.Key())
  {
  }

  /**
    When the snapshot still matches the store and the current user had no
    like row, a like whose request fails leaves the store exactly as it was.
   */
  lemma FailedLikeRestoresStore(s: Store, post: ReaderPost)
    requires Valid(s)
    requires post.Key() in s.posts
    requires !s.posts[post.Key()].isLikedByCurrentUser && !post.isLikedByCurrentUser
    requires post.numLikes == s.posts[post.Key()].numLikes
    requires s.currentUserId !in GetLikesForPost(s, post.Key())
    ensures LikeAction(s, post, true, Failure) == LikeStep(s, true)
  {
    var key := post.Key();
    var s1 := SetLikesForPost(s, key, NewLikeCount(s.posts[key].numLikes, true), true);
    LikeRowRoundTrip(s1, key);
    var s2 := SetCurrentUserLikesPost(s1, key, true);
    var s3 := SetLikesForPost(s2, key, post.numLikes, false);
    assert s3 == SetCurrentUserLikesPost(s1, key, true).(posts := s.posts);
    assert SetCurrentUserLikesPost(s3, key, false) == s;
  }

  /**
    When the snapshot still matches the store, an unlike whose request fails
    restores the post record and the current user's like row (the row may
    come back at a different position in the list).
   */
  lemma FailedUnlikeRestoresLikeState(s: Store, post: ReaderPost)
    requires post.Key() in s.posts
    requires s.posts[post.Key()].isLikedByCurrentUser && post.isLikedByCurrentUser
    requires post.numLikes == s.posts[post.Key()].numLikes
    ensures var r := LikeAction(s, post, false, Failure);
      && r.performed
      && r.store.posts == s.posts
      && s.currentUserId in GetLikesForPost(r.store, post.Key())
      && r.store.users == s.users
  {
  }

  /**
    A like followed by an unlike, both confirmed, gives back the original
    post record whenever the count was a non-negative int below the maximum.
   */
  lemma LikeThenUnlikeRestoresPost(s: Store, post: ReaderPost)
    requires post.Key() in s.posts
    requires !s.posts[post.Key()].isLikedByCurrentUser
    requires 0 <= s.posts[post.Key()].numLikes < MaxInt
    ensures var s1 := LikeAction(s, post, true, Success).store;
      var s2 := LikeAction(s1, post, false, Success).store;
      s2.posts == s.posts
  {
  }

  /** A plain public post, the base of the worked examples below. */
  const SamplePost := ReaderPost(
    blogId := 0, postId := 0, title := "t", text := "x", numReplies := 0,
    numLikes := 0, isLikedByCurrentUser := false, isPrivate := false,
    timestamp := 0, published := "", featuredImage := "", featuredVideo := "",
    isVideoPress := false)

  /**
    Rollback writes the snapshot's values, not the values the action read:
    with a stale snapshot (3 likes cached in the caller, 5 in the store) a
    failed like leaves 3 in the store rather than the 5 it had before.
   */
  lemma StaleSnapshotRollback()
    ensures
      var key := PostKey(1, 2);
      var stored := SamplePost.(blogId := 1, postId := 2, numLikes := 5, isLikedByCurrentUser := false);
      var snapshot := stored.(numLikes := 3);
      var s := Store(map[key := stored], map[], map[], 7);
      var optimistic := PerformLikeAction(s, snapshot, true).store;
      var r := LikeAction(s, snapshot, true, Failure);
      && optimistic.posts[key].numLikes == 6
      && r.performed
      && r.store.posts[key].numLikes == 3
      && r.store.posts[key].numLikes != s.posts[key].numLikes
  {
  }

  /**
    The worked example: a post with 3 likes that the user does not like is
    liked; the store shows 4 likes and liked at once, and 3 likes and not
    liked again after the request fails.
   */
  lemma LikeScenario()
    ensures
      var key := PostKey(10, 20);
      var p := SamplePost.(blogId := 10, postId := 20, numLikes := 3, isLikedByCurrentUser := false);
      var s := Store(map[key := p], map[], map[], 7);
      var optimistic := PerformLikeAction(s, p, true);
      var r := LikeAction(s, p, true, Failure);
      && optimistic.performed
      && optimistic.store.posts[key].numLikes == 4
      && optimistic.store.posts[key].isLikedByCurrentUser
      && 7 in GetLikesForPost(optimistic.store, key)
      && r.store.posts[key].numLikes == 3
      && !r.store.posts[key].isLikedByCurrentUser
      && r.store == s
  {
  }
}
