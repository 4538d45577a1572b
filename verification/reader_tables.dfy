/**
  The local store the post actions read and write: the post table, the
  per-post like rows and the user table, as one immutable value.

  The like table holds one row per (post, user); the model keeps, per post,
  the list of liking user ids, and a post with no rows has no entry at all.
  Whether the current user likes a post, as far as the like table is
  concerned, is whether the current user's id is among those rows.
 */
module ReaderTables {

  import opened JavaInt
  import opened ReaderModels

  datatype Store = Store(
    posts: map<PostKey, ReaderPost>,
    likes: map<PostKey, seq<UserId>>,
    users: map<UserId, ReaderUser>,
    currentUserId: UserId)

  /** Every cached post is filed under its own (blog id, post id). */
  ghost predicate WellKeyed(s: Store) {
    forall k :: k in s.posts ==> s.posts[k].Key() == k
  }

  /** A post without like rows has no entry in the like table. */
  ghost predicate NoEmptyLikeRows(s: Store) {
    forall k :: k in s.likes ==> |s.likes[k]| > 0
  }

  ghost predicate Valid(s: Store) {
    WellKeyed(s) && NoEmptyLikeRows(s)
  }

  // ---------------------------------------------------------------------
  // Post table
  // ---------------------------------------------------------------------

  /** The stored liked flag; a post that is not cached reads as not liked. */
  function IsPostLikedByCurrentUser(s: Store, key: PostKey): (r: bool)
    ensures key !in s.posts ==> !r
    ensures key in s.posts ==> r == s.posts[key].isLikedByCurrentUser
  {
    key in s.posts && s.posts[key].isLikedByCurrentUser
  }

  /** The stored like count; a post that is not cached reads as 0. */
  function GetNumLikesForPost(s: Store, key: PostKey): (r: Int32)
    ensures key !in s.posts ==> r == 0
    ensures key in s.posts ==> r == s.posts[key].numLikes
  {
    if key in s.posts then s.posts[key].numLikes else 0
  }

  /** Updates the like count and liked flag of a cached post; an uncached post is not created. */
  function SetLikesForPost(s: Store, key: PostKey, numLikes: Int32, liked: bool): (r: Store)
    ensures r.likes == s.likes && r.users == s.users && r.currentUserId == s.currentUserId
    ensures r.posts.Keys == s.posts.Keys
    ensures forall k :: k in s.posts && k != key ==> r.posts[k] == s.posts[k]
    ensures key in s.posts ==>
      r.posts[key] == s.posts[key].(numLikes := numLikes, isLikedByCurrentUser := liked)
    ensures WellKeyed(s) ==> WellKeyed(r)
  {
    if key in s.posts then
      s.(posts := s.posts[key := s.posts[key].(numLikes := numLikes, isLikedByCurrentUser := liked)])
    else
      s
  }

  /** Inserts the post, or replaces the cached post with the same key. */
  function AddOrUpdatePost(s: Store, post: ReaderPost): (r: Store)
    ensures r.likes == s.likes && r.users == s.users && r.currentUserId == s.currentUserId
    ensures r.posts.Keys == s.posts.Keys + {post.Key()}
    ensures post.Key() in r.posts && r.posts[post.Key()] == post
    ensures forall k :: k in s.posts && k != post.Key() ==> r.posts[k] == s.posts[k]
    ensures WellKeyed(s) ==> WellKeyed(r)
  {
    s.(posts := s.posts[post.Key() := post])
  }

  // ---------------------------------------------------------------------
  // Like table
  // ---------------------------------------------------------------------

  /** The ids of the users who like the post, as stored. */
  function GetLikesForPost(s: Store, key: PostKey): (r: seq<UserId>)
    ensures key in s.likes ==> r == s.likes[key]
    ensures key !in s.likes ==> r == []
    ensures NoEmptyLikeRows(s) ==> (|r| == 0 <==> key !in s.likes)
  {
    if key in s.likes then s.likes[key] else []
  }

  /** Replaces all like rows of one post. */
  function SetLikingUserIds(s: Store, key: PostKey, ids: seq<UserId>): (r: Store)
    ensures r.posts == s.posts && r.users == s.users && r.currentUserId == s.currentUserId
    ensures GetLikesForPost(r, key) == ids
    ensures forall k :: k != key ==> GetLikesForPost(r, k) == GetLikesForPost(s, k)
    ensures Valid(s) ==> Valid(r)
  {
    if |ids| == 0 then s.(likes := s.likes - {key}) else s.(likes := s.likes[key := ids])
  }

  /** The id list with every occurrence of `id` removed, order kept. */
  function RemoveId(ids: seq<UserId>, id: UserId): (r: seq<UserId>)
    ensures forall u :: u in r <==> u in ids && u != id
    ensures |r| <= |ids|
  {
    if |ids| == 0 then []
    else (if ids[0] == id then [] else [ids[0]]) + RemoveId(ids[1..], id)
  }

  /** The id list with `id` added at the end unless it is already there. */
  function AddId(ids: seq<UserId>, id: UserId): (r: seq<UserId>)
    ensures forall u :: u in r <==> u in ids || u == id
  {
    if id in ids then ids else ids + [id]
  }

  /** Adds or deletes the current user's like row for the post. */
  function SetCurrentUserLikesPost(s: Store, key: PostKey, liked: bool): (r: Store)
    ensures r.posts == s.posts && r.users == s.users && r.currentUserId == s.currentUserId
    ensures (s.currentUserId in GetLikesForPost(r, key)) == liked
    ensures forall u :: u != s.currentUserId ==>
      (u in GetLikesForPost(r, key) <==> u in GetLikesForPost(s, key))
    ensures forall k :: k != key ==> GetLikesForPost(r, k) == GetLikesForPost(s, k)
    ensures Valid(s) ==> Valid(r)
  {
    var ids := GetLikesForPost(s, key);
    SetLikingUserIds(s, key, if liked then AddId(ids, s.currentUserId) else RemoveId(ids, s.currentUserId))
  }

  // ---------------------------------------------------------------------
  // User table
  // ---------------------------------------------------------------------

  /** Whether no user after position `i` carries the id of the user at `i`. */
  ghost predicate LastWithId(users: seq<ReaderUser>, i: int)
    requires 0 <= i < |users|
  {
    forall j :: i < j < |users| ==> users[j].userId != users[i].userId
  }

  /** Inserts or replaces each user in turn, so a later entry for an id wins. */
  function PutUsers(m: map<UserId, ReaderUser>, users: seq<ReaderUser>): (r: map<UserId, ReaderUser>)
    ensures m.Keys <= r.Keys
    ensures forall u :: u in users ==> u.userId in r
    ensures forall id :: id in r ==> id in m || exists u :: u in users && u.userId == id
    ensures forall id :: id in m && (forall u :: u in users ==> u.userId != id) ==> r[id] == m[id]
    ensures forall i :: 0 <= i < |users| && LastWithId(users, i) ==> r[users[i].userId] == users[i]
    decreases |users|
  {
    if |users| == 0 then m
    else
      var rest := PutUsers(m[users[0].userId := users[0]], users[1..]);
      assert forall i :: 1 <= i < |users| && LastWithId(users, i) ==> LastWithId(users[1..], i - 1);
      rest
  }

  /**
    `after` is `before` with each listed user inserted or replaced: every
    listed id is present with its last entry, no other id appears, and users
    not in the list keep their records.
   */
  ghost predicate UsersUpserted(before: map<UserId, ReaderUser>, after: map<UserId, ReaderUser>,
                                users: seq<ReaderUser>) {
    && before.Keys <= after.Keys
    && (forall u :: u in users ==> u.userId in after)
    && (forall id :: id in after ==> id in before || exists u :: u in users && u.userId == id)
    && (forall i :: 0 <= i < |users| && LastWithId(users, i) ==> after[users[i].userId] == users[i])
    && (forall id :: id in before && (forall u :: u in users ==> u.userId != id) ==> after[id] == before[id])
  }

  function AddOrUpdateUsers(s: Store, users: seq<ReaderUser>): (r: Store)
    ensures r.posts == s.posts && r.likes == s.likes && r.currentUserId == s.currentUserId
    ensures UsersUpserted(s.users, r.users, users)
  {
    s.(users := PutUsers(s.users, users))
  }

  // ---------------------------------------------------------------------
  // Lemmas about the like rows
  // ---------------------------------------------------------------------

  /** Removing an id that is not in the list leaves the list as it is. */
  lemma {:induction false} RemoveAbsentId(ids: seq<UserId>, id: UserId)
    requires id !in ids
    ensures RemoveId(ids, id) == ids
  {
    if |ids| > 0 {
      RemoveAbsentId(ids[1..], id);
      assert ids == [ids[0]] + ids[1..];
    }
  }

  /** Removing an id after appending it is the same as removing it from the original list. */
  lemma {:induction false} RemoveAfterAppend(ids: seq<UserId>, id: UserId)
    ensures RemoveId(ids + [id], id) == RemoveId(ids, id)
  {
    if |ids| == 0 {
      assert RemoveId([id], id) == [] + RemoveId([], id);
    } else {
      assert (ids + [id])[1..] == ids[1..] + [id];
      RemoveAfterAppend(ids[1..], id);
    }
  }

  /**
    Adding the current user's row and then deleting it restores the like
    table exactly, when the user had no row before.
   */
  lemma LikeRowRoundTrip(s: Store, key: PostKey)
    requires Valid(s)
    requires s.currentUserId !in GetLikesForPost(s, key)
    ensures SetCurrentUserLikesPost(SetCurrentUserLikesPost(s, key, true), key, false) == s
  {
    var me := s.currentUserId;
    var ids := GetLikesForPost(s, key);
    var s1 := SetCurrentUserLikesPost(s, key, true);
    assert GetLikesForPost(s1, key) == ids + [me];
    RemoveAfterAppend(ids, me);
    RemoveAbsentId(ids, me);
    var s2 := SetCurrentUserLikesPost(s1, key, false);
    assert GetLikesForPost(s2, key) == ids;
    assert s2.likes == s.likes;
  }
}
