/**
  The records the reader works on: a post as cached locally and a user who
  liked a post. Only the fields the post actions read or write are modelled;
  `title`, `text` and `numReplies` stand for the post's server-owned content.
 */
module ReaderModels {

  import opened JavaInt

  /** Remote ids are Java `long`s; no arithmetic is done on them. */
  type BlogId = int
  type PostId = int
  type UserId = int

  /** A post is identified by its blog and its id within that blog. */
  datatype PostKey = PostKey(blogId: BlogId, postId: PostId)

  datatype ReaderPost = ReaderPost(
    blogId: BlogId,
    postId: PostId,
    title: string,
    text: string,
    numReplies: Int32,
    numLikes: Int32,
    isLikedByCurrentUser: bool,
    isPrivate: bool,
    timestamp: int,
    published: string,
    featuredImage: string,
    featuredVideo: string,
    isVideoPress: bool)
  {
    function Key(): PostKey {
      PostKey(blogId, postId)
    }

    /** A featured image is present when its URL is non-empty. */
    predicate HasFeaturedImage() {
      |featuredImage| > 0
    }

    /** A featured video is present when its URL is non-empty. */
    predicate HasFeaturedVideo() {
      |featuredVideo| > 0
    }
  }

  datatype ReaderUser = ReaderUser(userId: UserId, displayName: string)

  /** The id list of a user list, in the same order. */
  function UserIds(users: seq<ReaderUser>): (ids: seq<UserId>)
    ensures |ids| == |users|
    ensures forall i :: 0 <= i < |users| ==> ids[i] == users[i].userId
  {
    if |users| == 0 then [] else [users[0].userId] + UserIds(users[1..])
  }
}
