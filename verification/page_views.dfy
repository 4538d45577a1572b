/**
  The gate in front of the page-view tracking request
  (`bumpPageViewForPost`). Building the tracking URL and sending it are not
  modelled; the result is the (blog id, post id) pair the request would
  report, or None when no request is made. Whether the current user
  administers a blog is a parameter.
 */
module PageViews {

  import opened Wrappers
  import opened ReaderModels
  import opened ReaderTables

  /**
    A view is reported only for a cached post, and not when the current user
    administers the post's blog, unless the post is private.
   */
  function BumpPageViewForPost(s: Store, blogId: BlogId, postId: PostId,
                               isCurrentUserAdminOf: BlogId -> bool): (r: Option<PostKey>)
    ensures r.Some? <==>
      var key := PostKey(blogId, postId);
      key in s.posts && (s.posts[key].isPrivate || !isCurrentUserAdminOf(s.posts[key].blogId))
    ensures r.Some? ==> r.value == s.posts[PostKey(blogId, postId)].Key()
  {
    var key := PostKey(blogId, postId);
    if key !in s.posts then None
    else
      var post := s.posts[key];
      if !post.isPrivate && isCurrentUserAdminOf(post.blogId) then None
      else Some(post.Key())
  }

  /** In a well-keyed store, the reported view is for exactly the requested post. */
  lemma BumpReportsRequestedPost(s: Store, blogId: BlogId, postId: PostId, isCurrentUserAdminOf: BlogId -> bool)
    requires WellKeyed(s)
    requires PostKey(blogId, postId) in s.posts
    requires s.posts[PostKey(blogId, postId)].isPrivate || !isCurrentUserAdminOf(blogId)
    ensures BumpPageViewForPost(s, blogId, postId, isCurrentUserAdminOf) == Some(PostKey(blogId, postId))
  {
  }

  /** An administrator viewing a public post of their own blog is never counted. */
  lemma AdminViewOfPublicPostNotCounted(s: Store, blogId: BlogId, postId: PostId, isCurrentUserAdminOf: BlogId -> bool)
    requires WellKeyed(s)
    requires PostKey(blogId, postId) in s.posts
    requires !s.posts[PostKey(blogId, postId)].isPrivate && isCurrentUserAdminOf(blogId)
    ensures BumpPageViewForPost(s, blogId, postId, isCurrentUserAdminOf).None?
  {
  }

  /** A private post that is cached is always counted, whoever views it. */
  lemma PrivatePostAlwaysCounted(s: Store, blogId: BlogId, postId: PostId, isCurrentUserAdminOf: BlogId -> bool)
    requires PostKey(blogId, postId) in s.posts && s.posts[PostKey(blogId, postId)].isPrivate
    ensures BumpPageViewForPost(s, blogId, postId, isCurrentUserAdminOf).Some?
  {
  }
}
