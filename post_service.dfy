/**
 * service/impl/PostServiceImpl.java: who may see a post, the vote, edit,
 * delete and hide operations on posts, the admin deletion flag, the post
 * URI, and the comment filter applied to a post's comments.
 *
 * A caller is identified by the id of the user its username resolves to; an
 * id that is not in the user table is a username that resolves to nobody.
 * Each operation returns `Success` or the exception it throws first, and
 * changes nothing when it throws.
 */
module PostService {
  import opened Errors
  import opened VoteLedger
  import opened Model
  import opened JavaText
  import opened UriSanitizer
  import opened CommentTree
  import opened Repository

  // ---- visibility ----

  /** The condition isViewable applies to an anonymous viewer, and to any
      signed-in viewer other than the owner before the block checks. */
  predicate PubliclyVisible(post: Post, owner: User) {
    && !post.isHidden && !post.isDeleted && !post.isDeletedByAdmin
    && !owner.isPrivate && !owner.isDeleted && owner.isEnabled
  }

  /** isViewable, once the viewer's username is resolved: `None` is the empty
      username, `Some(v)` the signed-in user `v`. The owner always sees the
      post; anyone else needs it publicly visible and no block either way.
      The shareable flag is never consulted. */
  predicate IsViewable(post: Post, owner: User, viewer: Option<UserId>, blocks: set<Edge>) {
    match viewer
    case None => PubliclyVisible(post, owner)
    case Some(v) =>
      v == post.owner ||
      (PubliclyVisible(post, owner) && (post.owner, v) !in blocks && (v, post.owner) !in blocks)
  }

  /** The owner sees their own post whatever its flags, even once an admin has
      deleted it; nobody else sees an admin-deleted post. */
  lemma AdminDeletedVisibleOnlyToOwner(post: Post, owner: User, viewer: Option<UserId>, blocks: set<Edge>)
    requires post.isDeletedByAdmin
    ensures IsViewable(post, owner, viewer, blocks) <==> viewer == Some(post.owner)
  {
  }

  /** Signing in never hides a post an anonymous visitor can see, unless a
      block stands between the viewer and the owner; and a signed-in
      non-owner sees no more than an anonymous visitor. */
  lemma SigningInKeepsVisibility(post: Post, owner: User, v: UserId, blocks: set<Edge>)
    ensures IsViewable(post, owner, None, blocks) && (post.owner, v) !in blocks && (v, post.owner) !in blocks
      ==> IsViewable(post, owner, Some(v), blocks)
    ensures v != post.owner && IsViewable(post, owner, Some(v), blocks) ==> IsViewable(post, owner, None, blocks)
  {
  }

  /** The checks most post operations begin with: the caller exists, the post
      exists, and the caller may view it. */
  function Access(users: map<UserId, User>, posts: map<PostId, Post>, blocks: set<Edge>,
                  actor: UserId, pid: PostId): (r: Outcome)
    requires pid in posts ==> posts[pid].owner in users
    ensures r == Success <==>
      actor in users && pid in posts && IsViewable(posts[pid], users[posts[pid].owner], Some(actor), blocks)
    ensures r.Failure? ==> r.error == if actor in users then PostNotFound else UserNotFound
  {
    if actor !in users then Failure(UserNotFound)
    else if pid !in posts then Failure(PostNotFound)
    else if !IsViewable(posts[pid], users[posts[pid].owner], Some(actor), blocks) then Failure(PostNotFound)
    else Success
  }

  /** Access followed by the ownership check of the edit, delete and hide
      operations. Since owners always see their posts, it passes exactly when
      the caller exists and owns the post. */
  function OwnerAccess(users: map<UserId, User>, posts: map<PostId, Post>, blocks: set<Edge>,
                       actor: UserId, pid: PostId): (r: Outcome)
    requires pid in posts ==> posts[pid].owner in users
    ensures r == Success <==> actor in users && pid in posts && posts[pid].owner == actor
    ensures r.Failure? && actor in users && pid in posts && posts[pid].owner != actor ==>
      r.error == if IsViewable(posts[pid], users[posts[pid].owner], Some(actor), blocks) then IllegalState else PostNotFound
  {
    var a := Access(users, posts, blocks, actor, pid);
    if a.Failure? then a
    else if posts[pid].owner != actor then Failure(IllegalState)
    else Success
  }

  // ---- votes ----

  method Like(s: Store, actor: UserId, pid: PostId) returns (r: Outcome)
    requires s.Valid()
    modifies s`posts
    ensures s.Valid()
    ensures var a := Access(s.users, old(s.posts), s.blocks, actor, pid);
      r == if a.Failure? then a
           else if actor in old(s.posts[pid].votes.likedBy) then Failure(IllegalState)
           else Success
    ensures r.Failure? ==> s.posts == old(s.posts)
    ensures r.Success? ==>
      s.posts == old(s.posts)[pid := old(s.posts[pid]).(votes := AfterLike(old(s.posts[pid].votes), actor))]
    ensures r.Success? ==> VoteOf(s.posts[pid].votes, actor) == Liked
  {
    if actor !in s.users { return Failure(UserNotFound); }
    if pid !in s.posts { return Failure(PostNotFound); }
    var post := s.posts[pid];
    if !IsViewable(post, s.users[post.owner], Some(actor), s.blocks) { return Failure(PostNotFound); }
    if actor in post.votes.likedBy { return Failure(IllegalState); }
    ApplyLike(s, actor, pid);
    return Success;
  }

  /** The post like step once its checks have passed: the store stays
      consistent and the vote is recorded. */
  method ApplyLike(s: Store, actor: UserId, pid: PostId)
    requires s.Valid() && pid in s.posts && actor !in s.posts[pid].votes.likedBy
    modifies s`posts
    ensures s.Valid()
    ensures s.posts == old(s.posts)[pid := old(s.posts[pid]).(votes := AfterLike(old(s.posts[pid].votes), actor))]
    ensures VoteOf(s.posts[pid].votes, actor) == Liked
  {
    var post := s.posts[pid];
    LikeStep(post.votes, actor);
    VoteStepsKeepConsistency(post.votes, actor);
    PostUpdateKeepsValid(s.users, s.posts, s.comments, s.nextPostId, s.nextCommentId, pid, post.(votes := AfterLike(post.votes, actor)));
    StoreLike(s, actor, pid);
  }

  /** The repository calls like makes once its checks have passed. */
  method StoreLike(s: Store, actor: UserId, pid: PostId)
    requires pid in s.posts
    modifies s`posts
    ensures s.posts == old(s.posts)[pid := old(s.posts[pid]).(votes := AfterLike(old(s.posts[pid].votes), actor))]
  {
    if actor in s.posts[pid].votes.dislikedBy {
      s.RemovePostDislike(actor, pid);
      s.ChangePostRating(pid, 1);
    }
    s.InsertPostLike(actor, pid);
    s.ChangePostRating(pid, 1);
  }

  method RemoveLike(s: Store, actor: UserId, pid: PostId) returns (r: Outcome)
    requires s.Valid()
    modifies s`posts
    ensures s.Valid()
    ensures var a := Access(s.users, old(s.posts), s.blocks, actor, pid);
      r == if a.Failure? then a
           else if actor !in old(s.posts[pid].votes.likedBy) then Failure(IllegalState)
           else Success
    ensures r.Failure? ==> s.posts == old(s.posts)
    ensures r.Success? ==>
      s.posts == old(s.posts)[pid := old(s.posts[pid]).(votes := AfterRemoveLike(old(s.posts[pid].votes), actor))]
    ensures r.Success? ==> VoteOf(s.posts[pid].votes, actor) == NoVote
  {
    if actor !in s.users { return Failure(UserNotFound); }
    if pid !in s.posts { return Failure(PostNotFound); }
    var post := s.posts[pid];
    if !IsViewable(post, s.users[post.owner], Some(actor), s.blocks) { return Failure(PostNotFound); }
    if actor !in post.votes.likedBy { return Failure(IllegalState); }
    ApplyRemoveLike(s, actor, pid);
    return Success;
  }

  /** The post removeLike step once its checks have passed: the store stays
      consistent and the vote is recorded. */
  method ApplyRemoveLike(s: Store, actor: UserId, pid: PostId)
    requires s.Valid() && pid in s.posts && actor in s.posts[pid].votes.likedBy
    modifies s`posts
    ensures s.Valid()
    ensures s.posts == old(s.posts)[pid := old(s.posts[pid]).(votes := AfterRemoveLike(old(s.posts[pid].votes), actor))]
    ensures VoteOf(s.posts[pid].votes, actor) == NoVote
  {
    var post := s.posts[pid];
    RemoveLikeStep(post.votes, actor);
    VoteStepsKeepConsistency(post.votes, actor);
    PostUpdateKeepsValid(s.users, s.posts, s.comments, s.nextPostId, s.nextCommentId, pid, post.(votes := AfterRemoveLike(post.votes, actor)));
    StoreRemoveLike(s, actor, pid);
  }

  /** The repository calls removeLike makes once its checks have passed. */
  method StoreRemoveLike(s: Store, actor: UserId, pid: PostId)
    requires pid in s.posts
    modifies s`posts
    ensures s.posts == old(s.posts)[pid := old(s.posts[pid]).(votes := AfterRemoveLike(old(s.posts[pid].votes), actor))]
  {
    s.RemovePostLike(actor, pid);
    s.ChangePostRating(pid, -1);
  }

  method Dislike(s: Store, actor: UserId, pid: PostId) returns (r: Outcome)
    requires s.Valid()
    modifies s`posts
    ensures s.Valid()
    ensures var a := Access(s.users, old(s.posts), s.blocks, actor, pid);
      r == if a.Failure? then a
           else if actor in old(s.posts[pid].votes.dislikedBy) then Failure(IllegalState)
           else Success
    ensures r.Failure? ==> s.posts == old(s.posts)
    ensures r.Success? ==>
      s.posts == old(s.posts)[pid := old(s.posts[pid]).(votes := AfterDislike(old(s.posts[pid].votes), actor))]
    ensures r.Success? ==> VoteOf(s.posts[pid].votes, actor) == Disliked
  {
    if actor !in s.users { return Failure(UserNotFound); }
    if pid !in s.posts { return Failure(PostNotFound); }
    var post := s.posts[pid];
    if !IsViewable(post, s.users[post.owner], Some(actor), s.blocks) { return Failure(PostNotFound); }
    if actor in post.votes.dislikedBy { return Failure(IllegalState); }
    ApplyDislike(s, actor, pid);
    return Success;
  }

  /** The post dislike step once its checks have passed: the store stays
      consistent and the vote is recorded. */
  method ApplyDislike(s: Store, actor: UserId, pid: PostId)
    requires s.Valid() && pid in s.posts && actor !in s.posts[pid].votes.dislikedBy
    modifies s`posts
    ensures s.Valid()
    ensures s.posts == old(s.posts)[pid := old(s.posts[pid]).(votes := AfterDislike(old(s.posts[pid].votes), actor))]
    ensures VoteOf(s.posts[pid].votes, actor) == Disliked
  {
    var post := s.posts[pid];
    DislikeStep(post.votes, actor);
    VoteStepsKeepConsistency(post.votes, actor);
    PostUpdateKeepsValid(s.users, s.posts, s.comments, s.nextPostId, s.nextCommentId, pid, post.(votes := AfterDislike(post.votes, actor)));
    StoreDislike(s, actor, pid);
  }

  /** The repository calls dislike makes once its checks have passed. */
  method StoreDislike(s: Store, actor: UserId, pid: PostId)
    requires pid in s.posts
    modifies s`posts
    ensures s.posts == old(s.posts)[pid := old(s.posts[pid]).(votes := AfterDislike(old(s.posts[pid].votes), actor))]
  {
    if actor in s.posts[pid].votes.likedBy {
      s.RemovePostLike(actor, pid);
      s.ChangePostRating(pid, -1);
    }
    s.InsertPostDislike(actor, pid);
    s.ChangePostRating(pid, -1);
  }

  method RemoveDislike(s: Store, actor: UserId, pid: PostId) returns (r: Outcome)
    requires s.Valid()
    modifies s`posts
    ensures s.Valid()
    ensures var a := Access(s.users, old(s.posts), s.blocks, actor, pid);
      r == if a.Failure? then a
           else if actor !in old(s.posts[pid].votes.dislikedBy) then Failure(IllegalState)
           else Success
    ensures r.Failure? ==> s.posts == old(s.posts)
    ensures r.Success? ==>
      s.posts == old(s.posts)[pid := old(s.posts[pid]).(votes := AfterRemoveDislike(old(s.posts[pid].votes), actor))]
    ensures r.Success? ==> VoteOf(s.posts[pid].votes, actor) == NoVote
  {
    if actor !in s.users { return Failure(UserNotFound); }
    if pid !in s.posts { return Failure(PostNotFound); }
    var post := s.posts[pid];
    if !IsViewable(post, s.users[post.owner], Some(actor), s.blocks) { return Failure(PostNotFound); }
    if actor !in post.votes.dislikedBy { return Failure(IllegalState); }
    ApplyRemoveDislike(s, actor, pid);
    return Success;
  }

  /** The post removeDislike step once its checks have passed: the store stays
      consistent and the vote is recorded. */
  method ApplyRemoveDislike(s: Store, actor: UserId, pid: PostId)
    requires s.Valid() && pid in s.posts && actor in s.posts[pid].votes.dislikedBy
    modifies s`posts
    ensures s.Valid()
    ensures s.posts == old(s.posts)[pid := old(s.posts[pid]).(votes := AfterRemoveDislike(old(s.posts[pid].votes), actor))]
    ensures VoteOf(s.posts[pid].votes, actor) == NoVote
  {
    var post := s.posts[pid];
    RemoveDislikeStep(post.votes, actor);
    VoteStepsKeepConsistency(post.votes, actor);
    PostUpdateKeepsValid(s.users, s.posts, s.comments, s.nextPostId, s.nextCommentId, pid, post.(votes := AfterRemoveDislike(post.votes, actor)));
    StoreRemoveDislike(s, actor, pid);
  }

  /** The repository calls removeDislike makes once its checks have passed. */
  method StoreRemoveDislike(s: Store, actor: UserId, pid: PostId)
    requires pid in s.posts
    modifies s`posts
    ensures s.posts == old(s.posts)[pid := old(s.posts[pid]).(votes := AfterRemoveDislike(old(s.posts[pid].votes), actor))]
  {
    s.RemovePostDislike(actor, pid);
    s.ChangePostRating(pid, 1);
  }

  // ---- editing ----

  method ChangeTitle(s: Store, actor: UserId, pid: PostId, newTitle: string) returns (r: Outcome)
    requires s.Valid()
    modifies s`posts
    ensures s.Valid()
    ensures var a := OwnerAccess(s.users, old(s.posts), s.blocks, actor, pid);
      r == if a.Failure? then a
           else if old(s.posts[pid].isDeleted || s.posts[pid].isDeletedByAdmin) then Failure(IllegalState)
           else if old(s.posts[pid].title) == newTitle then Failure(IllegalArgument)
           else Success
    ensures r.Failure? ==> s.posts == old(s.posts)
    ensures r.Success? ==> s.posts == old(s.posts)[pid := old(s.posts[pid]).(title := newTitle)]
  {
    if actor !in s.users { return Failure(UserNotFound); }
    if pid !in s.posts { return Failure(PostNotFound); }
    var post := s.posts[pid];
    if !IsViewable(post, s.users[post.owner], Some(actor), s.blocks) { return Failure(PostNotFound); }
    if actor != post.owner { return Failure(IllegalState); }
    if post.isDeleted || post.isDeletedByAdmin { return Failure(IllegalState); }
    if post.title == newTitle { return Failure(IllegalArgument); }
    s.SetTitle(pid, newTitle);
    PostUpdateKeepsValid(s.users, old(s.posts), s.comments, s.nextPostId, s.nextCommentId, pid, s.posts[pid]);
    return Success;
  }

  method ChangeContent(s: Store, actor: UserId, pid: PostId, newContent: string) returns (r: Outcome)
    requires s.Valid()
    modifies s`posts
    ensures s.Valid()
    ensures var a := OwnerAccess(s.users, old(s.posts), s.blocks, actor, pid);
      r == if a.Failure? then a
           else if old(s.posts[pid].isDeleted || s.posts[pid].isDeletedByAdmin) then Failure(IllegalState)
           else if old(s.posts[pid].content) == newContent then Failure(IllegalArgument)
           else Success
    ensures r.Failure? ==> s.posts == old(s.posts)
    ensures r.Success? ==> s.posts == old(s.posts)[pid := old(s.posts[pid]).(content := newContent)]
  {
    if actor !in s.users { return Failure(UserNotFound); }
    if pid !in s.posts { return Failure(PostNotFound); }
    var post := s.posts[pid];
    if !IsViewable(post, s.users[post.owner], Some(actor), s.blocks) { return Failure(PostNotFound); }
    if actor != post.owner { return Failure(IllegalState); }
    if post.isDeleted || post.isDeletedByAdmin { return Failure(IllegalState); }
    if post.content == newContent { return Failure(IllegalArgument); }
    s.SetPostContent(pid, newContent);
    PostUpdateKeepsValid(s.users, old(s.posts), s.comments, s.nextPostId, s.nextCommentId, pid, s.posts[pid]);
    return Success;
  }

  // ---- deleting and hiding ----

  method TempDelete(s: Store, actor: UserId, pid: PostId) returns (r: Outcome)
    requires s.Valid()
    modifies s`posts
    ensures s.Valid()
    ensures var a := OwnerAccess(s.users, old(s.posts), s.blocks, actor, pid);
      r == if a.Failure? then a
           else if old(s.posts[pid].isDeleted) then Failure(IllegalState)
           else Success
    ensures r.Failure? ==> s.posts == old(s.posts)
    ensures r.Success? ==> s.posts == old(s.posts)[pid := old(s.posts[pid]).(isDeleted := true)]
  {
    if actor !in s.users { return Failure(UserNotFound); }
    if pid !in s.posts { return Failure(PostNotFound); }
    var post := s.posts[pid];
    if !IsViewable(post, s.users[post.owner], Some(actor), s.blocks) { return Failure(PostNotFound); }
    if post.owner != actor { return Failure(IllegalState); }
    if post.isDeleted { return Failure(IllegalState); }
    s.SetPostDeleted(pid, true);
    PostUpdateKeepsValid(s.users, old(s.posts), s.comments, s.nextPostId, s.nextCommentId, pid, s.posts[pid]);
    return Success;
  }

  /** undelete looks the post up first and resolves the caller only inside
      isViewable, where an empty username means an anonymous viewer. It never
      checks ownership, but only the owner can see a deleted post, so only
      the owner can undelete it. */
  method Undelete(s: Store, viewer: Option<UserId>, pid: PostId) returns (r: Outcome)
    requires s.Valid()
    modifies s`posts
    ensures s.Valid()
    ensures r == if pid !in old(s.posts) then Failure(PostNotFound)
                 else if viewer.Some? && viewer.value !in s.users then Failure(UserNotFound)
                 else if !IsViewable(old(s.posts[pid]), s.users[old(s.posts[pid].owner)], viewer, s.blocks)
                   then Failure(PostNotFound)
                 else if !old(s.posts[pid].isDeleted) then Failure(IllegalState)
                 else Success
    ensures r.Failure? ==> s.posts == old(s.posts)
    ensures r.Success? ==> s.posts == old(s.posts)[pid := old(s.posts[pid]).(isDeleted := false)]
    ensures r.Success? ==> viewer == Some(old(s.posts[pid].owner))
  {
    if pid !in s.posts { return Failure(PostNotFound); }
    var post := s.posts[pid];
    if viewer.Some? && viewer.value !in s.users { return Failure(UserNotFound); }
    if !IsViewable(post, s.users[post.owner], viewer, s.blocks) { return Failure(PostNotFound); }
    if !post.isDeleted { return Failure(IllegalState); }
    s.SetPostDeleted(pid, false);
    PostUpdateKeepsValid(s.users, old(s.posts), s.comments, s.nextPostId, s.nextCommentId, pid, s.posts[pid]);
    return Success;
  }

  /** permanentlyDelete removes the post and, by the cascade, all its comments. */
  method PermanentlyDelete(s: Store, actor: UserId, pid: PostId) returns (r: Outcome)
    requires s.Valid()
    modifies s`posts, s`comments
    ensures s.Valid()
    ensures r == OwnerAccess(s.users, old(s.posts), s.blocks, actor, pid)
    ensures r.Failure? ==> s.posts == old(s.posts) && s.comments == old(s.comments)
    ensures r.Success? ==> s.posts == old(s.posts) - {pid}
    ensures r.Success? ==> s.comments == old(s.comments) - CommentsOf(old(s.comments), pid)
    ensures r.Success? ==> forall c :: c in s.comments ==> s.comments[c].parentPost != pid
  {
    if actor !in s.users { return Failure(UserNotFound); }
    if pid !in s.posts { return Failure(PostNotFound); }
    var post := s.posts[pid];
    if !IsViewable(post, s.users[post.owner], Some(actor), s.blocks) { return Failure(PostNotFound); }
    if post.owner != actor { return Failure(IllegalState); }
    PostCascadeKeepsLinks(s.comments, pid);
    s.DeletePost(pid);
    return Success;
  }

  method Hide(s: Store, actor: UserId, pid: PostId) returns (r: Outcome)
    requires s.Valid()
    modifies s`posts
    ensures s.Valid()
    ensures var a := OwnerAccess(s.users, old(s.posts), s.blocks, actor, pid);
      r == if a.Failure? then a
           else if old(s.posts[pid].isHidden) then Failure(IllegalState)
           else Success
    ensures r.Failure? ==> s.posts == old(s.posts)
    ensures r.Success? ==> s.posts == old(s.posts)[pid := old(s.posts[pid]).(isHidden := true)]
  {
    if actor !in s.users { return Failure(UserNotFound); }
    if pid !in s.posts { return Failure(PostNotFound); }
    var post := s.posts[pid];
    if !IsViewable(post, s.users[post.owner], Some(actor), s.blocks) { return Failure(PostNotFound); }
    if post.owner != actor { return Failure(IllegalState); }
    if post.isHidden { return Failure(IllegalState); }
    s.SetPostHidden(pid, true);
    PostUpdateKeepsValid(s.users, old(s.posts), s.comments, s.nextPostId, s.nextCommentId, pid, s.posts[pid]);
    return Success;
  }

  /** unhide skips the visibility check and reports a foreign post as not found. */
  method Unhide(s: Store, actor: UserId, pid: PostId) returns (r: Outcome)
    requires s.Valid()
    modifies s`posts
    ensures s.Valid()
    ensures r == if actor !in s.users then Failure(UserNotFound)
                 else if pid !in old(s.posts) then Failure(PostNotFound)
                 else if old(s.posts[pid].owner) != actor then Failure(PostNotFound)
                 else if !old(s.posts[pid].isHidden) then Failure(IllegalState)
                 else Success
    ensures r.Failure? ==> s.posts == old(s.posts)
    ensures r.Success? ==> s.posts == old(s.posts)[pid := old(s.posts[pid]).(isHidden := false)]
  {
    if actor !in s.users { return Failure(UserNotFound); }
    if pid !in s.posts { return Failure(PostNotFound); }
    var post := s.posts[pid];
    if post.owner != actor { return Failure(PostNotFound); }
    if !post.isHidden { return Failure(IllegalState); }
    s.SetPostHidden(pid, false);
    PostUpdateKeepsValid(s.users, old(s.posts), s.comments, s.nextPostId, s.nextCommentId, pid, s.posts[pid]);
    return Success;
  }

  // ---- admin ----

  /** tempDeleteByAdmin: the admin role is checked by the caller; only the admin flag is consulted. */
  method TempDeleteByAdmin(s: Store, pid: PostId) returns (r: Outcome)
    requires s.Valid()
    modifies s`posts
    ensures s.Valid()
    ensures r == if pid !in old(s.posts) then Failure(PostNotFound)
                 else if old(s.posts[pid].isDeletedByAdmin) then Failure(IllegalState)
                 else Success
    ensures r.Failure? ==> s.posts == old(s.posts)
    ensures r.Success? ==> s.posts == old(s.posts)[pid := old(s.posts[pid]).(isDeletedByAdmin := true)]
  {
    if pid !in s.posts { return Failure(PostNotFound); }
    if s.posts[pid].isDeletedByAdmin { return Failure(IllegalState); }
    s.SetDeletedByAdmin(pid, true);
    PostUpdateKeepsValid(s.users, old(s.posts), s.comments, s.nextPostId, s.nextCommentId, pid, s.posts[pid]);
    return Success;
  }

  method UndeleteByAdmin(s: Store, pid: PostId) returns (r: Outcome)
    requires s.Valid()
    modifies s`posts
    ensures s.Valid()
    ensures r == if pid !in old(s.posts) then Failure(PostNotFound)
                 else if !old(s.posts[pid].isDeletedByAdmin) then Failure(IllegalState)
                 else Success
    ensures r.Failure? ==> s.posts == old(s.posts)
    ensures r.Success? ==> s.posts == old(s.posts)[pid := old(s.posts[pid]).(isDeletedByAdmin := false)]
  {
    if pid !in s.posts { return Failure(PostNotFound); }
    if !s.posts[pid].isDeletedByAdmin { return Failure(IllegalState); }
    s.SetDeletedByAdmin(pid, false);
    PostUpdateKeepsValid(s.users, old(s.posts), s.comments, s.nextPostId, s.nextCommentId, pid, s.posts[pid]);
    return Success;
  }

  // ---- URIs ----

  /** getUriByTitleAndId: the slug of the title, a dash and the decimal id. */
  function UriByTitleAndId(title: string, postId: int): (uri: string)
    ensures forall i :: 0 <= i < |uri| ==> IsSlugChar(uri[i])
  {
    EncodedIsSlug(title + "-" + LongToString(postId));
    Encoded(title + "-" + LongToString(postId))
  }

  /** getIdByUri: parseLong of what follows the last dash (the whole URI when
      there is none); `None` is the NumberFormatException. */
  function IdByUri(uri: string): (id: Option<int>)
    ensures id.Some? ==> IsLong(id.value)
  {
    ParseLong(uri[LastIndexOf(uri, '-') + 1..])
  }

  /** The id of a post is read back from its URI, whatever the title. */
  lemma UriRoundTrip(title: string, postId: int)
    requires 0 <= postId <= LONG_MAX
    ensures IdByUri(UriByTitleAndId(title, postId)) == Some(postId)
  {
    var ds := Digits(postId);
    var y := "-" + ds;
    assert title + "-" + LongToString(postId) == title + y;
    EncodeKeepsSlugSuffix(title, y);
    assert Encoded(title) + y == Encoded(title) + "-" + ds;
    LastDashBeforeTail(Encoded(title), ds);
    ParseLongOfDigits(postId);
  }

  /** The URI the post tests expect for the third user's post. */
  lemma ThirdPostUri()
    ensures UriByTitleAndId("Third user's post", 3) == "third-users-post-3"
  {
    var x := "Third user's post";
    ThirdPostSlug();
    assert LongToString(3) == "3";
    assert x + "-" + "3" == x + "-3";
    EncodeKeepsSlugSuffix(x, "-3");
  }

  lemma ThirdPostSlug()
    ensures Encoded("Third user's post") == "third-users-post"
  {
    ThirdPostLower();
    ThirdPostBuilt("third user's post");
    ThirdPostDashes();
  }

  /** The loop keeps the words and drops the apostrophe. The text is a
      parameter so that the verifier does not evaluate `Built` on a literal. */
  lemma ThirdPostBuilt(t: string)
    requires t == "third user's post"
    ensures Built(t, |t|) == "third users post"
  {
    ThirdPostHead(t);
    BuiltDrops(t, 10);
    ThirdPostTail(t);
    assert "third user" + "s post" == "third users post";
  }

  lemma ThirdPostHead(t: string)
    requires t == "third user's post"
    ensures Built(t, 10) == "third user"
  {
    BuiltAppendsRun(t, 0, 10);
    assert t[0..10] == "third user";
  }

  lemma ThirdPostTail(t: string)
    requires t == "third user's post"
    ensures Built(t, 17) == Built(t, 11) + "s post"
  {
    BuiltAppendsRun(t, 11, 17);
    assert t[11..17] == "s post";
  }

  lemma ThirdPostDashes()
    ensures ReplaceSpaces("third users post") == "third-users-post"
  {
  }

  lemma ThirdPostLower()
    ensures ToLower("Third user's post") == "third user's post"
  {
    var t := ToLower("Third user's post");
    assert t[0] == 't' && t[1] == 'h' && t[2] == 'i' && t[3] == 'r' && t[4] == 'd' && t[5] == ' ';
    assert t[6] == 'u' && t[7] == 's' && t[8] == 'e' && t[9] == 'r' && t[10] == '\'' && t[11] == 's';
    assert t[12] == ' ' && t[13] == 'p' && t[14] == 'o' && t[15] == 's' && t[16] == 't';
  }

  // ---- comment filters ----

  /** The test filterComments applies: a comment survives unless it is
      deleted, hidden or deleted by an admin, or its author is private,
      deleted or disabled. */
  predicate PublicComment(i: Item) {
    !(i.comment.isDeleted || i.comment.isHidden || i.author.isPrivate || i.comment.isDeletedByAdmin
      || i.author.isDeleted || !i.author.isEnabled)
  }

  /** The test filterCommentsAuth applies: the public test, and no block
      either way between the author and the viewer. The viewer's own comments
      get no exemption. */
  predicate CommentVisibleTo(i: Item, viewer: UserId, blocks: set<Edge>) {
    PublicComment(i) && (i.comment.owner, viewer) !in blocks && (viewer, i.comment.owner) !in blocks
  }

  function VisibleTo(viewer: UserId, blocks: set<Edge>): Item -> bool {
    i => CommentVisibleTo(i, viewer, blocks)
  }

  method FilterComments(comments: seq<Thread>) returns (kept: seq<Thread>)
    ensures kept == Pruned(comments, PublicComment)
    ensures AllPass(kept, PublicComment)
  {
    kept := Prune(comments, PublicComment);
    PrunedAllPass(comments, PublicComment);
  }

  method FilterCommentsAuth(comments: seq<Thread>, viewer: UserId, blocks: set<Edge>) returns (kept: seq<Thread>)
    ensures kept == Pruned(comments, VisibleTo(viewer, blocks))
    ensures AllPass(kept, VisibleTo(viewer, blocks))
  {
    kept := Prune(comments, VisibleTo(viewer, blocks));
    PrunedAllPass(comments, VisibleTo(viewer, blocks));
  }

  /** A signed-in viewer is never shown a comment an anonymous visitor would not be shown. */
  lemma SignedInSeesNoMoreComments(comments: seq<Thread>, viewer: UserId, blocks: set<Edge>)
    ensures Ids(Pruned(comments, VisibleTo(viewer, blocks))) <= Ids(Pruned(comments, PublicComment))
  {
    PrunedMonotone(comments, VisibleTo(viewer, blocks), PublicComment);
  }

  /** What the integration tests require of every comment shown to a signed-in
      viewer (at every depth): either it is the viewer's own or it passes the
      full test. */
  predicate TestOracle(i: Item, viewer: UserId, blocks: set<Edge>) {
    i.comment.owner == viewer || CommentVisibleTo(i, viewer, blocks)
  }

  lemma FilterMeetsTestOracle(comments: seq<Thread>, viewer: UserId, blocks: set<Edge>)
    ensures AllPass(Pruned(comments, VisibleTo(viewer, blocks)), i => TestOracle(i, viewer, blocks))
  {
    PrunedAllPass(comments, VisibleTo(viewer, blocks));
    AllPassWeaken(Pruned(comments, VisibleTo(viewer, blocks)), VisibleTo(viewer, blocks),
                  i => TestOracle(i, viewer, blocks));
  }

  /** A comment by someone the viewer has blocked (or who has blocked the
      viewer), at any depth, is removed with every reply below it. */
  lemma BlockRemovesThread(comments: seq<Thread>, viewer: UserId, blocks: set<Edge>, t: Thread)
    requires DistinctIds(comments) && Occurs(t, comments)
    requires (viewer, t.item.comment.owner) in blocks || (t.item.comment.owner, viewer) in blocks
    ensures Ids(Pruned(comments, VisibleTo(viewer, blocks))) !! ({t.item.id} + Ids(t.replies))
  {
    PrunedDropsSubtree(comments, VisibleTo(viewer, blocks), t);
  }

  /** The forest the post service filters is `post.getComments()`, which is
      mapped by `parentPost` and so lists every comment of the post, replies
      included: a reply is loaded both as a root and under its parent. On that
      input a reply that passes survives even when its parent fails, so the
      subtree guarantee of `BlockRemovesThread` does not reach this caller. */
  lemma FlatPostCommentsKeepReplyOfHidden(r: Item, c: Item)
    requires c.comment.parentComment == Some(r.id) && c.comment.parentPost == r.comment.parentPost
    requires !PublicComment(r) && PublicComment(c)
    ensures var forest := [Thread(r, [Thread(c, [])]), Thread(c, [])];
      !DistinctIds(forest) && c.id in Ids(Pruned(forest, PublicComment))
  {
    var leaf := Thread(c, []);
    var forest := [Thread(r, [leaf]), leaf];
    assert forest[..1][..0] == [];
    assert [leaf][..0] == [];
    assert Ids([leaf]) == {c.id};
    assert Ids(forest[..1]) == {r.id, c.id};
    assert Pruned(forest[..1], PublicComment) == [];
    assert Pruned(forest, PublicComment) == [leaf];
  }
}
