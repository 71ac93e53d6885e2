/**
 * service/impl/CommentServiceImpl.java: creating comments and replies, who
 * may see a comment, the vote, delete and hide operations on comments, the
 * comment URI, and the comment filter of the comment listings.
 *
 * As in the post service, a caller is the id its username resolves to (absent
 * from the user table when it resolves to nobody), and every operation
 * returns the exception it throws first and then changes nothing.
 */
module CommentService {
  import opened Errors
  import opened VoteLedger
  import opened Model
  import opened JavaText
  import opened UriSanitizer
  import opened CommentTree
  import opened Repository
  import PostService

  // ---- visibility ----

  /** checkAllowViewing passes: the comment is neither hidden nor deleted and its author is public. */
  predicate AllowViewing(c: Comment, author: User) {
    !(c.isHidden || c.isDeleted || author.isPrivate)
  }

  /** checkAllowViewingAuth passes for viewer `v`: as above, except that an
      author sees their own hidden comment, and no block either way. */
  predicate AllowViewingAuth(c: Comment, author: User, v: UserId, blocks: set<Edge>) {
    !((c.isHidden && c.owner != v) || c.isDeleted || author.isPrivate
      || (c.owner, v) in blocks || (v, c.owner) in blocks)
  }

  /** checkAllowViewingAuth as a whole: it resolves the viewer first. */
  function CheckAllowViewingAuth(users: map<UserId, User>, blocks: set<Edge>, c: Comment, v: UserId): (r: Outcome)
    requires c.owner in users
    ensures r == Success <==> v in users && AllowViewingAuth(c, users[c.owner], v, blocks)
    ensures r.Failure? ==> r.error == if v in users then CommentNotFound else UserNotFound
  {
    if v !in users then Failure(UserNotFound)
    else if !AllowViewingAuth(c, users[c.owner], v, blocks) then Failure(CommentNotFound)
    else Success
  }

  /** A deleted comment, or one whose author is private, is seen by nobody,
      its author included. Its author can see it hidden, provided they have
      not blocked themselves (which the store rules out). */
  lemma AuthorViewing(c: Comment, author: User, blocks: set<Edge>)
    ensures (c.isDeleted || author.isPrivate) ==> forall v :: !AllowViewingAuth(c, author, v, blocks)
    ensures !c.isDeleted && !author.isPrivate && (c.owner, c.owner) !in blocks
      ==> AllowViewingAuth(c, author, c.owner, blocks)
  {
  }

  /** Signed in, a viewer other than the author sees exactly what an anonymous
      visitor sees, minus the comments a block stands in the way of. */
  lemma SigningInAndViewing(c: Comment, author: User, v: UserId, blocks: set<Edge>)
    requires v != c.owner
    ensures AllowViewingAuth(c, author, v, blocks) <==>
      AllowViewing(c, author) && (c.owner, v) !in blocks && (v, c.owner) !in blocks
  {
  }

  /** The checks the vote, permanent delete and hide operations start with. */
  function Access(users: map<UserId, User>, comments: map<CommentId, Comment>, blocks: set<Edge>,
                  actor: UserId, cid: CommentId): (r: Outcome)
    requires cid in comments ==> comments[cid].owner in users
    ensures r == Success <==>
      actor in users && cid in comments && AllowViewingAuth(comments[cid], users[comments[cid].owner], actor, blocks)
    ensures r.Failure? ==> r.error == if actor in users then CommentNotFound else UserNotFound
  {
    if actor !in users then Failure(UserNotFound)
    else if cid !in comments then Failure(CommentNotFound)
    else CheckAllowViewingAuth(users, blocks, comments[cid], actor)
  }

  /** Access followed by the ownership check. It passes exactly when the caller
      owns a comment that is not deleted, whose author is public and which the
      caller has not blocked themselves on. */
  function OwnerAccess(users: map<UserId, User>, comments: map<CommentId, Comment>, blocks: set<Edge>,
                       actor: UserId, cid: CommentId): (r: Outcome)
    requires cid in comments ==> comments[cid].owner in users
    ensures r == Success <==>
      && actor in users && cid in comments && comments[cid].owner == actor
      && !comments[cid].isDeleted && !users[actor].isPrivate && (actor, actor) !in blocks
  {
    var a := Access(users, comments, blocks, actor, cid);
    if a.Failure? then a
    else if comments[cid].owner != actor then Failure(IllegalState)
    else Success
  }

  /** The checks tempDelete and undelete make instead: no visibility check,
      only the blocks either way, then ownership. */
  function OwnerModeration(users: map<UserId, User>, comments: map<CommentId, Comment>, blocks: set<Edge>,
                           actor: UserId, cid: CommentId): (r: Outcome)
    ensures r == Success <==>
      actor in users && cid in comments && comments[cid].owner == actor && (actor, actor) !in blocks
    ensures r.Failure? && actor in users && cid in comments ==>
      r.error == if (actor, comments[cid].owner) in blocks || (comments[cid].owner, actor) in blocks
                 then CommentNotFound else IllegalState
  {
    if actor !in users then Failure(UserNotFound)
    else if cid !in comments then Failure(CommentNotFound)
    else if (actor, comments[cid].owner) in blocks || (comments[cid].owner, actor) in blocks then Failure(CommentNotFound)
    else if comments[cid].owner != actor then Failure(IllegalState)
    else Success
  }

  // ---- creating ----

  /** The checks create makes before it saves, in order. The post's own
      viewing check is the post service's isViewable. */
  function CreateCheck(users: map<UserId, User>, posts: map<PostId, Post>, comments: map<CommentId, Comment>,
                       blocks: set<Edge>, actor: UserId,
                       parentPostId: Option<PostId>, parentCommentId: Option<CommentId>): (r: Outcome)
    requires forall p :: p in posts ==> posts[p].owner in users
    requires forall c :: c in comments ==> comments[c].owner in users
    ensures r == Success ==> actor in users && (parentPostId.Some? != parentCommentId.Some?)
    ensures r == Success && parentPostId.Some? ==>
      var p := parentPostId.value;
      p in posts && PostService.IsViewable(posts[p], users[posts[p].owner], Some(actor), blocks)
    ensures r == Success && parentCommentId.Some? ==>
      var q := parentCommentId.value;
      q in comments && AllowViewingAuth(comments[q], users[comments[q].owner], actor, blocks)
    ensures actor in users && parentPostId.None? && parentCommentId.None? ==> r == Failure(IllegalArgument)
    ensures actor in users && parentPostId.Some? && parentCommentId.Some? ==> r == Failure(IllegalArgument)
  {
    if actor !in users then Failure(UserNotFound)
    else if parentPostId.None? && parentCommentId.None? then Failure(IllegalArgument)
    else if parentPostId.Some? && parentCommentId.Some? then Failure(IllegalArgument)
    else if parentPostId.Some? then
      var p := parentPostId.value;
      if p !in posts then Failure(PostNotFound)
      else if !PostService.IsViewable(posts[p], users[posts[p].owner], Some(actor), blocks) then Failure(PostNotFound)
      else Success
    else
      var q := parentCommentId.value;
      if q !in comments then Failure(CommentNotFound)
      else CheckAllowViewingAuth(users, blocks, comments[q], actor)
  }

  /** create: a top-level comment on a post, or a reply that records its
      parent and the parent's post. Returns the new comment's id. */
  method Create(s: Store, actor: UserId, parentPostId: Option<PostId>, parentCommentId: Option<CommentId>,
                content: string, now: int) returns (r: Result<CommentId>)
    requires s.Valid()
    modifies s`comments, s`nextCommentId
    ensures s.Valid()
    ensures var check := CreateCheck(s.users, s.posts, old(s.comments), s.blocks, actor, parentPostId, parentCommentId);
      if check.Failure? then r == Err(check.error) else r == Ok(old(s.nextCommentId))
    ensures r.Err? ==> s.comments == old(s.comments) && s.nextCommentId == old(s.nextCommentId)
    ensures r.Ok? ==> r.value !in old(s.comments) && s.comments == old(s.comments)[r.value :=
      if parentPostId.Some? then NewComment(content, actor, parentPostId.value, now)
      else NewReply(content, actor, old(s.comments[parentCommentId.value].parentPost), parentCommentId.value, now)]
    ensures r.Ok? ==> s.nextCommentId == old(s.nextCommentId) + 1
  {
    if actor !in s.users { return Err(UserNotFound); }
    if parentPostId.None? && parentCommentId.None? { return Err(IllegalArgument); }
    if parentPostId.Some? && parentCommentId.Some? { return Err(IllegalArgument); }
    var comment: Comment;
    if parentPostId.Some? {
      var p := parentPostId.value;
      if p !in s.posts { return Err(PostNotFound); }
      var post := s.posts[p];
      if !PostService.IsViewable(post, s.users[post.owner], Some(actor), s.blocks) { return Err(PostNotFound); }
      comment := NewComment(content, actor, p, now);
    } else {
      var q := parentCommentId.value;
      if q !in s.comments { return Err(CommentNotFound); }
      var parent := s.comments[q];
      if !AllowViewingAuth(parent, s.users[parent.owner], actor, s.blocks) { return Err(CommentNotFound); }
      comment := NewReply(content, actor, parent.parentPost, q, now);
    }
    var id := s.SaveComment(comment);
    return Ok(id);
  }

  // ---- votes ----

  method Like(s: Store, actor: UserId, cid: CommentId) returns (r: Outcome)
    requires s.Valid()
    modifies s`comments
    ensures s.Valid()
    ensures var a := Access(s.users, old(s.comments), s.blocks, actor, cid);
      r == if a.Failure? then a
           else if actor in old(s.comments[cid].votes.likedBy) then Failure(IllegalState)
           else Success
    ensures r.Failure? ==> s.comments == old(s.comments)
    ensures r.Success? ==>
      s.comments == old(s.comments)[cid := old(s.comments[cid]).(votes := AfterLike(old(s.comments[cid].votes), actor))]
    ensures r.Success? ==> VoteOf(s.comments[cid].votes, actor) == Liked
  {
    var a := Access(s.users, s.comments, s.blocks, actor, cid);
    if a.Failure? { return a; }
    var comment := s.comments[cid];
    if actor in comment.votes.likedBy { return Failure(IllegalState); }
    ApplyLike(s, actor, cid);
    return Success;
  }

  /** The comment like step once its checks have passed: the store stays
      consistent and the vote is recorded. */
  method ApplyLike(s: Store, actor: UserId, cid: CommentId)
    requires s.Valid() && cid in s.comments && actor !in s.comments[cid].votes.likedBy
    modifies s`comments
    ensures s.Valid()
    ensures s.comments ==
      old(s.comments)[cid := old(s.comments[cid]).(votes := AfterLike(old(s.comments[cid].votes), actor))]
    ensures VoteOf(s.comments[cid].votes, actor) == Liked
  {
    var comment := s.comments[cid];
    LikeStep(comment.votes, actor);
    VoteStepsKeepConsistency(comment.votes, actor);
    CommentUpdateKeepsValid(s.users, s.posts, s.comments, s.nextCommentId, cid, comment.(votes := AfterLike(comment.votes, actor)));
    StoreLike(s, actor, cid);
  }

  /** The repository calls like makes once its checks have passed. */
  method StoreLike(s: Store, actor: UserId, cid: CommentId)
    requires cid in s.comments
    modifies s`comments
    ensures s.comments ==
      old(s.comments)[cid := old(s.comments[cid]).(votes := AfterLike(old(s.comments[cid].votes), actor))]
  {
    if actor in s.comments[cid].votes.dislikedBy {
      s.RemoveCommentDislike(actor, cid);
      s.ChangeCommentRating(cid, 1);
    }
    s.InsertCommentLike(actor, cid);
    s.ChangeCommentRating(cid, 1);
  }

  method RemoveLike(s: Store, actor: UserId, cid: CommentId) returns (r: Outcome)
    requires s.Valid()
    modifies s`comments
    ensures s.Valid()
    ensures var a := Access(s.users, old(s.comments), s.blocks, actor, cid);
      r == if a.Failure? then a
           else if actor !in old(s.comments[cid].votes.likedBy) then Failure(IllegalState)
           else Success
    ensures r.Failure? ==> s.comments == old(s.comments)
    ensures r.Success? ==>
      s.comments == old(s.comments)[cid := old(s.comments[cid]).(votes := AfterRemoveLike(old(s.comments[cid].votes), actor))]
    ensures r.Success? ==> VoteOf(s.comments[cid].votes, actor) == NoVote
  {
    var a := Access(s.users, s.comments, s.blocks, actor, cid);
    if a.Failure? { return a; }
    var comment := s.comments[cid];
    if actor !in comment.votes.likedBy { return Failure(IllegalState); }
    ApplyRemoveLike(s, actor, cid);
    return Success;
  }

  /** The comment removeLike step once its checks have passed: the store stays
      consistent and the vote is recorded. */
  method ApplyRemoveLike(s: Store, actor: UserId, cid: CommentId)
    requires s.Valid() && cid in s.comments && actor in s.comments[cid].votes.likedBy
    modifies s`comments
    ensures s.Valid()
    ensures s.comments ==
      old(s.comments)[cid := old(s.comments[cid]).(votes := AfterRemoveLike(old(s.comments[cid].votes), actor))]
    ensures VoteOf(s.comments[cid].votes, actor) == NoVote
  {
    var comment := s.comments[cid];
    RemoveLikeStep(comment.votes, actor);
    VoteStepsKeepConsistency(comment.votes, actor);
    CommentUpdateKeepsValid(s.users, s.posts, s.comments, s.nextCommentId, cid, comment.(votes := AfterRemoveLike(comment.votes, actor)));
    StoreRemoveLike(s, actor, cid);
  }

  /** The repository calls removeLike makes once its checks have passed. */
  method StoreRemoveLike(s: Store, actor: UserId, cid: CommentId)
    requires cid in s.comments
    modifies s`comments
    ensures s.comments ==
      old(s.comments)[cid := old(s.comments[cid]).(votes := AfterRemoveLike(old(s.comments[cid].votes), actor))]
  {
    s.RemoveCommentLike(actor, cid);
    s.ChangeCommentRating(cid, -1);
  }

  method Dislike(s: Store, actor: UserId, cid: CommentId) returns (r: Outcome)
    requires s.Valid()
    modifies s`comments
    ensures s.Valid()
    ensures var a := Access(s.users, old(s.comments), s.blocks, actor, cid);
      r == if a.Failure? then a
           else if actor in old(s.comments[cid].votes.dislikedBy) then Failure(IllegalState)
           else Success
    ensures r.Failure? ==> s.comments == old(s.comments)
    ensures r.Success? ==>
      s.comments == old(s.comments)[cid := old(s.comments[cid]).(votes := AfterDislike(old(s.comments[cid].votes), actor))]
    ensures r.Success? ==> VoteOf(s.comments[cid].votes, actor) == Disliked
  {
    var a := Access(s.users, s.comments, s.blocks, actor, cid);
    if a.Failure? { return a; }
    var comment := s.comments[cid];
    if actor in comment.votes.dislikedBy { return Failure(IllegalState); }
    ApplyDislike(s, actor, cid);
    return Success;
  }

  /** The comment dislike step once its checks have passed: the store stays
      consistent and the vote is recorded. */
  method ApplyDislike(s: Store, actor: UserId, cid: CommentId)
    requires s.Valid() && cid in s.comments && actor !in s.comments[cid].votes.dislikedBy
    modifies s`comments
    ensures s.Valid()
    ensures s.comments ==
      old(s.comments)[cid := old(s.comments[cid]).(votes := AfterDislike(old(s.comments[cid].votes), actor))]
    ensures VoteOf(s.comments[cid].votes, actor) == Disliked
  {
    var comment := s.comments[cid];
    DislikeStep(comment.votes, actor);
    VoteStepsKeepConsistency(comment.votes, actor);
    CommentUpdateKeepsValid(s.users, s.posts, s.comments, s.nextCommentId, cid, comment.(votes := AfterDislike(comment.votes, actor)));
    StoreDislike(s, actor, cid);
  }

  /** The repository calls dislike makes once its checks have passed. */
  method StoreDislike(s: Store, actor: UserId, cid: CommentId)
    requires cid in s.comments
    modifies s`comments
    ensures s.comments ==
      old(s.comments)[cid := old(s.comments[cid]).(votes := AfterDislike(old(s.comments[cid].votes), actor))]
  {
    if actor in s.comments[cid].votes.likedBy {
      s.RemoveCommentLike(actor, cid);
      s.ChangeCommentRating(cid, -1);
    }
    s.InsertCommentDislike(actor, cid);
    s.ChangeCommentRating(cid, -1);
  }

  method RemoveDislike(s: Store, actor: UserId, cid: CommentId) returns (r: Outcome)
    requires s.Valid()
    modifies s`comments
    ensures s.Valid()
    ensures var a := Access(s.users, old(s.comments), s.blocks, actor, cid);
      r == if a.Failure? then a
           else if actor !in old(s.comments[cid].votes.dislikedBy) then Failure(IllegalState)
           else Success
    ensures r.Failure? ==> s.comments == old(s.comments)
    ensures r.Success? ==>
      s.comments == old(s.comments)[cid := old(s.comments[cid]).(votes := AfterRemoveDislike(old(s.comments[cid].votes), actor))]
    ensures r.Success? ==> VoteOf(s.comments[cid].votes, actor) == NoVote
  {
    var a := Access(s.users, s.comments, s.blocks, actor, cid);
    if a.Failure? { return a; }
    var comment := s.comments[cid];
    if actor !in comment.votes.dislikedBy { return Failure(IllegalState); }
    ApplyRemoveDislike(s, actor, cid);
    return Success;
  }

  /** The comment removeDislike step once its checks have passed: the store stays
      consistent and the vote is recorded. */
  method ApplyRemoveDislike(s: Store, actor: UserId, cid: CommentId)
    requires s.Valid() && cid in s.comments && actor in s.comments[cid].votes.dislikedBy
    modifies s`comments
    ensures s.Valid()
    ensures s.comments ==
      old(s.comments)[cid := old(s.comments[cid]).(votes := AfterRemoveDislike(old(s.comments[cid].votes), actor))]
    ensures VoteOf(s.comments[cid].votes, actor) == NoVote
  {
    var comment := s.comments[cid];
    RemoveDislikeStep(comment.votes, actor);
    VoteStepsKeepConsistency(comment.votes, actor);
    CommentUpdateKeepsValid(s.users, s.posts, s.comments, s.nextCommentId, cid, comment.(votes := AfterRemoveDislike(comment.votes, actor)));
    StoreRemoveDislike(s, actor, cid);
  }

  /** The repository calls removeDislike makes once its checks have passed. */
  method StoreRemoveDislike(s: Store, actor: UserId, cid: CommentId)
    requires cid in s.comments
    modifies s`comments
    ensures s.comments ==
      old(s.comments)[cid := old(s.comments[cid]).(votes := AfterRemoveDislike(old(s.comments[cid].votes), actor))]
  {
    s.RemoveCommentDislike(actor, cid);
    s.ChangeCommentRating(cid, 1);
  }

  // ---- deleting and hiding ----

  method TempDelete(s: Store, actor: UserId, cid: CommentId) returns (r: Outcome)
    requires s.Valid()
    modifies s`comments
    ensures s.Valid()
    ensures var a := OwnerModeration(s.users, old(s.comments), s.blocks, actor, cid);
      r == if a.Failure? then a
           else if old(s.comments[cid].isDeleted) then Failure(IllegalState)
           else Success
    ensures r.Failure? ==> s.comments == old(s.comments)
    ensures r.Success? ==> s.comments == old(s.comments)[cid := old(s.comments[cid]).(isDeleted := true)]
  {
    if actor !in s.users { return Failure(UserNotFound); }
    if cid !in s.comments { return Failure(CommentNotFound); }
    var comment := s.comments[cid];
    if (actor, comment.owner) in s.blocks || (comment.owner, actor) in s.blocks { return Failure(CommentNotFound); }
    if comment.owner != actor { return Failure(IllegalState); }
    if comment.isDeleted { return Failure(IllegalState); }
    CommentUpdateKeepsValid(s.users, s.posts, s.comments, s.nextCommentId, cid, comment.(isDeleted := true));
    s.SetCommentDeleted(cid, true);
    return Success;
  }

  /** undelete checks no visibility, so an author can bring back their own deleted comment. */
  method Undelete(s: Store, actor: UserId, cid: CommentId) returns (r: Outcome)
    requires s.Valid()
    modifies s`comments
    ensures s.Valid()
    ensures var a := OwnerModeration(s.users, old(s.comments), s.blocks, actor, cid);
      r == if a.Failure? then a
           else if !old(s.comments[cid].isDeleted) then Failure(IllegalState)
           else Success
    ensures r.Failure? ==> s.comments == old(s.comments)
    ensures r.Success? ==> s.comments == old(s.comments)[cid := old(s.comments[cid]).(isDeleted := false)]
    ensures (actor in s.users && cid in old(s.comments) && old(s.comments[cid].owner) == actor
             && old(s.comments[cid].isDeleted)) ==> r == Success
  {
    if actor !in s.users { return Failure(UserNotFound); }
    if cid !in s.comments { return Failure(CommentNotFound); }
    var comment := s.comments[cid];
    if (actor, comment.owner) in s.blocks || (comment.owner, actor) in s.blocks { return Failure(CommentNotFound); }
    if comment.owner != actor { return Failure(IllegalState); }
    if !comment.isDeleted { return Failure(IllegalState); }
    CommentUpdateKeepsValid(s.users, s.posts, s.comments, s.nextCommentId, cid, comment.(isDeleted := false));
    s.SetCommentDeleted(cid, false);
    return Success;
  }

  /** permanentlyDelete removes the comment and, by the cascade, every reply below it.
      A comment that is already deleted cannot be viewed, so it cannot be removed this way. */
  method PermanentlyDelete(s: Store, actor: UserId, cid: CommentId) returns (r: Outcome)
    requires s.Valid()
    modifies s`comments
    ensures s.Valid()
    ensures r == OwnerAccess(s.users, old(s.comments), s.blocks, actor, cid)
    ensures r.Failure? ==> s.comments == old(s.comments)
    ensures r.Success? ==> s.comments == old(s.comments) - Subtree(old(s.comments), cid)
    ensures actor in s.users && cid in old(s.comments) && old(s.comments[cid].isDeleted) ==> r == Failure(CommentNotFound)
  {
    var a := Access(s.users, s.comments, s.blocks, actor, cid);
    if a.Failure? { return a; }
    var comment := s.comments[cid];
    if comment.owner != actor { return Failure(IllegalState); }
    s.DeleteComment(cid);
    return Success;
  }

  method Hide(s: Store, actor: UserId, cid: CommentId) returns (r: Outcome)
    requires s.Valid()
    modifies s`comments
    ensures s.Valid()
    ensures var a := OwnerAccess(s.users, old(s.comments), s.blocks, actor, cid);
      r == if a.Failure? then a
           else if old(s.comments[cid].isHidden) then Failure(IllegalState)
           else Success
    ensures r.Failure? ==> s.comments == old(s.comments)
    ensures r.Success? ==> s.comments == old(s.comments)[cid := old(s.comments[cid]).(isHidden := true)]
  {
    var a := Access(s.users, s.comments, s.blocks, actor, cid);
    if a.Failure? { return a; }
    var comment := s.comments[cid];
    if comment.owner != actor { return Failure(IllegalState); }
    if comment.isHidden { return Failure(IllegalState); }
    CommentUpdateKeepsValid(s.users, s.posts, s.comments, s.nextCommentId, cid, comment.(isHidden := true));
    s.SetCommentHidden(cid, true);
    return Success;
  }

  /** unhide: because authors see their own hidden comments, an author can
      unhide their comment unless it is deleted or they are private. */
  method Unhide(s: Store, actor: UserId, cid: CommentId) returns (r: Outcome)
    requires s.Valid()
    modifies s`comments
    ensures s.Valid()
    ensures var a := OwnerAccess(s.users, old(s.comments), s.blocks, actor, cid);
      r == if a.Failure? then a
           else if !old(s.comments[cid].isHidden) then Failure(IllegalState)
           else Success
    ensures r.Failure? ==> s.comments == old(s.comments)
    ensures r.Success? ==> s.comments == old(s.comments)[cid := old(s.comments[cid]).(isHidden := false)]
    ensures (actor in s.users && cid in old(s.comments) && old(s.comments[cid].owner) == actor
             && old(s.comments[cid].isHidden) && !old(s.comments[cid].isDeleted) && !s.users[actor].isPrivate)
      ==> r == Success
  {
    var a := Access(s.users, s.comments, s.blocks, actor, cid);
    if a.Failure? { return a; }
    var comment := s.comments[cid];
    if comment.owner != actor { return Failure(IllegalState); }
    if !comment.isHidden { return Failure(IllegalState); }
    CommentUpdateKeepsValid(s.users, s.posts, s.comments, s.nextCommentId, cid, comment.(isHidden := false));
    s.SetCommentHidden(cid, false);
    return Success;
  }

  // ---- URI ----

  /** The content is cut to its first 15 characters before it is slugged. */
  function Excerpt(content: string): (e: string)
    ensures |e| <= 15 && |e| <= |content| && e == content[..|e|]
    ensures |content| <= 15 ==> e == content
  {
    if |content| > 15 then content[..15] else content
  }

  /** getUriByIdAndContent. */
  function UriByIdAndContent(commentId: int, content: string): (uri: string)
    ensures uri == PostService.UriByTitleAndId(Excerpt(content), commentId)
  {
    Encoded(Excerpt(content) + "-" + LongToString(commentId))
  }

  /** getIdByUri is the same parse as the post service's: the id of a comment
      is read back from its URI, whatever the content. */
  lemma UriRoundTrip(content: string, commentId: int)
    requires 0 <= commentId <= LONG_MAX
    ensures PostService.IdByUri(UriByIdAndContent(commentId, content)) == Some(commentId)
  {
    PostService.UriRoundTrip(Excerpt(content), commentId);
  }

  /** Only the first 15 characters reach the slug: two contents that agree on
      them give the same URI. */
  lemma UriSeesOnlyExcerpt(a: string, b: string, commentId: int)
    requires |a| >= 15 && |b| >= 15 && a[..15] == b[..15]
    ensures UriByIdAndContent(commentId, a) == UriByIdAndContent(commentId, b)
  {
  }

  /** "Comment on post 1" is cut to "Comment on post" before the id is appended. */
  lemma FirstCommentUri()
    ensures UriByIdAndContent(1, "Comment on post 1") == "comment-on-post-1"
  {
    var x := "Comment on post";
    assert "Comment on post 1"[..15] == x;
    ExcerptSlug();
    assert LongToString(1) == "1";
    assert x + "-" + "1" == x + "-1";
    EncodeKeepsSlugSuffix(x, "-1");
  }

  lemma ExcerptSlug()
    ensures Encoded("Comment on post") == "comment-on-post"
  {
    ExcerptLower();
    ExcerptBuilt("comment on post");
    ExcerptDashes();
  }

  /** The loop keeps every character. The text is a parameter so that the
      verifier does not evaluate `Built` on a literal. */
  lemma ExcerptBuilt(t: string)
    requires t == "comment on post"
    ensures Built(t, |t|) == t
  {
    BuiltAppendsRun(t, 0, 15);
  }

  lemma ExcerptDashes()
    ensures ReplaceSpaces("comment on post") == "comment-on-post"
  {
  }

  lemma ExcerptLower()
    ensures ToLower("Comment on post") == "comment on post"
  {
    var t := ToLower("Comment on post");
    assert t[0] == 'c' && t[1] == 'o' && t[2] == 'm' && t[3] == 'm' && t[4] == 'e' && t[5] == 'n' && t[6] == 't';
    assert t[7] == ' ' && t[8] == 'o' && t[9] == 'n' && t[10] == ' ';
    assert t[11] == 'p' && t[12] == 'o' && t[13] == 's' && t[14] == 't';
  }

  // ---- comment filters ----

  /** The test filterComments applies: a comment survives unless it is
      deleted or hidden or its author is private. */
  predicate PublicComment(i: Item) {
    !(i.comment.isDeleted || i.comment.isHidden || i.author.isPrivate)
  }

  /** The test filterCommentsAuth applies: the public test and no block either way. */
  predicate CommentVisibleTo(i: Item, viewer: UserId, blocks: set<Edge>) {
    PublicComment(i) && (i.comment.owner, viewer) !in blocks && (viewer, i.comment.owner) !in blocks
  }

  function VisibleTo(viewer: UserId, blocks: set<Edge>): Item -> bool {
    i => CommentVisibleTo(i, viewer, blocks)
  }

  method FilterComments(comments: seq<Thread>) returns (kept: seq<Thread>)
    ensures kept == Pruned(comments, PublicComment)
    ensures AllPass(kept, PublicComment)
  {
    kept := Prune(comments, PublicComment);
    PrunedAllPass(comments, PublicComment);
  }

  method FilterCommentsAuth(comments: seq<Thread>, viewer: UserId, blocks: set<Edge>) returns (kept: seq<Thread>)
    ensures kept == Pruned(comments, VisibleTo(viewer, blocks))
    ensures AllPass(kept, VisibleTo(viewer, blocks))
  {
    kept := Prune(comments, VisibleTo(viewer, blocks));
    PrunedAllPass(comments, VisibleTo(viewer, blocks));
  }

  /** A signed-in viewer is never shown a comment an anonymous visitor would not be shown. */
  lemma SignedInSeesNoMoreComments(comments: seq<Thread>, viewer: UserId, blocks: set<Edge>)
    ensures Ids(Pruned(comments, VisibleTo(viewer, blocks))) <= Ids(Pruned(comments, PublicComment))
  {
    PrunedMonotone(comments, VisibleTo(viewer, blocks), PublicComment);
  }

  /** The post service's filter is the stricter of the two: it also drops
      comments deleted by an admin and comments of deleted or disabled authors. */
  lemma PostFilterIsStricter(comments: seq<Thread>)
    ensures Ids(Pruned(comments, PostService.PublicComment)) <= Ids(Pruned(comments, PublicComment))
  {
    PrunedMonotone(comments, PostService.PublicComment, PublicComment);
  }

  /** The filter never shows a comment that checkAllowViewing would refuse. */
  lemma FilterAgreesWithCheck(comments: seq<Thread>)
    ensures AllPass(Pruned(comments, PublicComment), (i: Item) => AllowViewing(i.comment, i.author))
  {
    PrunedAllPass(comments, PublicComment);
    AllPassWeaken(Pruned(comments, PublicComment), PublicComment, (i: Item) => AllowViewing(i.comment, i.author));
  }
}
