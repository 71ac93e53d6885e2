/**
 * The database behind the three services: the user, post and comment tables,
 * the `followers` and `blocked_users` join tables, and the identity counters.
 * Each method is one repository call the services make (an update query, a
 * save or a cascading delete) and states its whole effect. `Valid` is the
 * integrity the services maintain: the foreign keys and the cascades declared
 * on Post.comments and Comment.comments come from the schema, while unique
 * usernames (checked by registration and changeUsername) and a reply's post
 * (copied from its parent by create) are kept by the code.
 */
module Repository {
  import opened Errors
  import opened VoteLedger
  import opened Model

  /** Every user id was issued by the counter, and usernames are unique. */
  ghost predicate UsersValid(users: map<UserId, User>, nextUserId: nat) {
    && (forall u :: u in users ==> u < nextUserId)
    && (forall u, v :: u in users && v in users && users[u].username == users[v].username ==> u == v)
  }

  /** Every post has an existing owner and a consistent vote ledger. */
  ghost predicate PostsValid(posts: map<PostId, Post>, users: map<UserId, User>, nextPostId: nat) {
    forall p :: p in posts ==>
      p < nextPostId && posts[p].owner in users && Consistent(posts[p].votes)
  }

  /** A reply's parent exists, was created before it, and belongs to the same post. */
  ghost predicate ParentLinksValid(comments: map<CommentId, Comment>) {
    forall c :: c in comments && comments[c].parentComment.Some? ==>
      var q := comments[c].parentComment.value;
      q in comments && q < c && comments[q].parentPost == comments[c].parentPost
  }

  ghost predicate CommentsValid(comments: map<CommentId, Comment>, posts: map<PostId, Post>,
                                users: map<UserId, User>, nextCommentId: nat) {
    && ParentLinksValid(comments)
    && (forall c :: c in comments ==>
          && c < nextCommentId
          && comments[c].owner in users
          && comments[c].parentPost in posts
          && Consistent(comments[c].votes))
  }

  /** Both ends of every follow or block edge exist, and nobody is at both ends. */
  ghost predicate EdgesValid(edges: set<Edge>, users: map<UserId, User>) {
    forall e :: e in edges ==> e.0 in users && e.1 in users && e.0 != e.1
  }

  /** `d` is `c` or lies below it in the reply tree. */
  predicate Descends(comments: map<CommentId, Comment>, d: CommentId, c: CommentId)
    requires ParentLinksValid(comments) && d in comments
    decreases d
  {
    d == c ||
    match comments[d].parentComment
    case None => false
    case Some(q) => Descends(comments, q, c)
  }

  /** The comments the cascade on Comment.comments removes with `c`. */
  function Subtree(comments: map<CommentId, Comment>, c: CommentId): set<CommentId>
    requires ParentLinksValid(comments)
  {
    set d | d in comments && Descends(comments, d, c)
  }

  /** The comments the cascade on Post.comments removes with post `p`. */
  function CommentsOf(comments: map<CommentId, Comment>, p: PostId): set<CommentId> {
    set d | d in comments && comments[d].parentPost == p
  }

  /** Following parent links from any comment ends at a top-level comment of the same post. */
  function Root(comments: map<CommentId, Comment>, c: CommentId): (r: CommentId)
    requires ParentLinksValid(comments) && c in comments
    ensures r in comments && IsTopLevel(comments[r]) && r <= c
    ensures comments[r].parentPost == comments[c].parentPost
    ensures Descends(comments, c, r)
    decreases c
  {
    match comments[c].parentComment
    case None => c
    case Some(q) => Root(comments, q)
  }

  /** The subtree of `c` is `c` and every comment whose parent is in it. */
  lemma SubtreeClosed(comments: map<CommentId, Comment>, c: CommentId)
    requires ParentLinksValid(comments)
    ensures c in comments ==> c in Subtree(comments, c)
    ensures forall d :: d in comments ==>
      (d in Subtree(comments, c) <==>
        d == c || (comments[d].parentComment.Some? && comments[d].parentComment.value in Subtree(comments, c)))
  {
  }

  /** Removing a comment with its subtree leaves no reply without its parent. */
  lemma {:induction false} SubtreeRemovalKeepsLinks(comments: map<CommentId, Comment>, c: CommentId)
    requires ParentLinksValid(comments)
    ensures ParentLinksValid(comments - Subtree(comments, c))
  {
    var gone := Subtree(comments, c);
    var rest := comments - gone;
    forall d | d in comments && comments[d].parentComment.Some? && comments[d].parentComment.value in gone
      ensures d in gone
    {
      assert Descends(comments, d, c);
    }
  }

  /** Removing every comment of a post leaves no reply without its parent. */
  lemma {:induction false} PostCascadeKeepsLinks(comments: map<CommentId, Comment>, p: PostId)
    requires ParentLinksValid(comments)
    ensures ParentLinksValid(comments - CommentsOf(comments, p))
    ensures forall d :: d in comments - CommentsOf(comments, p) ==> comments[d].parentPost != p
  {
    var rest := comments - CommentsOf(comments, p);
    forall d | d in rest && rest[d].parentComment.Some?
      ensures var q := rest[d].parentComment.value;
        q in rest && q < d && rest[q].parentPost == rest[d].parentPost
    {
      var q := comments[d].parentComment.value;
      assert comments[q].parentPost == comments[d].parentPost;
    }
  }

  /** Adding a comment under the next id keeps the comment table valid. */
  lemma AddCommentKeepsValid(comments: map<CommentId, Comment>, posts: map<PostId, Post>,
                             users: map<UserId, User>, nextCommentId: nat, c: Comment)
    requires CommentsValid(comments, posts, users, nextCommentId)
    requires c.owner in users && c.parentPost in posts && Consistent(c.votes)
    requires c.parentComment.Some? ==>
      c.parentComment.value in comments && comments[c.parentComment.value].parentPost == c.parentPost
    ensures CommentsValid(comments[nextCommentId := c], posts, users, nextCommentId + 1)
  {
    var m := comments[nextCommentId := c];
    assert nextCommentId !in comments;
    forall d | d in m && m[d].parentComment.Some?
      ensures var q := m[d].parentComment.value;
        q in m && q < d && m[q].parentPost == m[d].parentPost
    {
      if d != nextCommentId {
        assert m[d] == comments[d];
      }
    }
  }

  /** Rewriting a post without changing its owner, to a consistent ledger, keeps both tables valid. */
  lemma PostUpdateKeepsValid(users: map<UserId, User>, posts: map<PostId, Post>, comments: map<CommentId, Comment>,
                             nextPostId: nat, nextCommentId: nat, pid: PostId, p: Post)
    requires PostsValid(posts, users, nextPostId) && CommentsValid(comments, posts, users, nextCommentId)
    requires pid in posts && p.owner == posts[pid].owner && Consistent(p.votes)
    ensures PostsValid(posts[pid := p], users, nextPostId)
    ensures CommentsValid(comments, posts[pid := p], users, nextCommentId)
  {
  }

  /** Rewriting a comment without moving it, to a consistent ledger, keeps the table valid. */
  lemma CommentUpdateKeepsValid(users: map<UserId, User>, posts: map<PostId, Post>, comments: map<CommentId, Comment>,
                                nextCommentId: nat, cid: CommentId, c: Comment)
    requires CommentsValid(comments, posts, users, nextCommentId)
    requires cid in comments && Consistent(c.votes)
    requires c.owner == comments[cid].owner && c.parentPost == comments[cid].parentPost
    requires c.parentComment == comments[cid].parentComment
    ensures CommentsValid(comments[cid := c], posts, users, nextCommentId)
  {
    var m := comments[cid := c];
    forall d | d in m && m[d].parentComment.Some?
      ensures var q := m[d].parentComment.value;
        q in m && q < d && m[q].parentPost == m[d].parentPost
    {
      assert m[d].parentComment == comments[d].parentComment;
    }
  }

  /** Rewriting a user under a username nobody else holds keeps every table valid. */
  lemma UserUpdateKeepsValid(users: map<UserId, User>, posts: map<PostId, Post>, comments: map<CommentId, Comment>,
                             follows: set<Edge>, blocks: set<Edge>,
                             nextUserId: nat, nextPostId: nat, nextCommentId: nat, uid: UserId, u: User)
    requires UsersValid(users, nextUserId) && PostsValid(posts, users, nextPostId)
    requires CommentsValid(comments, posts, users, nextCommentId)
    requires EdgesValid(follows, users) && EdgesValid(blocks, users)
    requires uid in users
    requires forall v :: v in users && v != uid ==> users[v].username != u.username
    ensures UsersValid(users[uid := u], nextUserId) && PostsValid(posts, users[uid := u], nextPostId)
    ensures CommentsValid(comments, posts, users[uid := u], nextCommentId)
    ensures EdgesValid(follows, users[uid := u]) && EdgesValid(blocks, users[uid := u])
  {
  }

  class Store {
    var users: map<UserId, User>
    var posts: map<PostId, Post>
    var comments: map<CommentId, Comment>
    /** (follower, followed): the `followers` join table. */
    var follows: set<Edge>
    /** (blocker, blocked): the `blocked_users` join table. */
    var blocks: set<Edge>
    var nextUserId: nat
    var nextPostId: nat
    var nextCommentId: nat

    ghost predicate Valid()
      reads this
    {
      && UsersValid(users, nextUserId)
      && PostsValid(posts, users, nextPostId)
      && CommentsValid(comments, posts, users, nextCommentId)
      && EdgesValid(follows, users)
      && EdgesValid(blocks, users)
    }

    /** An empty database. */
    constructor ()
      ensures Valid()
      ensures users == map[] && posts == map[] && comments == map[]
      ensures follows == {} && blocks == {}
    {
      users, posts, comments := map[], map[], map[];
      follows, blocks := {}, {};
      nextUserId, nextPostId, nextCommentId := 0, 0, 0;
    }

    // ---- users ----

    /** `userRepository.save` of a new user (registration has checked the username is free). */
    method SaveUser(u: User) returns (id: UserId)
      requires Valid()
      requires forall v :: v in users ==> users[v].username != u.username
      modifies this`users, this`nextUserId
      ensures Valid()
      ensures id == old(nextUserId) && id !in old(users)
      ensures users == old(users)[id := u] && nextUserId == id + 1
    {
      id := nextUserId;
      users := users[id := u];
      nextUserId := nextUserId + 1;
    }

    method SetPrivate(u: UserId, value: bool)
      requires u in users
      modifies this`users
      ensures users == old(users)[u := old(users[u]).(isPrivate := value)]
    {
      users := users[u := users[u].(isPrivate := value)];
    }

    method SetUserDeleted(u: UserId, value: bool)
      requires u in users
      modifies this`users
      ensures users == old(users)[u := old(users[u]).(isDeleted := value)]
    {
      users := users[u := users[u].(isDeleted := value)];
    }

    method SetEnabled(u: UserId, value: bool)
      requires u in users
      modifies this`users
      ensures users == old(users)[u := old(users[u]).(isEnabled := value)]
    {
      users := users[u := users[u].(isEnabled := value)];
    }

    method SetUsername(u: UserId, name: string)
      requires u in users
      modifies this`users
      ensures users == old(users)[u := old(users[u]).(username := name)]
    {
      users := users[u := users[u].(username := name)];
    }

    method SetDescription(u: UserId, text: string)
      requires u in users
      modifies this`users
      ensures users == old(users)[u := old(users[u]).(description := text)]
    {
      users := users[u := users[u].(description := text)];
    }

    // ---- follow and block edges ----

    /** `userRepository.follow(followed, follower)`: one row into `followers`. */
    method InsertFollow(follower: UserId, followed: UserId)
      modifies this`follows
      ensures follows == old(follows) + {(follower, followed)}
    {
      follows := follows + {(follower, followed)};
    }

    /** `userRepository.unfollow(followed, follower)`. */
    method DeleteFollow(follower: UserId, followed: UserId)
      modifies this`follows
      ensures follows == old(follows) - {(follower, followed)}
    {
      follows := follows - {(follower, followed)};
    }

    /** `userRepository.block(blocked, blocker)`: one row into `blocked_users`. */
    method InsertBlock(blocker: UserId, blocked: UserId)
      modifies this`blocks
      ensures blocks == old(blocks) + {(blocker, blocked)}
    {
      blocks := blocks + {(blocker, blocked)};
    }

    /** `userRepository.unblock(blocked, blocker)`. */
    method DeleteBlock(blocker: UserId, blocked: UserId)
      modifies this`blocks
      ensures blocks == old(blocks) - {(blocker, blocked)}
    {
      blocks := blocks - {(blocker, blocked)};
    }

    // ---- posts ----

    /** `postRepository.save` of a new post. */
    method SavePost(p: Post) returns (id: PostId)
      requires Valid()
      requires p.owner in users && Consistent(p.votes)
      modifies this`posts, this`nextPostId
      ensures Valid()
      ensures id == old(nextPostId) && id !in old(posts)
      ensures posts == old(posts)[id := p] && nextPostId == id + 1
    {
      id := nextPostId;
      posts := posts[id := p];
      nextPostId := nextPostId + 1;
    }

    method InsertPostLike(u: UserId, p: PostId)
      requires p in posts
      modifies this`posts
      ensures posts == old(posts)[p := old(posts[p]).(votes := InsertLike(old(posts[p].votes), u))]
    {
      posts := posts[p := posts[p].(votes := InsertLike(posts[p].votes, u))];
    }

    method RemovePostLike(u: UserId, p: PostId)
      requires p in posts
      modifies this`posts
      ensures posts == old(posts)[p := old(posts[p]).(votes := RemoveLike(old(posts[p].votes), u))]
    {
      posts := posts[p := posts[p].(votes := RemoveLike(posts[p].votes, u))];
    }

    method InsertPostDislike(u: UserId, p: PostId)
      requires p in posts
      modifies this`posts
      ensures posts == old(posts)[p := old(posts[p]).(votes := InsertDislike(old(posts[p].votes), u))]
    {
      posts := posts[p := posts[p].(votes := InsertDislike(posts[p].votes, u))];
    }

    method RemovePostDislike(u: UserId, p: PostId)
      requires p in posts
      modifies this`posts
      ensures posts == old(posts)[p := old(posts[p]).(votes := RemoveDislike(old(posts[p].votes), u))]
    {
      posts := posts[p := posts[p].(votes := RemoveDislike(posts[p].votes, u))];
    }

    /** `postRepository.changeRating`: `rating = rating + change`. */
    method ChangePostRating(p: PostId, change: int)
      requires p in posts
      modifies this`posts
      ensures posts == old(posts)[p := old(posts[p]).(votes := ChangeRating(old(posts[p].votes), change))]
    {
      posts := posts[p := posts[p].(votes := ChangeRating(posts[p].votes, change))];
    }

    method SetTitle(p: PostId, title: string)
      requires p in posts
      modifies this`posts
      ensures posts == old(posts)[p := old(posts[p]).(title := title)]
    {
      posts := posts[p := posts[p].(title := title)];
    }

    method SetPostContent(p: PostId, content: string)
      requires p in posts
      modifies this`posts
      ensures posts == old(posts)[p := old(posts[p]).(content := content)]
    {
      posts := posts[p := posts[p].(content := content)];
    }

    method SetPostDeleted(p: PostId, value: bool)
      requires p in posts
      modifies this`posts
      ensures posts == old(posts)[p := old(posts[p]).(isDeleted := value)]
    {
      posts := posts[p := posts[p].(isDeleted := value)];
    }

    method SetPostHidden(p: PostId, value: bool)
      requires p in posts
      modifies this`posts
      ensures posts == old(posts)[p := old(posts[p]).(isHidden := value)]
    {
      posts := posts[p := posts[p].(isHidden := value)];
    }

    method SetDeletedByAdmin(p: PostId, value: bool)
      requires p in posts
      modifies this`posts
      ensures posts == old(posts)[p := old(posts[p]).(isDeletedByAdmin := value)]
    {
      posts := posts[p := posts[p].(isDeletedByAdmin := value)];
    }

    /** `postRepository.delete`: the post goes, and with it (cascade on
        Post.comments) every comment whose parent post it is. */
    method DeletePost(p: PostId)
      requires Valid() && p in posts
      modifies this`posts, this`comments
      ensures Valid()
      ensures posts == old(posts) - {p}
      ensures comments == old(comments) - CommentsOf(old(comments), p)
    {
      PostCascadeKeepsLinks(comments, p);
      comments := comments - CommentsOf(comments, p);
      posts := posts - {p};
    }

    // ---- comments ----

    /** `commentRepository.save` of a new comment. */
    method SaveComment(c: Comment) returns (id: CommentId)
      requires Valid()
      requires c.owner in users && c.parentPost in posts && Consistent(c.votes)
      requires c.parentComment.Some? ==>
        c.parentComment.value in comments && comments[c.parentComment.value].parentPost == c.parentPost
      modifies this`comments, this`nextCommentId
      ensures Valid()
      ensures id == old(nextCommentId) && id !in old(comments)
      ensures comments == old(comments)[id := c] && nextCommentId == id + 1
    {
      AddCommentKeepsValid(comments, posts, users, nextCommentId, c);
      id := nextCommentId;
      comments := comments[id := c];
      nextCommentId := nextCommentId + 1;
    }

    method InsertCommentLike(u: UserId, c: CommentId)
      requires c in comments
      modifies this`comments
      ensures comments == old(comments)[c := old(comments[c]).(votes := InsertLike(old(comments[c].votes), u))]
    {
      comments := comments[c := comments[c].(votes := InsertLike(comments[c].votes, u))];
    }

    method RemoveCommentLike(u: UserId, c: CommentId)
      requires c in comments
      modifies this`comments
      ensures comments == old(comments)[c := old(comments[c]).(votes := RemoveLike(old(comments[c].votes), u))]
    {
      comments := comments[c := comments[c].(votes := RemoveLike(comments[c].votes, u))];
    }

    method InsertCommentDislike(u: UserId, c: CommentId)
      requires c in comments
      modifies this`comments
      ensures comments == old(comments)[c := old(comments[c]).(votes := InsertDislike(old(comments[c].votes), u))]
    {
      comments := comments[c := comments[c].(votes := InsertDislike(comments[c].votes, u))];
    }

    method RemoveCommentDislike(u: UserId, c: CommentId)
      requires c in comments
      modifies this`comments
      ensures comments == old(comments)[c := old(comments[c]).(votes := RemoveDislike(old(comments[c].votes), u))]
    {
      comments := comments[c := comments[c].(votes := RemoveDislike(comments[c].votes, u))];
    }

    /** `commentRepository.changeRating`: `rating = rating + change`. */
    method ChangeCommentRating(c: CommentId, change: int)
      requires c in comments
      modifies this`comments
      ensures comments == old(comments)[c := old(comments[c]).(votes := ChangeRating(old(comments[c].votes), change))]
    {
      comments := comments[c := comments[c].(votes := ChangeRating(comments[c].votes, change))];
    }

    method SetCommentDeleted(c: CommentId, value: bool)
      requires c in comments
      modifies this`comments
      ensures comments == old(comments)[c := old(comments[c]).(isDeleted := value)]
    {
      comments := comments[c := comments[c].(isDeleted := value)];
    }

    method SetCommentHidden(c: CommentId, value: bool)
      requires c in comments
      modifies this`comments
      ensures comments == old(comments)[c := old(comments[c]).(isHidden := value)]
    {
      comments := comments[c := comments[c].(isHidden := value)];
    }

    /** `commentRepository.delete`: the comment goes, and with it (cascade on
        Comment.comments, applied again at each level) every reply below it. */
    method DeleteComment(c: CommentId)
      requires Valid() && c in comments
      modifies this`comments
      ensures Valid()
      ensures comments == old(comments) - Subtree(old(comments), c)
    {
      SubtreeRemovalKeepsLinks(comments, c);
      comments := comments - Subtree(comments, c);
    }
  }
}
