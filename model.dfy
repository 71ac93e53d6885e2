/**
 * The three entities (model/User.java, model/Post.java, model/Comment.java) as
 * rows of the store. Collections the entities expose through JPA mappings are
 * derived: a user's followers, followings and blocked users come from the
 * follow and block edge sets, a comment's children from their parent links.
 */
module Model {
  import opened Errors
  import opened VoteLedger

  type UserId = nat
  type PostId = nat
  type CommentId = nat

  /** A directed edge (from, to): in the follow relation `from` follows `to`,
      in the block relation `from` has blocked `to`. */
  type Edge = (UserId, UserId)

  datatype Role = Anonymous | UserRole | Admin

  /** A user; `createdOn` is the date the entity was constructed. The password
      is omitted. `description` is read by the user service although the entity
      snapshot does not declare it. */
  datatype User = User(
    name: string,
    username: string,
    email: string,
    description: string,
    createdOn: int,
    isPrivate: bool,
    isEnabled: bool,
    isDeleted: bool,
    roles: seq<Role>)

  /** A post. `isDeletedByAdmin` is read by the post service and set by the
      admin operations although the entity snapshot does not declare it. */
  datatype Post = Post(
    owner: UserId,
    title: string,
    content: string,
    votes: Ballot,
    createdAt: int,
    isDeleted: bool,
    isHidden: bool,
    isDeletedByAdmin: bool,
    isShareableDespitePrivateUser: bool)

  /** A comment: `parentComment` is None for a top-level comment.
      `isDeletedByAdmin` is read by the post service's comment filter; no
      operation of the core sets it. */
  datatype Comment = Comment(
    owner: UserId,
    content: string,
    votes: Ballot,
    parentPost: PostId,
    parentComment: Option<CommentId>,
    createdAt: int,
    isDeleted: bool,
    isHidden: bool,
    isDeletedByAdmin: bool)

  /** The five-argument User constructor, with the field defaults. */
  function NewUser(name: string, username: string, email: string, isPrivate: bool, today: int): (u: User)
    ensures u.username == username && u.name == name && u.email == email
    ensures u.isPrivate == isPrivate
    ensures u.isEnabled && !u.isDeleted
    ensures u.roles == [UserRole]
    ensures u.createdOn == today
  {
    User(name, username, email, "", today, isPrivate, true, false, [UserRole])
  }

  /** The Post constructor: nobody has voted, nothing is deleted; the hidden and
      shareable flags come from the caller. */
  function NewPost(title: string, content: string, owner: UserId, isHidden: bool,
                   isShareableDespitePrivateUser: bool, now: int): (p: Post)
    ensures p.votes == NoVotes && Consistent(p.votes)
    ensures !p.isDeleted && !p.isDeletedByAdmin
    ensures p.isHidden == isHidden && p.isShareableDespitePrivateUser == isShareableDespitePrivateUser
    ensures p.owner == owner && p.title == title && p.content == content && p.createdAt == now
  {
    Post(owner, title, content, NoVotes, now, false, isHidden, false, isShareableDespitePrivateUser)
  }

  /** The three-argument Comment constructor: a top-level comment on a post. */
  function NewComment(content: string, owner: UserId, parentPost: PostId, now: int): (c: Comment)
    ensures c.parentComment == None && c.parentPost == parentPost
    ensures c.votes == NoVotes && Consistent(c.votes)
    ensures !c.isDeleted && !c.isHidden && !c.isDeletedByAdmin
    ensures c.owner == owner && c.content == content && c.createdAt == now
  {
    Comment(owner, content, NoVotes, parentPost, None, now, false, false, false)
  }

  /** The four-argument Comment constructor: a reply, which records both its
      post and its parent comment. */
  function NewReply(content: string, owner: UserId, parentPost: PostId, parentComment: CommentId, now: int): (c: Comment)
    ensures c.parentComment == Some(parentComment) && c.parentPost == parentPost
    ensures c.votes == NoVotes && Consistent(c.votes)
    ensures !c.isDeleted && !c.isHidden && !c.isDeletedByAdmin
    ensures c.owner == owner && c.content == content && c.createdAt == now
  {
    Comment(owner, content, NoVotes, parentPost, Some(parentComment), now, false, false, false)
  }

  /** `isTopLevel` as the comment repository defines it: no parent comment. */
  predicate IsTopLevel(c: Comment) { c.parentComment.None? }

  /** `u.getFollowers()`: the users who follow `u`. */
  function Followers(follows: set<Edge>, u: UserId): (r: set<UserId>)
    ensures forall v :: v in r <==> (v, u) in follows
  {
    set e | e in follows && e.1 == u :: e.0
  }

  /** The users `u` points to along `edges`: `u.getFollowing()` on the follow
      edges, `u.getBlockedUsers()` on the block edges. */
  function Targets(edges: set<Edge>, u: UserId): (r: set<UserId>)
    ensures forall v :: v in r <==> (u, v) in edges
  {
    set e | e in edges && e.0 == u :: e.1
  }

  /** `following` is `followers` seen from the other end: one relation. */
  lemma FollowingIsInverseOfFollowers(follows: set<Edge>, u: UserId, v: UserId)
    ensures v in Followers(follows, u) <==> u in Targets(follows, v)
  {
  }

  /** Blocking is directed: `a` blocking `b` adds nothing to `b`'s blocked set. */
  lemma BlockIsDirected(blocks: set<Edge>, a: UserId, b: UserId)
    requires a != b
    ensures Targets(blocks + {(a, b)}, b) == Targets(blocks, b)
    ensures b in Targets(blocks + {(a, b)}, a)
  {
  }
}
