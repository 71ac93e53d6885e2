/**
 * service/impl/UserServiceImpl.java: following and blocking, changing the
 * username and the description, the privacy, deletion and enabled flags, and
 * who may see a user.
 *
 * The signed-in caller is the id its username resolves to (absent from the
 * user table when it resolves to nobody). Operations that take a `User`
 * entity receive an id that is in the table. Every operation returns the
 * exception it throws first and then changes nothing.
 */
module UserService {
  import opened Errors
  import opened Model
  import opened JavaText
  import opened Repository

  // ---- visibility ----

  /** checkAllowViewing passes: the user is public, not deleted and enabled. */
  predicate AllowViewing(u: User) {
    !(u.isPrivate || u.isDeleted || !u.isEnabled)
  }

  /** checkAllowViewingAuth passes for viewer `v`: the user is not deleted, is
      public unless it is `v`, and no block stands either way. Whether the
      user is enabled is not consulted. */
  predicate AllowViewingAuth(uid: UserId, u: User, v: UserId, blocks: set<Edge>) {
    !((u.isPrivate && uid != v) || u.isDeleted || (v, uid) in blocks || (uid, v) in blocks)
  }

  /** checkAllowViewingAuth as a whole: it resolves the viewer first, and
      reports both failures as UserNotFound. */
  function CheckAllowViewingAuth(users: map<UserId, User>, blocks: set<Edge>, uid: UserId, v: UserId): (r: Outcome)
    requires uid in users
    ensures r == Success <==> v in users && AllowViewingAuth(uid, users[uid], v, blocks)
    ensures r.Failure? ==> r.error == UserNotFound
  {
    if v !in users then Failure(UserNotFound)
    else if !AllowViewingAuth(uid, users[uid], v, blocks) then Failure(UserNotFound)
    else Success
  }

  /** isBlockedByOrPrivate(user, viewer): the user is private or has blocked the viewer. */
  predicate IsBlockedByOrPrivate(uid: UserId, u: User, viewer: UserId, blocks: set<Edge>) {
    u.isPrivate || (uid, viewer) in blocks
  }

  /** A user sees their own profile, private or not, unless it is deleted. */
  lemma SelfViewing(uid: UserId, u: User, blocks: set<Edge>)
    requires (uid, uid) !in blocks
    ensures AllowViewingAuth(uid, u, uid, blocks) <==> !u.isDeleted
  {
  }

  /** To anyone else, a signed-in view shows at most what the anonymous view
      shows, except that it ignores the enabled flag. */
  lemma SignedInViewing(uid: UserId, u: User, v: UserId, blocks: set<Edge>)
    requires uid != v
    ensures AllowViewingAuth(uid, u, v, blocks) <==>
      AllowViewing(u.(isEnabled := true)) && (v, uid) !in blocks && (uid, v) !in blocks
  {
  }

  // ---- following ----

  /** follow(user, authUsername). */
  method Follow(s: Store, target: UserId, actor: UserId) returns (r: Outcome)
    requires s.Valid() && target in s.users
    modifies s`follows
    ensures s.Valid()
    ensures r == if actor !in old(s.users) then Failure(UserNotFound)
                 else if actor == target then Failure(IllegalArgument)
                 else if actor in Followers(old(s.follows), target) then Failure(IllegalState)
                 else Success
    ensures r.Failure? ==> s.follows == old(s.follows)
    ensures r.Success? ==> s.follows == old(s.follows) + {(actor, target)}
  {
    if actor !in s.users { return Failure(UserNotFound); }
    if actor == target { return Failure(IllegalArgument); }
    if (actor, target) in s.follows { return Failure(IllegalState); }
    s.InsertFollow(actor, target);
    return Success;
  }

  /** unfollow(user, authUsername). */
  method Unfollow(s: Store, target: UserId, actor: UserId) returns (r: Outcome)
    requires s.Valid() && target in s.users
    modifies s`follows
    ensures s.Valid()
    ensures r == if actor !in old(s.users) then Failure(UserNotFound)
                 else if actor == target then Failure(IllegalArgument)
                 else if target !in Targets(old(s.follows), actor) then Failure(IllegalState)
                 else Success
    ensures r.Failure? ==> s.follows == old(s.follows)
    ensures r.Success? ==> s.follows == old(s.follows) - {(actor, target)}
  {
    if actor !in s.users { return Failure(UserNotFound); }
    if actor == target { return Failure(IllegalArgument); }
    if (actor, target) !in s.follows { return Failure(IllegalState); }
    s.DeleteFollow(actor, target);
    return Success;
  }

  /** A follow adds the caller to the target's followers and the target to the
      caller's followings, and nothing else; an unfollow takes exactly that back. */
  lemma FollowUpdatesBothSides(follows: set<Edge>, a: UserId, t: UserId)
    requires (a, t) !in follows
    ensures Followers(follows + {(a, t)}, t) == Followers(follows, t) + {a}
    ensures Targets(follows + {(a, t)}, a) == Targets(follows, a) + {t}
    ensures forall u :: u != t ==> Followers(follows + {(a, t)}, u) == Followers(follows, u)
    ensures (follows + {(a, t)}) - {(a, t)} == follows
  {
    var f := follows + {(a, t)};
    forall u | u != t ensures Followers(f, u) == Followers(follows, u) {
      assert forall v :: v in Followers(f, u) <==> v in Followers(follows, u);
    }
  }

  // ---- blocking ----

  /** The checks block and unblock start with. They pass exactly when the
      caller exists, is not the target, and the target is public, enabled,
      not deleted and has not blocked the caller. */
  function BlockAccess(users: map<UserId, User>, blocks: set<Edge>, target: UserId, actor: UserId): (r: Outcome)
    requires target in users
    ensures r == Success <==>
      && actor in users && actor != target
      && !users[target].isPrivate && !users[target].isDeleted && users[target].isEnabled
      && (target, actor) !in blocks
    ensures r == Failure(IllegalArgument) <==>
      && actor in users && actor == target
      && !IsBlockedByOrPrivate(target, users[target], actor, blocks)
      && !users[target].isDeleted && users[target].isEnabled
  {
    if actor !in users then Failure(UserNotFound)
    else if IsBlockedByOrPrivate(target, users[target], actor, blocks) || users[target].isDeleted || !users[target].isEnabled
      then Failure(UserNotFound)
    else if actor == target then Failure(IllegalArgument)
    else Success
  }

  /** block(user, authUsername): drops the follow edges in both directions, then records the block. */
  method Block(s: Store, target: UserId, actor: UserId) returns (r: Outcome)
    requires s.Valid() && target in s.users
    modifies s`follows, s`blocks
    ensures s.Valid()
    ensures var a := BlockAccess(s.users, old(s.blocks), target, actor);
      r == if a.Failure? then a
           else if target in Targets(old(s.blocks), actor) then Failure(IllegalState)
           else Success
    ensures r.Failure? ==> s.follows == old(s.follows) && s.blocks == old(s.blocks)
    ensures r.Success? ==> s.follows == old(s.follows) - {(actor, target), (target, actor)}
    ensures r.Success? ==> s.blocks == old(s.blocks) + {(actor, target)}
    ensures r.Success? ==> target !in Targets(s.follows, actor) && actor !in Targets(s.follows, target)
  {
    if actor !in s.users { return Failure(UserNotFound); }
    var user := s.users[target];
    if IsBlockedByOrPrivate(target, user, actor, s.blocks) || user.isDeleted || !user.isEnabled {
      return Failure(UserNotFound);
    }
    if actor == target { return Failure(IllegalArgument); }
    if (actor, target) in s.blocks { return Failure(IllegalState); }
    if (actor, target) in s.follows {
      s.DeleteFollow(actor, target);
    }
    if (target, actor) in s.follows {
      s.DeleteFollow(target, actor);
    }
    s.InsertBlock(actor, target);
    return Success;
  }

  /** unblock(user, authUsername). The target must pass the same checks, so a
      blocked user who has gone private, been disabled or deleted, or blocked
      back, cannot be unblocked. */
  method Unblock(s: Store, target: UserId, actor: UserId) returns (r: Outcome)
    requires s.Valid() && target in s.users
    modifies s`blocks
    ensures s.Valid()
    ensures var a := BlockAccess(s.users, old(s.blocks), target, actor);
      r == if a.Failure? then a
           else if target !in Targets(old(s.blocks), actor) then Failure(IllegalState)
           else Success
    ensures r.Failure? ==> s.blocks == old(s.blocks)
    ensures r.Success? ==> s.blocks == old(s.blocks) - {(actor, target)}
    ensures s.users[target].isPrivate ==> r.Failure?
  {
    if actor !in s.users { return Failure(UserNotFound); }
    var user := s.users[target];
    if IsBlockedByOrPrivate(target, user, actor, s.blocks) || user.isDeleted || !user.isEnabled {
      return Failure(UserNotFound);
    }
    if actor == target { return Failure(IllegalArgument); }
    if (actor, target) !in s.blocks { return Failure(IllegalState); }
    s.DeleteBlock(actor, target);
    return Success;
  }

  /** Blocking is one-directional: the block is recorded for the caller only,
      and both follow edges between the two are gone. */
  lemma BlockEdges(follows: set<Edge>, blocks: set<Edge>, a: UserId, t: UserId)
    requires a != t
    ensures var f := follows - {(a, t), (t, a)};
      && Targets(f, a) == Targets(follows, a) - {t}
      && Targets(f, t) == Targets(follows, t) - {a}
    ensures Targets(blocks + {(a, t)}, a) == Targets(blocks, a) + {t}
    ensures Targets(blocks + {(a, t)}, t) == Targets(blocks, t)
  {
    BlockIsDirected(blocks, a, t);
  }

  // ---- the account ----

  /** No two usernames are equal ignoring case. */
  ghost predicate UsernamesDistinctIgnoringCase(users: map<UserId, User>) {
    forall u, v :: u in users && v in users && EqualsIgnoreCase(users[u].username, users[v].username) ==> u == v
  }

  /** changeUsername(newUsername, authUsername). The names are compared before
      the caller is resolved; a name that any user holds in any case is taken.
      The new token the source returns is not modelled. */
  method ChangeUsername(s: Store, newUsername: string, authUsername: string) returns (r: Outcome)
    requires s.Valid()
    modifies s`users
    ensures s.Valid()
    ensures r == if authUsername == newUsername then Failure(IllegalArgument)
                 else if exists u :: u in old(s.users) && EqualsIgnoreCase(old(s.users[u].username), newUsername)
                   then Failure(IllegalState)
                 else if !exists u :: u in old(s.users) && old(s.users[u].username) == authUsername
                   then Failure(UserNotFound)
                 else Success
    ensures r.Failure? ==> s.users == old(s.users)
    ensures r.Success? ==> exists u :: (u in old(s.users) && old(s.users[u].username) == authUsername &&
      s.users == old(s.users)[u := old(s.users[u]).(username := newUsername)])
    ensures UsernamesDistinctIgnoringCase(old(s.users)) ==> UsernamesDistinctIgnoringCase(s.users)
  {
    if authUsername == newUsername { return Failure(IllegalArgument); }
    if exists u :: u in s.users && EqualsIgnoreCase(s.users[u].username, newUsername) {
      return Failure(IllegalState);
    }
    if !exists u :: u in s.users && s.users[u].username == authUsername {
      return Failure(UserNotFound);
    }
    var u :| u in s.users && s.users[u].username == authUsername;
    assert forall v :: v in s.users ==> s.users[v].username != newUsername;
    UserUpdateKeepsValid(s.users, s.posts, s.comments, s.follows, s.blocks,
                         s.nextUserId, s.nextPostId, s.nextCommentId, u, s.users[u].(username := newUsername));
    s.SetUsername(u, newUsername);
    return Success;
  }

  /** changeDescription(newDescription, authUsername). */
  method ChangeDescription(s: Store, newDescription: string, actor: UserId) returns (r: Outcome)
    requires s.Valid()
    modifies s`users
    ensures s.Valid()
    ensures r == if actor !in old(s.users) then Failure(UserNotFound)
                 else if old(s.users)[actor].description == newDescription then Failure(IllegalArgument)
                 else Success
    ensures r.Failure? ==> s.users == old(s.users)
    ensures r.Success? ==> s.users == old(s.users)[actor := old(s.users[actor]).(description := newDescription)]
  {
    if actor !in s.users { return Failure(UserNotFound); }
    if s.users[actor].description == newDescription { return Failure(IllegalArgument); }
    UserUpdateKeepsValid(s.users, s.posts, s.comments, s.follows, s.blocks,
                         s.nextUserId, s.nextPostId, s.nextCommentId, actor, s.users[actor].(description := newDescription));
    s.SetDescription(actor, newDescription);
    return Success;
  }

  method GoPrivate(s: Store, actor: UserId) returns (r: Outcome)
    requires s.Valid()
    modifies s`users
    ensures s.Valid()
    ensures r == if actor !in old(s.users) then Failure(UserNotFound)
                 else if old(s.users)[actor].isPrivate then Failure(IllegalState)
                 else Success
    ensures r.Failure? ==> s.users == old(s.users)
    ensures r.Success? ==> s.users == old(s.users)[actor := old(s.users[actor]).(isPrivate := true)]
  {
    if actor !in s.users { return Failure(UserNotFound); }
    if s.users[actor].isPrivate { return Failure(IllegalState); }
    UserUpdateKeepsValid(s.users, s.posts, s.comments, s.follows, s.blocks,
                         s.nextUserId, s.nextPostId, s.nextCommentId, actor, s.users[actor].(isPrivate := true));
    s.SetPrivate(actor, true);
    return Success;
  }

  method GoPublic(s: Store, actor: UserId) returns (r: Outcome)
    requires s.Valid()
    modifies s`users
    ensures s.Valid()
    ensures r == if actor !in old(s.users) then Failure(UserNotFound)
                 else if !old(s.users)[actor].isPrivate then Failure(IllegalState)
                 else Success
    ensures r.Failure? ==> s.users == old(s.users)
    ensures r.Success? ==> s.users == old(s.users)[actor := old(s.users[actor]).(isPrivate := false)]
  {
    if actor !in s.users { return Failure(UserNotFound); }
    if !s.users[actor].isPrivate { return Failure(IllegalState); }
    UserUpdateKeepsValid(s.users, s.posts, s.comments, s.follows, s.blocks,
                         s.nextUserId, s.nextPostId, s.nextCommentId, actor, s.users[actor].(isPrivate := false));
    s.SetPrivate(actor, false);
    return Success;
  }

  method TempDelete(s: Store, actor: UserId) returns (r: Outcome)
    requires s.Valid()
    modifies s`users
    ensures s.Valid()
    ensures r == if actor !in old(s.users) then Failure(UserNotFound)
                 else if old(s.users)[actor].isDeleted then Failure(IllegalState)
                 else Success
    ensures r.Failure? ==> s.users == old(s.users)
    ensures r.Success? ==> s.users == old(s.users)[actor := old(s.users[actor]).(isDeleted := true)]
  {
    if actor !in s.users { return Failure(UserNotFound); }
    if s.users[actor].isDeleted { return Failure(IllegalState); }
    UserUpdateKeepsValid(s.users, s.posts, s.comments, s.follows, s.blocks,
                         s.nextUserId, s.nextPostId, s.nextCommentId, actor, s.users[actor].(isDeleted := true));
    s.SetUserDeleted(actor, true);
    return Success;
  }

  method Undelete(s: Store, actor: UserId) returns (r: Outcome)
    requires s.Valid()
    modifies s`users
    ensures s.Valid()
    ensures r == if actor !in old(s.users) then Failure(UserNotFound)
                 else if !old(s.users)[actor].isDeleted then Failure(IllegalState)
                 else Success
    ensures r.Failure? ==> s.users == old(s.users)
    ensures r.Success? ==> s.users == old(s.users)[actor := old(s.users[actor]).(isDeleted := false)]
  {
    if actor !in s.users { return Failure(UserNotFound); }
    if !s.users[actor].isDeleted { return Failure(IllegalState); }
    UserUpdateKeepsValid(s.users, s.posts, s.comments, s.follows, s.blocks,
                         s.nextUserId, s.nextPostId, s.nextCommentId, actor, s.users[actor].(isDeleted := false));
    s.SetUserDeleted(actor, false);
    return Success;
  }

  /** disable(username): the admin role is checked by the caller. */
  method Disable(s: Store, target: UserId) returns (r: Outcome)
    requires s.Valid()
    modifies s`users
    ensures s.Valid()
    ensures r == if target !in old(s.users) then Failure(UserNotFound)
                 else if !old(s.users)[target].isEnabled then Failure(IllegalState)
                 else Success
    ensures r.Failure? ==> s.users == old(s.users)
    ensures r.Success? ==> s.users == old(s.users)[target := old(s.users[target]).(isEnabled := false)]
  {
    if target !in s.users { return Failure(UserNotFound); }
    if !s.users[target].isEnabled { return Failure(IllegalState); }
    UserUpdateKeepsValid(s.users, s.posts, s.comments, s.follows, s.blocks,
                         s.nextUserId, s.nextPostId, s.nextCommentId, target, s.users[target].(isEnabled := false));
    s.SetEnabled(target, false);
    return Success;
  }

  method Enable(s: Store, target: UserId) returns (r: Outcome)
    requires s.Valid()
    modifies s`users
    ensures s.Valid()
    ensures r == if target !in old(s.users) then Failure(UserNotFound)
                 else if old(s.users)[target].isEnabled then Failure(IllegalState)
                 else Success
    ensures r.Failure? ==> s.users == old(s.users)
    ensures r.Success? ==> s.users == old(s.users)[target := old(s.users[target]).(isEnabled := true)]
  {
    if target !in s.users { return Failure(UserNotFound); }
    if s.users[target].isEnabled { return Failure(IllegalState); }
    UserUpdateKeepsValid(s.users, s.posts, s.comments, s.follows, s.blocks,
                         s.nextUserId, s.nextPostId, s.nextCommentId, target, s.users[target].(isEnabled := true));
    s.SetEnabled(target, true);
    return Success;
  }
}
