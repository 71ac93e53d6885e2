# Blogging app policy layer in Dafny

This project models the rules a small blogging service enforces on top of
its database: who may see a user, a post or a comment; how likes and
dislikes move a rating; the order of checks before a moderation flag flips;
following and blocking; the comment forest that is pruned before it is
returned; and the slugs that name posts and comments in URLs.

It is organised the way the Java code is:

- `Model` (model.dfy) holds the User, Post and Comment entities as datatypes,
  their constructors with the field defaults, and the follow and block
  relations as sets of directed edges.
- `VoteLedger` (vote_ledger.dfy) holds the vote state of a post or comment:
  the `likedBy` and `dislikedBy` sets and the rating. It also holds the
  repository steps each vote operation performs, and the invariant
  rating = |likedBy| - |dislikedBy| with the two sets disjoint.
- `Repository` (repository.dfy) is a `class Store` whose fields are the
  tables. Its methods are the repository mutations the services call.
  `Store.Valid` is the integrity the services maintain. From the schema
  come the foreign keys (owners and parents exist, and parents are older)
  and the cascades on `Post.comments` and `Comment.comments`. The rest is
  kept by the code, not by a database constraint: no two usernames are
  equal because registration and `changeUsername` check before saving, and
  a reply belongs to its parent's post because `create` copies that post.
  `Valid` also includes the vote invariant. The cascading deletes of posts
  and comment subtrees are modelled here.
- `PostService`, `CommentService` and `UserService` model the three
  service implementations. Each operation is a method on the store. Its
  contract gives the exact error it returns, in the source's order of checks.
  It also gives the exact new state on success, and that a failure changes
  nothing.
- `CommentTree` (comment_tree.dfy) is the comment forest and the recursive
  pruning loop both filters run, with its properties.
- `UriSanitizer` and `JavaText` model `UriSanitizer.encode` and the few
  `String`/`Long` library calls the URI code uses.

Each Java exception is an `Error` value (errors.dfy): UserNotFound,
PostNotFound, CommentNotFound, IllegalArgument and IllegalState. The
signed-in caller is the user id its username resolves to; an id that is not
in the user table stands for a name that resolves to nobody. An anonymous
viewer is `None`.

Where the code and its own tests or design disagree, the model follows the
code:

- The comment URI tests expect "comment-on-post-1-1" for comment 1 with the
  content "Comment on post 1". The code first cuts the content to 15
  characters, which gives "comment-on-post-1". `CommentService.FirstCommentUri`
  proves that value.
- A post's owner sees the post even when an admin has deleted it.
- `CommentServiceImpl.create` calls a post check that the post service does
  not define. It is modelled as the post service's `isViewable` for the
  caller; a post that fails it gives PostNotFound.
- The signed-in user visibility check never reads the enabled flag, while
  the anonymous check and the test oracles do.
  `UserService.SignedInViewing` states this.

## Model

| member | source | states |
|---|---|---|
| Model.NewUser | src/main/java/com/example/bloggingapp/model/User.java:33-44 | a new user is enabled, not deleted, has roles exactly [USER], and takes privacy from its argument |
| Model.NewPost | src/main/java/com/example/bloggingapp/model/Post.java:31-42 | a new post has no votes and rating 0, is neither deleted nor admin-deleted, and takes hidden and shareable from its arguments |
| Model.NewComment | src/main/java/com/example/bloggingapp/model/Comment.java:58-62 | the three-argument constructor gives a top-level comment with no votes, neither deleted nor hidden |
| Model.NewReply | src/main/java/com/example/bloggingapp/model/Comment.java:64-69 | the four-argument constructor sets both the parent post and the parent comment |
| Model.IsTopLevel | src/main/java/com/example/bloggingapp/repository/CommentRepository.java:19 | a comment is top-level exactly when it has no parent comment |
| Model.Followers | src/main/java/com/example/bloggingapp/model/User.java:46-53 | v is a follower of u exactly when the edge (v, u) is in the follow relation |
| Model.Targets | src/main/java/com/example/bloggingapp/model/User.java:55-65 | v is among the users u follows (or has blocked) exactly when the edge (u, v) is in the follow (or block) relation |
| Model.FollowingIsInverseOfFollowers | src/main/java/com/example/bloggingapp/model/User.java:46-56 | definition check: v is among u's followers iff u is among v's followings |
| Model.BlockIsDirected | src/main/java/com/example/bloggingapp/model/User.java:58-65 | definition check: a blocking b adds b to a's blocked users and leaves b's blocked users unchanged |
| VoteLedger.AfterLike | src/main/java/com/example/bloggingapp/service/impl/PostServiceImpl.java:105-110 | the ballot after like's repository calls: a dislike is removed with +1, then the like is inserted with +1 |
| VoteLedger.AfterRemoveLike | src/main/java/com/example/bloggingapp/service/impl/PostServiceImpl.java:124-125 | the ballot after removeLike's calls: the like is removed with -1 |
| VoteLedger.AfterDislike | src/main/java/com/example/bloggingapp/service/impl/PostServiceImpl.java:139-144 | the ballot after dislike's calls: a like is removed with -1, then the dislike is inserted with -1 |
| VoteLedger.AfterRemoveDislike | src/main/java/com/example/bloggingapp/service/impl/PostServiceImpl.java:159-160 | the ballot after removeDislike's calls: the dislike is removed with +1 |
| VoteLedger.LikeStep | src/main/java/com/example/bloggingapp/service/impl/PostServiceImpl.java:96-111 | after a like the voter has liked and not disliked; the rating rises by 2 from a dislike and by 1 otherwise; no other voter's vote changes |
| VoteLedger.RemoveLikeStep | src/main/java/com/example/bloggingapp/service/impl/PostServiceImpl.java:115-126 | removing a like clears the voter's vote and lowers the rating by 1; others are untouched |
| VoteLedger.DislikeStep | src/main/java/com/example/bloggingapp/service/impl/PostServiceImpl.java:130-145 | after a dislike the voter has disliked and not liked; the rating falls by 2 from a like and by 1 otherwise |
| VoteLedger.RemoveDislikeStep | src/main/java/com/example/bloggingapp/service/impl/PostServiceImpl.java:150-161 | removing a dislike clears the voter's vote and raises the rating by 1 |
| VoteLedger.VoteStepsKeepConsistency | src/main/java/com/example/bloggingapp/service/impl/PostServiceImpl.java:96-161 | every guarded vote step keeps rating = \|likedBy\| - \|dislikedBy\| with the two sets disjoint |
| VoteLedger.RatingBounded | src/main/java/com/example/bloggingapp/model/Post.java:31 | under that invariant the rating lies between -\|dislikedBy\| and \|likedBy\| |
| VoteLedger.LikeThenDislike | src/main/java/com/example/bloggingapp/service/impl/PostServiceImpl.java:96-145 | worked example: like then dislike from a fresh post leaves rating -1 with the voter only among the dislikers |
| JavaText.ToLowerChar | src/main/java/com/example/bloggingapp/utils/UriSanitizer.java:6 | `Character.toLowerCase` on ASCII: a capital moves 32 code points down to its lower-case letter, every other character stays, and no capital remains |
| JavaText.ToLower | src/main/java/com/example/bloggingapp/utils/UriSanitizer.java:6 | String.toLowerCase keeps the length and lowers each ASCII capital |
| JavaText.EqualsIgnoreCase | src/main/java/com/example/bloggingapp/service/impl/UserServiceImpl.java:119 | two names are equal ignoring case when their ASCII lower-casings agree, the comparison behind `existsByUsernameIgnoreCase` |
| JavaText.LastIndexOf | src/main/java/com/example/bloggingapp/service/impl/PostServiceImpl.java:90-92 | String.lastIndexOf gives the last position holding the character, or -1 when there is none |
| JavaText.Digits | src/main/java/com/example/bloggingapp/service/impl/PostServiceImpl.java:85-87 | the decimal text of a non-negative id is a non-empty run of digits with no dash |
| JavaText.LongToString | src/main/java/com/example/bloggingapp/service/impl/PostServiceImpl.java:86 | the decimal text of an id: its digits, after a minus sign when it is negative |
| JavaText.ParseLong | src/main/java/com/example/bloggingapp/service/impl/PostServiceImpl.java:90-92 | Long.parseLong succeeds only with a value in the 64-bit range |
| JavaText.DigitsValueOfDigits | src/main/java/com/example/bloggingapp/service/impl/PostServiceImpl.java:85-92 | the digits of n read back as n |
| JavaText.ParseLongOfDigits | src/main/java/com/example/bloggingapp/service/impl/PostServiceImpl.java:85-92 | Long.parseLong of the decimal text of n, for 0 <= n <= Long.MAX_VALUE, is n |
| JavaText.LastDashBeforeTail | src/main/java/com/example/bloggingapp/service/impl/PostServiceImpl.java:90-92 | when the tail has no dash, the last dash of x + "-" + tail sits at \|x\| and what follows it is the tail |
| UriSanitizer.IsLetterOrDigit | src/main/java/com/example/bloggingapp/utils/UriSanitizer.java:19 | `Character.isLetterOrDigit` on ASCII: a letter of either case or a decimal digit |
| UriSanitizer.IsAllowedChar | src/main/java/com/example/bloggingapp/utils/UriSanitizer.java:18-20 | a character is kept when it is a letter or digit (ASCII), one of "-", ".", "_", "~", or a space |
| UriSanitizer.CollapsesAt | src/main/java/com/example/bloggingapp/utils/UriSanitizer.java:11 | a disallowed character that is neither first nor last and has a space on both sides |
| UriSanitizer.Built | src/main/java/com/example/bloggingapp/utils/UriSanitizer.java:7-14 | the StringBuilder after the first n characters: an allowed one is appended, a collapsing one deletes the last character, any other is skipped; after a space it ends in a space |
| UriSanitizer.Encoded | src/main/java/com/example/bloggingapp/utils/UriSanitizer.java:4-16 | what encode returns: the builder over the lower-cased input, with spaces replaced by dashes |
| UriSanitizer.Encode | src/main/java/com/example/bloggingapp/utils/UriSanitizer.java:4-16 | the character loop builds exactly the specified encoding |
| UriSanitizer.ReplaceSpaces | src/main/java/com/example/bloggingapp/utils/UriSanitizer.java:15 | each space becomes '-' and every other character stays |
| UriSanitizer.BuiltLength | src/main/java/com/example/bloggingapp/utils/UriSanitizer.java:7-14 | the builder never holds more characters than were scanned |
| UriSanitizer.BuiltChars | src/main/java/com/example/bloggingapp/utils/UriSanitizer.java:9-10 | the builder holds only allowed, lower-case characters |
| UriSanitizer.CollapseUndoesSpace | src/main/java/com/example/bloggingapp/utils/UriSanitizer.java:11-12 | a disallowed character between two spaces deletes exactly the space appended just before it |
| UriSanitizer.BuiltAppends | src/main/java/com/example/bloggingapp/utils/UriSanitizer.java:9-10 | an allowed character is appended |
| UriSanitizer.BuiltAppendsRun | src/main/java/com/example/bloggingapp/utils/UriSanitizer.java:9-10 | scanning a run of allowed characters appends that run verbatim |
| UriSanitizer.BuiltDrops | src/main/java/com/example/bloggingapp/utils/UriSanitizer.java:11-13 | a disallowed character not between two spaces is dropped |
| UriSanitizer.EncodedHasNoSpace | src/main/java/com/example/bloggingapp/utils/UriSanitizer.java:15 | the encoding contains no space |
| UriSanitizer.EncodedIsSlug | src/main/java/com/example/bloggingapp/utils/UriSanitizer.java:4-20 | every encoded character is a lower-case letter, a digit or one of - . _ ~, and the encoding is no longer than the input |
| UriSanitizer.BuiltOfSlug | src/main/java/com/example/bloggingapp/utils/UriSanitizer.java:7-14 | on slug text the builder copies its input unchanged |
| UriSanitizer.EncodedOfSlug | src/main/java/com/example/bloggingapp/utils/UriSanitizer.java:4-16 | encoding text that is already a slug returns it unchanged |
| UriSanitizer.EncodeIdempotent | src/main/java/com/example/bloggingapp/utils/UriSanitizer.java:4-16 | encoding twice equals encoding once |
| UriSanitizer.BuiltIgnoresSuffix | src/main/java/com/example/bloggingapp/utils/UriSanitizer.java:11 | text appended after a prefix, when it does not start with a space, does not change how the prefix is scanned |
| UriSanitizer.BuiltAppendsSlug | src/main/java/com/example/bloggingapp/utils/UriSanitizer.java:7-14 | scanning a slug suffix appends it verbatim |
| UriSanitizer.EncodeKeepsSlugSuffix | src/main/java/com/example/bloggingapp/utils/UriSanitizer.java:4-16 | encode(x + y) == encode(x) + y for a slug y that does not start with a space |
| UriSanitizer.CollapseExample | src/main/java/com/example/bloggingapp/utils/UriSanitizer.java:9-15 | worked example: "a & b" encodes to "a-b" |
| CommentTree.Pruned | src/main/java/com/example/bloggingapp/service/impl/PostServiceImpl.java:290-300 | pruning never lengthens a forest |
| CommentTree.Prune | src/main/java/com/example/bloggingapp/service/impl/PostServiceImpl.java:290-300 | the iterator loop that removes failing comments and recurses into the kept ones computes the pruned forest |
| CommentTree.PrunedAppend | src/main/java/com/example/bloggingapp/service/impl/PostServiceImpl.java:290-300 | each comment is judged on its own: pruning distributes over concatenation |
| CommentTree.IdsAppend | src/main/java/com/example/bloggingapp/service/impl/PostServiceImpl.java:290-300 | the ids of a concatenation are the union of the ids |
| CommentTree.PrunedRoots | src/main/java/com/example/bloggingapp/service/impl/PostServiceImpl.java:290-300 | a top-level thread survives iff it was in the input and passes the test, and its replies are then pruned in turn |
| CommentTree.PrunedAllPass | src/main/java/com/example/bloggingapp/service/impl/PostServiceImpl.java:290-300 | every comment left at any depth passes the test |
| CommentTree.PrunedOfAllPass | src/main/java/com/example/bloggingapp/service/impl/PostServiceImpl.java:290-300 | a forest where every comment passes is left unchanged |
| CommentTree.PrunedIdempotent | src/main/java/com/example/bloggingapp/service/impl/PostServiceImpl.java:290-300 | pruning twice equals pruning once |
| CommentTree.PrunedIdsSubset | src/main/java/com/example/bloggingapp/service/impl/PostServiceImpl.java:290-300 | pruning introduces no comment |
| CommentTree.PrunedIsSubforest | src/main/java/com/example/bloggingapp/service/impl/PostServiceImpl.java:290-300 | the result is a subforest of the input |
| CommentTree.MemberIds | src/main/java/com/example/bloggingapp/service/impl/PostServiceImpl.java:290-300 | a thread of the forest contributes its own id and all its descendants' ids |
| CommentTree.PrunedDropsSubtree | src/main/java/com/example/bloggingapp/service/impl/PostServiceImpl.java:290-300 | on a forest in which each comment occurs once, a comment that fails, at any depth, takes its whole subtree with it, visible descendants included |
| CommentTree.FailingReplyUnderKeptRoot | src/main/java/com/example/bloggingapp/service/impl/PostServiceImpl.java:290-300 | on a forest in which each comment occurs once: under a root that is shown, a failing reply is removed with all its replies while the root stays |
| CommentTree.AllPassWeaken | src/main/java/com/example/bloggingapp/service/impl/PostServiceImpl.java:290-313 | a forest that passes a stricter test passes a weaker one |
| CommentTree.PrunedIdsLast | src/main/java/com/example/bloggingapp/service/impl/PostServiceImpl.java:290-313 | the ids kept from a forest are those kept from all but its last thread plus those kept from the last thread |
| CommentTree.PrunedMonotone | src/main/java/com/example/bloggingapp/service/impl/PostServiceImpl.java:290-313 | a stricter test keeps no more comments |
| Repository.Root | src/main/java/com/example/bloggingapp/service/impl/CommentServiceImpl.java:52-54 | following parent links from any comment reaches a top-level comment of the same post, so a reply's post is its root's post |
| Repository.Subtree | src/main/java/com/example/bloggingapp/model/Comment.java:34-35 | the comments the cascade on Comment.comments removes with c: c and every comment whose parent chain reaches c |
| Repository.CommentsOf | src/main/java/com/example/bloggingapp/model/Post.java:34-35 | the `Post.comments` collection: every comment whose parentPost is p, replies included, which the cascade removes with the post |
| Repository.SubtreeClosed | src/main/java/com/example/bloggingapp/model/Comment.java:34-35 | a comment's subtree is itself plus every comment whose parent lies in the subtree |
| Repository.SubtreeRemovalKeepsLinks | src/main/java/com/example/bloggingapp/model/Comment.java:34-35 | removing a whole subtree leaves no comment with a missing parent |
| Repository.PostCascadeKeepsLinks | src/main/java/com/example/bloggingapp/model/Post.java:34-35 | removing a post's comments leaves no dangling parent and no comment of that post |
| Repository.AddCommentKeepsValid | src/main/java/com/example/bloggingapp/service/impl/CommentServiceImpl.java:47-56 | saving a comment whose owner and parents exist keeps the comment table consistent |
| Repository.PostUpdateKeepsValid | src/main/java/com/example/bloggingapp/repository/PostRepository.java:30-82 | changing a post's fields without its owner keeps the tables consistent |
| Repository.CommentUpdateKeepsValid | src/main/java/com/example/bloggingapp/repository/CommentRepository.java:26-73 | changing a comment's fields without its owner or parents keeps the tables consistent |
| Repository.UserUpdateKeepsValid | src/main/java/com/example/bloggingapp/repository/UserRepository.java:48-55 | changing a user's fields keeps the tables consistent when the username stays unique |
| Repository.Store.constructor | src/main/java/com/example/bloggingapp/repository/UserRepository.java:15 | the empty store is consistent |
| Repository.Store.SaveUser | src/main/java/com/example/bloggingapp/service/impl/UserServiceImpl.java:30-33 | saving a user stores it under a fresh id, the next in sequence |
| Repository.Store.SetPrivate | src/main/java/com/example/bloggingapp/service/impl/UserServiceImpl.java:169-184 | only the user's privacy flag changes |
| Repository.Store.SetUserDeleted | src/main/java/com/example/bloggingapp/repository/UserRepository.java:47-55 | only the user's deleted flag changes |
| Repository.Store.SetEnabled | src/main/java/com/example/bloggingapp/service/impl/UserServiceImpl.java:216-231 | only the user's enabled flag changes |
| Repository.Store.SetUsername | src/main/java/com/example/bloggingapp/service/impl/UserServiceImpl.java:115-125 | only the username changes |
| Repository.Store.SetDescription | src/main/java/com/example/bloggingapp/service/impl/UserServiceImpl.java:160-166 | only the description changes |
| Repository.Store.InsertFollow | src/main/java/com/example/bloggingapp/repository/UserRepository.java:27-30 | the follow edge is added |
| Repository.Store.DeleteFollow | src/main/java/com/example/bloggingapp/repository/UserRepository.java:32-35 | the follow edge is removed |
| Repository.Store.InsertBlock | src/main/java/com/example/bloggingapp/repository/UserRepository.java:37-40 | the block edge is added |
| Repository.Store.DeleteBlock | src/main/java/com/example/bloggingapp/repository/UserRepository.java:42-45 | the block edge is removed |
| Repository.Store.SavePost | src/main/java/com/example/bloggingapp/service/impl/PostServiceImpl.java:58-60 | saving a post stores it under a fresh id |
| Repository.Store.InsertPostLike | src/main/java/com/example/bloggingapp/repository/PostRepository.java:30-32 | the voter joins likedBy of that post only |
| Repository.Store.RemovePostLike | src/main/java/com/example/bloggingapp/repository/PostRepository.java:35-37 | the voter leaves likedBy of that post only |
| Repository.Store.InsertPostDislike | src/main/java/com/example/bloggingapp/repository/PostRepository.java:40-42 | the voter joins dislikedBy |
| Repository.Store.RemovePostDislike | src/main/java/com/example/bloggingapp/repository/PostRepository.java:45-47 | the voter leaves dislikedBy |
| Repository.Store.ChangePostRating | src/main/java/com/example/bloggingapp/repository/PostRepository.java:50-52 | the rating moves by the change |
| Repository.Store.SetTitle | src/main/java/com/example/bloggingapp/repository/PostRepository.java:55-57 | only the title changes |
| Repository.Store.SetPostContent | src/main/java/com/example/bloggingapp/repository/PostRepository.java:60-62 | only the content changes |
| Repository.Store.SetPostDeleted | src/main/java/com/example/bloggingapp/repository/PostRepository.java:65-72 | only the deleted flag changes |
| Repository.Store.SetPostHidden | src/main/java/com/example/bloggingapp/repository/PostRepository.java:75-82 | only the hidden flag changes |
| Repository.Store.SetDeletedByAdmin | src/main/java/com/example/bloggingapp/service/impl/PostServiceImpl.java:272-287 | only the admin-deleted flag changes |
| Repository.Store.DeletePost | src/main/java/com/example/bloggingapp/model/Post.java:34-35 | the post and every comment of it are removed, and nothing else |
| Repository.Store.SaveComment | src/main/java/com/example/bloggingapp/service/impl/CommentServiceImpl.java:33-35 | saving a comment stores it under a fresh id |
| Repository.Store.InsertCommentLike | src/main/java/com/example/bloggingapp/repository/CommentRepository.java:26-28 | the voter joins likedBy of that comment only |
| Repository.Store.RemoveCommentLike | src/main/java/com/example/bloggingapp/repository/CommentRepository.java:31-33 | the voter leaves likedBy |
| Repository.Store.InsertCommentDislike | src/main/java/com/example/bloggingapp/repository/CommentRepository.java:36-38 | the voter joins dislikedBy |
| Repository.Store.RemoveCommentDislike | src/main/java/com/example/bloggingapp/repository/CommentRepository.java:41-43 | the voter leaves dislikedBy |
| Repository.Store.ChangeCommentRating | src/main/java/com/example/bloggingapp/repository/CommentRepository.java:46-48 | the rating moves by the change |
| Repository.Store.SetCommentDeleted | src/main/java/com/example/bloggingapp/repository/CommentRepository.java:51-58 | only the deleted flag changes |
| Repository.Store.SetCommentHidden | src/main/java/com/example/bloggingapp/repository/CommentRepository.java:61-68 | only the hidden flag changes |
| Repository.Store.DeleteComment | src/main/java/com/example/bloggingapp/model/Comment.java:34-35 | the comment and its whole subtree of replies are removed, and nothing else |
| PostService.PubliclyVisible | src/main/java/com/example/bloggingapp/service/impl/PostServiceImpl.java:75 | the post is neither hidden, deleted nor admin-deleted, and its owner is public, not deleted and enabled |
| PostService.IsViewable | src/main/java/com/example/bloggingapp/service/impl/PostServiceImpl.java:72-82 | an anonymous viewer needs the public test; the owner always sees the post; any other signed-in viewer needs the public test and no block either way |
| PostService.AdminDeletedVisibleOnlyToOwner | src/main/java/com/example/bloggingapp/service/impl/PostServiceImpl.java:72-82 | an admin-deleted post is viewable by exactly its owner |
| PostService.SigningInKeepsVisibility | src/main/java/com/example/bloggingapp/service/impl/PostServiceImpl.java:72-82 | a signed-in non-owner sees a post iff it is anonymously visible and no block stands either way |
| PostService.Access | src/main/java/com/example/bloggingapp/service/impl/PostServiceImpl.java:96-101 | the vote checks pass iff the caller exists and the post exists and is viewable by the caller; otherwise UserNotFound before PostNotFound |
| PostService.OwnerAccess | src/main/java/com/example/bloggingapp/service/impl/PostServiceImpl.java:164-172 | the owner checks pass iff the caller owns the post; a non-owner who can see it gets IllegalState, one who cannot gets PostNotFound |
| PostService.Like | src/main/java/com/example/bloggingapp/service/impl/PostServiceImpl.java:96-111 | like: errors in order, IllegalState when already liked; on success only that post's ballot changes, to the voter having liked; the store stays consistent |
| PostService.ApplyLike | src/main/java/com/example/bloggingapp/service/impl/PostServiceImpl.java:102-110 | once the checks have passed, the like step keeps the store consistent, changes only this post's ballot and leaves the actor liked |
| PostService.StoreLike | src/main/java/com/example/bloggingapp/service/impl/PostServiceImpl.java:102-110 | the repository calls of like produce the like step |
| PostService.RemoveLike | src/main/java/com/example/bloggingapp/service/impl/PostServiceImpl.java:115-126 | removeLike: IllegalState without a like; on success the voter has no vote |
| PostService.ApplyRemoveLike | src/main/java/com/example/bloggingapp/service/impl/PostServiceImpl.java:124-125 | once the checks have passed, the remove step keeps the store consistent, changes only this post's ballot and leaves the actor neither liked nor disliked |
| PostService.StoreRemoveLike | src/main/java/com/example/bloggingapp/service/impl/PostServiceImpl.java:124-125 | the repository calls of removeLike produce the remove step |
| PostService.Dislike | src/main/java/com/example/bloggingapp/service/impl/PostServiceImpl.java:130-145 | dislike, the mirror of like |
| PostService.ApplyDislike | src/main/java/com/example/bloggingapp/service/impl/PostServiceImpl.java:136-144 | once the checks have passed, the dislike step keeps the store consistent, changes only this post's ballot and leaves the actor disliked |
| PostService.StoreDislike | src/main/java/com/example/bloggingapp/service/impl/PostServiceImpl.java:136-144 | the repository calls of dislike produce the dislike step |
| PostService.RemoveDislike | src/main/java/com/example/bloggingapp/service/impl/PostServiceImpl.java:150-161 | removeDislike, the mirror of removeLike |
| PostService.ApplyRemoveDislike | src/main/java/com/example/bloggingapp/service/impl/PostServiceImpl.java:159-160 | once the checks have passed, the remove step keeps the store consistent, changes only this post's ballot and leaves the actor neither liked nor disliked |
| PostService.StoreRemoveDislike | src/main/java/com/example/bloggingapp/service/impl/PostServiceImpl.java:159-160 | the repository calls of removeDislike produce the remove step |
| PostService.ChangeTitle | src/main/java/com/example/bloggingapp/service/impl/PostServiceImpl.java:164-180 | visibility, ownership, neither deleted nor admin-deleted, then a different title; only the title changes |
| PostService.ChangeContent | src/main/java/com/example/bloggingapp/service/impl/PostServiceImpl.java:183-199 | the same checks for the content; only the content changes |
| PostService.TempDelete | src/main/java/com/example/bloggingapp/service/impl/PostServiceImpl.java:202-215 | visibility, ownership, then IllegalState if already deleted; only the deleted flag is set |
| PostService.Undelete | src/main/java/com/example/bloggingapp/service/impl/PostServiceImpl.java:218-227 | no owner check, yet success implies the caller is the owner; only the deleted flag is cleared |
| PostService.PermanentlyDelete | src/main/java/com/example/bloggingapp/service/impl/PostServiceImpl.java:230-240 | only the owner deletes; the post and all its comments go, and no remaining comment belongs to it |
| PostService.Hide | src/main/java/com/example/bloggingapp/service/impl/PostServiceImpl.java:243-256 | visibility, ownership, then IllegalState if already hidden; only the hidden flag is set |
| PostService.Unhide | src/main/java/com/example/bloggingapp/service/impl/PostServiceImpl.java:259-269 | no visibility check; a non-owner gets PostNotFound; IllegalState if not hidden |
| PostService.TempDeleteByAdmin | src/main/java/com/example/bloggingapp/service/impl/PostServiceImpl.java:272-278 | only PostNotFound or IllegalState when already admin-deleted; only that flag is set |
| PostService.UndeleteByAdmin | src/main/java/com/example/bloggingapp/service/impl/PostServiceImpl.java:281-287 | the reverse: IllegalState when not admin-deleted; only that flag is cleared |
| PostService.UriByTitleAndId | src/main/java/com/example/bloggingapp/service/impl/PostServiceImpl.java:85-87 | a post URI consists only of slug characters |
| PostService.IdByUri | src/main/java/com/example/bloggingapp/service/impl/PostServiceImpl.java:90-92 | a parsed id is a 64-bit value; text that is not a number gives no id |
| PostService.UriRoundTrip | src/main/java/com/example/bloggingapp/service/impl/PostServiceImpl.java:85-92 | the id read back from a post URI is the id it was made from, for every title and every id in 0..Long.MAX_VALUE |
| PostService.ThirdPostUri | src/main/java/com/example/bloggingapp/service/impl/PostServiceImpl.java:85-87 | worked example: "Third user's post" with id 3 gives "third-users-post-3" |
| PostService.ThirdPostSlug | src/main/java/com/example/bloggingapp/utils/UriSanitizer.java:4-16 | example step towards ThirdPostUri: "Third user's post" encodes to "third-users-post" |
| PostService.ThirdPostLower | src/main/java/com/example/bloggingapp/utils/UriSanitizer.java:6 | example step towards ThirdPostUri: lower-casing "Third user's post" gives "third user's post" |
| PostService.ThirdPostBuilt | src/main/java/com/example/bloggingapp/utils/UriSanitizer.java:7-14 | example step towards ThirdPostUri: scanning "third user's post" drops the apostrophe only |
| PostService.ThirdPostHead | src/main/java/com/example/bloggingapp/utils/UriSanitizer.java:9-10 | example step towards ThirdPostUri: the first 10 characters "third user" are copied |
| PostService.ThirdPostTail | src/main/java/com/example/bloggingapp/utils/UriSanitizer.java:9-10 | example step towards ThirdPostUri: characters 11 to 16, "s post", are copied |
| PostService.ThirdPostDashes | src/main/java/com/example/bloggingapp/utils/UriSanitizer.java:15 | example step towards ThirdPostUri: the spaces of "third users post" become dashes |
| PostService.PublicComment | src/main/java/com/example/bloggingapp/service/impl/PostServiceImpl.java:294 | a comment survives unless it is deleted, hidden or admin-deleted, or its author is private, deleted or disabled |
| PostService.CommentVisibleTo | src/main/java/com/example/bloggingapp/service/impl/PostServiceImpl.java:307 | the public test plus no block either way between author and viewer, with no exemption for the viewer's own comments |
| PostService.FilterComments | src/main/java/com/example/bloggingapp/service/impl/PostServiceImpl.java:290-300 | the anonymous filter keeps exactly the pruned forest and every survivor passes the six-flag test |
| PostService.FilterCommentsAuth | src/main/java/com/example/bloggingapp/service/impl/PostServiceImpl.java:303-313 | the signed-in filter adds the two block tests, with no owner exemption |
| PostService.SignedInSeesNoMoreComments | src/main/java/com/example/bloggingapp/service/impl/PostServiceImpl.java:290-313 | a signed-in viewer is shown no comment an anonymous viewer is not |
| PostService.TestOracle | src/test/java/com/example/bloggingapp/service/impl/TestServiceImpl.java:105-113 | the test suite accepts a shown comment when it is the viewer's own or passes the full signed-in test |
| PostService.FilterMeetsTestOracle | src/test/java/com/example/bloggingapp/service/impl/TestServiceImpl.java:105-113 | every survivor of the signed-in filter satisfies the test suite's non-owner check |
| PostService.BlockRemovesThread | src/main/java/com/example/bloggingapp/service/impl/PostServiceImpl.java:303-313 | on a forest in which each comment occurs once, a block either way removes the author's comment, at any depth, together with all replies under it |
| PostService.FlatPostCommentsKeepReplyOfHidden | src/main/java/com/example/bloggingapp/service/impl/PostServiceImpl.java:36-53 | worked example at the post service's own call sites: `post.getComments()` lists a reply both as a root and under its parent, so that forest has a repeated comment and a passing reply of a failing comment is still returned |
| CommentService.AllowViewing | src/main/java/com/example/bloggingapp/service/impl/CommentServiceImpl.java:102-107 | the comment is neither hidden nor deleted and its author is public |
| CommentService.AllowViewingAuth | src/main/java/com/example/bloggingapp/service/impl/CommentServiceImpl.java:110-116 | as the anonymous test, except that the author passes their own hidden comment, and no block either way |
| CommentService.CheckAllowViewingAuth | src/main/java/com/example/bloggingapp/service/impl/CommentServiceImpl.java:110-116 | passes iff the viewer exists and may see the comment; UserNotFound first, then CommentNotFound |
| CommentService.AuthorViewing | src/main/java/com/example/bloggingapp/service/impl/CommentServiceImpl.java:110-116 | a deleted comment or one by a private author is visible to nobody, its author included; otherwise the author sees it even hidden |
| CommentService.SigningInAndViewing | src/main/java/com/example/bloggingapp/service/impl/CommentServiceImpl.java:102-116 | to a non-author, the signed-in check is the anonymous check plus no block either way |
| CommentService.Access | src/main/java/com/example/bloggingapp/service/impl/CommentServiceImpl.java:155-160 | the vote checks pass iff the caller exists and may see the comment |
| CommentService.OwnerAccess | src/main/java/com/example/bloggingapp/service/impl/CommentServiceImpl.java:241-248 | the owner checks of hide, unhide and permanentlyDelete pass iff the caller owns the comment, it is not deleted, the caller is not private and has not blocked themself |
| CommentService.OwnerModeration | src/main/java/com/example/bloggingapp/service/impl/CommentServiceImpl.java:209-229 | the checks of tempDelete and undelete: a block either way gives CommentNotFound, a non-owner IllegalState; visibility is not checked |
| CommentService.CreateCheck | src/main/java/com/example/bloggingapp/service/impl/CommentServiceImpl.java:38-55 | exactly one parent must be given, else IllegalArgument; the parent must exist and be visible to the caller |
| CommentService.Create | src/main/java/com/example/bloggingapp/service/impl/CommentServiceImpl.java:38-57 | on success the new comment takes the next id; a reply takes its parent's post; nothing changes on failure |
| CommentService.Like | src/main/java/com/example/bloggingapp/service/impl/CommentServiceImpl.java:155-166 | like with the comment's checks, the same ballot transition as posts |
| CommentService.ApplyLike | src/main/java/com/example/bloggingapp/service/impl/CommentServiceImpl.java:161-165 | once the checks have passed, the like step keeps the store consistent, changes only this comment's ballot and leaves the actor liked |
| CommentService.StoreLike | src/main/java/com/example/bloggingapp/service/impl/CommentServiceImpl.java:161-165 | the repository calls of like produce the like step |
| CommentService.RemoveLike | src/main/java/com/example/bloggingapp/service/impl/CommentServiceImpl.java:170-178 | removeLike for comments |
| CommentService.ApplyRemoveLike | src/main/java/com/example/bloggingapp/service/impl/CommentServiceImpl.java:176-177 | once the checks have passed, the remove step keeps the store consistent, changes only this comment's ballot and leaves the actor neither liked nor disliked |
| CommentService.StoreRemoveLike | src/main/java/com/example/bloggingapp/service/impl/CommentServiceImpl.java:176-177 | the repository calls of removeLike produce the remove step |
| CommentService.Dislike | src/main/java/com/example/bloggingapp/service/impl/CommentServiceImpl.java:182-194 | dislike for comments |
| CommentService.ApplyDislike | src/main/java/com/example/bloggingapp/service/impl/CommentServiceImpl.java:188-193 | once the checks have passed, the dislike step keeps the store consistent, changes only this comment's ballot and leaves the actor disliked |
| CommentService.StoreDislike | src/main/java/com/example/bloggingapp/service/impl/CommentServiceImpl.java:188-193 | the repository calls of dislike produce the dislike step |
| CommentService.RemoveDislike | src/main/java/com/example/bloggingapp/service/impl/CommentServiceImpl.java:198-206 | removeDislike for comments |
| CommentService.ApplyRemoveDislike | src/main/java/com/example/bloggingapp/service/impl/CommentServiceImpl.java:204-205 | once the checks have passed, the remove step keeps the store consistent, changes only this comment's ballot and leaves the actor neither liked nor disliked |
| CommentService.StoreRemoveDislike | src/main/java/com/example/bloggingapp/service/impl/CommentServiceImpl.java:204-205 | the repository calls of removeDislike produce the remove step |
| CommentService.TempDelete | src/main/java/com/example/bloggingapp/service/impl/CommentServiceImpl.java:209-217 | block, owner, then IllegalState if already deleted; only the deleted flag is set |
| CommentService.Undelete | src/main/java/com/example/bloggingapp/service/impl/CommentServiceImpl.java:220-229 | the reverse; the owner always succeeds on their deleted comment |
| CommentService.PermanentlyDelete | src/main/java/com/example/bloggingapp/service/impl/CommentServiceImpl.java:232-238 | only the owner deletes, and the whole reply subtree goes with the comment; a deleted comment always gives CommentNotFound |
| CommentService.Hide | src/main/java/com/example/bloggingapp/service/impl/CommentServiceImpl.java:241-248 | owner checks, then IllegalState if already hidden |
| CommentService.Unhide | src/main/java/com/example/bloggingapp/service/impl/CommentServiceImpl.java:251-258 | the owner can unhide their hidden comment when it is not deleted and they are not private |
| CommentService.Excerpt | src/main/java/com/example/bloggingapp/service/impl/CommentServiceImpl.java:66-68 | the content is cut to at most its first 15 characters |
| CommentService.UriByIdAndContent | src/main/java/com/example/bloggingapp/service/impl/CommentServiceImpl.java:65-70 | a comment URI is a post URI of the excerpt |
| CommentService.UriRoundTrip | src/main/java/com/example/bloggingapp/service/impl/CommentServiceImpl.java:65-75 | the id read back from a comment URI is its id, for every id in 0..Long.MAX_VALUE |
| CommentService.UriSeesOnlyExcerpt | src/main/java/com/example/bloggingapp/service/impl/CommentServiceImpl.java:66-68 | contents that agree on their first 15 characters give the same URI |
| CommentService.FirstCommentUri | src/main/java/com/example/bloggingapp/service/impl/CommentServiceImpl.java:65-70 | worked example: comment 1 with content "Comment on post 1" gives "comment-on-post-1" |
| CommentService.ExcerptSlug | src/main/java/com/example/bloggingapp/utils/UriSanitizer.java:4-16 | example step towards FirstCommentUri: "Comment on post" encodes to "comment-on-post" |
| CommentService.ExcerptLower | src/main/java/com/example/bloggingapp/utils/UriSanitizer.java:6 | example step towards FirstCommentUri: lower-casing "Comment on post" gives "comment on post" |
| CommentService.ExcerptBuilt | src/main/java/com/example/bloggingapp/utils/UriSanitizer.java:7-14 | example step towards FirstCommentUri: scanning "comment on post" copies it unchanged |
| CommentService.ExcerptDashes | src/main/java/com/example/bloggingapp/utils/UriSanitizer.java:15 | example step towards FirstCommentUri: the spaces of "comment on post" become dashes |
| CommentService.PublicComment | src/main/java/com/example/bloggingapp/service/impl/CommentServiceImpl.java:81 | a comment survives unless it is deleted or hidden or its author is private |
| CommentService.CommentVisibleTo | src/main/java/com/example/bloggingapp/service/impl/CommentServiceImpl.java:93 | the public test plus no block either way between author and viewer |
| CommentService.FilterComments | src/main/java/com/example/bloggingapp/service/impl/CommentServiceImpl.java:78-87 | the comment service's anonymous filter keeps exactly the pruned forest under its three-flag test |
| CommentService.FilterCommentsAuth | src/main/java/com/example/bloggingapp/service/impl/CommentServiceImpl.java:90-99 | the signed-in variant adds the block tests |
| CommentService.SignedInSeesNoMoreComments | src/main/java/com/example/bloggingapp/service/impl/CommentServiceImpl.java:78-99 | the signed-in filter keeps no comment the anonymous one drops |
| CommentService.PostFilterIsStricter | src/main/java/com/example/bloggingapp/service/impl/PostServiceImpl.java:290-300 | the post service's filter keeps no comment the comment service's filter drops |
| CommentService.FilterAgreesWithCheck | src/main/java/com/example/bloggingapp/service/impl/CommentServiceImpl.java:78-107 | every survivor of the anonymous filter passes checkAllowViewing |
| UserService.AllowViewing | src/main/java/com/example/bloggingapp/service/impl/UserServiceImpl.java:234-238 | the user is public, not deleted and enabled |
| UserService.AllowViewingAuth | src/main/java/com/example/bloggingapp/service/impl/UserServiceImpl.java:241-246 | the user is not deleted, is public unless it is the viewer, and no block stands either way; the enabled flag is not read |
| UserService.IsBlockedByOrPrivate | src/main/java/com/example/bloggingapp/service/impl/UserServiceImpl.java:249-251 | the user is private or has blocked the viewer |
| UserService.CheckAllowViewingAuth | src/main/java/com/example/bloggingapp/service/impl/UserServiceImpl.java:241-246 | passes iff the viewer exists and may see the user; all failures are UserNotFound |
| UserService.SelfViewing | src/main/java/com/example/bloggingapp/service/impl/UserServiceImpl.java:241-246 | a user sees their own profile, private or not, exactly when it is not deleted |
| UserService.SignedInViewing | src/main/java/com/example/bloggingapp/service/impl/UserServiceImpl.java:234-246 | to anyone else the signed-in check is the anonymous check without the enabled test, plus no block either way |
| UserService.Follow | src/main/java/com/example/bloggingapp/service/impl/UserServiceImpl.java:55-64 | UserNotFound, IllegalArgument on self, IllegalState when already following; otherwise exactly the edge caller to target is added |
| UserService.Unfollow | src/main/java/com/example/bloggingapp/service/impl/UserServiceImpl.java:67-76 | the mirror: IllegalState when not following; exactly that edge is removed |
| UserService.FollowUpdatesBothSides | src/main/java/com/example/bloggingapp/service/impl/UserServiceImpl.java:55-76 | a follow adds the caller to the target's followers and the target to the caller's followings, no other user's followers change, and an unfollow takes it back |
| UserService.BlockAccess | src/main/java/com/example/bloggingapp/service/impl/UserServiceImpl.java:79-86 | the first checks of block and unblock pass iff the target is public, enabled, not deleted, has not blocked the caller and is not the caller |
| UserService.Block | src/main/java/com/example/bloggingapp/service/impl/UserServiceImpl.java:79-97 | IllegalState when already blocked; otherwise the follow edges both ways are removed and the block edge added, and no other edge changes |
| UserService.Unblock | src/main/java/com/example/bloggingapp/service/impl/UserServiceImpl.java:100-112 | IllegalState when not blocked; otherwise exactly the block edge is removed; a private target can never be unblocked |
| UserService.BlockEdges | src/main/java/com/example/bloggingapp/service/impl/UserServiceImpl.java:90-96 | after a block neither user follows the other and only the caller's blocked set grows |
| UserService.ChangeUsername | src/main/java/com/example/bloggingapp/service/impl/UserServiceImpl.java:115-125 | IllegalArgument for the same name, IllegalState for a name taken in any case, then UserNotFound; only that user's name changes; it preserves case-insensitive distinctness of usernames when that already holds (registration checks exact names only, so it is not a store invariant) |
| UserService.ChangeDescription | src/main/java/com/example/bloggingapp/service/impl/UserServiceImpl.java:160-166 | IllegalArgument for an unchanged description, otherwise only the description changes |
| UserService.GoPrivate | src/main/java/com/example/bloggingapp/service/impl/UserServiceImpl.java:169-175 | IllegalState when already private; otherwise only the privacy flag is set |
| UserService.GoPublic | src/main/java/com/example/bloggingapp/service/impl/UserServiceImpl.java:178-184 | IllegalState when already public; otherwise only the privacy flag is cleared |
| UserService.TempDelete | src/main/java/com/example/bloggingapp/service/impl/UserServiceImpl.java:187-193 | IllegalState when already deleted; otherwise only the deleted flag is set |
| UserService.Undelete | src/main/java/com/example/bloggingapp/service/impl/UserServiceImpl.java:196-202 | IllegalState when not deleted; otherwise only the deleted flag is cleared |
| UserService.Disable | src/main/java/com/example/bloggingapp/service/impl/UserServiceImpl.java:216-222 | IllegalState when already disabled; otherwise only the enabled flag is cleared |
| UserService.Enable | src/main/java/com/example/bloggingapp/service/impl/UserServiceImpl.java:225-231 | IllegalState when already enabled; otherwise only the enabled flag is set |

## Left out

- HTTP controllers, DTOs, mappers and the exception-to-status mapping: presentation only. Only the exception kinds are kept.
- Authentication and secrets: JWT issuance, the password encoder and the authentication manager. `changeEmail`, `changePassword` and the user's `permanentlyDelete` depend on them and are not modelled.
- UserService.ChangeUsername: does not return the new token, because issuing tokens belongs to authentication.
- Repository read queries (`findByUser`, `findN`, the by-parent lookups with their ordering and limits), and the loading of a post's comment forest from the database. The filters take the forest as input.
- CommentTree.PrunedDropsSubtree, CommentTree.FailingReplyUnderKeptRoot and PostService.BlockRemovesThread: these need each comment to occur once in the forest. The post service's `findByUser` filters `post.getComments()`, which is mapped by `parentPost` and so holds every comment of the post, replies included (`Repository.CommentsOf`). There a reply is both a root and a child of its parent, so a passing reply of a hidden or blocked comment is still returned at the top level. The comment service's lookup by post, `findByParentPostId`, is not declared in the repository snapshot and by its name selects on `parentPost` too. The subtree promise holds for the lookups by parent comment (the direct replies, each with its own `comments` subtree), not at those by post; `PostService.FlatPostCommentsKeepReplyOfHidden` exhibits the case.
- Transactions and concurrency: each service method is one atomic step.
- Clocks: creation times are parameters.
- Unicode: case folding, `Character.isLetterOrDigit` and the digits `Long.parseLong` accepts (any Unicode decimal digit, through `Character.digit`) are modelled on ASCII letters and digits, and `substring(0, 15)` counts characters, not UTF-16 code units.
- Java's 32-bit `int` rating: the rating is an unbounded integer. `VoteLedger.RatingBounded` shows that it stays between -|dislikedBy| and |likedBy|, so it is bounded by the number of voters.
- Setting a comment's admin-deleted flag: the post service's comment filter reads `comment.getDeletedByAdmin()`, but the entity snapshot declares no such field and no operation of the core sets it. The model gives Comment the flag so that the filter can read it, and no operation sets it.
- The bodies of the database-level validation annotations (`@Size`, `@NotBlank`, `@Email`): they come from the validation library.
- The entity snapshot declares none of `Post.isDeletedByAdmin`, `Comment.isDeletedByAdmin` and `User.description`, which the services read (and, for the first and last, set). All three are part of the model.
- `Post.comments` is a list in the entity, while the filters treat comments as sets. The model keeps each forest as a sequence, and the order does not affect which comments survive.
