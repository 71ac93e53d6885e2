/**
 * The vote state of a post or a comment: the `likedBy` and `dislikedBy` join
 * tables and the denormalised `rating` column, together with the repository
 * mutations the services compose (insertLike, removeLike, insertDislike,
 * removeDislike, changeRating) and the four compositions the services run.
 */
module VoteLedger {

  /** A user id (the `user_id` column of the vote join tables). */
  type VoterId = nat

  datatype Ballot = Ballot(rating: int, likedBy: set<VoterId>, dislikedBy: set<VoterId>)

  /** A freshly constructed post or comment: rating 0, nobody has voted. */
  const NoVotes: Ballot := Ballot(0, {}, {})

  /** How far the counter has drifted from the vote sets. */
  function Drift(b: Ballot): int {
    b.rating - (|b.likedBy| - |b.dislikedBy|)
  }

  /** The ledger invariant: the rating counts the votes, and no user both likes and dislikes. */
  predicate Consistent(b: Ballot) {
    Drift(b) == 0 && b.likedBy !! b.dislikedBy
  }

  datatype Vote = NoVote | Liked | Disliked

  /** The vote a user currently has on the item. */
  function VoteOf(b: Ballot, u: VoterId): Vote {
    if u in b.likedBy then Liked else if u in b.dislikedBy then Disliked else NoVote
  }

  // The repository mutations (native INSERT / DELETE on the join tables, and
  // `UPDATE ... SET rating = rating + :change`).

  function InsertLike(b: Ballot, u: VoterId): Ballot { b.(likedBy := b.likedBy + {u}) }
  function RemoveLike(b: Ballot, u: VoterId): Ballot { b.(likedBy := b.likedBy - {u}) }
  function InsertDislike(b: Ballot, u: VoterId): Ballot { b.(dislikedBy := b.dislikedBy + {u}) }
  function RemoveDislike(b: Ballot, u: VoterId): Ballot { b.(dislikedBy := b.dislikedBy - {u}) }
  function ChangeRating(b: Ballot, change: int): Ballot { b.(rating := b.rating + change) }

  // The sequences of mutations `like`, `removeLike`, `dislike` and
  // `removeDislike` perform once their guards have passed.

  function AfterLike(b: Ballot, u: VoterId): Ballot {
    var b1 := if u in b.dislikedBy then ChangeRating(RemoveDislike(b, u), 1) else b;
    ChangeRating(InsertLike(b1, u), 1)
  }

  function AfterRemoveLike(b: Ballot, u: VoterId): Ballot {
    ChangeRating(RemoveLike(b, u), -1)
  }

  function AfterDislike(b: Ballot, u: VoterId): Ballot {
    var b1 := if u in b.likedBy then ChangeRating(RemoveLike(b, u), -1) else b;
    ChangeRating(InsertDislike(b1, u), -1)
  }

  function AfterRemoveDislike(b: Ballot, u: VoterId): Ballot {
    ChangeRating(RemoveDislike(b, u), 1)
  }

  /** `like` (guard: not already liked) leaves the voter liking, rates +1 from no vote
      and +2 from a dislike, keeps the drift and the disjointness, and touches nobody else's vote. */
  lemma LikeStep(b: Ballot, u: VoterId)
    requires u !in b.likedBy
    ensures var a := AfterLike(b, u);
      && VoteOf(a, u) == Liked
      && u in a.likedBy && u !in a.dislikedBy
      && a.rating == b.rating + (if VoteOf(b, u) == Disliked then 2 else 1)
      && Drift(a) == Drift(b)
      && (b.likedBy !! b.dislikedBy ==> a.likedBy !! a.dislikedBy)
      && (forall v :: v != u ==> VoteOf(a, v) == VoteOf(b, v))
  {
  }

  /** `removeLike` (guard: liked) clears the like and rates -1. */
  lemma RemoveLikeStep(b: Ballot, u: VoterId)
    requires u in b.likedBy
    ensures var a := AfterRemoveLike(b, u);
      && u !in a.likedBy && a.dislikedBy == b.dislikedBy
      && a.rating == b.rating - 1
      && Drift(a) == Drift(b)
      && (b.likedBy !! b.dislikedBy ==> a.likedBy !! a.dislikedBy && VoteOf(a, u) == NoVote)
      && (forall v :: v != u ==> VoteOf(a, v) == VoteOf(b, v))
  {
  }

  /** `dislike` (guard: not already disliked) mirrors `like`: -1 from no vote, -2 from a like. */
  lemma DislikeStep(b: Ballot, u: VoterId)
    requires u !in b.dislikedBy
    ensures var a := AfterDislike(b, u);
      && VoteOf(a, u) == Disliked
      && u in a.dislikedBy && u !in a.likedBy
      && a.rating == b.rating - (if VoteOf(b, u) == Liked then 2 else 1)
      && Drift(a) == Drift(b)
      && (b.likedBy !! b.dislikedBy ==> a.likedBy !! a.dislikedBy)
      && (forall v :: v != u ==> VoteOf(a, v) == VoteOf(b, v))
  {
  }

  /** `removeDislike` (guard: disliked) clears the dislike and rates +1. */
  lemma RemoveDislikeStep(b: Ballot, u: VoterId)
    requires u in b.dislikedBy
    ensures var a := AfterRemoveDislike(b, u);
      && u !in a.dislikedBy && a.likedBy == b.likedBy
      && a.rating == b.rating + 1
      && Drift(a) == Drift(b)
      && (b.likedBy !! b.dislikedBy ==> a.likedBy !! a.dislikedBy && VoteOf(a, u) == NoVote)
      && (forall v :: v != u ==> VoteOf(a, v) == VoteOf(b, v))
  {
  }

  /** Every vote operation that passes its guard keeps the ledger invariant. */
  lemma VoteStepsKeepConsistency(b: Ballot, u: VoterId)
    requires Consistent(b)
    ensures u !in b.likedBy ==> Consistent(AfterLike(b, u))
    ensures u in b.likedBy ==> Consistent(AfterRemoveLike(b, u))
    ensures u !in b.dislikedBy ==> Consistent(AfterDislike(b, u))
    ensures u in b.dislikedBy ==> Consistent(AfterRemoveDislike(b, u))
  {
    if u !in b.likedBy { LikeStep(b, u); }
    if u in b.likedBy { RemoveLikeStep(b, u); }
    if u !in b.dislikedBy { DislikeStep(b, u); }
    if u in b.dislikedBy { RemoveDislikeStep(b, u); }
  }

  /** In a consistent ledger the rating is bounded by the number of voters,
      so a 32-bit counter cannot wrap before 2^31 users exist. */
  lemma RatingBounded(b: Ballot)
    requires Consistent(b)
    ensures -|b.dislikedBy| <= b.rating <= |b.likedBy|
  {
  }

  /** The scenario of a voter who likes a fresh item and then dislikes it. */
  lemma LikeThenDislike(u: VoterId)
    ensures AfterLike(NoVotes, u) == Ballot(1, {u}, {})
    ensures AfterDislike(AfterLike(NoVotes, u), u) == Ballot(-1, {}, {u})
  {
  }
}
