/**
 * The recursive comment filter shared by the post and comment services
 * (filterComments / filterCommentsAuth in both). The Java code walks a set of
 * loaded comments with an iterator, removes every comment that fails a test
 * (and with it everything below it), and recurses into the children of the
 * comments that stay. The four variants differ only in their test, which is
 * the `keep` parameter here.
 */
module CommentTree {
  import opened Model

  /** A loaded comment: its id, its row and its author's row. */
  datatype Item = Item(id: CommentId, comment: Comment, author: User)

  /** A loaded comment together with its loaded replies (the `comments` collection). */
  datatype Thread = Thread(item: Item, replies: seq<Thread>)

  /** What is left of `forest` once the filter has run over it. */
  function Pruned(forest: seq<Thread>, keep: Item -> bool): (r: seq<Thread>)
    ensures |r| <= |forest|
    decreases forest
  {
    if forest == [] then []
    else
      var last := forest[|forest| - 1];
      Pruned(forest[..|forest| - 1], keep)
        + (if keep(last.item) then [last.(replies := Pruned(last.replies, keep))] else [])
  }

  /** The iterator loop: a comment that fails the test is dropped with its subtree,
      one that passes is kept and its children are filtered in turn. */
  method Prune(forest: seq<Thread>, keep: Item -> bool) returns (kept: seq<Thread>)
    ensures kept == Pruned(forest, keep)
    decreases forest
  {
    kept := [];
    var i := 0;
    while i < |forest|
      invariant 0 <= i <= |forest|
      invariant kept == Pruned(forest[..i], keep)
    {
      var t := forest[i];
      assert forest[..i + 1][..i] == forest[..i];
      if keep(t.item) {
        var replies := Prune(t.replies, keep);
        kept := kept + [t.(replies := replies)];
      }
      i := i + 1;
    }
    assert forest[..|forest|] == forest;
  }

  /** The ids of every comment in the forest, at any depth. */
  function Ids(forest: seq<Thread>): set<CommentId>
    decreases forest
  {
    if forest == [] then {}
    else
      var last := forest[|forest| - 1];
      Ids(forest[..|forest| - 1]) + {last.item.id} + Ids(last.replies)
  }

  /** Every comment in the forest, at any depth, passes `keep`. */
  predicate AllPass(forest: seq<Thread>, keep: Item -> bool)
    decreases forest
  {
    forall i :: 0 <= i < |forest| ==> keep(forest[i].item) && AllPass(forest[i].replies, keep)
  }

  /** No comment occurs twice in the forest (comment ids are primary keys). */
  predicate DistinctIds(forest: seq<Thread>)
    decreases forest
  {
    forest == [] ||
    var init, last := forest[..|forest| - 1], forest[|forest| - 1];
    && DistinctIds(init)
    && DistinctIds(last.replies)
    && last.item.id !in Ids(last.replies)
    && Ids(init) !! ({last.item.id} + Ids(last.replies))
  }

  /** `a` is a subforest of `b`: each thread of `a` has the item of some thread
      of `b` at the same depth (in any position), with replies that form a
      subforest of that thread's replies. Order is not compared. */
  predicate Subforest(a: seq<Thread>, b: seq<Thread>)
    decreases a
  {
    forall i :: 0 <= i < |a| ==>
      exists j :: 0 <= j < |b| && a[i].item == b[j].item && Subforest(a[i].replies, b[j].replies)
  }

  lemma {:induction false} PrunedAppend(a: seq<Thread>, b: seq<Thread>, keep: Item -> bool)
    ensures Pruned(a + b, keep) == Pruned(a, keep) + Pruned(b, keep)
    decreases |b|
  {
    if b == [] {
      assert a + b == a;
    } else {
      var init := b[..|b| - 1];
      assert (a + b)[..|a + b| - 1] == a + init;
      assert (a + b)[|a + b| - 1] == b[|b| - 1];
      PrunedAppend(a, init, keep);
    }
  }

  lemma {:induction false} IdsAppend(a: seq<Thread>, b: seq<Thread>)
    ensures Ids(a + b) == Ids(a) + Ids(b)
    decreases |b|
  {
    if b == [] {
      assert a + b == a;
    } else {
      assert (a + b)[..|a + b| - 1] == a + b[..|b| - 1];
      assert (a + b)[|a + b| - 1] == b[|b| - 1];
      IdsAppend(a, b[..|b| - 1]);
    }
  }

  /** The roots of the result are exactly the roots of the input that pass the
      test, each with its replies filtered. */
  lemma {:induction false} PrunedRoots(forest: seq<Thread>, keep: Item -> bool)
    ensures forall t :: t in Pruned(forest, keep) <==>
      exists u :: u in forest && keep(u.item) && t == u.(replies := Pruned(u.replies, keep))
    decreases |forest|
  {
    if forest != [] {
      var init, last := forest[..|forest| - 1], forest[|forest| - 1];
      PrunedRoots(init, keep);
      assert forest == init + [last];
      forall t | t in Pruned(forest, keep)
        ensures exists u :: u in forest && keep(u.item) && t == u.(replies := Pruned(u.replies, keep))
      {
        if t in Pruned(init, keep) {
          var u :| u in init && keep(u.item) && t == u.(replies := Pruned(u.replies, keep));
          assert u in forest;
        } else {
          assert last in forest;
        }
      }
      forall u | u in forest && keep(u.item)
        ensures u.(replies := Pruned(u.replies, keep)) in Pruned(forest, keep)
      {
        if u in init {
          assert u.(replies := Pruned(u.replies, keep)) in Pruned(init, keep);
        } else {
          assert u == last;
        }
      }
    }
  }

  /** Every comment that survives passed the test (and so did its ancestors). */
  lemma {:induction false} PrunedAllPass(forest: seq<Thread>, keep: Item -> bool)
    ensures AllPass(Pruned(forest, keep), keep)
    decreases forest
  {
    var r := Pruned(forest, keep);
    PrunedRoots(forest, keep);
    forall i | 0 <= i < |r|
      ensures keep(r[i].item) && AllPass(r[i].replies, keep)
    {
      assert r[i] in r;
      var u :| u in forest && keep(u.item) && r[i] == u.(replies := Pruned(u.replies, keep));
      PrunedAllPass(u.replies, keep);
    }
  }

  /** A forest in which everything passes is left as it is. */
  lemma {:induction false} PrunedOfAllPass(forest: seq<Thread>, keep: Item -> bool)
    requires AllPass(forest, keep)
    ensures Pruned(forest, keep) == forest
    decreases forest
  {
    if forest != [] {
      var init, last := forest[..|forest| - 1], forest[|forest| - 1];
      assert AllPass(init, keep) by {
        forall i | 0 <= i < |init| ensures keep(init[i].item) && AllPass(init[i].replies, keep) {
          assert init[i] == forest[i];
        }
      }
      PrunedOfAllPass(init, keep);
      PrunedOfAllPass(last.replies, keep);
      assert forest == init + [last];
    }
  }

  /** Filtering twice is filtering once. */
  lemma PrunedIdempotent(forest: seq<Thread>, keep: Item -> bool)
    ensures Pruned(Pruned(forest, keep), keep) == Pruned(forest, keep)
  {
    PrunedAllPass(forest, keep);
    PrunedOfAllPass(Pruned(forest, keep), keep);
  }

  /** The filter only removes: no comment appears that was not there. */
  lemma {:induction false} PrunedIdsSubset(forest: seq<Thread>, keep: Item -> bool)
    ensures Ids(Pruned(forest, keep)) <= Ids(forest)
    decreases forest
  {
    if forest != [] {
      var init, last := forest[..|forest| - 1], forest[|forest| - 1];
      PrunedIdsSubset(init, keep);
      PrunedIdsSubset(last.replies, keep);
      var tail := if keep(last.item) then [last.(replies := Pruned(last.replies, keep))] else [];
      IdsAppend(Pruned(init, keep), tail);
      if keep(last.item) {
        var t := last.(replies := Pruned(last.replies, keep));
        assert [t][..0] == [];
        assert Ids([t]) == {last.item.id} + Ids(t.replies);
      }
    }
  }

  /** The result is a subforest of the input. */
  lemma {:induction false} PrunedIsSubforest(forest: seq<Thread>, keep: Item -> bool)
    ensures Subforest(Pruned(forest, keep), forest)
    decreases forest
  {
    var r := Pruned(forest, keep);
    PrunedRoots(forest, keep);
    forall i | 0 <= i < |r|
      ensures exists j :: 0 <= j < |forest| && r[i].item == forest[j].item && Subforest(r[i].replies, forest[j].replies)
    {
      assert r[i] in r;
      var u :| u in forest && keep(u.item) && r[i] == u.(replies := Pruned(u.replies, keep));
      var j :| 0 <= j < |forest| && forest[j] == u;
      PrunedIsSubforest(u.replies, keep);
    }
  }

  lemma {:induction false} MemberIds(forest: seq<Thread>, u: Thread)
    requires u in forest
    ensures {u.item.id} + Ids(u.replies) <= Ids(forest)
    decreases |forest|
  {
    var init, last := forest[..|forest| - 1], forest[|forest| - 1];
    if u != last {
      assert forest == init + [last];
      assert u in init;
      MemberIds(init, u);
    }
  }

  /** `u` is a thread of the forest at some depth: a root, or a thread among
      the replies of a root, and so on down. */
  predicate Occurs(u: Thread, forest: seq<Thread>)
    decreases forest
  {
    exists i :: 0 <= i < |forest| && (forest[i] == u || Occurs(u, forest[i].replies))
  }

  /** Where a thread of `init + [last]` can be: in `init`, at `last`, or below `last`. */
  lemma OccursSplit(u: Thread, forest: seq<Thread>)
    requires Occurs(u, forest)
    ensures var init, last := forest[..|forest| - 1], forest[|forest| - 1];
      Occurs(u, init) || u == last || Occurs(u, last.replies)
  {
    var init, last := forest[..|forest| - 1], forest[|forest| - 1];
    var i :| 0 <= i < |forest| && (forest[i] == u || Occurs(u, forest[i].replies));
    if i < |forest| - 1 {
      assert init[i] == forest[i];
    }
  }

  /** A thread found at any depth contributes its id and its descendants' ids. */
  lemma {:induction false} OccursIds(u: Thread, forest: seq<Thread>)
    requires Occurs(u, forest)
    ensures {u.item.id} + Ids(u.replies) <= Ids(forest)
    decreases forest
  {
    var i :| 0 <= i < |forest| && (forest[i] == u || Occurs(u, forest[i].replies));
    MemberIds(forest, forest[i]);
    if forest[i] != u {
      OccursIds(u, forest[i].replies);
    }
  }

  /** A comment that fails the test, at whatever depth, takes its whole subtree
      with it: none of its descendants survives, whatever their own flags. */
  lemma {:induction false} PrunedDropsSubtree(forest: seq<Thread>, keep: Item -> bool, u: Thread)
    requires DistinctIds(forest)
    requires Occurs(u, forest) && !keep(u.item)
    ensures Ids(Pruned(forest, keep)) !! ({u.item.id} + Ids(u.replies))
    decreases forest
  {
    var init, last := forest[..|forest| - 1], forest[|forest| - 1];
    var sub := {u.item.id} + Ids(u.replies);
    var lastIds := {last.item.id} + Ids(last.replies);
    PrunedIdsLast(forest, keep);
    PrunedIdsSubset(init, keep);
    PrunedIdsSubset(last.replies, keep);
    assert Ids(init) !! lastIds;
    OccursSplit(u, forest);
    if Occurs(u, init) {
      PrunedDropsSubtree(init, keep, u);
      OccursIds(u, init);
    } else if u == last {
    } else {
      OccursIds(u, last.replies);
      PrunedDropsSubtree(last.replies, keep, u);
    }
  }

  /** Below a root that stays, a reply that fails goes with all its own replies,
      while the root is still shown. */
  lemma FailingReplyUnderKeptRoot(forest: seq<Thread>, keep: Item -> bool, root: Thread, reply: Thread)
    requires DistinctIds(forest)
    requires root in forest && keep(root.item)
    requires reply in root.replies && !keep(reply.item)
    ensures root.item.id in Ids(Pruned(forest, keep))
    ensures Ids(Pruned(forest, keep)) !! ({reply.item.id} + Ids(reply.replies))
  {
    var i :| 0 <= i < |forest| && forest[i] == root;
    var j :| 0 <= j < |root.replies| && root.replies[j] == reply;
    assert Occurs(reply, root.replies);
    PrunedDropsSubtree(forest, keep, reply);
    PrunedRoots(forest, keep);
    MemberIds(Pruned(forest, keep), root.(replies := Pruned(root.replies, keep)));
  }

  /** A weaker test holds wherever a stronger one does. */
  lemma {:induction false} AllPassWeaken(forest: seq<Thread>, strict: Item -> bool, weak: Item -> bool)
    requires AllPass(forest, strict)
    requires forall i :: strict(i) ==> weak(i)
    ensures AllPass(forest, weak)
    decreases forest
  {
    forall i | 0 <= i < |forest| ensures weak(forest[i].item) && AllPass(forest[i].replies, weak) {
      AllPassWeaken(forest[i].replies, strict, weak);
    }
  }

  /** The ids a pruning keeps, one top-level thread at a time from the end. */
  lemma PrunedIdsLast(forest: seq<Thread>, keep: Item -> bool)
    requires forest != []
    ensures var init, last := forest[..|forest| - 1], forest[|forest| - 1];
      Ids(Pruned(forest, keep)) == Ids(Pruned(init, keep)) +
        (if keep(last.item) then {last.item.id} + Ids(Pruned(last.replies, keep)) else {})
  {
    var init, last := forest[..|forest| - 1], forest[|forest| - 1];
    var t := if keep(last.item) then [last.(replies := Pruned(last.replies, keep))] else [];
    IdsAppend(Pruned(init, keep), t);
    if keep(last.item) {
      assert t[..0] == [];
    }
  }

  /** A stricter test keeps no more than a weaker one. */
  lemma {:induction false} PrunedMonotone(forest: seq<Thread>, strict: Item -> bool, weak: Item -> bool)
    requires forall i :: strict(i) ==> weak(i)
    ensures Ids(Pruned(forest, strict)) <= Ids(Pruned(forest, weak))
    decreases forest
  {
    if forest != [] {
      var init, last := forest[..|forest| - 1], forest[|forest| - 1];
      PrunedMonotone(init, strict, weak);
      PrunedMonotone(last.replies, strict, weak);
      PrunedIdsLast(forest, strict);
      PrunedIdsLast(forest, weak);
    }
  }
}
