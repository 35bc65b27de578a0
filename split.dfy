/**
 * The `split` helper of the throw rule: given the hand and one index-subset, the
 * throw pile is the cards at the listed positions and the keep pile the rest, both
 * in hand order.  Index values outside the hand are never matched and so ignored.
 */
module Piles {
  import opened Cards

  /** The positions below `n`, in increasing order, that are listed in `indices` (when
      `thrown`) or not listed (when `!thrown`). */
  function Positions(n: nat, indices: seq<int>, thrown: bool): (ps: seq<nat>)
    ensures forall j :: 0 <= j < |ps| ==> ps[j] < n
  {
    if n == 0 then []
    else Positions(n - 1, indices, thrown) + (if (n - 1 in indices) == thrown then [n - 1] else [])
  }

  /** The cards of `hand` at the positions `ps`, in the order of `ps`. */
  function Gather(hand: seq<Card>, ps: seq<nat>): (cs: seq<Card>)
    requires forall j :: 0 <= j < |ps| ==> ps[j] < |hand|
    ensures |cs| == |ps|
  {
    seq(|ps|, j requires 0 <= j < |ps| => hand[ps[j]])
  }

  /** The cards of `hand`, in hand order, whose position's membership in `indices` is `thrown`. */
  function Pile(hand: seq<Card>, indices: seq<int>, thrown: bool): (pile: seq<Card>)
    ensures |pile| <= |hand|
  {
    if |hand| == 0 then []
    else Pile(hand[..|hand| - 1], indices, thrown)
         + (if (|hand| - 1 in indices) == thrown then [hand[|hand| - 1]] else [])
  }

  function KeepPile(hand: seq<Card>, indices: seq<int>): seq<Card>
  {
    Pile(hand, indices, false)
  }

  function ThrowPile(hand: seq<Card>, indices: seq<int>): seq<Card>
  {
    Pile(hand, indices, true)
  }

  /** A position is selected exactly when it lies in the hand and its membership in
      `indices` matches the pile. */
  lemma {:induction false} PositionsMembership(n: nat, indices: seq<int>, thrown: bool, p: int)
    ensures p in Positions(n, indices, thrown) <==> 0 <= p < n && (p in indices) == thrown
  {
    if n > 0 {
      PositionsMembership(n - 1, indices, thrown, p);
    }
  }

  /** Positions come out strictly increasing, i.e. in hand order and without repeats. */
  lemma {:induction false} PositionsIncreasing(n: nat, indices: seq<int>, thrown: bool)
    ensures forall j1, j2 :: 0 <= j1 < j2 < |Positions(n, indices, thrown)| ==>
      Positions(n, indices, thrown)[j1] < Positions(n, indices, thrown)[j2]
  {
    if n > 0 {
      PositionsIncreasing(n - 1, indices, thrown);
    }
  }

  /** Every position of the hand is in exactly one of the two piles. */
  lemma {:induction false} PositionsCover(n: nat, indices: seq<int>)
    ensures |Positions(n, indices, true)| + |Positions(n, indices, false)| == n
    ensures forall p :: 0 <= p < n ==>
      (p in Positions(n, indices, true) <==> p !in Positions(n, indices, false))
  {
    if n > 0 {
      PositionsCover(n - 1, indices);
    }
    forall p | 0 <= p < n
      ensures p in Positions(n, indices, true) <==> p !in Positions(n, indices, false)
    {
      PositionsMembership(n, indices, true, p);
      PositionsMembership(n, indices, false, p);
    }
  }

  /** Gathering one more position appends that position's card. */
  lemma GatherSnoc(hand: seq<Card>, ps: seq<nat>, p: nat)
    requires forall j :: 0 <= j < |ps| ==> ps[j] < |hand|
    requires p < |hand|
    ensures Gather(hand, ps + [p]) == Gather(hand, ps) + [hand[p]]
  {
  }

  /** Gathering positions that all lie in a prefix reads the same cards from the prefix. */
  lemma GatherPrefix(hand: seq<Card>, ps: seq<nat>, n: nat)
    requires n <= |hand|
    requires forall j :: 0 <= j < |ps| ==> ps[j] < n
    ensures Gather(hand, ps) == Gather(hand[..n], ps)
  {
  }

  /** Each pile is the hand read at its positions: the throw pile is `hand[i]` for the listed
      `i` in increasing order, the keep pile `hand[i]` for the others. */
  lemma {:induction false} PileAt(hand: seq<Card>, indices: seq<int>, thrown: bool)
    ensures Pile(hand, indices, thrown) == Gather(hand, Positions(|hand|, indices, thrown))
  {
    if |hand| > 0 {
      var n := |hand|;
      var init := hand[..n - 1];
      PileAt(init, indices, thrown);
      var ps := Positions(n - 1, indices, thrown);
      GatherPrefix(hand, ps, n - 1);
      if (n - 1 in indices) == thrown {
        GatherSnoc(hand, ps, n - 1);
      }
    }
  }

  /** Keep and throw together are a rearrangement of the hand: no card is lost or doubled. */
  lemma {:induction false} SplitPartition(hand: seq<Card>, indices: seq<int>)
    ensures |KeepPile(hand, indices)| + |ThrowPile(hand, indices)| == |hand|
    ensures multiset(KeepPile(hand, indices)) + multiset(ThrowPile(hand, indices)) == multiset(hand)
  {
    if |hand| > 0 {
      var init, x := hand[..|hand| - 1], hand[|hand| - 1];
      SplitPartition(init, indices);
      assert hand == init + [x];
    }
  }

  /** A sequence without repeats has as many distinct elements as it has elements. */
  lemma {:induction false} DistinctCardinality(s: seq<int>)
    requires forall j1, j2 :: 0 <= j1 < j2 < |s| ==> s[j1] != s[j2]
    ensures |set x | x in s| == |s|
  {
    if |s| > 0 {
      var init := s[..|s| - 1];
      DistinctCardinality(init);
      assert (set x | x in s) == (set x | x in init) + {s[|s| - 1]};
      assert s[|s| - 1] !in init;
    }
  }

  /** The throw pile has one card per distinct index value that names a position of the hand. */
  lemma ThrowPileSize(hand: seq<Card>, indices: seq<int>)
    ensures |ThrowPile(hand, indices)| == |set i | 0 <= i < |hand| && i in indices|
  {
    var ps := Positions(|hand|, indices, true);
    PileAt(hand, indices, true);
    PositionsIncreasing(|hand|, indices, true);
    DistinctCardinality(ps);
    forall p ensures p in ps <==> 0 <= p < |hand| && p in indices {
      PositionsMembership(|hand|, indices, true, p);
    }
    assert (set x | x in ps) == (set i | 0 <= i < |hand| && i in indices);
  }

  /** A well-formed index-subset (distinct positions of the hand) throws exactly as many
      cards as it lists, and the rest are kept. */
  lemma ThrowCount(hand: seq<Card>, indices: seq<int>)
    requires forall j :: 0 <= j < |indices| ==> 0 <= indices[j] < |hand|
    requires forall j1, j2 :: 0 <= j1 < j2 < |indices| ==> indices[j1] != indices[j2]
    ensures |ThrowPile(hand, indices)| == |indices|
    ensures |KeepPile(hand, indices)| == |hand| - |indices|
  {
    ThrowPileSize(hand, indices);
    DistinctCardinality(indices);
    assert (set i | 0 <= i < |hand| && i in indices) == (set x | x in indices);
    SplitPartition(hand, indices);
  }

  /** Builds both piles in one pass over the hand, appending each card to one of them. */
  method Split(hand: seq<Card>, indices: seq<int>) returns (keep: seq<Card>, throw: seq<Card>)
    ensures keep == KeepPile(hand, indices)
    ensures throw == ThrowPile(hand, indices)
    ensures multiset(keep) + multiset(throw) == multiset(hand)
  {
    keep, throw := [], [];
    for i := 0 to |hand|
      invariant keep == Pile(hand[..i], indices, false)
      invariant throw == Pile(hand[..i], indices, true)
    {
      assert hand[..i + 1][..i] == hand[..i];
      if i in indices {
        throw := throw + [hand[i]];
      } else {
        keep := keep + [hand[i]];
      }
    }
    assert hand[..|hand|] == hand;
    SplitPartition(hand, indices);
  }
}
