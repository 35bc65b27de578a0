/**
 * The throw rule (`MyPolicy.my_greedy_throw` and `MyPolicy.keep`): weigh each rank
 * by how many of its cards are still unseen, value every candidate split of the hand
 * by the weighted score of the kept hand plus (for the dealer) or minus (for the
 * opponent) the score of the crib over the 13 possible turn-card ranks, and choose
 * the first split of highest value.
 *
 * Weights are kept in quarters: the source's `1 - 0.25 * count` becomes `4 - count`,
 * so every value here is four times the source's and the choice is the same.
 */
module Throw {
  import opened Wrappers
  import opened Cards
  import opened ArgMax
  import opened Piles

  /** `scoring.score(game, cards, turn_card, is_crib)[0]`: the points of a pile with a turn card. */
  type ScoreOracle = (seq<Card>, Card, bool) -> int

  /** The chosen keep pile, throw pile and their (quartered) value. */
  datatype ThrowChoice = ThrowChoice(keep: seq<Card>, throw: seq<Card>, value: int)

  /** The number of cards of rank `r` in `hand`. */
  function CountRank(hand: seq<Card>, r: int): (n: nat)
    ensures n <= |hand|
  {
    if |hand| == 0 then 0
    else CountRank(hand[..|hand| - 1], r) + (if hand[|hand| - 1].rank == r then 1 else 0)
  }

  /** Weight of rank `r` in quarters: each of its four suits counts one, less the ones in hand. */
  function RankWeight(hand: seq<Card>, r: int): int
  {
    4 - CountRank(hand, r)
  }

  /** The sum of the weights of ranks 1..n. */
  function WeightSum(hand: seq<Card>, n: nat): int
  {
    if n == 0 then 0 else WeightSum(hand, n - 1) + RankWeight(hand, n)
  }

  /** Starts every rank at weight 4 and takes one off per card of that rank in the hand. */
  method RankWeights(hand: seq<Card>) returns (weights: map<int, int>)
    ensures weights.Keys == Ranks
    ensures forall r :: 1 <= r <= 13 ==> weights[r] == RankWeight(hand, r)
  {
    weights := map r | r in Ranks :: 4;
    for i := 0 to |hand|
      invariant weights.Keys == Ranks
      invariant forall r :: 1 <= r <= 13 ==> weights[r] == RankWeight(hand[..i], r)
    {
      assert hand[..i + 1][..i] == hand[..i];
      var rank := hand[i].rank;
      weights := weights[rank := weights[rank] - 1];
    }
    assert hand[..|hand|] == hand;
  }

  /** A rank with no card in the hand keeps the full weight. */
  lemma {:induction false} AbsentRankFullWeight(hand: seq<Card>, r: int)
    requires forall c :: c in hand ==> c.rank != r
    ensures RankWeight(hand, r) == 4
  {
    if |hand| > 0 {
      assert forall c :: c in hand[..|hand| - 1] ==> c in hand;
      AbsentRankFullWeight(hand[..|hand| - 1], r);
    }
  }

  /** Adding one card to the hand takes one unit off the weights of ranks 1..n if its
      rank is among them, and leaves the others. */
  lemma {:induction false} WeightSumSnoc(hand: seq<Card>, c: Card, n: nat)
    ensures WeightSum(hand + [c], n) == WeightSum(hand, n) - (if c.rank <= n then 1 else 0)
  {
    assert (hand + [c])[..|hand|] == hand;
    if n > 0 {
      WeightSumSnoc(hand, c, n - 1);
    }
  }

  lemma {:induction false} WeightSumEmpty(n: nat)
    ensures WeightSum([], n) == 4 * n
  {
    if n > 0 {
      WeightSumEmpty(n - 1);
    }
  }

  /** The weights add up to 52 less the hand size: one unit per unseen card of the deck. */
  lemma {:induction false} WeightTotal(hand: seq<Card>)
    ensures WeightSum(hand, 13) == 52 - |hand|
  {
    if |hand| == 0 {
      WeightSumEmpty(13);
    } else {
      var init := hand[..|hand| - 1];
      WeightTotal(init);
      WeightSumSnoc(init, hand[|hand| - 1], 13);
      assert init + [hand[|hand| - 1]] == hand;
    }
  }

  /** The cards of rank `r` in a hand without repeated cards. */
  function CardsOfRank(hand: seq<Card>, r: int): set<Card>
  {
    set c | c in hand && c.rank == r
  }

  lemma {:induction false} CountDistinct(hand: seq<Card>, r: int)
    requires forall j1, j2 :: 0 <= j1 < j2 < |hand| ==> hand[j1] != hand[j2]
    ensures CountRank(hand, r) == |CardsOfRank(hand, r)|
  {
    if |hand| > 0 {
      var init, c := hand[..|hand| - 1], hand[|hand| - 1];
      assert hand == init + [c];
      CountDistinct(init, r);
      assert c !in init;
      var before := CardsOfRank(init, r);
      assert c !in before;
      if c.rank == r {
        assert CardsOfRank(hand, r) == before + {c};
      } else {
        assert CardsOfRank(hand, r) == before;
      }
    }
  }

  lemma SubsetCardinality(a: set<Card>, b: set<Card>)
    requires a <= b
    ensures |a| <= |b|
  {
    assert b == a + (b - a);
  }

  /** A hand dealt from one deck (no card twice) holds at most four cards of a rank, so no
      weight drops below zero. */
  lemma WeightNonNegative(hand: seq<Card>, r: Rank)
    requires forall j1, j2 :: 0 <= j1 < j2 < |hand| ==> hand[j1] != hand[j2]
    ensures RankWeight(hand, r) >= 0
  {
    CountDistinct(hand, r);
    var suits := {Card(r, Spades), Card(r, Hearts), Card(r, Diamonds), Card(r, Clubs)};
    forall c | c in CardsOfRank(hand, r) ensures c in suits {
      match c.suit
      case Spades =>
      case Hearts =>
      case Diamonds =>
      case Clubs =>
    }
    SubsetCardinality(CardsOfRank(hand, r), suits);
    assert |suits| == 4;
  }

  /** `iterate_score`: the kept hand's points plus the dealer sign times the crib's points. */
  function IterateScore(score: ScoreOracle, dealerSign: int, keep: seq<Card>, throw: seq<Card>, turn: Card): (v: int)
    ensures dealerSign == 1 ==> v == score(keep, turn, false) + score(throw, turn, true)
    ensures dealerSign == -1 ==> v == score(keep, turn, false) - score(throw, turn, true)
    ensures dealerSign == 0 ==> v == score(keep, turn, false)
  {
    score(keep, turn, false) + dealerSign * score(throw, turn, true)
  }

  /** The weighted sum of `IterateScore` over turn-card ranks 1..n. */
  function PartialValue(hand: seq<Card>, score: ScoreOracle, dealerSign: int,
                        keep: seq<Card>, throw: seq<Card>, n: nat): int
    requires n <= 13
  {
    if n == 0 then 0
    else PartialValue(hand, score, dealerSign, keep, throw, n - 1)
         + RankWeight(hand, n) * IterateScore(score, dealerSign, keep, throw, Prototype(n))
  }

  /** The value of splitting `hand` by one index-subset: the weighted sum over all 13 ranks. */
  function PartitionValue(hand: seq<Card>, score: ScoreOracle, dealerSign: int, indices: seq<int>): int
  {
    PartialValue(hand, score, dealerSign, KeepPile(hand, indices), ThrowPile(hand, indices), 13)
  }

  /** Position `k` of `subsets` has the highest value, and no earlier subset reaches it. */
  ghost predicate IsFirstBest(hand: seq<Card>, score: ScoreOracle, dealerSign: int, subsets: seq<seq<int>>, k: int)
  {
    && 0 <= k < |subsets|
    && (forall j :: 0 <= j < |subsets| ==>
          PartitionValue(hand, score, dealerSign, subsets[j]) <= PartitionValue(hand, score, dealerSign, subsets[k]))
    && (forall j :: 0 <= j < k ==>
          PartitionValue(hand, score, dealerSign, subsets[j]) < PartitionValue(hand, score, dealerSign, subsets[k]))
  }

  /** The value is linear in the dealer sign: the crib's weighted points are added for the
      dealer (+1), subtracted for the opponent (-1), and the kept hand's count either way. */
  lemma {:induction false} DealerSignLinear(hand: seq<Card>, score: ScoreOracle, dealerSign: int,
                                           keep: seq<Card>, throw: seq<Card>, n: nat)
    requires n <= 13
    ensures PartialValue(hand, score, dealerSign, keep, throw, n)
         == PartialValue(hand, score, 0, keep, throw, n)
            + dealerSign * (PartialValue(hand, score, 1, keep, throw, n) - PartialValue(hand, score, 0, keep, throw, n))
  {
    if n > 0 {
      DealerSignLinear(hand, score, dealerSign, keep, throw, n - 1);
      var w, t := RankWeight(hand, n), Prototype(n);
      var h, c := score(keep, t, false), score(throw, t, true);
      var a0, a1 := PartialValue(hand, score, 0, keep, throw, n - 1), PartialValue(hand, score, 1, keep, throw, n - 1);
      assert PartialValue(hand, score, 0, keep, throw, n) == a0 + w * (h + 0 * c);
      assert PartialValue(hand, score, 1, keep, throw, n) == a1 + w * (h + 1 * c);
      assert PartialValue(hand, score, dealerSign, keep, throw, n)
          == PartialValue(hand, score, dealerSign, keep, throw, n - 1) + w * (h + dealerSign * c);
      SignStep(a0, a1, w, h, c, dealerSign);
    }
  }

  lemma SignStep(a0: int, a1: int, w: int, h: int, c: int, s: int)
    ensures a0 + s * (a1 - a0) + w * (h + s * c)
         == (a0 + w * (h + 0 * c)) + s * ((a1 + w * (h + 1 * c)) - (a0 + w * (h + 0 * c)))
  {
    assert w * (h + s * c) == w * h + s * (w * c);
    assert s * (a1 - a0) + s * (w * c) == s * ((a1 + w * (h + 1 * c)) - (a0 + w * (h + 0 * c)));
  }

  /** Reordering the index-subsets (the source shuffles them) can change which of several
      tied splits is chosen, but not the value chosen. */
  lemma ShuffleKeepsValue(hand: seq<Card>, score: ScoreOracle, dealerSign: int,
                          s1: seq<seq<int>>, s2: seq<seq<int>>, k1: int, k2: int)
    requires multiset(s1) == multiset(s2)
    requires IsFirstBest(hand, score, dealerSign, s1, k1)
    requires IsFirstBest(hand, score, dealerSign, s2, k2)
    ensures PartitionValue(hand, score, dealerSign, s1[k1]) == PartitionValue(hand, score, dealerSign, s2[k2])
  {
    assert s1[k1] in multiset(s2);
    var j2 :| 0 <= j2 < |s2| && s2[j2] == s1[k1];
    assert s2[k2] in multiset(s1);
    var j1 :| 0 <= j1 < |s1| && s1[j1] == s2[k2];
  }

  /** The nested loops of `my_greedy_throw`: for every split, add up over the 13 ranks the
      rank's weight times `iterate_score` with that rank's prototype turn card. */
  method CumulativeScores(hand: seq<Card>, weights: map<int, int>, score: ScoreOracle, dealerSign: int,
                          possibilities: seq<(seq<Card>, seq<Card>)>)
    returns (cumulative: seq<int>)
    requires weights.Keys == Ranks
    requires forall r :: 1 <= r <= 13 ==> weights[r] == RankWeight(hand, r)
    ensures |cumulative| == |possibilities|
    ensures forall j :: 0 <= j < |possibilities| ==>
      cumulative[j] == PartialValue(hand, score, dealerSign, possibilities[j].0, possibilities[j].1, 13)
  {
    cumulative := seq(|possibilities|, _ => 0);
    for i := 0 to |possibilities|
      invariant |cumulative| == |possibilities|
      invariant forall j :: 0 <= j < i ==> cumulative[j] == PartialValue(hand, score, dealerSign, possibilities[j].0, possibilities[j].1, 13)
      invariant forall j :: i <= j < |cumulative| ==> cumulative[j] == 0
    {
      var (keep, throw) := possibilities[i];
      ghost var before := cumulative;
      for rank := 1 to 14
        invariant |cumulative| == |before|
        invariant cumulative[i] == PartialValue(hand, score, dealerSign, keep, throw, rank - 1)
        invariant forall j :: 0 <= j < |cumulative| && j != i ==> cumulative[j] == before[j]
      {
        cumulative := cumulative[i := cumulative[i] + weights[rank] * IterateScore(score, dealerSign, keep, throw, Prototype(rank))];
      }
    }
  }

  /** `my_greedy_throw`: the split of the first best index-subset and its value, or `None`
      when there is no index-subset (where the source's `max` raises). */
  method MyGreedyThrow(hand: seq<Card>, dealerSign: int, subsets: seq<seq<int>>, score: ScoreOracle)
    returns (r: Option<ThrowChoice>)
    ensures r.None? <==> |subsets| == 0
    ensures r.Some? ==>
      exists k :: (IsFirstBest(hand, score, dealerSign, subsets, k)
        && r.value == ThrowChoice(KeepPile(hand, subsets[k]), ThrowPile(hand, subsets[k]),
                                  PartitionValue(hand, score, dealerSign, subsets[k])))
    ensures r.Some? ==> multiset(r.value.keep) + multiset(r.value.throw) == multiset(hand)
  {
    var weights := RankWeights(hand);

    var possibilities: seq<(seq<Card>, seq<Card>)> := [];
    for k := 0 to |subsets|
      invariant |possibilities| == k
      invariant forall j :: 0 <= j < k ==>
        possibilities[j] == (KeepPile(hand, subsets[j]), ThrowPile(hand, subsets[j]))
    {
      var keep, throw := Split(hand, subsets[k]);
      possibilities := possibilities + [(keep, throw)];
    }

    var cumulative := CumulativeScores(hand, weights, score, dealerSign, possibilities);

    if |cumulative| == 0 {
      return None;
    }
    var values := seq(|cumulative|, j requires 0 <= j < |cumulative| => Some(cumulative[j]));
    var best := FirstMax(values).value;
    var (bestKeep, bestThrow) := possibilities[best];
    r := Some(ThrowChoice(bestKeep, bestThrow, cumulative[best]));
    forall j | 0 <= j < |subsets|
      ensures PartitionValue(hand, score, dealerSign, subsets[j]) <= PartitionValue(hand, score, dealerSign, subsets[best])
      ensures j < best ==> PartitionValue(hand, score, dealerSign, subsets[j]) < PartitionValue(hand, score, dealerSign, subsets[best])
    {
      assert values[j] == Some(cumulative[j]);
    }
    assert IsFirstBest(hand, score, dealerSign, subsets, best);
    assert r.value == ThrowChoice(KeepPile(hand, subsets[best]), ThrowPile(hand, subsets[best]),
                                  PartitionValue(hand, score, dealerSign, subsets[best]));
    SplitPartition(hand, subsets[best]);
  }

  /** The source's `1 if am_dealer else -1`. */
  function DealerSign(amDealer: bool): (s: int)
    ensures s == 1 || s == -1
    ensures s == 1 <==> amDealer
  {
    if amDealer then 1 else -1
  }

  /** `keep`: the throw rule with the dealer flag turned into its sign; only the piles are returned. */
  method Keep(hand: seq<Card>, amDealer: bool, subsets: seq<seq<int>>, score: ScoreOracle)
    returns (r: Option<(seq<Card>, seq<Card>)>)
    ensures r.None? <==> |subsets| == 0
    ensures r.Some? ==>
      exists k :: (IsFirstBest(hand, score, DealerSign(amDealer), subsets, k)
        && r.value == (KeepPile(hand, subsets[k]), ThrowPile(hand, subsets[k])))
  {
    var choice := MyGreedyThrow(hand, DealerSign(amDealer), subsets, score);
    match choice
    case None => r := None;
    case Some(c) => r := Some((c.keep, c.throw));
  }
}
