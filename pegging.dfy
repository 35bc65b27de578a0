/**
 * The pegging rule (`MyPolicy.peg`): one pass over the player's cards keeps three
 * running candidates, each the first card reaching the highest value of its own
 * measure, and a fixed priority then picks among them:
 *   1. the best-scoring card, if its points are positive;
 *   2. else the zero-point card that leaves the highest running total below 5;
 *   3. else the zero-point card that leaves the highest total above 15 other than 21;
 *   4. else the best-scoring card again (or no card when none can be played).
 * The running total adds the raw rank, so a jack adds 11, a queen 12, a king 13.
 */
module Pegging {
  import opened Wrappers
  import opened Cards
  import opened ArgMax

  /** `history.score(game, card, opponent)`: the points for playing `card` now, or `None`
      when it cannot be played. */
  type PegOracle = (Card, int) -> Option<int>

  /** The three measures the pass keeps a running best for. */
  datatype Criterion = Scoring | BelowFive | AboveFifteen

  /** The index handed to the history's scorer: `0 if am_dealer else 1`. */
  function Opponent(amDealer: bool): (o: int)
    ensures o == 0 || o == 1
    ensures o == 0 <==> amDealer
  {
    if amDealer then 0 else 1
  }

  /** What `card` offers under one measure, or `None` when it is no candidate: its points;
      the new total when it scores nothing and the total stays below 5; the new total when
      it scores nothing and the total passes 15 without landing on 21. */
  function Key(crit: Criterion, pegScore: PegOracle, total: int, opponent: int, card: Card): Option<int>
  {
    var score := pegScore(card, opponent);
    var current := total + card.rank;
    match crit
    case Scoring => score
    case BelowFive => if score == Some(0) && current < 5 then Some(current) else None
    case AboveFifteen =>
      if score == Some(0) && !(current < 5) && current > 15 && current != 21 then Some(current) else None
  }

  function Keys(crit: Criterion, pegScore: PegOracle, total: int, opponent: int, cards: seq<Card>): (ks: seq<Option<int>>)
    ensures |ks| == |cards|
  {
    seq(|cards|, j requires 0 <= j < |cards| => Key(crit, pegScore, total, opponent, cards[j]))
  }

  /** The first card of highest value under one measure, if any card qualifies. */
  function Candidate(crit: Criterion, pegScore: PegOracle, total: int, opponent: int, cards: seq<Card>): Option<Card>
  {
    match FirstMax(Keys(crit, pegScore, total, opponent, cards))
    case None => None
    case Some(k) => Some(cards[k])
  }

  /** The card the rule plays, stated over whole-hand first maxima rather than a running pass. */
  function PegChoice(cards: seq<Card>, pegScore: PegOracle, total: int, amDealer: bool): Option<Card>
  {
    var opp := Opponent(amDealer);
    var best := FirstMax(Keys(Scoring, pegScore, total, opp, cards));
    if best.Some? && pegScore(cards[best.value], opp).value > 0 then Some(cards[best.value])
    else if Candidate(BelowFive, pegScore, total, opp, cards).Some? then Candidate(BelowFive, pegScore, total, opp, cards)
    else if Candidate(AboveFifteen, pegScore, total, opp, cards).Some? then Candidate(AboveFifteen, pegScore, total, opp, cards)
    else Candidate(Scoring, pegScore, total, opp, cards)
  }

  /** The running pair (card, value) of one measure, after the first `n` cards, agrees
      with the first maximum of those cards' values `keys[..n]`. */
  ghost predicate Tracks(card: Option<Card>, value: Option<int>, cards: seq<Card>, keys: seq<Option<int>>, n: nat)
    requires |keys| == |cards| && n <= |keys|
  {
    match FirstMax(keys[..n])
    case None => card.None? && value.None?
    case Some(k) => card == Some(cards[k]) && value == keys[k]
  }

  /** One step of the pass for one measure: the running pair moves to the next card exactly
      when that card qualifies and beats the running value strictly (or there is none yet). */
  lemma TracksStep(cards: seq<Card>, keys: seq<Option<int>>, n: nat,
                   card: Option<Card>, value: Option<int>, card': Option<Card>, value': Option<int>)
    requires |keys| == |cards| && n < |keys|
    requires Tracks(card, value, cards, keys, n)
    requires if keys[n].Some? && (value.None? || keys[n].value > value.value)
      then card' == Some(cards[n]) && value' == keys[n]
      else card' == card && value' == value
    ensures Tracks(card', value', cards, keys, n + 1)
  {
    assert keys[..n + 1] == keys[..n] + [keys[n]];
    FirstMaxSnoc(keys[..n], keys[n]);
  }

  /** Once the pass has seen every card, the priority applied to its running candidates is
      the rule's choice. */
  lemma PegDecision(cards: seq<Card>, pegScore: PegOracle, total: int, amDealer: bool,
                    bestCard: Option<Card>, bestScore: Option<int>, cardBelow5: Option<Card>, cardAbove15: Option<Card>)
    requires Tracks(bestCard, bestScore, cards, Keys(Scoring, pegScore, total, Opponent(amDealer), cards), |cards|)
    requires Candidate(BelowFive, pegScore, total, Opponent(amDealer), cards) == cardBelow5
    requires Candidate(AboveFifteen, pegScore, total, Opponent(amDealer), cards) == cardAbove15
    ensures bestCard.Some? <==> bestScore.Some?
    ensures bestCard.Some? && bestScore.value > 0 ==> PegChoice(cards, pegScore, total, amDealer) == bestCard
    ensures !(bestCard.Some? && bestScore.value > 0) && cardBelow5.Some? ==>
      PegChoice(cards, pegScore, total, amDealer) == cardBelow5
    ensures !(bestCard.Some? && bestScore.value > 0) && cardBelow5.None? && cardAbove15.Some? ==>
      PegChoice(cards, pegScore, total, amDealer) == cardAbove15
    ensures !(bestCard.Some? && bestScore.value > 0) && cardBelow5.None? && cardAbove15.None? ==>
      PegChoice(cards, pegScore, total, amDealer) == bestCard
  {
    var opp := Opponent(amDealer);
    assert Keys(Scoring, pegScore, total, opp, cards)[..|cards|] == Keys(Scoring, pegScore, total, opp, cards);
    match FirstMax(Keys(Scoring, pegScore, total, opp, cards))
    case None =>
    case Some(k) => assert bestScore == pegScore(cards[k], opp);
  }

  /** A running pair that tracks a measure over the whole hand is that measure's candidate. */
  lemma TracksCandidate(crit: Criterion, pegScore: PegOracle, total: int, opponent: int, cards: seq<Card>,
                        card: Option<Card>, value: Option<int>)
    requires Tracks(card, value, cards, Keys(crit, pegScore, total, opponent, cards), |cards|)
    ensures card == Candidate(crit, pegScore, total, opponent, cards)
  {
    var keys := Keys(crit, pegScore, total, opponent, cards);
    assert keys[..|cards|] == keys;
  }

  /** `peg`: the single pass over `cards` with its six running variables, then the priority. */
  method Peg(cards: seq<Card>, pegScore: PegOracle, total: int, amDealer: bool) returns (r: Option<Card>)
    ensures r == PegChoice(cards, pegScore, total, amDealer)
    ensures r.Some? ==> r.value in cards
  {
    var opp := Opponent(amDealer);
    var bestCard: Option<Card> := None;
    var bestScore: Option<int> := None;
    var cardBelow5: Option<Card> := None;
    var closestSumBelow5: Option<int> := None;
    var cardAbove15: Option<Card> := None;
    var highestSumAbove15: Option<int> := None;
    ghost var scores := Keys(Scoring, pegScore, total, opp, cards);
    ghost var lows := Keys(BelowFive, pegScore, total, opp, cards);
    ghost var highs := Keys(AboveFifteen, pegScore, total, opp, cards);

    for i := 0 to |cards|
      invariant Tracks(bestCard, bestScore, cards, scores, i)
      invariant Tracks(cardBelow5, closestSumBelow5, cards, lows, i)
      invariant Tracks(cardAbove15, highestSumAbove15, cards, highs, i)
    {
      ghost var (card0, score0) := (bestCard, bestScore);
      ghost var (low0, lowSum0, high0, highSum0) := (cardBelow5, closestSumBelow5, cardAbove15, highestSumAbove15);
      var card := cards[i];
      var score := pegScore(card, opp);
      var currentTotal := total + card.rank;
      assert scores[i] == score;
      assert lows[i] == if score == Some(0) && currentTotal < 5 then Some(currentTotal) else None;
      assert highs[i] == if score == Some(0) && !(currentTotal < 5) && currentTotal > 15 && currentTotal != 21
                         then Some(currentTotal) else None;

      if score.Some? && (bestScore.None? || score.value > bestScore.value) {
        bestScore := score;
        bestCard := Some(card);
      }
      TracksStep(cards, scores, i, card0, score0, bestCard, bestScore);

      if score == Some(0) {
        if currentTotal < 5 {
          if closestSumBelow5.None? || currentTotal > closestSumBelow5.value {
            cardBelow5 := Some(card);
            closestSumBelow5 := Some(currentTotal);
          }
        } else if currentTotal > 15 && currentTotal != 21 {
          if highestSumAbove15.None? || currentTotal > highestSumAbove15.value {
            cardAbove15 := Some(card);
            highestSumAbove15 := Some(currentTotal);
          }
        }
      }
      TracksStep(cards, lows, i, low0, lowSum0, cardBelow5, closestSumBelow5);
      TracksStep(cards, highs, i, high0, highSum0, cardAbove15, highestSumAbove15);
    }
    TracksCandidate(BelowFive, pegScore, total, opp, cards, cardBelow5, closestSumBelow5);
    TracksCandidate(AboveFifteen, pegScore, total, opp, cards, cardAbove15, highestSumAbove15);
    PegDecision(cards, pegScore, total, amDealer, bestCard, bestScore, cardBelow5, cardAbove15);
    PegResultMember(cards, pegScore, total, amDealer);

    if bestCard.Some? && bestScore.value > 0 {
      return bestCard;
    }
    if cardBelow5.Some? {
      return cardBelow5;
    }
    if cardAbove15.Some? {
      return cardAbove15;
    }
    return bestCard;
  }

  /** The rule plays one of the player's cards, and plays none exactly when no card can be
      played (which includes an empty hand). */
  lemma PegResultMember(cards: seq<Card>, pegScore: PegOracle, total: int, amDealer: bool)
    ensures PegChoice(cards, pegScore, total, amDealer).Some? ==> PegChoice(cards, pegScore, total, amDealer).value in cards
    ensures PegChoice(cards, pegScore, total, amDealer).None?
        <==> forall i :: 0 <= i < |cards| ==> pegScore(cards[i], Opponent(amDealer)).None?
  {
    var opp := Opponent(amDealer);
    var scores := Keys(Scoring, pegScore, total, opp, cards);
    if forall i :: 0 <= i < |cards| ==> pegScore(cards[i], opp).None? {
      forall i | 0 <= i < |cards|
        ensures Keys(BelowFive, pegScore, total, opp, cards)[i].None?
        ensures Keys(AboveFifteen, pegScore, total, opp, cards)[i].None?
        ensures scores[i].None?
      {
      }
    } else {
      var i :| 0 <= i < |cards| && pegScore(cards[i], opp).Some?;
      assert scores[i].Some?;
    }
  }

  /** Points first: when some card scores, the rule plays the first card with the most points,
      whatever the other cards would do to the total. */
  lemma PegScoringFirst(cards: seq<Card>, pegScore: PegOracle, total: int, amDealer: bool)
    requires exists i :: 0 <= i < |cards| && pegScore(cards[i], Opponent(amDealer)).Some?
                         && pegScore(cards[i], Opponent(amDealer)).value > 0
    ensures exists k :: IsFirstMax(Keys(Scoring, pegScore, total, Opponent(amDealer), cards), k)
                        && PegChoice(cards, pegScore, total, amDealer) == Some(cards[k])
  {
    var opp := Opponent(amDealer);
    var scores := Keys(Scoring, pegScore, total, opp, cards);
    var i :| 0 <= i < |cards| && pegScore(cards[i], opp).Some? && pegScore(cards[i], opp).value > 0;
    assert scores[i].Some?;
    var k := FirstMax(scores).value;
    assert scores[i].value <= scores[k].value;
  }

  /** No card scores a point. */
  ghost predicate NoPoints(cards: seq<Card>, pegScore: PegOracle, opponent: int)
  {
    forall i :: 0 <= i < |cards| && pegScore(cards[i], opponent).Some? ==> pegScore(cards[i], opponent).value <= 0
  }

  /** Without points on offer, the first branch of the priority is never taken. */
  lemma NoPointsFirstBranch(cards: seq<Card>, pegScore: PegOracle, total: int, opponent: int)
    requires NoPoints(cards, pegScore, opponent)
    ensures var best := FirstMax(Keys(Scoring, pegScore, total, opponent, cards));
      best.Some? ==> pegScore(cards[best.value], opponent).value <= 0
  {
    var best := FirstMax(Keys(Scoring, pegScore, total, opponent, cards));
    if best.Some? {
      assert Keys(Scoring, pegScore, total, opponent, cards)[best.value] == pegScore(cards[best.value], opponent);
    }
  }

  /** Then a low total: with no points to take, a zero-point card keeping the total below 5
      wins, the first one leaving the highest such total. */
  lemma PegBelowFiveNext(cards: seq<Card>, pegScore: PegOracle, total: int, amDealer: bool)
    requires NoPoints(cards, pegScore, Opponent(amDealer))
    requires exists i :: 0 <= i < |cards| && pegScore(cards[i], Opponent(amDealer)) == Some(0)
                         && total + cards[i].rank < 5
    ensures exists k :: IsFirstMax(Keys(BelowFive, pegScore, total, Opponent(amDealer), cards), k)
                        && PegChoice(cards, pegScore, total, amDealer) == Some(cards[k])
  {
    var opp := Opponent(amDealer);
    var i :| 0 <= i < |cards| && pegScore(cards[i], opp) == Some(0) && total + cards[i].rank < 5;
    var lows := Keys(BelowFive, pegScore, total, opp, cards);
    assert lows[i].Some?;
    var k := FirstMax(lows).value;
    NoPointsFirstBranch(cards, pegScore, total, opp);
    assert Candidate(BelowFive, pegScore, total, opp, cards) == Some(cards[k]);
  }

  /** Then a high total: with no points and no low total, a zero-point card taking the total
      past 15 but not to 21 wins, the first one leaving the highest such total. */
  lemma PegAboveFifteenNext(cards: seq<Card>, pegScore: PegOracle, total: int, amDealer: bool)
    requires NoPoints(cards, pegScore, Opponent(amDealer))
    requires forall i :: 0 <= i < |cards| && pegScore(cards[i], Opponent(amDealer)) == Some(0) ==> total + cards[i].rank >= 5
    requires exists i :: 0 <= i < |cards| && pegScore(cards[i], Opponent(amDealer)) == Some(0)
                         && total + cards[i].rank > 15 && total + cards[i].rank != 21
    ensures exists k :: IsFirstMax(Keys(AboveFifteen, pegScore, total, Opponent(amDealer), cards), k)
                        && PegChoice(cards, pegScore, total, amDealer) == Some(cards[k])
  {
    var opp := Opponent(amDealer);
    var i :| 0 <= i < |cards| && pegScore(cards[i], opp) == Some(0) && total + cards[i].rank > 15 && total + cards[i].rank != 21;
    var highs := Keys(AboveFifteen, pegScore, total, opp, cards);
    assert highs[i].Some?;
    var k := FirstMax(highs).value;
    NoPointsFirstBranch(cards, pegScore, total, opp);
    assert FirstMax(Keys(BelowFive, pegScore, total, opp, cards)).None?;
    assert Candidate(AboveFifteen, pegScore, total, opp, cards) == Some(cards[k]);
  }

  /** Otherwise the fallback: the best-scoring card again, or none when no card can be played.
      When the scorer never gives negative points, that is the first card that can be played. */
  lemma PegFallback(cards: seq<Card>, pegScore: PegOracle, total: int, amDealer: bool)
    requires NoPoints(cards, pegScore, Opponent(amDealer))
    requires forall i :: 0 <= i < |cards| && pegScore(cards[i], Opponent(amDealer)) == Some(0) ==>
      5 <= total + cards[i].rank <= 15 || total + cards[i].rank == 21
    ensures PegChoice(cards, pegScore, total, amDealer).Some? ==>
      exists k :: IsFirstMax(Keys(Scoring, pegScore, total, Opponent(amDealer), cards), k)
                  && PegChoice(cards, pegScore, total, amDealer) == Some(cards[k])
    ensures (forall i :: 0 <= i < |cards| && pegScore(cards[i], Opponent(amDealer)).Some? ==>
               pegScore(cards[i], Opponent(amDealer)).value >= 0)
      ==> PegChoice(cards, pegScore, total, amDealer).Some? ==>
          exists k :: 0 <= k < |cards| && PegChoice(cards, pegScore, total, amDealer) == Some(cards[k])
                      && pegScore(cards[k], Opponent(amDealer)).Some?
                      && forall j :: 0 <= j < k ==> pegScore(cards[j], Opponent(amDealer)).None?
  {
    var opp := Opponent(amDealer);
    var scores := Keys(Scoring, pegScore, total, opp, cards);
    assert FirstMax(Keys(BelowFive, pegScore, total, opp, cards)).None?;
    assert FirstMax(Keys(AboveFifteen, pegScore, total, opp, cards)).None?;
    var best := FirstMax(scores);
    if best.Some? {
      var k := best.value;
      assert pegScore(cards[k], opp).Some?;
      assert PegChoice(cards, pegScore, total, amDealer) == Some(cards[k]);
      forall j | 0 <= j < k ensures scores[j] == pegScore(cards[j], opp) {
      }
    }
  }

  /** With a running total of 3 and no points on offer, an ace (total 4) is played before a
      nine (total 12), in either order. */
  lemma AceBeforeNineAtThree(pegScore: PegOracle, amDealer: bool, ace: Card, nine: Card)
    requires ace.rank == 1 && nine.rank == 9
    requires pegScore(ace, Opponent(amDealer)) == Some(0) && pegScore(nine, Opponent(amDealer)) == Some(0)
    ensures PegChoice([ace, nine], pegScore, 3, amDealer) == Some(ace)
    ensures PegChoice([nine, ace], pegScore, 3, amDealer) == Some(ace)
  {
    var opp := Opponent(amDealer);
    FirstMaxUnique(Keys(BelowFive, pegScore, 3, opp, [ace, nine]), 0);
    FirstMaxUnique(Keys(BelowFive, pegScore, 3, opp, [nine, ace]), 1);
  }

  /** With a running total of 10 and no points on offer, a seven (total 17) is played before a
      jack (total 21, which the rule avoids), in either order. */
  lemma SevenBeforeJackAtTen(pegScore: PegOracle, amDealer: bool, seven: Card, jack: Card)
    requires seven.rank == 7 && jack.rank == 11
    requires pegScore(seven, Opponent(amDealer)) == Some(0) && pegScore(jack, Opponent(amDealer)) == Some(0)
    ensures PegChoice([seven, jack], pegScore, 10, amDealer) == Some(seven)
    ensures PegChoice([jack, seven], pegScore, 10, amDealer) == Some(seven)
  {
    var opp := Opponent(amDealer);
    FirstMaxUnique(Keys(AboveFifteen, pegScore, 10, opp, [seven, jack]), 0);
    FirstMaxUnique(Keys(AboveFifteen, pegScore, 10, opp, [jack, seven]), 1);
  }
}
