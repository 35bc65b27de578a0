# Cribbage agent card selection, modelled in Dafny

This project models the two decision rules of `MyPolicy`, a Cribbage-playing agent.

- **Throw selection** covers `my_greedy_throw`, its nested `split` and `iterate_score`, and the `keep` wrapper. The agent is dealt a hand and is given a list of index-subsets, each naming the positions it could discard into the crib. Each rank 1..13 gets a weight: four, less one for every card of that rank already in the hand. Each split is valued as a weighted sum over the 13 possible turn-card ranks. The summed term is the kept hand's score plus the crib's score, and the crib's score counts +1 for the dealer and -1 for the opponent. The rule returns the first split of highest value.
- **Pegging selection** covers `peg`. One pass over the player's cards keeps three running candidates:
  - the best-scoring card;
  - the zero-point card that leaves the highest running total below 5;
  - the zero-point card that leaves the highest total above 15 other than 21.

  A fixed priority then chooses among them: a scoring card, then the low total, then the high total, then the best-scoring card again. The result is no card when none can be played.

Modules:

- `Wrappers` holds `Option`, which stands for Python's `None`.
- `Cards` holds cards, with a rank 1..13 and a suit.
- `ArgMax` holds `FirstMax`, the "first maximum" left-to-right scan. Both rules rely on it, and so does Python's `max` over the score dictionary.
- `Piles` holds `split`.
- `Throw` holds the throw rule.
- `Pegging` holds the pegging rule.

The collaborators are passed in as function parameters with no assumed behaviour:

- `scoring.score(game, cards, turn, is_crib)[0]` is `Throw.ScoreOracle`.
- `history.score(game, card, opponent)` is `Pegging.PegOracle`.
- `history._total` is an integer argument.
- The already-shuffled result of `game.throw_indices()` is the `subsets` argument.

Weights are kept in quarters, so the source's `1 - 0.25 * count` is `4 - count` here. Every split's value is therefore four times the source's, and the chosen split is the same.

- `my_greedy_throw` checks neither the index-subsets nor the hand size: `split` never matches index values outside the hand, so they are ignored, and an empty hand is valued like any other.
- The only failure is an empty list of index-subsets. There, Python's `max` raises. The model returns `None` for it.
- The pegging fallback is the first card with the highest score among the playable ones. When the scorer gives no negative points, this is the first playable card (`PegFallback`).

## Model

| member | source | states |
|---|---|---|
| ArgMax.FirstMax | my_policy.py:97 | Returns None exactly when no position holds a value. Otherwise it returns a position holding the largest value, with every earlier value strictly smaller. This is the first maximum that `max` over the dictionary's keys 0..n-1 returns, and that strict `>` updates keep. |
| Piles.Split | my_policy.py:60-71 | The loop's keep and throw lists equal the keep and throw piles of the hand. Together they are a rearrangement of the hand. |
| Piles.PileAt | my_policy.py:63-67 | The throw pile is `hand[i]` for the listed positions `i`, taken in increasing position order. The keep pile is `hand[i]` for the unlisted positions, in the same order. |
| Piles.PositionsMembership | my_policy.py:63-64 | A position is read into the throw pile exactly when it lies in the hand and is listed. It is read into the keep pile exactly when it lies in the hand and is not listed. |
| Piles.PositionsIncreasing | my_policy.py:63 | The positions of each pile strictly increase, so the piles keep hand order and take no position twice. |
| Piles.PositionsCover | my_policy.py:63-67 | Each position of the hand lands in exactly one pile. The two piles' sizes add up to the hand size. |
| Piles.SplitPartition | my_policy.py:60-71 | Keep plus throw has the hand's length and the hand's multiset of cards. |
| Piles.ThrowPileSize | my_policy.py:60-71 | The throw pile has one card per distinct index value that names a position of the hand. |
| Piles.ThrowCount | my_policy.py:60-71 | For an index-subset of distinct in-range positions, the throw pile has exactly as many cards as the subset lists, and the keep pile has the rest. |
| Throw.RankWeights | my_policy.py:53-57 | The weight table has exactly the keys 1..13. Each rank's weight is 4 less the number of hand cards of that rank. |
| Throw.AbsentRankFullWeight | my_policy.py:53-57 | A rank with no card in the hand keeps the full weight 4, which is the source's 1. |
| Throw.WeightTotal | my_policy.py:53-57 | The weights add up to 52 less the hand size, one unit per unseen card. |
| Throw.WeightNonNegative | my_policy.py:55-57 | If the hand repeats no card, as in any deal from one deck, no weight is negative. |
| Throw.IterateScore | my_policy.py:82-85 | The kept hand's score against the turn card, plus the crib's score for sign +1, minus it for sign -1, and the kept hand's score alone for sign 0. |
| Throw.DealerSign | my_policy.py:41 | The sign is +1 or -1, and it is +1 exactly when the player is the dealer. |
| Cards.Prototype | my_policy.py:91 | The representative turn card has the given rank and the spade suit. |
| Throw.DealerSignLinear | my_policy.py:82-85 | A split's weighted value is linear in the dealer sign. The kept hand always counts, and the crib's weighted points are added for the dealer (+1) and subtracted for the opponent (-1). |
| Throw.CumulativeScores | my_policy.py:79-94 | After the nested loops, each split's accumulated total is the sum over ranks 1..13 of the rank's weight times (kept-hand score + sign × crib score) against that rank's turn card. |
| Throw.ShuffleKeepsValue | my_policy.py:75-100 | Shuffling the index-subsets may change which of several tied splits is chosen, but not the value chosen. |
| Throw.MyGreedyThrow | my_policy.py:46-103 | The result is None exactly when there is no index-subset. Otherwise it returns the keep pile, throw pile and value of a subset whose value is at least every subset's value and strictly above every earlier subset's value. Keep plus throw is a rearrangement of the hand. |
| Throw.Keep | my_policy.py:38-43 | Returns the piles of the first best split, scored with sign +1 for the dealer and -1 otherwise. The result is None exactly when there is no index-subset. |
| Pegging.Opponent | my_policy.py:121 | The index handed to the history's scorer is 0 or 1, and it is 0 exactly when the player is the dealer. |
| Pegging.Peg | my_policy.py:106-161 | The one-pass loop with six running variables returns exactly the card given by the whole-hand first-maximum priority (`PegChoice`), and that card is one of `cards`. |
| Pegging.TracksStep | my_policy.py:125-147 | One loop step moves a running candidate to the current card exactly when the card qualifies and strictly beats the running value, or when there is no running value yet. This keeps the candidate equal to the first maximum so far. |
| Pegging.PegDecision | my_policy.py:150-161 | The running best card exists exactly when its score does. Applying the priority to the finished pass's candidates gives the rule's choice. |
| Pegging.PegResultMember | my_policy.py:106-161 | The played card is a member of `cards`. No card is played exactly when every card's score is None, which includes an empty hand. |
| Pegging.PegScoringFirst | my_policy.py:125-151 | If some card scores positive points, the rule plays the first card with the maximum score, whatever the other cards would do to the total. |
| Pegging.PegBelowFiveNext | my_policy.py:130-155 | With no points on offer and some zero-point card keeping the total below 5, the rule plays the first such card with the highest total below 5. |
| Pegging.PegAboveFifteenNext | my_policy.py:140-158 | With no points and no low-total card, if some zero-point card takes the total above 15 and not to 21, the rule plays the first such card with the highest such total. |
| Pegging.PegFallback | my_policy.py:107-161 | With no points, no low total and no high total, the rule plays the first best-scoring playable card, or none. When scores are never negative, that is the first playable card. |
| Pegging.AceBeforeNineAtThree | my_policy.py:130-138 | At running total 3 with no points on offer, an ace (total 4) is played before a nine (total 12), in either order. |
| Pegging.SevenBeforeJackAtTen | my_policy.py:140-147 | At running total 10 with no points on offer, a seven (total 17) is played before a jack (total 21, which is excluded), in either order. |

## Left out

- `random.shuffle(throw_indices)` (my_policy.py:75) is not modelled. The model takes the list after shuffling as an arbitrary input. The first-maximum tie-break is stated relative to that order, and `ShuffleKeepsValue` shows that the order cannot change the value.
- `game.deck()` and `deck.remove(hand)` (my_policy.py:49-50) are left out. They are foreign calls whose result the rule never uses.
- `scoring.score`, `game.throw_indices()` and `history.score` are external modules and are not part of this model. They appear only as function parameters or inputs, with no assumed behaviour.
- The `game` argument is dropped. It reaches only those collaborators.
- `peg`'s `turn` and `scores` parameters and `keep`'s `scores` parameter are not modelled, because the rules never read them.
- The constructor and the `CompositePolicy` / `GreedyThrower` / `GreedyPegger` wiring (my_policy.py:34-36) are plumbing to library classes that are not part of this model.
- Throw.MyGreedyThrow: the returned value is four times the source's floating-point total, because weights are kept in quarters. The source's 0.25 steps are exact in binary floating point, so for scores of realistic size (weighted sums below 2^53) the chosen split is the same; the model does not capture float rounding for larger oracle values.
- Throw.Keep: the source raises an exception (from `max` on an empty dictionary) when there is no index-subset, whereas this model returns `None`.
- Card suits are carried only so that equal ranks stay distinct cards. The throw rule's prototype turn card is the spade of each rank (my_policy.py:91), as in the source.
