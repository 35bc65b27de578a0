/** Playing cards as the policy sees them: a rank from 1 (ace) to 13 (king) and a suit. */
module Cards {
  datatype Suit = Spades | Hearts | Diamonds | Clubs

  /** The raw rank `card.rank()`: ace is 1, jack 11, queen 12, king 13. */
  type Rank = r: int | 1 <= r <= 13 witness 1

  datatype Card = Card(rank: Rank, suit: Suit)

  /** The thirteen ranks, the keys of the throw rule's weight table. */
  const Ranks: set<int> := {1, 2, 3, 4, 5, 6, 7, 8, 9, 10, 11, 12, 13}

  /** The representative turn card of a rank that the throw rule scores against. */
  function Prototype(r: Rank): (c: Card)
    ensures c.rank == r && c.suit == Spades
  {
    Card(r, Spades)
  }
}
