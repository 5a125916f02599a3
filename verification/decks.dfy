/** The deck, reduced to what the game core relies on.

    The card classes themselves are not part of this model: a card is its rank,
    and a deck is the ordered sequence of ranks still to be dealt. */
module Decks {
  import opened Results

  type Deck = seq<int>

  /** Deals one card: it is removed from the deck and returned. Dealing from
      an empty deck fails. */
  function Deal(deck: Deck): (r: Result<(int, Deck)>)
    ensures r.Err? <==> |deck| == 0
    ensures r.Err? ==> r.error == EmptyDeck
    ensures r.Ok? ==> |r.value.1| + 1 == |deck|
    ensures r.Ok? ==> multiset(deck) == multiset(r.value.1) + multiset{r.value.0}
  {
    if |deck| == 0 then Err(EmptyDeck)
    else
      assert deck == [deck[0]] + deck[1..];
      Ok((deck[0], deck[1..]))
  }
}
