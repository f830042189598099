/**
 * The card deck offered to players. The deck takes no parameter, so it is
 * the same whatever voting mode the session uses.
 */
module Cards {

  import opened Decimal

  /** The numeric cards, smallest first. */
  const FibonacciSet: seq<string> := ["0", "1", "2", "3", "5", "8", "13", "20", "40", "100"]

  /** The two cards that carry no number: a break, and "no idea". */
  const SpecialCards: seq<string> := ["coffee", "?"]

  predicate NoDuplicates(s: seq<string>) {
    forall i, j :: 0 <= i < j < |s| ==> s[i] != s[j]
  }

  /** The deck, in display order: the numeric cards, then the special ones. */
  function CardSet(): (deck: seq<string>)
    ensures |deck| == 12
    ensures deck[..10] == FibonacciSet && deck[10..] == SpecialCards
  {
    FibonacciSet + SpecialCards
  }

  /** No card appears twice in the deck. */
  lemma DeckHasNoDuplicates()
    ensures NoDuplicates(CardSet())
  {
    var deck := CardSet();
    assert deck == ["0", "1", "2", "3", "5", "8", "13", "20", "40", "100", "coffee", "?"];
  }

  /** Exactly the first ten cards are numbers; the two special cards come after all of them. */
  lemma NumericCardsComeFirst()
    ensures forall i :: 0 <= i < |CardSet()| ==> (IsNumeral(CardSet()[i]) <==> i < 10)
  {
    var deck := CardSet();
    forall i | 0 <= i < 10
      ensures IsNumeral(deck[i])
    {
      assert deck[i] == FibonacciSet[i];
    }
    assert !IsDigit(deck[10][0]) && !IsDigit(deck[11][0]);
  }

  /** Read as integers, the numeric cards are strictly increasing. */
  lemma NumericCardsIncrease()
    ensures forall i :: 0 <= i < 10 ==> IsNumeral(CardSet()[i])
    ensures forall i, j :: 0 <= i < j < 10 ==> Value(CardSet()[i]) < Value(CardSet()[j])
  {
    NumericCardsComeFirst();
    var deck := CardSet();
    var values: seq<nat> := [0, 1, 2, 3, 5, 8, 13, 20, 40, 100];
    forall i | 0 <= i < 10
      ensures Value(deck[i]) == values[i]
    {
      assert deck[i] == FibonacciSet[i];
    }
  }

  /** The cards that have a picture: the keys of the card-to-image lookup table. */
  function CardImageKeys(): (keys: set<string>)
    ensures forall c :: c in keys <==> c in CardSet()
  {
    {"0", "1", "2", "3", "5", "8", "13", "20", "40", "100", "coffee", "?"}
  }
}
