/** `EmojiMemoryGame`: the object that owns one `MemoryGame<String>` and
    forwards the player's intents to it. */
module EmojiMemoryGame {
  import opened ArrayOnly
  import opened MemoryGame

  /** The content factory of the owned game, `{ _ in "😀" }`. */
  function Smiley(pairIndex: int): (r: string)
    ensures |r| == 1 && r[0] == '\U{1F600}'
  {
    "\U{1F600}"
  }

  class EmojiMemoryGame {
    var game: MemoryGame<string>

    /** The owned game is in a reachable state. */
    ghost predicate Valid()
      reads this, game
    {
      game.Valid()
    }

    /** A fresh game of two pairs, every card showing the smiley. */
    constructor ()
      ensures Valid() && fresh(game)
      ensures multiset(Cards()) == multiset(Deck(2, Smiley))
      ensures |Cards()| == 4
      ensures forall i :: 0 <= i < |Cards()| ==>
        Cards()[i].content == "\U{1F600}" && !Cards()[i].isFaceUp && !Cards()[i].isMatched
      ensures forall i, j :: 0 <= i < j < |Cards()| ==> Cards()[i].id != Cards()[j].id
      ensures forall k :: k in Ids(Cards()) <==> 0 <= k < 4
    {
      game := new MemoryGame<string>(2, Smiley);
    }

    /** Access to the model: the owned game's deck, as it is. */
    function Cards(): (r: seq<Card<string>>)
      reads this, game
      ensures r == game.cards
      ensures Valid() ==> FaceUpCount(r) <= 2 && MatchedCount(r) % 2 == 0
    {
      game.cards
    }

    /** The choose intent: exactly the owned game's `choose`. */
    method Choose(card: Card<string>)
      modifies game
      ensures game.cards == AfterChoose(old(game.cards), card)
      ensures old(Valid()) ==> Valid()
    {
      game.Choose(card);
    }
  }

  /** On a fresh game every card shows the same content, so choosing any two
      different cards in a row matches them; no other card changes. */
  lemma TwoChoicesOnFreshGameMatch(deck: seq<Card<string>>, first: Card<string>, second: Card<string>)
    requires multiset(deck) == multiset(Deck(2, Smiley))
    requires 0 <= first.id < 4 && 0 <= second.id < 4 && first.id != second.id
    ensures var r := AfterChoose(AfterChoose(deck, first), second);
      |r| == 4 &&
      forall i :: 0 <= i < |r| ==>
        r[i].isMatched == (r[i].id == first.id || r[i].id == second.id) &&
        r[i].isFaceUp == (r[i].id == first.id || r[i].id == second.id)
  {
    AfterFirstChoice(deck, first);
    SecondChoiceMatches(AfterChoose(deck, first), second, FirstIndex(deck, first.id).value);
  }

  /** The deck of a fresh game: four face-down, unmatched smiley cards whose
      ids are `0 .. 3`, each once. */
  lemma FreshSmileyDeck(deck: seq<Card<string>>)
    requires multiset(deck) == multiset(Deck(2, Smiley))
    ensures |deck| == 4
    ensures forall i :: 0 <= i < |deck| ==> !deck[i].isFaceUp && !deck[i].isMatched && deck[i].content == "\U{1F600}"
    ensures forall i, j :: 0 <= i < j < |deck| ==> deck[i].id != deck[j].id
    ensures forall k :: 0 <= k < 4 ==> FirstIndex(deck, k).Some?
  {
    PermutedDeck(2, Smiley, deck);
    forall k | 0 <= k < 4
      ensures FirstIndex(deck, k).Some?
    {
      assert k in Ids(deck);
    }
  }

  /** What the first choice on a fresh game leaves: the chosen card face-up
      and alone so, nothing matched, every card still showing the smiley. */
  lemma AfterFirstChoice(deck: seq<Card<string>>, first: Card<string>)
    requires multiset(deck) == multiset(Deck(2, Smiley))
    requires 0 <= first.id < 4
    ensures FirstIndex(deck, first.id).Some?
    ensures var a := FirstIndex(deck, first.id).value; var r := AfterChoose(deck, first);
      |r| == 4 && r[a].id == first.id &&
      (forall i :: 0 <= i < |r| ==>
        r[i].id == deck[i].id && r[i].isFaceUp == (i == a) && !r[i].isMatched && r[i].content == "\U{1F600}") &&
      (forall i, j :: 0 <= i < j < |r| ==> r[i].id != r[j].id) &&
      (forall k :: 0 <= k < 4 ==> FirstIndex(r, k).Some?)
  {
    FreshSmileyDeck(deck);
    FirstChoiceOnFreshDeck(deck, first);
    var r := AfterChoose(deck, first);
    forall k | 0 <= k < 4
      ensures FirstIndex(r, k).Some?
    {
      SameIdsSameFirstIndex(deck, r, k);
    }
  }
}
