/** The card-matching state machine `MemoryGame<CardContent>`: a shuffled deck
    of paired cards, each face-up or face-down and matched or not, and the
    `choose` transition that reveals cards and detects matches.

    Swift's `Array` is a value type, so the game's `cards` is a `seq` that the
    methods of `MemoryGame` reassign; the pure functions below are their
    specifications. */
module MemoryGame {
  import opened ArrayOnly

  /** `MemoryGame.Card`; a fresh card is face-down and unmatched. */
  datatype Card<T> = Card(isFaceUp: bool, isMatched: bool, content: T, id: int)

  /** The two flags a card carries, so that one filter serves both. */
  datatype Flag = FaceUp | Matched

  predicate Has<T>(c: Card<T>, f: Flag) {
    match f
    case FaceUp => c.isFaceUp
    case Matched => c.isMatched
  }

  // ---------------------------------------------------------------------------
  // Looking cards up

  /** `cards.firstIndex(matching: card)`: the first position holding a card
      with the given id, or none. */
  function FirstIndex<T>(cards: seq<Card<T>>, id: int): (r: Option<nat>)
    ensures r.Some? ==> r.value < |cards| && cards[r.value].id == id
    ensures r.Some? ==> forall j :: 0 <= j < r.value ==> cards[j].id != id
    ensures r.None? ==> forall j :: 0 <= j < |cards| ==> cards[j].id != id
  {
    if |cards| == 0 then None
    else if cards[0].id == id then Some(0)
    else match FirstIndex(cards[1..], id)
      case None => None
      case Some(k) => Some(k + 1)
  }

  /** `cards.indices.filter { cards[$0].isFaceUp }` (and the same for
      `isMatched`): the flagged positions, in increasing order. */
  function IndicesWhere<T>(cards: seq<Card<T>>, f: Flag): (r: seq<nat>)
    ensures forall k :: 0 <= k < |r| ==> r[k] < |cards| && Has(cards[r[k]], f)
    ensures forall i :: 0 <= i < |cards| && Has(cards[i], f) ==> i in r
    ensures forall k, l :: 0 <= k < l < |r| ==> r[k] < r[l]
    decreases |cards|
  {
    if |cards| == 0 then []
    else
      var n := |cards| - 1;
      IndicesWhere(cards[..n], f) + (if Has(cards[n], f) then [n] else [])
  }

  /** The ids present in a deck. */
  function Ids<T>(cards: seq<Card<T>>): set<int> {
    set i | 0 <= i < |cards| :: cards[i].id
  }

  /** Number of face-up cards (matched ones included). */
  function FaceUpCount<T>(cards: seq<Card<T>>): nat {
    |IndicesWhere(cards, FaceUp)|
  }

  /** Number of matched cards. */
  function MatchedCount<T>(cards: seq<Card<T>>): nat {
    |IndicesWhere(cards, Matched)|
  }

  /** The getter of `indexOfTheOneAndOnlyFaceUpCard`: the position of the
      face-up card when exactly one card is face-up, otherwise none. */
  function IndexOfTheOneAndOnlyFaceUpCard<T>(cards: seq<Card<T>>): (r: Option<nat>)
    ensures r.Some? ==> r.value < |cards|
    ensures forall i :: 0 <= i < |cards| ==> (r == Some(i) <==> IsLoneFaceUp(cards, i))
    ensures r.Some? <==> FaceUpCount(cards) == 1
  {
    var up := IndicesWhere(cards, FaceUp);
    var r := Only(up);
    if r.Some? then
      OneFaceUpPosition(cards);
      r
    else
      assert forall i :: 0 <= i < |cards| && cards[i].isFaceUp ==> !IsLoneFaceUp(cards, i) by {
        forall i | 0 <= i < |cards| && cards[i].isFaceUp && IsLoneFaceUp(cards, i)
          ensures false
        {
          LoneFaceUp(cards, i);
        }
      }
      r
  }

  /** Card `i` is face-up and no other card is. */
  ghost predicate IsLoneFaceUp<T>(cards: seq<Card<T>>, i: int) {
    0 <= i < |cards| && cards[i].isFaceUp && forall j :: 0 <= j < |cards| && cards[j].isFaceUp ==> j == i
  }

  /** A card that is the only face-up card is the one face-up position. */
  lemma LoneFaceUp<T>(cards: seq<Card<T>>, i: nat)
    requires IsLoneFaceUp(cards, i)
    ensures IndicesWhere(cards, FaceUp) == [i]
  {
    SingleFlagged(cards, FaceUp, i);
  }

  /** The one face-up position holds the only face-up card. */
  lemma OneFaceUpPosition<T>(cards: seq<Card<T>>)
    requires |IndicesWhere(cards, FaceUp)| == 1
    ensures IsLoneFaceUp(cards, IndicesWhere(cards, FaceUp)[0])
  {
    var up := IndicesWhere(cards, FaceUp);
    assert Has(cards[up[0]], FaceUp);
    forall j | 0 <= j < |cards| && cards[j].isFaceUp
      ensures j == up[0]
    {
      assert Has(cards[j], FaceUp);
    }
  }

  /** What the setter of `indexOfTheOneAndOnlyFaceUpCard` leaves behind: the
      card at `newValue` face-up, every other card face-down. */
  function FaceUpOnlyAt<T>(cards: seq<Card<T>>, newValue: Option<int>): (r: seq<Card<T>>)
    ensures |r| == |cards|
    ensures forall i :: 0 <= i < |r| ==>
      r[i].isFaceUp == (newValue == Some(i)) &&
      r[i].isMatched == cards[i].isMatched && r[i].content == cards[i].content && r[i].id == cards[i].id
    // reading back what was set gives the position set, if it is one
    ensures IndexOfTheOneAndOnlyFaceUpCard(r) ==
      if newValue.Some? && 0 <= newValue.value < |cards| then Some(newValue.value) else None
  {
    seq(|cards|, i requires 0 <= i < |cards| => cards[i].(isFaceUp := newValue == Some(i)))
  }

  // ---------------------------------------------------------------------------
  // Choosing a card

  /** The guard of `choose`: a card with this id exists and the first such
      card is neither face-up nor matched. */
  predicate Selectable<T>(cards: seq<Card<T>>, card: Card<T>): (r: bool)
    ensures r <==>
      exists i :: 0 <= i < |cards| && cards[i].id == card.id &&
        !cards[i].isFaceUp && !cards[i].isMatched &&
        forall j :: 0 <= j < i ==> cards[j].id != card.id
  {
    match FirstIndex(cards, card.id)
    case None => false
    case Some(i) => !cards[i].isFaceUp && !cards[i].isMatched
  }

  /** The branch of `choose` with an anchor `a`: both cards are marked matched
      when their contents agree, then the chosen card `c` is turned face-up. */
  function ChooseWithAnchor<T(==)>(cards: seq<Card<T>>, c: nat, a: nat): (r: seq<Card<T>>)
    requires c < |cards| && a < |cards| && c != a
    ensures |r| == |cards|
    ensures var same := cards[c].content == cards[a].content;
      r[c] == cards[c].(isFaceUp := true, isMatched := same || cards[c].isMatched) &&
      r[a] == cards[a].(isMatched := same || cards[a].isMatched)
    ensures forall i :: 0 <= i < |r| && i != c && i != a ==> r[i] == cards[i]
  {
    var m := if cards[c].content == cards[a].content
      then cards[c := cards[c].(isMatched := true)][a := cards[a].(isMatched := true)]
      else cards;
    m[c := m[c].(isFaceUp := true)]
  }

  /** The effect of `choose(card:)` on the deck. */
  function AfterChoose<T(==)>(cards: seq<Card<T>>, card: Card<T>): (r: seq<Card<T>>)
    // the deck keeps its length, order, ids and contents; matches are never undone
    ensures |r| == |cards|
    ensures forall i :: 0 <= i < |r| ==> r[i].id == cards[i].id && r[i].content == cards[i].content
    ensures forall i :: 0 <= i < |r| && cards[i].isMatched ==> r[i].isMatched
    // an absent, face-up or matched card is ignored
    ensures !Selectable(cards, card) ==> r == cards
    // without an anchor only the chosen card ends face-up, and no match changes
    ensures Selectable(cards, card) && IndexOfTheOneAndOnlyFaceUpCard(cards).None? ==>
      var c := FirstIndex(cards, card.id).value;
      forall i :: 0 <= i < |r| ==> r[i].isFaceUp == (i == c) && r[i].isMatched == cards[i].isMatched
    // with an anchor the chosen card turns face-up, and both are matched exactly
    // when their contents agree; nothing else changes
    ensures Selectable(cards, card) && IndexOfTheOneAndOnlyFaceUpCard(cards).Some? ==>
      var c := FirstIndex(cards, card.id).value;
      var a := IndexOfTheOneAndOnlyFaceUpCard(cards).value;
      var same := cards[c].content == cards[a].content;
      c != a && r[c].isFaceUp && r[a].isFaceUp &&
      r[c].isMatched == same && r[a].isMatched == (same || cards[a].isMatched) &&
      forall i :: 0 <= i < |r| && i != c && i != a ==> r[i] == cards[i]
  {
    match FirstIndex(cards, card.id)
    case None => cards
    case Some(c) =>
      if cards[c].isFaceUp || cards[c].isMatched then cards
      else match IndexOfTheOneAndOnlyFaceUpCard(cards)
        case Some(a) => ChooseWithAnchor(cards, c, a)
        case None => FaceUpOnlyAt(cards, Some(c))
  }

  /** A sequence of `choose` calls, in order. */
  function Play<T(==)>(cards: seq<Card<T>>, choices: seq<Card<T>>): seq<Card<T>>
    decreases |choices|
  {
    if |choices| == 0 then cards else Play(AfterChoose(cards, choices[0]), choices[1..])
  }

  // ---------------------------------------------------------------------------
  // Building the deck

  /** The deck before shuffling: pair `i` is the cards `2i` and `2i+1`, both
      showing `factory(i)`. */
  function Deck<T>(n: nat, factory: int -> T): (r: seq<Card<T>>)
    ensures |r| == 2 * n
    ensures forall k :: 0 <= k < 2 * n ==> r[k] == Card(false, false, factory(k / 2), k)
  {
    if n == 0 then []
    else Deck(n - 1, factory) + [Card(false, false, factory(n - 1), 2 * (n - 1)),
                                 Card(false, false, factory(n - 1), 2 * (n - 1) + 1)]
  }

  /** `cards.shuffle()`: some permutation of the deck. Which one is left open. */
  method Shuffle<X>(s: seq<X>) returns (r: seq<X>)
    ensures |r| == |s|
    ensures multiset(r) == multiset(s)
  {
    r := s;
    var i := 0;
    while i < |r|
      invariant i <= |r| == |s|
      invariant multiset(r) == multiset(s)
    {
      var j :| i <= j < |r|;
      r := r[i := r[j]][j := r[i]];
      i := i + 1;
    }
  }

  // ---------------------------------------------------------------------------
  // The reachable states

  /** What holds of every deck reachable from a fresh game: at most two cards
      face-up, a lone face-up card unmatched, and matched cards in pairs. */
  predicate PlayInvariant<T>(cards: seq<Card<T>>) {
    var up := IndicesWhere(cards, FaceUp);
    |up| <= 2 && (|up| == 1 ==> !cards[up[0]].isMatched) && MatchedCount(cards) % 2 == 0
  }

  /** A card was unmatched before the step and is matched after it. */
  ghost predicate NewlyMatched<T>(before: seq<Card<T>>, after: seq<Card<T>>, i: int) {
    0 <= i < |before| && i < |after| && !before[i].isMatched && after[i].isMatched
  }

  /** Exactly the cards `i` and `j` went from unmatched to matched, and they
      show the same content. */
  ghost predicate NewPair<T>(before: seq<Card<T>>, after: seq<Card<T>>, i: int, j: int) {
    |before| == |after| && i != j && NewlyMatched(before, after, i) && NewlyMatched(before, after, j) &&
    after[i].content == after[j].content &&
    forall k :: 0 <= k < |after| && k != i && k != j ==> after[k].isMatched == before[k].isMatched
  }

  // ---------------------------------------------------------------------------
  // Counting flags

  /** Replacing one card changes a flag count by what that card contributed. */
  lemma {:induction false} IndicesWhereUpdate<T>(s: seq<Card<T>>, f: Flag, k: nat, x: Card<T>)
    requires k < |s|
    ensures |IndicesWhere(s[k := x], f)| ==
      |IndicesWhere(s, f)| - (if Has(s[k], f) then 1 else 0) + (if Has(x, f) then 1 else 0)
    decreases |s|
  {
    var n := |s| - 1;
    var t := s[k := x];
    if k == n {
      assert t[..n] == s[..n];
    } else {
      assert t[..n] == s[..n][k := x];
      IndicesWhereUpdate(s[..n], f, k, x);
    }
  }

  /** Two decks that agree on a flag at every position have the same flagged positions. */
  lemma {:induction false} IndicesWhereAgree<T>(s: seq<Card<T>>, t: seq<Card<T>>, f: Flag)
    requires |s| == |t|
    requires forall i :: 0 <= i < |s| ==> Has(s[i], f) == Has(t[i], f)
    ensures IndicesWhere(s, f) == IndicesWhere(t, f)
    decreases |s|
  {
    if |s| > 0 {
      var n := |s| - 1;
      IndicesWhereAgree(s[..n], t[..n], f);
    }
  }

  /** A deck whose only flagged card is at `k` has `[k]` as its flagged positions. */
  lemma {:induction false} SingleFlagged<T>(s: seq<Card<T>>, f: Flag, k: nat)
    requires k < |s|
    requires forall i :: 0 <= i < |s| ==> (Has(s[i], f) <==> i == k)
    ensures IndicesWhere(s, f) == [k]
    decreases |s|
  {
    var n := |s| - 1;
    if k == n {
      NoneFlagged(s[..n], f);
    } else {
      SingleFlagged(s[..n], f, k);
    }
  }

  /** Decks with the same ids at every position agree on where an id is first found. */
  lemma {:induction false} SameIdsSameFirstIndex<T>(s: seq<Card<T>>, t: seq<Card<T>>, id: int)
    requires |s| == |t|
    requires forall i :: 0 <= i < |s| ==> s[i].id == t[i].id
    ensures FirstIndex(s, id) == FirstIndex(t, id)
    decreases |s|
  {
    if |s| > 0 && s[0].id != id {
      SameIdsSameFirstIndex(s[1..], t[1..], id);
    }
  }

  /** A deck with no flagged card has no flagged positions. */
  lemma {:induction false} NoneFlagged<T>(s: seq<Card<T>>, f: Flag)
    requires forall i :: 0 <= i < |s| ==> !Has(s[i], f)
    ensures IndicesWhere(s, f) == []
    decreases |s|
  {
    if |s| > 0 {
      NoneFlagged(s[..|s| - 1], f);
    }
  }

  /** A deck of face-down, unmatched cards is a reachable state. */
  lemma FreshDeckKeepsInvariant<T>(cards: seq<Card<T>>)
    requires forall i :: 0 <= i < |cards| ==> !cards[i].isFaceUp && !cards[i].isMatched
    ensures PlayInvariant(cards)
    ensures FaceUpCount(cards) == 0 && MatchedCount(cards) == 0
  {
    NoneFlagged(cards, FaceUp);
    NoneFlagged(cards, Matched);
  }

  // ---------------------------------------------------------------------------
  // Properties of choose

  /** Matching the chosen card `c` with an unmatched anchor `a` of equal
      content adds exactly that pair to the matched cards, and one face-up card. */
  lemma MatchingCounts<T>(cards: seq<Card<T>>, c: nat, a: nat)
    requires c < |cards| && a < |cards| && c != a
    requires !cards[c].isMatched && !cards[a].isMatched && !cards[c].isFaceUp
    requires cards[c].content == cards[a].content
    ensures var r := ChooseWithAnchor(cards, c, a);
      NewPair(cards, r, c, a) && MatchedCount(r) == MatchedCount(cards) + 2 &&
      FaceUpCount(r) == FaceUpCount(cards) + 1
  {
    var r := ChooseWithAnchor(cards, c, a);
    var first := cards[c := r[c]];
    assert r == first[a := r[a]];
    IndicesWhereUpdate(cards, Matched, c, r[c]);
    IndicesWhereUpdate(first, Matched, a, r[a]);
    IndicesWhereUpdate(cards, FaceUp, c, r[c]);
    IndicesWhereUpdate(first, FaceUp, a, r[a]);
  }

  /** On a face-down, unmatched deck the chosen card becomes the lone face-up card. */
  lemma FirstChoiceOnFreshDeck<T>(deck: seq<Card<T>>, card: Card<T>)
    requires forall i :: 0 <= i < |deck| ==> !deck[i].isFaceUp && !deck[i].isMatched
    requires FirstIndex(deck, card.id).Some?
    ensures var a := FirstIndex(deck, card.id).value; var r := AfterChoose(deck, card);
      forall i :: 0 <= i < |r| ==>
        r[i].id == deck[i].id && r[i].content == deck[i].content && r[i].isFaceUp == (i == a) && !r[i].isMatched
  {
    FreshDeckKeepsInvariant(deck);
  }

  /** With a lone face-up card at `a`, choosing another face-down card of the
      same content matches both and leaves the rest as they were. */
  lemma SecondChoiceMatches<T>(cards: seq<Card<T>>, card: Card<T>, a: nat)
    requires a < |cards| && cards[a].isFaceUp && !cards[a].isMatched
    requires forall i :: 0 <= i < |cards| ==> cards[i].isFaceUp == (i == a) && !cards[i].isMatched
    requires forall i :: 0 <= i < |cards| ==> cards[i].content == cards[a].content
    requires forall i, j :: 0 <= i < j < |cards| ==> cards[i].id != cards[j].id
    requires FirstIndex(cards, card.id).Some? && card.id != cards[a].id
    ensures var r := AfterChoose(cards, card);
      forall i :: 0 <= i < |r| ==>
        r[i].isMatched == (r[i].id == card.id || r[i].id == cards[a].id) &&
        r[i].isFaceUp == (r[i].id == card.id || r[i].id == cards[a].id)
  {
    LoneFaceUp(cards, a);
    var c := FirstIndex(cards, card.id).value;
    assert Selectable(cards, card);
    assert IndexOfTheOneAndOnlyFaceUpCard(cards) == Some(a);
    var r := AfterChoose(cards, card);
    forall i | 0 <= i < |r|
      ensures (r[i].id == card.id) == (i == c) && (r[i].id == cards[a].id) == (i == a)
    {
      if i != c {
        assert cards[i].id != cards[c].id;
      }
      if i != a {
        assert cards[i].id != cards[a].id;
      }
    }
  }

  /** A miss turns one more card face-up and matches nothing. */
  lemma MissCounts<T>(cards: seq<Card<T>>, c: nat, a: nat)
    requires c < |cards| && a < |cards| && c != a
    requires !cards[c].isMatched && !cards[c].isFaceUp
    requires cards[c].content != cards[a].content
    ensures var r := ChooseWithAnchor(cards, c, a);
      (forall i :: 0 <= i < |r| ==> r[i].isMatched == cards[i].isMatched) &&
      MatchedCount(r) == MatchedCount(cards) && FaceUpCount(r) == FaceUpCount(cards) + 1
  {
    var r := ChooseWithAnchor(cards, c, a);
    assert r == cards[c := r[c]];
    IndicesWhereUpdate(cards, Matched, c, r[c]);
    IndicesWhereUpdate(cards, FaceUp, c, r[c]);
  }

  /** In a reachable state the lone face-up card is the anchor, and it is unmatched. */
  lemma AnchorUnmatched<T>(cards: seq<Card<T>>)
    requires PlayInvariant(cards)
    requires IndexOfTheOneAndOnlyFaceUpCard(cards).Some?
    ensures !cards[IndexOfTheOneAndOnlyFaceUpCard(cards).value].isMatched
  {
    OneFaceUpPosition(cards);
  }

  /** The step of `choose` that actually changes the deck, when there is an anchor. */
  lemma AnchorStep<T>(cards: seq<Card<T>>, card: Card<T>)
    requires Selectable(cards, card) && IndexOfTheOneAndOnlyFaceUpCard(cards).Some?
    ensures var c := FirstIndex(cards, card.id).value; var a := IndexOfTheOneAndOnlyFaceUpCard(cards).value;
      c != a && !cards[c].isFaceUp && !cards[c].isMatched && AfterChoose(cards, card) == ChooseWithAnchor(cards, c, a)
  {
  }

  /** The step of `choose` that actually changes the deck, when there is no anchor. */
  lemma NoAnchorStep<T>(cards: seq<Card<T>>, card: Card<T>)
    requires Selectable(cards, card) && IndexOfTheOneAndOnlyFaceUpCard(cards).None?
    ensures var c := FirstIndex(cards, card.id).value;
      !cards[c].isMatched && AfterChoose(cards, card) == FaceUpOnlyAt(cards, Some(c))
  {
  }

  /** Turning one unmatched card face-up alone keeps the matched cards and
      leaves a lone, unmatched face-up card. */
  lemma NoAnchorCounts<T>(cards: seq<Card<T>>, c: nat)
    requires c < |cards| && !cards[c].isMatched
    ensures var r := FaceUpOnlyAt(cards, Some(c));
      IndicesWhere(r, FaceUp) == [c] && !r[c].isMatched && MatchedCount(r) == MatchedCount(cards)
  {
    var r := FaceUpOnlyAt(cards, Some(c));
    LoneFaceUp(r, c);
    IndicesWhereAgree(cards, r, Matched);
  }

  /** In a reachable state a step either changes no match flag, or matches
      exactly two previously unmatched cards of equal content. */
  lemma MatchFlipsTwo<T>(cards: seq<Card<T>>, card: Card<T>)
    requires PlayInvariant(cards)
    ensures var r := AfterChoose(cards, card);
      ((forall i :: 0 <= i < |r| ==> r[i].isMatched == cards[i].isMatched) && MatchedCount(r) == MatchedCount(cards)) ||
      (exists i, j :: 0 <= i < |r| && 0 <= j < |r| && NewPair(cards, r, i, j) && MatchedCount(r) == MatchedCount(cards) + 2)
  {
    if !Selectable(cards, card) {
    } else if IndexOfTheOneAndOnlyFaceUpCard(cards).None? {
      NoAnchorStep(cards, card);
      NoAnchorCounts(cards, FirstIndex(cards, card.id).value);
    } else {
      var c, a := FirstIndex(cards, card.id).value, IndexOfTheOneAndOnlyFaceUpCard(cards).value;
      AnchorStep(cards, card);
      if cards[c].content == cards[a].content {
        AnchorUnmatched(cards);
        MatchingCounts(cards, c, a);
      } else {
        MissCounts(cards, c, a);
      }
    }
  }

  /** `choose` keeps a reachable state reachable. */
  lemma AfterChooseKeepsInvariant<T>(cards: seq<Card<T>>, card: Card<T>)
    requires PlayInvariant(cards)
    ensures PlayInvariant(AfterChoose(cards, card))
  {
    if !Selectable(cards, card) {
    } else if IndexOfTheOneAndOnlyFaceUpCard(cards).None? {
      NoAnchorKeepsInvariant(cards, card);
    } else {
      AnchorKeepsInvariant(cards, card);
    }
  }

  /** A choice with no anchor keeps `PlayInvariant`: the chosen card ends
      alone face-up, unmatched, and no match flag changes. */
  lemma NoAnchorKeepsInvariant<T>(cards: seq<Card<T>>, card: Card<T>)
    requires PlayInvariant(cards)
    requires Selectable(cards, card) && IndexOfTheOneAndOnlyFaceUpCard(cards).None?
    ensures PlayInvariant(AfterChoose(cards, card))
  {
    NoAnchorStep(cards, card);
    NoAnchorCounts(cards, FirstIndex(cards, card.id).value);
  }

  /** A choice with an anchor keeps `PlayInvariant`: the anchor is unmatched,
      so the step is the anchor branch of `choose` on two unmatched cards. */
  lemma AnchorKeepsInvariant<T>(cards: seq<Card<T>>, card: Card<T>)
    requires PlayInvariant(cards)
    requires Selectable(cards, card) && IndexOfTheOneAndOnlyFaceUpCard(cards).Some?
    ensures PlayInvariant(AfterChoose(cards, card))
  {
    var c, a := FirstIndex(cards, card.id).value, IndexOfTheOneAndOnlyFaceUpCard(cards).value;
    AnchorStep(cards, card);
    AnchorUnmatched(cards);
    AnchorResultKeepsInvariant(cards, c, a);
  }

  /** The anchor branch, from one face-up card: either a match adds two
      matched cards or a miss adds none, and two cards end face-up. */
  lemma AnchorResultKeepsInvariant<T>(cards: seq<Card<T>>, c: nat, a: nat)
    requires PlayInvariant(cards) && FaceUpCount(cards) == 1
    requires c < |cards| && a < |cards| && c != a
    requires !cards[c].isMatched && !cards[c].isFaceUp && !cards[a].isMatched
    ensures PlayInvariant(ChooseWithAnchor(cards, c, a))
  {
    var r := ChooseWithAnchor(cards, c, a);
    if cards[c].content == cards[a].content {
      MatchingCounts(cards, c, a);
    } else {
      MissCounts(cards, c, a);
    }
    TwoFaceUpInvariant(r);
  }

  /** Two face-up cards and an even number of matched ones satisfy `PlayInvariant`. */
  lemma TwoFaceUpInvariant<T>(cards: seq<Card<T>>)
    requires FaceUpCount(cards) == 2 && MatchedCount(cards) % 2 == 0
    ensures PlayInvariant(cards)
  {
  }

  /** Any sequence of choices keeps a reachable state reachable. */
  lemma {:induction false} PlayKeepsInvariant<T>(cards: seq<Card<T>>, choices: seq<Card<T>>)
    requires PlayInvariant(cards)
    ensures PlayInvariant(Play(cards, choices))
    decreases |choices|
  {
    if |choices| > 0 {
      AfterChooseKeepsInvariant(cards, choices[0]);
      PlayKeepsInvariant(AfterChoose(cards, choices[0]), choices[1..]);
    }
  }

  /** From a fresh game, after any sequence of choices at most two cards are
      face-up, a lone face-up card is unmatched, and the matched cards are
      even in number. */
  lemma ReachableStates<T>(n: nat, factory: int -> T, deck: seq<Card<T>>, choices: seq<Card<T>>)
    requires multiset(deck) == multiset(Deck(n, factory))
    ensures var r := Play(deck, choices);
      FaceUpCount(r) <= 2 &&
      (FaceUpCount(r) == 1 ==> forall i :: 0 <= i < |r| && r[i].isFaceUp ==> !r[i].isMatched) &&
      MatchedCount(r) % 2 == 0
  {
    PermutedDeck(n, factory, deck);
    FreshDeckKeepsInvariant(deck);
    PlayKeepsInvariant(deck, choices);
    var r := Play(deck, choices);
    if FaceUpCount(r) == 1 {
      OneFaceUpPosition(r);
    }
  }

  // ---------------------------------------------------------------------------
  // The shuffled deck

  /** Distinct elements occur once each. */
  lemma {:induction false} DistinctOccursOnce<X>(s: seq<X>)
    requires forall i, j :: 0 <= i < j < |s| ==> s[i] != s[j]
    ensures forall x :: multiset(s)[x] <= 1
    decreases |s|
  {
    if |s| > 0 {
      var n := |s| - 1;
      DistinctOccursOnce(s[..n]);
      assert s == s[..n] + [s[n]];
      assert s[n] !in s[..n];
    }
  }

  /** An element found at two positions occurs at least twice. */
  lemma OccursTwice<X>(s: seq<X>, i: nat, j: nat)
    requires i < j < |s| && s[i] == s[j]
    ensures multiset(s)[s[i]] >= 2
  {
    assert s == s[..j] + s[j..];
    assert s[i] in s[..j];
    assert s[j..][0] == s[i];
  }

  /** Any permutation of the unshuffled deck of `n` pairs has `2n` face-down,
      unmatched cards whose ids are exactly `0 .. 2n-1`, each once, and the
      card with id `k` shows `factory(k / 2)`. */
  lemma PermutedDeck<T>(n: nat, factory: int -> T, s: seq<Card<T>>)
    requires multiset(s) == multiset(Deck(n, factory))
    ensures |s| == 2 * n
    ensures forall i :: 0 <= i < |s| ==>
      !s[i].isFaceUp && !s[i].isMatched && 0 <= s[i].id < 2 * n && s[i].content == factory(s[i].id / 2)
    ensures forall i, j :: 0 <= i < j < |s| ==> s[i].id != s[j].id
    ensures forall k :: k in Ids(s) <==> 0 <= k < 2 * n
  {
    var d := Deck(n, factory);
    assert |s| == |multiset(s)| == |multiset(d)| == |d|;
    forall i | 0 <= i < |s|
      ensures 0 <= s[i].id < 2 * n && s[i] == d[s[i].id]
    {
      assert s[i] in multiset(d);
      var k :| 0 <= k < |d| && d[k] == s[i];
    }
    DistinctOccursOnce(d);
    forall i, j | 0 <= i < j < |s|
      ensures s[i].id != s[j].id
    {
      if s[i].id == s[j].id {
        OccursTwice(s, i, j);
        assert false;
      }
    }
    forall k | 0 <= k < 2 * n
      ensures k in Ids(s)
    {
      assert d[k] in multiset(s);
      var i :| 0 <= i < |s| && s[i] == d[k];
    }
  }

  // ---------------------------------------------------------------------------
  // The game

  class MemoryGame<T(==)> {
    var cards: seq<Card<T>>

    /** The deck is in a state that a sequence of choices can reach. */
    ghost predicate Valid()
      reads this
    {
      PlayInvariant(cards)
    }

    /** `init(numberOfPairsOfCards:cardContentFactory:)` */
    constructor (numberOfPairsOfCards: int, cardContentFactory: int -> T)
      requires numberOfPairsOfCards >= 0
      ensures Valid()
      ensures multiset(cards) == multiset(Deck(numberOfPairsOfCards, cardContentFactory))
      ensures |cards| == 2 * numberOfPairsOfCards
      ensures forall i :: 0 <= i < |cards| ==>
        !cards[i].isFaceUp && !cards[i].isMatched &&
        0 <= cards[i].id < 2 * numberOfPairsOfCards &&
        cards[i].content == cardContentFactory(cards[i].id / 2)
      ensures forall i, j :: 0 <= i < j < |cards| ==> cards[i].id != cards[j].id
      ensures forall k :: k in Ids(cards) <==> 0 <= k < 2 * numberOfPairsOfCards
    {
      var deck: seq<Card<T>> := [];
      for pairIndex := 0 to numberOfPairsOfCards
        invariant deck == Deck(pairIndex, cardContentFactory)
      {
        var content := cardContentFactory(pairIndex);
        deck := deck + [Card(false, false, content, pairIndex * 2)];
        deck := deck + [Card(false, false, content, pairIndex * 2 + 1)];
      }
      var shuffled := Shuffle(deck);
      cards := shuffled;
      new;
      PermutedDeck(numberOfPairsOfCards, cardContentFactory, cards);
      FreshDeckKeepsInvariant(cards);
    }

    /** The setter of `indexOfTheOneAndOnlyFaceUpCard`. */
    method SetIndexOfTheOneAndOnlyFaceUpCard(newValue: Option<int>)
      modifies this
      ensures cards == FaceUpOnlyAt(old(cards), newValue)
    {
      for index := 0 to |cards|
        invariant |cards| == |old(cards)|
        invariant forall i :: 0 <= i < index ==> cards[i] == old(cards)[i].(isFaceUp := newValue == Some(i))
        invariant forall i :: index <= i < |cards| ==> cards[i] == old(cards)[i]
      {
        cards := cards[index := cards[index].(isFaceUp := newValue == Some(index))];
      }
    }

    /** `choose(card:)` */
    method Choose(card: Card<T>)
      modifies this
      ensures cards == AfterChoose(old(cards), card)
      ensures old(Valid()) ==> Valid()
    {
      var found := FirstIndex(cards, card.id);
      if found.Some? && !cards[found.value].isFaceUp && !cards[found.value].isMatched {
        var chosenIndex := found.value;
        var potentialMatch := IndexOfTheOneAndOnlyFaceUpCard(cards);
        if potentialMatch.Some? {
          var potentialMatchIndex := potentialMatch.value;
          if cards[chosenIndex].content == cards[potentialMatchIndex].content {
            cards := cards[chosenIndex := cards[chosenIndex].(isMatched := true)];
            cards := cards[potentialMatchIndex := cards[potentialMatchIndex].(isMatched := true)];
          }
          cards := cards[chosenIndex := cards[chosenIndex].(isFaceUp := true)];
        } else {
          SetIndexOfTheOneAndOnlyFaceUpCard(Some(chosenIndex));
        }
      }
      if old(Valid()) {
        AfterChooseKeepsInvariant(old(cards), card);
      }
    }
  }
}
