# Memorize: the MemoryGame rules engine in Dafny

This project models the rules engine of the Memorize concentration game.

- `MemoryGame<CardContent>` holds a shuffled deck of paired cards. Each card is face-up or face-down, and matched or not.
- `choose(card:)` reveals cards and detects matches.
- The deck is built by `init(numberOfPairsOfCards:cardContentFactory:)`.
- The "one and only face-up card" is a computed property with a getter and a setter.
- `Array.only` is the helper behind that getter.
- `EmojiMemoryGame` owns one game of two smiley pairs and forwards `choose` to it.

Files and modules:

- `array_only.dfy`, module `ArrayOnly`: `Option` (Swift's optional) and `Only`.
- `memory_game.dfy`, module `MemoryGame`:
  - `Card`, and the class `MemoryGame` whose `cards` field is a `seq`. Swift's `Array` is a value type, so its methods reassign the field.
  - The pure specification functions: `FirstIndex`, `IndicesWhere`, `IndexOfTheOneAndOnlyFaceUpCard`, `FaceUpOnlyAt`, `AfterChoose`, `Deck`, and `Play` for a sequence of choices.
  - The lemmas about reachable states.
- `emoji_memory_game.dfy`, module `EmojiMemoryGame`: the owning class and the fresh-game lemmas.

How the methods are specified:

- `MemoryGame.Choose` ensures `cards == AfterChoose(old(cards), card)`. The setter's loop ensures `cards == FaceUpOnlyAt(old(cards), newValue)`.
- The constructor builds `Deck(n, factory)` in a loop. It then calls `Shuffle`, a Fisher–Yates loop whose swap index is chosen nondeterministically.
- The class invariant `Valid()` is `PlayInvariant(cards)`. The constructor establishes it and `Choose` preserves it.

Behaviour of the code that is easy to misread, and which the model keeps:

- No configuration error. The code does not reject a non-positive pair count. Zero pairs gives an empty deck. A negative count traps in Swift's `0..<n`, which the model expresses as `requires numberOfPairsOfCards >= 0`.
- Matched cards count as face-up. The anchor is the only face-up card, and the code counts matched cards too. Right after a match both matched cards are face-up, so there is no anchor. The next choice then turns every other card face-down, matched ones included.
- Two cards stay face-up after a miss. Two unmatched cards can be face-up at once after a miss. The invariant that holds is "at most two face-up cards, and a lone face-up card is unmatched".
- No reset. The code has no reset operation, so none is modelled.

## Model

| member | source | states |
|---|---|---|
| ArrayOnly.Only | Memorize/Array+Only.swift:11-13 | the result is present exactly when the array has one element, and is then that element; empty and longer arrays give none |
| MemoryGame.FirstIndex | Memorize/MemoryGame.swift:32 | the result is a position holding the given id with no earlier position holding it; none exactly when no card has the id |
| MemoryGame.IndicesWhere | Memorize/MemoryGame.swift:18 | the result lists, in strictly increasing order, exactly the positions whose card has the flag |
| MemoryGame.IndexOfTheOneAndOnlyFaceUpCard | Memorize/MemoryGame.swift:17-18 | the getter yields `i` if and only if card `i` is face-up and no other card is; it yields something exactly when one card is face-up |
| MemoryGame.FaceUpOnlyAt | Memorize/MemoryGame.swift:19-25 | after the setter only the card at the new value is face-up and nothing else changes; reading the getter back gives the value set when it is a position, none otherwise |
| MemoryGame.MemoryGame.SetIndexOfTheOneAndOnlyFaceUpCard | Memorize/MemoryGame.swift:19-25 | the loop leaves the deck equal to `FaceUpOnlyAt` of the old deck |
| MemoryGame.Selectable | Memorize/MemoryGame.swift:32 | the guard of `choose` holds exactly when some position holds the card's id, no earlier position does, and that card is neither face-up nor matched |
| MemoryGame.ChooseWithAnchor | Memorize/MemoryGame.swift:35-39 | with an anchor, the chosen card turns face-up, both it and the anchor become matched when their contents are equal and keep their match flags otherwise, and every other card is unchanged |
| MemoryGame.AfterChoose | Memorize/MemoryGame.swift:29-44 | length, order, ids and contents are kept and matches never undone; an absent, face-up or matched card changes nothing; without an anchor only the chosen card ends face-up and no match flag changes; with an anchor the chosen card turns face-up, the anchor stays face-up, both are matched exactly when their contents are equal, and no other card changes |
| MemoryGame.MemoryGame.Choose | Memorize/MemoryGame.swift:29-44 | the new deck is `AfterChoose` of the old deck and the chosen card; a reachable state stays reachable |
| MemoryGame.Deck | Memorize/MemoryGame.swift:50-54 | the unshuffled deck has `2n` cards; position `k` holds a face-down, unmatched card with id `k` and content `factory(k / 2)` |
| MemoryGame.Shuffle | Memorize/MemoryGame.swift:55 | the result has the same length and the same multiset of elements as the input |
| MemoryGame.MemoryGame.constructor | Memorize/MemoryGame.swift:47-56 | the deck is a permutation of `Deck(n, factory)`: `2n` face-down, unmatched cards with distinct ids that are exactly `0 .. 2n-1`, the card with id `k` showing `factory(k / 2)`; the state satisfies the reachable-state invariant |
| MemoryGame.PermutedDeck | Memorize/MemoryGame.swift:50-55 | any permutation of the unshuffled deck has `2n` face-down, unmatched cards, ids exactly `0 .. 2n-1` each once, and content `factory(id / 2)` |
| MemoryGame.FreshDeckKeepsInvariant | Memorize/MemoryGame.swift:60-61 | a deck of face-down, unmatched cards has no face-up and no matched card and satisfies the reachable-state invariant |
| MemoryGame.LoneFaceUp | Memorize/MemoryGame.swift:18 | when card `i` is the only face-up card, the filtered face-up positions are exactly `[i]` |
| MemoryGame.OneFaceUpPosition | Memorize/MemoryGame.swift:18 | when one position is face-up, its card is face-up and no other card is |
| MemoryGame.AnchorUnmatched | Memorize/MemoryGame.swift:33 | in a reachable state the anchor found by the getter is unmatched |
| MemoryGame.MatchingCounts | Memorize/MemoryGame.swift:35-39 | matching the chosen card with an unmatched anchor of equal content flips exactly those two cards to matched and adds one face-up card |
| MemoryGame.MissCounts | Memorize/MemoryGame.swift:35-39 | choosing a card whose content differs from the anchor's changes no match flag and adds exactly one face-up card |
| MemoryGame.NoAnchorCounts | Memorize/MemoryGame.swift:40-41 | without an anchor, choosing an unmatched card leaves it the only face-up card and keeps the matched count |
| MemoryGame.AnchorResultKeepsInvariant | Memorize/MemoryGame.swift:33-39 | from a reachable state with one face-up card, the anchor branch leads to a reachable state again |
| MemoryGame.SameIdsSameFirstIndex | Memorize/MemoryGame.swift:32 | two decks with the same ids position by position give the same first index for every id, so a choice that keeps ids keeps every card findable |
| MemoryGame.MatchFlipsTwo | Memorize/MemoryGame.swift:32-39 | in a reachable state a choice either changes no match flag, or flips exactly two unmatched cards of equal content to matched, raising the matched count by two |
| MemoryGame.AfterChooseKeepsInvariant | Memorize/MemoryGame.swift:29-44 | from a state with at most two face-up cards, a lone face-up card unmatched and an even number of matched cards, a choice leads to such a state again |
| MemoryGame.PlayKeepsInvariant | Memorize/MemoryGame.swift:29-44 | any sequence of choices keeps the reachable-state invariant |
| MemoryGame.ReachableStates | Memorize/MemoryGame.swift:17-56 | starting from a freshly built deck and after any sequence of choices, at most two cards are face-up, a lone face-up card is unmatched, and the matched cards are even in number |
| EmojiMemoryGame.Smiley | Memorize/EmojiMemoryGame.swift:13 | the content factory gives every pair index the same one-character smiley string |
| EmojiMemoryGame.EmojiMemoryGame.constructor | Memorize/EmojiMemoryGame.swift:13 | the owned game is a permutation of two smiley pairs: four face-down, unmatched cards, all showing the smiley, with ids exactly `0 .. 3` |
| EmojiMemoryGame.EmojiMemoryGame.Cards | Memorize/EmojiMemoryGame.swift:17-19 | the accessor returns the owned game's deck unchanged; in a valid state it has at most two face-up cards and an even number of matched ones |
| EmojiMemoryGame.EmojiMemoryGame.Choose | Memorize/EmojiMemoryGame.swift:23-25 | the same game object afterwards holds `AfterChoose` of its old deck, which is exactly the effect of the game's own `choose`; validity is kept |
| EmojiMemoryGame.FreshSmileyDeck | Memorize/EmojiMemoryGame.swift:13 | the deck of a fresh game holds four face-down, unmatched smiley cards with distinct ids, and each id `0 .. 3` is found in it |
| EmojiMemoryGame.AfterFirstChoice | Memorize/EmojiMemoryGame.swift:13 | on a fresh smiley game the first choice leaves the chosen card alone face-up and nothing matched; every position keeps its id, the ids stay distinct and each of `0 .. 3` is still found, and every card still shows the smiley |
| MemoryGame.FirstChoiceOnFreshDeck | Memorize/MemoryGame.swift:33-41 | on a face-down, unmatched deck a choice turns exactly the chosen card face-up and matches nothing |
| MemoryGame.SecondChoiceMatches | Memorize/MemoryGame.swift:33-39 | with one face-up unmatched card and all contents alike, choosing a card with another id matches and shows exactly those two cards |
| EmojiMemoryGame.TwoChoicesOnFreshGameMatch | Memorize/EmojiMemoryGame.swift:13 | on a fresh game, choosing two cards with different ids in a row leaves exactly those two cards matched and face-up |

## Left out

- The bonus-time section of `MemoryGame` (`bonusTimeLimit`, `faceUpTime`, `bonusTimeRemaining`, `bonusRemaining`, `hasEarnedBonus`, `isConsumingBonusTime`, `startUsingBonusTime`, `stopUsingBonusTime`). It reads the wall clock through `Date()` and computes with `TimeInterval` and `Double`. Two of its properties have empty bodies, so that part of the file does not compile. `choose` never calls it.
- The `print` of the chosen card at the start of `choose`: console output.
- MemoryGame.Shuffle: promises only that the result is a permutation. It does not model the random number source, so nothing is said about uniformity.
- `cards.firstIndex(matching:)` comes from an `Array where Element: Identifiable` extension outside the modelled files; `FirstIndex` models it as the first position whose card has the given id.
- Card ids are unbounded integers. Swift's 64-bit `Int` overflow of `pairIndex*2+1` is not modelled; it would take more than 2^62 pairs.
- Content equality is Dafny's built-in `==` on `T`. Swift uses the `Equatable` conformance, which for `String` is canonical equivalence. A content type whose `==` is not identity can match differently.
- Swift's access control (`private`, `private(set)`) has no counterpart; `EmojiMemoryGame.game` is an ordinary field.
- The value semantics of the `MemoryGame` struct is not modelled. It is a Dafny class owned by `EmojiMemoryGame`, and no other reference to it is created.
- The SwiftUI views and shapes (`EmojiMemoryGameView`, `ContentView`, `MemorizeApp`, `Cardify`, `Pie`, `Grid`) hold no game state. They are layout, animation and geometry.
