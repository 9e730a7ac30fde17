# Memory flip cards game: the game engine

This project models the engine of a browser memory game. The engine sits under the DOM code of `script.js`. The deck holds eight faces, `A` to `H`, each on two cards. At every (re)start the deck is shuffled in place. The player turns cards face up two at a time:

- a matching pair stays face up and counts as one found pair;
- a non-matching pair is turned face down again after a delay;
- while the two cards of a pair are being compared, a lock ignores further clicks.

The game is won when all eight pairs are found.

The model has two modules:

- `Deck` (`deck.dfy`): the faces and the initial deck. `Shuffled` is the specification of the Fisher-Yates (Durstenfeld) shuffle: a function on sequences. `Shuffle` is the in-place loop over an `array`, proved equal to that specification. The random index `Math.floor(Math.random() * (i + 1))` becomes the caller-supplied `picks[i]`, with `0 <= picks[i] <= i` (`Picks`).
- `Game` (`game.dfy`): the class `Game.Game` holds the module-level state of the script:
  - `deck: array<Symbol>` stands for `cardsArray`;
  - `flipped: array<bool>` stands for each card element's `flipped` class;
  - `first` and `second` stand for `firstCard` and `secondCard`, as optional positions in the deck. Card identity (`card === firstCard`) becomes equality of positions;
  - `locked` stands for `isFlipping`;
  - `matchedPairs` is the match counter.

  Each function of the script that changes this state is a method. `Model()` gives the state as a `Board` value. `Inv` is the invariant every reachable state keeps: face-up cards are `2 * matchedPairs` plus the selected cards, and the lock is held exactly while two non-matching cards are selected. Lemmas on `Board` values state what the invariant implies and that each transition preserves it.

The deferred callback of `unflipCards` (the 1000 ms `setTimeout`) becomes the explicit method `ResolveMismatch`. It can run only while a mismatch is pending, that is, while the lock is held. The win alert becomes the `won` flag returned by `DisableCards`, which `Click` passes on in its `Matched(won)` outcome.

The model follows the script in these points:

- A matched card is a face-up card that is not selected; the script has no separate matched state. It stays face up because the `flipped` check rejects every later click on it.
- `handleCardClick` returns nothing. The `Outcome` returned by `Click` only names which branch of it was taken.
- Clicks come only from the card elements on the board, so the script never sees an unknown card, and `Click` requires a position inside the deck.
- `restartGame` does not cancel a pending mismatch reversal; see "Left out".
- The deck is reshuffled from its current order, not from the initial one: `cardsArray` is a global that every `shuffleCards` call permutes in place.

## Model

| member | source | states |
|---|---|---|
| `Deck.InitialDeck` | script.js:1-4 | `cardsArray` as declared: the eight faces `A` to `H`, then the same eight again |
| `Deck.IsDeck` | script.js:1-4 | a deck holds exactly the cards of `cardsArray` as declared, in any order |
| `Deck.Picks` | script.js:20 | each random index drawn at position i lies in [0, i], the range of `Math.floor(Math.random() * (i + 1))` |
| `Deck.DeckCounts` | script.js:1-4 | any permutation of the initial deck has 16 cards, each of the 8 faces exactly twice and no other face |
| `Deck.Swap` | script.js:21 | one shuffle step exchanges the cards at positions i and j and keeps the length |
| `Deck.SwapElsewhere` | script.js:21 | a shuffle step writes no position other than i and j |
| `Deck.SwapPermutes` | script.js:21 | a shuffle step keeps the multiset of cards |
| `Deck.Shuffled` | script.js:18-23 | the steps at positions k-1 down to 1 keep the deck's length |
| `Deck.ShuffledPermutes` | script.js:18-23 | the shuffle is a permutation: the multiset of cards is unchanged |
| `Deck.ShuffledLeavesSettled` | script.js:19-21 | once the step at position m is done, later steps (at positions below m) never write position m again |
| `Deck.ShuffledIsDeck` | script.js:18-23 | shuffling a deck gives a deck: each face still appears exactly twice |
| `Deck.SwapCards` | script.js:21 | the in-place destructuring swap leaves the array equal to `Swap` of its old contents |
| `Deck.Shuffle` | script.js:18-23 | the in-place loop from the last position down to 1 leaves the array equal to `Shuffled` of its old contents, and a permutation of them |
| `Game.CountTrue` | script.js:100 | the number of face-up cards never exceeds the number of cards |
| `Game.CountFull` | script.js:124 | the count of face-up cards equals the number of cards exactly when every card is face up |
| `Game.CountEmpty` | script.js:28-37 | the count of face-up cards is zero exactly when every card is face down |
| `Game.CountAfterSet` | script.js:100 | setting one card's flag changes the face-up count by exactly that card's change |
| `Game.Accepts` | script.js:81-83 | a click is taken exactly when the lock is off, the card is face down and it is not the first selected card |
| `Game.Won` | script.js:124 | the win test: matchedPairs equals half the deck |
| `Game.PairsBounded` | script.js:122-124 | in every reachable state, matchedPairs is at most half the deck, which is 8 |
| `Game.WonIffAllFaceUp` | script.js:124-126 | matchedPairs equals half the deck exactly when every card is face up and nothing is selected |
| `Game.WonRejectsEveryClick` | script.js:81-83 | after the win every card is face up and `Accepts` fails for every card, so every click is rejected and the win fires only once |
| `Game.FreshBoardInv` | script.js:152-156 | a restarted board (a deck, all cards face down, nothing selected, no lock, 0 pairs) satisfies the invariant |
| `Game.RevealKeepsInv` | script.js:85-88 | turning up and selecting the first card of a pair keeps the invariant |
| `Game.MatchKeepsInv` | script.js:117-122 | turning up a second card with the same face, clearing the selection and lock and counting one more pair keeps the invariant |
| `Game.MismatchKeepsInv` | script.js:89-91 | turning up a second card with a different face and selecting it under the lock keeps the invariant |
| `Game.ResolveKeepsInv` | script.js:132-139 | turning both mismatched cards face down and clearing the selection and lock keeps the invariant |
| `Game.Game.constructor` | script.js:1-9 | the page-load state followed by the first `restartGame()`: the initial deck shuffled by `picks`, all cards face down, nothing selected, no lock, no pairs; the invariant holds |
| `Game.Game.ResetSelection` | script.js:144-147 | both selected cards are forgotten and the lock is released; the counter and the arrays stay |
| `Game.Game.FlipCard` | script.js:99-101 | exactly that card's flag becomes true; no other flag changes |
| `Game.Game.DisableCards` | script.js:117-127 | the selection and lock are cleared, matchedPairs grows by exactly 1, and `won` holds exactly when `Won` holds of the new state |
| `Game.Game.CheckForMatch` | script.js:106-112 | takes the lock and compares the two faces; on a match the pair is counted and the selection and lock are cleared; on a mismatch both cards stay selected under the lock |
| `Game.Game.Click` | script.js:78-93 | a click while locked, on a face-up card or on the first card changes nothing at all; otherwise exactly that card turns up. If none was selected it becomes the first card, lock off. If one was, an equal face counts a pair and clears the selection and lock; a different face keeps both selected under the lock. The invariant is kept and matchedPairs never decreases |
| `Game.Game.ResolveMismatch` | script.js:132-139 | enabled only while a mismatch is pending: both selected cards, and no others, turn face down; the selection and lock are cleared; the counter is unchanged; the invariant is kept |
| `Game.Game.CreateBoard` | script.js:28-38 | the deck is shuffled in place (equal to `Shuffled`, a permutation) and a fresh flag array of all face-down cards replaces the old one |
| `Game.Game.Restart` | script.js:152-156 | matchedPairs is 0, nothing is selected, the lock is off, the deck is reshuffled from its current order, every card is face down, and the invariant holds |

## Left out

- DOM construction and wiring are not modelled: `createCardElement`, `addCardClickHandlers`, `innerHTML`, `appendChild`, and `addEventListener`/`removeEventListener`, including the listener removal on matched cards (script.js:118-119). These calls are presentation only. The `flipped` check already rejects every click on a matched card.
- The `alert('You won!')` and the 500 ms and 1000 ms timers are not modelled. The win becomes a returned flag, and the mismatch timer becomes the explicit `ResolveMismatch` step.
- `Math.random` is not modelled, and neither is whether the shuffle is uniform. Each random index is an input bounded by `Picks`. Only the permutation is proved.
- A restart while a mismatch reversal is still pending is not modelled. The script has no cancellation: `resetSelection` sets `firstCard` and `secondCard` to `null`, and the old timer still fires. If no card was clicked in the meantime, the callback throws on the `null` `firstCard` (script.js:134) and changes nothing. If a card of the new board was clicked, the callback turns that card face down and then throws on the `null` `secondCard` (script.js:135), so `resetSelection` never runs: `firstCard` still names a face-down card, and a following click with the same face counts a pair while one of its cards is face down. `ResolveMismatch` requires a pending mismatch, so neither interleaving can be expressed.
