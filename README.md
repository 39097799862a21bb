# Memory match game: deck generator and game controller in Dafny

This project models the logic of a browser memory-matching card game (a
single React component, `App`). It has two parts.

- **Deck generator** (`deck.dfy`, module `Deck`). `GenerateShuffledDeck`
  writes the eight card symbols twice over into an array of sixteen
  face-down, unmatched cards, each numbered by its position. It then shuffles
  the array in place with a Fisher–Yates loop that swaps position `i` with a
  position `j <= i`, for `i` from 15 down to 1. The random choices are an
  input: `draws[k]` is the `j` picked when the loop is at `i == k + 1`. The
  method is proved equal to the function `Shuffled(draws)`. Lemmas prove that
  this result is a permutation of the fresh cards in which every symbol
  appears on exactly two cards, every card is face-down and the ids are
  pairwise distinct.
- **Game controller** (`game.dfy`, module `Game`). Class `App` holds the
  component's state: `deck`, `flipped`, `moves`, `matchedCount`, `isBusy`
  and `theme`. Its methods are the handlers: `Click` (handleCardClick),
  `Reset` (resetGame) and `ToggleTheme`. The callback that a second click
  schedules with `setTimeout` is kept explicitly. A `Timer` value holds what
  the callback captured: the deck built by the click and the two card
  indices. The field `timers` lists the callbacks that have not fired yet,
  oldest first. `Resolve` runs the body of the oldest one. `isGameWon` and the
  theme updater are pure functions.

Two invariants are proved about the controller:

- `Valid()` holds in every reachable state. The deck stays dealt. Matched
  cards stay face-up and come in pairs (two cards with one symbol are matched
  together or not at all). `flipped` holds at most one index, and that card is
  revealed. Every pending timer holds two different revealed cards. The lock
  is only on while a timer is pending.
- `Consistent()` holds as long as no callback outlives the game it was
  scheduled in. At most one resolution is pending, and only while busy. The
  pending resolution works on the current deck. `2 * matchedCount` equals the
  number of matched cards. `matchedCount` never exceeds `moves`. Between turns
  no card is face-up without being matched. With this invariant, the game is
  won exactly when every card is matched (`WonIffAllMatched`).

Two behaviours of the code shape the model:

- After the second click of a turn, the `flipped` state keeps only the first
  index (App.js:67-94 never stores the two-element list). The pair exists only
  in the scheduled callback. So `Resolve` requires a pending timer, not a
  two-entry `flipped`.
- `resetGame` does not cancel a callback that is already scheduled. The model
  follows the code (see Findings).

## Model

| member | source | states |
|---|---|---|
| `Deck.GenerateShuffledDeck` | memory_match_game_frontend/src/App.js:13-28 | the returned deck is what the in-place swap loop makes of the doubled, numbered array for the given draws; it is a permutation of the sixteen fresh cards, every symbol on exactly two cards, all face-down and unmatched, ids pairwise distinct |
| `Deck.ShuffleDownPermutes` | memory_match_game_frontend/src/App.js:23-26 | each loop step only swaps two positions, so the loop keeps the length and the multiset of the array |
| `Deck.ShuffleDownProject` | memory_match_game_frontend/src/App.js:23-26 | shuffling the cards and then reading one attribute of each equals shuffling the attribute sequence with the same draws |
| `Deck.ShuffleDownIdentity` | memory_match_game_frontend/src/App.js:23-26 | when every draw picks `j == i` the loop leaves the array as it was |
| `Deck.DoubledCounts` | memory_match_game_frontend/src/App.js:5-7 | the symbols are distinct, so the doubled array holds each symbol exactly twice and nothing else |
| `Deck.ShuffledSymbolCounts` | memory_match_game_frontend/src/App.js:15-27 | in the shuffled deck each of the eight symbols is on exactly two cards, and no other symbol appears |
| `Deck.ShuffledIdsDistinct` | memory_match_game_frontend/src/App.js:16-17 | card ids are pairwise distinct, because each id is its card's index in the doubled array and the shuffle only permutes |
| `Deck.ShuffledIsDealt` | memory_match_game_frontend/src/App.js:15-27 | the shuffled deck is a permutation of the fresh cards: sixteen cards, each symbol twice, distinct ids, every card face-down and unmatched |
| `Deck.OnlyTwoOfAKind` | memory_match_game_frontend/src/App.js:15 | in a dealt deck, once two cards show one symbol, no third card shows it |
| `Game.Toggled` | memory_match_game_frontend/src/App.js:50 | the theme updater always changes the theme: light becomes dark and dark becomes light |
| `Game.ToggleTwice` | memory_match_game_frontend/src/App.js:50 | toggling twice restores the original theme |
| `Game.WonIffAllMatched` | memory_match_game_frontend/src/App.js:98 | while the counter tracks the matched pairs, `isGameWon` holds exactly when every card of the deck is matched |
| `Game.Settle` | memory_match_game_frontend/src/App.js:76-88 | the deck the callback writes back: on equal symbols both cards become matched and stay face-up; otherwise both turn face-down; every other card is unchanged |
| `Game.SettlePlayable` | memory_match_game_frontend/src/App.js:76-88 | resolving a pending pair keeps the deck dealt, matched cards face-up and matched cards in pairs |
| `Game.SettleCount` | memory_match_game_frontend/src/App.js:77-88 | a match adds exactly two matched cards and a miss adds none |
| `Game.RevealPlayable` | memory_match_game_frontend/src/App.js:65-66 | showing an unmatched card keeps the deck playable and the number of matched cards |
| `Game.FirstClickValid` | memory_match_game_frontend/src/App.js:64-69 | the first card of a turn keeps every reachable-state invariant, with that card as the selection |
| `Game.SecondClickValid` | memory_match_game_frontend/src/App.js:71-75 | the second card of a turn schedules a resolution of two different revealed cards on the new deck and keeps every reachable-state invariant |
| `Game.FirstClickConsistent` | memory_match_game_frontend/src/App.js:65-69 | after the first card of a turn, the only revealed unmatched card is the selected one and the counters are untouched |
| `Game.SecondClickConsistent` | memory_match_game_frontend/src/App.js:71-75 | after the second card the one pending resolution is on the current deck, the move is counted and `matchedCount` stays below `moves` |
| `Game.ResolveConsistent` | memory_match_game_frontend/src/App.js:75-91 | after the callback of the current turn nothing is selected or pending, no card is face-up without a match, and `2 * matchedCount` still equals the matched cards |
| `Game.App.constructor` | memory_match_game_frontend/src/App.js:36-41 | the initial state: a freshly generated deck, empty selection, zero counters, not busy, light theme, nothing scheduled; both invariants hold |
| `Game.App.ToggleTheme` | memory_match_game_frontend/src/App.js:49-51 | toggleTheme replaces the theme with its toggle and changes nothing else, so `Valid` and `Consistent` are kept |
| `Game.App.Reset` | memory_match_game_frontend/src/App.js:54-60 | resetGame: a freshly generated deck, empty selection, zero counters, not busy; the theme and any scheduled callback are left as they were; `Consistent` holds afterwards when nothing was scheduled |
| `Game.App.ResetCancellingTimer` | memory_match_game_frontend/src/App.js:54-60 | resetGame that also drops the scheduled callback; afterwards the `Consistent` invariant holds again |
| `Game.App.Click` | memory_match_game_frontend/src/App.js:63-95 | handleCardClick: while busy, or on a matched or shown card, nothing changes; otherwise only card `idx` turns face-up, so a matched card never changes; the first card of a turn becomes the selection with `moves` and `isBusy` unchanged; the second adds one move, sets the lock and schedules the resolution on the new deck; both invariants are kept |
| `Game.App.Resolve` | memory_match_game_frontend/src/App.js:75-91 | the oldest scheduled callback: writes back its captured deck settled, adds one to `matchedCount` exactly on a match, clears the selection and the lock; `moves` is unchanged and both invariants are kept; without a stale callback a matched card never changes |
| `Game.NoSwaps` | memory_match_game_frontend/src/App.js:23-26 | a valid set of draws under which the shuffle leaves the fresh deck in order |
| `Game.StaleTimerScenario` | memory_match_game_frontend/src/App.js:54-91 | picking two cards of one symbol and resetting before the callback fires leaves the new game with one match and no move |

## Findings

| source | as written | input that shows it | evidently intended | confidence | as-written member | corrected member |
|---|---|---|---|---|---|---|
| memory_match_game_frontend/src/App.js:54-60 | resetGame does not cancel the callback scheduled at line 75. When it fires, it writes back the deck it captured from the old game and, when the two captured cards show one symbol, adds one to the new game's match counter. | Deal with draws that swap nothing, so cards 0 and 8 both show the first symbol. Click card 0, then card 8, then reset before 850 ms have passed. When the callback fires, `moves` is 0, `matchedCount` is 1, and the board is the old deck. | A reset discards the pending resolution, so the new game starts with `matchedCount <= moves` and keeps it. | not executed | `Game.StaleTimerScenario` | `Game.App.ResetCancellingTimer` |

## Left out

- Rendering (JSX, the `Card` component, styles, ARIA labels, CSS classes) is presentation only. The `disabled` attribute on the buttons is left out too. The model relies only on the handler's own guard.
- The effect that writes `data-theme` onto the document element is DOM output and is not modelled.
- The 850 ms delay and React's state batching are not modelled. Each handler is one atomic step. A scheduled callback runs when `Resolve` is called, and callbacks run oldest first.
- `Math.random` is not modelled. The shuffle's choices are the `draws` input, so the uniformity of the shuffle is not stated.
- The random hex suffix of each card id is dropped. The id is the card's index in the doubled array.
- The callback sets `isMatched` and `isFlipped` on card objects in place, and those objects may be shared with earlier deck arrays. The model writes an updated copy of the captured deck, so it does not capture that aliasing.
- A click on an index outside the deck is not modelled: the source would throw, and only the rendered cards call the handler. `Click` requires a position of the deck.
