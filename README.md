# Memory game: a verified model of the game-state core

This project models the game logic of a browser memory ("concentration") card
game. The page loads a catalog of cards and places every entry twice to make
the deck. It shuffles the deck with a Fisher–Yates shuffle and deals it face
down. The player then turns cards over two at a time. Two cards with the same
name are a match: they stay face up and leave play. Two different cards are
turned back after a delay. The score counts pairs of clicks. When every pair
is matched, the lowest score so far is kept as the high score, with 0 meaning
"none yet".

The model has four modules:

- `Shuffle` (`shuffle.dfy`): the in-place Fisher–Yates loop `ShuffleCards` on
  an `array`. It is proved equal to the function `Shuffled`. Lemmas show that
  `Shuffled` is a permutation of its input and that each position, once
  filled, is never touched again. The random draws are a parameter, `picks`:
  `picks[c]` is the index drawn in the step that swaps position `c`, and
  `picks[c] <= c`.
- `Deck` (`deck.dfy`): the doubled deck `BuildDeck`, and counts of how often a
  name occurs in it, before and after shuffling.
- `Turn` (`turn.dfy`): the rules of play as functions on a `GameState` value.
  This covers `flipCard`, `checkForMatch`, `disableCards`, `unflipCards`,
  `resetBoard`, `restart` and the bodies of the two timers. `Inv` is the
  invariant that holds between any two events. It is proved to hold at the
  start and after every event. The lemmas state what a click, a timer or a
  restart does.
- `Session` (`session.dfy`): the class `GameSession`. Its fields are the
  source's module-level variables, and its methods update them in place. Each
  method is proved to produce exactly the state that the matching `Turn`
  function gives. The constructor establishes `Turn.Inv`, and the event
  methods `FlipCard`, `SettleMismatch`, `SettleWin` and `Restart` keep it.

A card is identified by its position in the deck. That position stands for
the DOM element that the source compares with `===`. Two cards match when
their `name`s are equal. Each card has two flags. `flipped` stands for the
`flipped` CSS class. `disabled` means the card's click listener has been
removed. The two `setTimeout` callbacks are the methods `SettleMismatch` and
`SettleWin`. While a callback is scheduled, the flag `pendingMismatch` or
`pendingWin` is set. Each play of a sound is returned as an event, in order:
`FlipSound`, `MatchSound` or `NotMatchSound`.

Two facts about the code shape the model:

- When the last pair is matched, `disableCards` already unlocks the board and
  clears the selection, so the game has no separate locked "won" state. The
  lemma `WonBoardIsSettled` proves that every card is out of play by then. So
  every later click is ignored, and showing all the cards changes nothing.
- The code does not reject an empty catalog. The deck is then empty, nothing
  can be clicked and no win is ever reported. The model allows this case too.

## Model

| member | source | states |
|---|---|---|
| Deck.BuildDeck | indexj.js:40 | the deck has exactly twice as many cards as the catalog, and card `i` and card `i + N` are both catalog entry `i` |
| Deck.BuildDeckDoublesNames | indexj.js:40 | every name occurs in the deck exactly twice as often as in the catalog |
| Deck.ShuffledDeckHasPairs | indexj.js:39-41 | after building and shuffling a catalog with distinct names, every card's name occurs exactly twice in the deck |
| Deck.NameCountShuffle | indexj.js:46-54 | no stage of the shuffle changes how often any name occurs |
| Shuffle.ShuffleCards | indexj.js:46-54 | the in-place while loop leaves the array equal to `Shuffled` of its old contents, for any draws with `picks[c] <= c` |
| Shuffle.ShuffleDownTo | indexj.js:47-53 | every stage of the loop keeps the length of the deck |
| Shuffle.Shuffled | indexj.js:46-54 | the shuffled deck has the same length and the same cards, each as often as before |
| Shuffle.ShuffleDownToPermutes | indexj.js:49-53 | every stage of the loop is a permutation of the input |
| Shuffle.ShuffleSettles | indexj.js:49-53 | once the loop has filled position `k`, later swaps never move that card |
| Shuffle.ShuffledAt | indexj.js:50-52 | the card that ends at position `k` is the one drawn at step `k` from the positions not yet filled |
| Shuffle.ShuffledTop | indexj.js:47-52 | the last position receives the input card at the first draw's index |
| Shuffle.ShuffleSmallIsIdentity | indexj.js:49-53 | a deck of zero or one card is left unchanged |
| Turn.UpdatedHighScore | indexj.js:108-109 | the new best score is the game's score when no best was set, and otherwise the lower of the two |
| Turn.NewGameInv | indexj.js:9-14 | the state right after the page loads satisfies the game invariant |
| Turn.FlipCardKeepsInv | indexj.js:75-93 | every click keeps the invariant: disabled cards number twice the matched pairs and stay face up, the only face-up cards in play are the selected ones, the lock is held exactly while a mismatch is pending |
| Turn.MatchKeepsInv | indexj.js:96-104 | a click that completes a match disables exactly the first and the clicked card, raises the count of disabled cards by 2, and keeps `Inv` |
| Turn.SettleMismatchKeepsInv | indexj.js:133-137 | the mismatch callback keeps the invariant |
| Turn.SettleWinKeepsInv | indexj.js:106-114 | the win callback keeps the invariant |
| Turn.RestartKeepsInv | indexj.js:156-164 | a restart keeps the invariant |
| Turn.MatchedPairsBounded | indexj.js:102-104 | the matched pairs never exceed half the deck |
| Turn.IgnoredClick | indexj.js:76-77 | a click does nothing and plays no sound exactly when the board is locked, the card has lost its listener, or it is the first card itself |
| Turn.FirstSelection | indexj.js:79-85 | the first selection turns the card over, records it as the first card and plays the flip sound; the score and the lock do not change |
| Turn.SecondSelection | indexj.js:87-122 | the second selection adds exactly 1 to the score. On equal names both cards are disabled and stay face up, no other card changes face, one more pair is matched, and the board is unlocked and cleared. Otherwise both cards stay face up, the board stays locked with both cards selected, and the unflip is pending |
| Turn.WinExactlyWhenAllPairsMatched | indexj.js:104-117 | a click schedules the win callback if and only if it completes a match that brings the matched pairs to half the deck |
| Turn.MatchedCardStaysOnClick | indexj.js:125-127 | after any click, a matched card is still out of play and still face up |
| Turn.MatchedCardStaysOnSettle | indexj.js:133-137 | the mismatch callback never touches a matched card |
| Turn.SettleMismatchRestores | indexj.js:132-138 | the mismatch callback turns back exactly the two selected cards, clears the selection and unlocks; the score, the matched pairs, the disabled cards, the high score and the deck are unchanged, and no card in play is left face up |
| Turn.WonBoardIsSettled | indexj.js:141-142 | once every pair is matched, every card is disabled and face up, so flipping all cards changes nothing and every click is ignored |
| Turn.SettleWinRecordsBest | indexj.js:106-112 | the win callback records the game's score exactly when it is at most the best score or no best exists, never raises a set best score, and never records the unset marker 0 |
| Turn.RestartResets | indexj.js:156-164 | a restart zeroes the score and the matched pairs, clears the selection, unlocks, reshuffles the same cards, deals them all face down and in play, and keeps the high score |
| Turn.TwoPairGame | indexj.js:75-122 | on the deck A, B, B, A, matching the A cards and then the B cards wins in two moves and records a best score of 2 |
| Turn.MismatchScenario | indexj.js:118-138 | a mismatch followed by its callback leaves every card face down, one move counted and no pair matched |
| Session.GameSession.constructor | indexj.js:37-43 | the page-load state is the doubled catalog shuffled in place, with zero counters and the stored high score, and it satisfies the invariant |
| Session.GameSession.FlipCard | indexj.js:75-93 | the click handler changes the fields and plays the sounds exactly as `Turn.FlipCard` says, and keeps the invariant |
| Session.GameSession.CheckForMatch | indexj.js:96-122 | the match check does exactly what `Turn.CheckForMatch` says |
| Session.GameSession.DisableCards | indexj.js:125-129 | both selected cards become disabled, then the board is reset |
| Session.GameSession.UnflipCards | indexj.js:132-138 | the unflip is scheduled, and nothing else changes until the callback runs |
| Session.GameSession.ResetBoard | indexj.js:149-153 | the selection is cleared and the board unlocked; nothing else changes |
| Session.GameSession.SettleMismatch | indexj.js:133-137 | the mismatch callback updates the fields as `Turn.SettleMismatch` says and keeps the invariant |
| Session.GameSession.SettleWin | indexj.js:106-114 | the win callback updates the high score and shows every card, as `Turn.SettleWin` says, and keeps the invariant |
| Session.GameSession.Restart | indexj.js:156-164 | restart reshuffles the same array in place and resets the fields as `Turn.Restart` says, and keeps the invariant |

## Left out

- Rendering is not modelled. This covers the markup and `innerHTML` of `generateCards`, the score and high-score text, the instructions modal (`showInstructions`, `startGame`) and the final `alert`. The fresh deal of `generateCards` is modelled only as every card face down with its listener attached. `flipAllCards` is modelled only as every card getting `flipped`.
- Audio is not played. Each `.play()` of the flip, match and mismatch sounds is modelled as an emitted `Sound` event. Background music and `toggleMusic` are left out.
- Loading the catalog with `fetch` is not modelled. The catalog is a parameter of the constructor.
- `localStorage` is not modelled. The stored high score is a constructor parameter, and `highScore` is a plain field. Writing it back to storage is left out.
- `Math.random` is not modelled. The draws are supplied as `picks`, with `picks[c] <= c`. The floating-point step `Math.floor(Math.random() * currentIndex)` is left out, and so is any claim of uniformity.
- Timer delays (1000 ms and 500 ms) are not modelled. A scheduled callback is a pending flag, and the callback is an explicit method.
- Session.GameSession.Restart: requires that no timer is pending. In the source, a mismatch callback that fires after a restart dereferences a cleared `firstCard`, and a win callback can record the new game's score. Both are interleavings with the event loop that the model excludes.
- The stored high score is read as a string and compared with `<` after coercion. The model uses a natural number, where 0 means unset.
- Turn.UpdatedHighScore: does not model the string coercion of the stored value, for the reason above.
