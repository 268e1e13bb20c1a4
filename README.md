# Memory card game engine in Dafny

A model of the game engine of a browser pair-matching ("memory") game. It covers:

- A `GameManager` that owns a shuffled deck of paired colour cards, the cards currently face-up, the move and pair counters, a one-second clock, and the `render`, `update` and `win` notifications it sends to registered handlers.
- A `Card` record with a mutable `matched` flag.
- The pure text formatting of the status line and the win message.

The model is organised as follows:

- `wrappers.dfy`: `Option` and `Result`.
- `card.dfy` (module `Cards`): the `Card` class of `js/card.js`, and `CardView`, a card's content as a value.
- `deck.dfy` (module `Deck`): the 20-colour palette, the cyclic choice of pair values, and the Fisher–Yates shuffle in place on an array, with the random draw as an arbitrary `j` in `0..i`.
- `rules.dfy` (module `Rules`):
  - Each engine operation is written as a pure step on an abstract `GameState`. A step yields the new state and the list of handler calls (`Delivery`) it makes.
  - The invariant `Inv` holds these facts:
    - the deck values are a permutation of two copies of the pair values, and card ids are positions;
    - face-up cards are distinct and unmatched;
    - two or more face-up cards mean a mismatch continuation is pending (`|flipped| >= 2 ==> pendingHides > 0`);
    - the matched count is `2 * matchedPairs`, `matchedPairs <= moves`, and a game is won at most once.
  - The lemmas here state what a flip, a match, a mismatch, a win and a tick do.
- `engine.dfy` (module `Engine`):
  - The `GameManager` class of `js/gameManager.js`, with its fields updated in place.
  - Ghost fields: `views`, the abstract deck; `faceUp`, the face-up ids; `pendingHides`, the mismatch continuations not yet run; `wins`; and `trace`, every handler call made.
  - The constructor, `On`, `Flip`, `HideMismatch`, `Tick` and `Restart` are proved to perform the matching `Rules` step, on both state and trace, and to keep `Valid()`. So are the helpers `CreateDeck` and `TurnUp`.
  - The helpers `TurnDown`, `ResetDeck` and `Install` perform their step on the state only, sending nothing, and keep `Valid()`.
  - The helpers `Show`, `Settle`, `ComparePair`, `MarkMatched`, `MatchCards` and `DecideWin` state their part of a step and keep only `Wired()`; the invariant is restored by the method that calls them. `StartTimer`, `StopTimer`, `Emit` and `Lookup` correspond to no step of their own and state their effect directly.
  - `Valid()` is `Inv` of the abstract state plus `Wired()`: each card object agrees with `views` and has its position as id, an interval is registered exactly while the clock runs, and the face-up card objects are the deck's cards at the face-up ids.
  - The `await` in `flip` splits it into two methods. `Flip` is everything before the wait. `HideMismatch` is the continuation, which may run at any later point while one is pending. The interval body is `Tick`.
- `format.dfy` (module `Format`):
  - The `Moves:`, `Matched:` and `Time: mm:ss` labels of `updateStats`, and the message of `showWin`.
  - A parser `ParseClock` that serves as the reference the clock text is proved against.

In these places the model follows the code, which may surprise a reader:

- The constructor rejects only an odd `cols * rows`. It does not check that the dimensions are positive.
- `restart` does not check parity and does not cancel a pending mismatch continuation. A continuation that runs after a restart clears the new game's face-up list.
- While a mismatched pair waits to be hidden, a third, different card is accepted. It is turned face-up, the face-up list becomes three long, and no move is counted for it.
- A flip starts the clock before the ignore checks, so a flip after a win starts the clock running again from the final time (the seconds are not reset).
- An odd card count can only be set by `restart`. A positive odd count deals one card more than the count; a negative odd count, like any negative count, deals an empty deck. `totalPairs` is then fractional, and the game can never be won.

## Model

| member | source | states |
|---|---|---|
| Cards.CardView.WithMatched | js/card.js:17-18 | `setMatched(v)` sets the flag to `v` and keeps id and value; with no argument `v` is `true` |
| Cards.WithMatchedIdempotent | js/card.js:17-18 | setting the flag twice to the same value equals setting it once |
| Cards.Card.constructor | js/card.js:10-14 | a new card keeps the given id and value and is not matched |
| Cards.Card.SetMatched | js/card.js:17-18 | the card object's flag becomes the argument (default `true`); id and value are unchanged |
| Deck.PairCount | js/gameManager.js:46 | the number of pair values for `totalCards` (real division) is the least n with `2n >= totalCards` |
| Deck.PairValues | js/gameManager.js:71 | `n` pushes produce exactly `n` pair values; their contents are stated by `PairValuesAt` |
| Deck.PairValuesAt | js/gameManager.js:71 | pair value i is palette entry `i % 20` |
| Deck.BuildValues | js/gameManager.js:71 | the push loop yields exactly the cyclic pair values for the card count |
| Deck.Doubled | js/gameManager.js:73 | `values.concat(values)` is twice as long as `values`; multiplicities are stated by `DoubledCount` |
| Deck.DoubledCount | js/gameManager.js:73 | `values.concat(values)` doubles every value's multiplicity |
| Deck.DoubledEven | js/gameManager.js:73 | every value of the doubled list occurs an even number of times |
| Deck.Shuffle | js/gameManager.js:75-78 | the Fisher–Yates loop, for any choice of `j` in `0..i`, leaves a permutation of the array |
| Deck.PaletteDistinctPrefix | js/gameManager.js:49-67 | the first 18 palette colours are pairwise different |
| Deck.PaletteRepeat | js/gameManager.js:50-68 | the palette has 20 entries and repeats `#FF5733` at index 18 |
| Deck.PairValuesDistinct | js/gameManager.js:71 | with at most 18 pairs the pair values are pairwise different |
| Deck.TwiceUpTo18 | js/gameManager.js:71-73 | with at most 18 pairs each dealt value occurs exactly twice |
| Deck.FourRedFrom19 | js/gameManager.js:50-73 | with 19 pairs or more `#FF5733` occurs at least four times |
| Rules.Deliver | js/gameManager.js:39-42 | `_emit` calls the registered handler exactly once, and nothing when none is registered |
| Rules.On | js/gameManager.js:35-37 | `on` replaces the handler for one event; a falsy callback leaves none; other events are untouched |
| Rules.StatusOf | js/gameManager.js:106-113 | definition: the status snapshot holds moves, pairs, card count and seconds |
| Rules.WinReached | js/gameManager.js:141 | definition: `matchedPairs === totalCards / 2` holds only for an even count and exactly half of it |
| Rules.Inv | js/gameManager.js:13-164 | definition: the invariant of every engine state between calls; established by `DealEstablishesInv` and kept by the `...PreservesInv` lemmas |
| Rules.StartTimer | js/gameManager.js:89-91 | definition: `startTimer` sets `running`; part of `FlipStep` |
| Rules.StopTimer | js/gameManager.js:98-99 | definition: `stopTimer` clears `running`; part of `WinStep` and `RestartState` |
| Rules.Accepted | js/gameManager.js:120-123 | definition: a flip is not ignored when the card exists, is unmatched and is not face-up; `FlipAccepted` and `FlipIgnored` state both sides |
| Rules.DealStep | js/gameManager.js:79-86 | definition: the dealt deck, counters, face-up list and clock reset, then `render` and `update`; properties in `DealEstablishesInv` and `FreshDeal` |
| Rules.RestartState | js/gameManager.js:158-162 | definition: `restart` before dealing stops the clock and sets the card count to `cols*rows` without a parity check |
| Rules.FlipStep | js/gameManager.js:116-155 | definition: the clock starts, an ignored card ends the flip, an accepted one takes `TurnStep`; properties in `FlipAccepted`, `FlipIgnored`, `FlipPreservesInv` |
| Rules.TurnStep | js/gameManager.js:126-154 | definition: push the card, send `render`, then `SettleStep`; invariant kept by `TurnPreservesInv` |
| Rules.SettleStep | js/gameManager.js:129-154 | definition: two face-up cards go to `PairStep`, otherwise `update` is sent |
| Rules.PairStep | js/gameManager.js:129-151 | definition: count the move, then `ResolveMatch` on equal values or schedule one hide; properties in `PairCountsMove`, `PairPreservesInv` |
| Rules.ResolveMatch | js/gameManager.js:132-144 | definition: mark both cards, count the pair, clear the list, send `update`, then `WinStep`; invariant kept by `ResolveMatchPreservesInv` |
| Rules.WinStep | js/gameManager.js:141-144 | definition: on the last pair stop the clock, count the win and send `win`; invariant kept by `WinStepPreservesInv` |
| Rules.HideStep | js/gameManager.js:147-150 | definition: the continuation empties the list and sends `render` and `update`; properties in `HidePreservesInv`, `FlipMismatchThenHide` |
| Rules.TickStep | js/gameManager.js:92-95 | definition: a running clock gains a second and sends `update`; properties in `TickOnlyWhileRunning`, `TickPreservesInv` |
| Rules.IndexOf | js/gameManager.js:120 | `find` returns the first position holding the id, or nothing iff the id is absent |
| Rules.IndexOfIndexed | js/gameManager.js:120 | with ids equal to positions, `find` by id hits exactly the ids inside the deck |
| Rules.DealtFrom | js/gameManager.js:79 | numbering a shuffled doubled list by position gives a fresh deal: paired values, ids in order, nothing matched |
| Rules.MarkPair | js/gameManager.js:135-136 | matching two distinct unmatched cards keeps ids and values and adds exactly two to the matched count |
| Rules.DealEstablishesInv | js/gameManager.js:79-84 | the state after `_createDeck` satisfies the invariant |
| Rules.FreshDeal | js/gameManager.js:71-84 | after `_createDeck` with an even, non-negative count: `totalCards` cards, `id == k`, none matched, counters and clock zero, none face-up |
| Rules.WonAllMatched | js/gameManager.js:141 | under the invariant a won game has every card matched |
| Rules.ResolveMatchPreservesInv | js/gameManager.js:132-144 | resolving a match keeps the invariant |
| Rules.WinStepPreservesInv | js/gameManager.js:141-144 | the win decision after a new pair keeps the invariant, with the win counted once |
| Rules.TurnPreservesInv | js/gameManager.js:126-154 | turning an accepted card up and settling keeps the invariant |
| Rules.PairPreservesInv | js/gameManager.js:129-151 | resolving a second face-up card, match or mismatch, keeps the invariant |
| Rules.FlipPreservesInv | js/gameManager.js:116-155 | every flip keeps the invariant |
| Rules.HidePreservesInv | js/gameManager.js:148-150 | the mismatch continuation keeps the invariant |
| Rules.TickPreservesInv | js/gameManager.js:92-95 | a clock tick keeps the invariant |
| Rules.FlipAccepted | js/gameManager.js:118-126 | a flip of an existing, unmatched, not face-up card starts the clock and turns that card up |
| Rules.FlipIgnored | js/gameManager.js:118-123 | a flip of an unknown, matched or face-up card only sets `running`, and notifies nothing |
| Rules.FlipCountsMoves | js/gameManager.js:126-154 | a move is counted exactly when the face-up list reaches two; otherwise no counter changes |
| Rules.PairCountsMove | js/gameManager.js:129-130 | two face-up cards count exactly one move, match or not |
| Rules.FlipMatch | js/gameManager.js:132-139 | a matching second card: both become matched, pairs +1, moves +1, face-up list empty, other cards unchanged |
| Rules.FlipMismatchThenHide | js/gameManager.js:145-150 | a mismatch leaves both cards face-up with pairs unchanged; the continuation empties the list and changes no card or counter |
| Rules.ThirdCardWhilePending | js/gameManager.js:123-129 | while a mismatch waits, a third card is accepted, the list grows to three, and no move is counted |
| Rules.TurnResolves | js/gameManager.js:126-139 | a second card of equal value is shown, then counted and resolved as a match |
| Rules.LastMatchWins | js/gameManager.js:139-144 | matching the last pair stops the clock, counts the win, and sends `win` after `update` |
| Rules.NotYetWon | js/gameManager.js:121 | while some card can still be accepted, the game has not been won |
| Rules.FlipWins | js/gameManager.js:141-144 | the flip that matches the last pair stops the clock and sends `win` last, for the game's only win |
| Rules.WonIsFinal | js/gameManager.js:118-123 | after a win every flip is ignored, with no second win, but the clock starts again and ticks |
| Rules.TickOnlyWhileRunning | js/gameManager.js:92-95 | a tick adds one second exactly while the clock runs and changes nothing else |
| Rules.DeckSize | js/gameManager.js:46-79 | `2*matchedPairs` is at most the deck size; a non-negative even count is the deck size; a positive odd count deals one card more; an odd count is never won |
| Rules.DeckPairs | js/gameManager.js:71-79 | every value lies on an even number of cards; on exactly two with at most 18 pairs; `#FF5733` on four or more from 19 |
| Engine.SizeCheck | js/gameManager.js:16-19 | construction fails, with the source's message, iff `cols*rows` is odd |
| Engine.SizeCheckAcceptsDegenerate | js/gameManager.js:13-19 | for every pair of integer dimensions, the check passes exactly when one side is even, whatever the signs; a zero side always passes, with zero cards |
| Engine.NewGame | js/gameManager.js:13-30 | construction fails iff the product is odd; otherwise a fresh valid engine with a fresh deal of newly allocated cards, zero counters and stopped clock |
| Engine.NumberCards | js/gameManager.js:79 | `raw.map` makes one fresh unmatched card per value, with id = position |
| Engine.DealCards | js/gameManager.js:71-79 | the dealt cards are fresh and form a fresh deal for the card count |
| Engine.NumberedFrom | js/gameManager.js:79 | cards whose views are numbered by position have ids equal to positions |
| Engine.GameManager.CurrentStatus | js/gameManager.js:106-113 | `_status()` is the status of the abstract state |
| Engine.GameManager.constructor | js/gameManager.js:13-30 | an even-product construction deals a fresh deck of newly allocated cards with zero counters, no handlers, an empty trace, and `Valid()` |
| Engine.GameManager.On | js/gameManager.js:35-37 | the state becomes `Rules.On` of the old state, and the engine stays valid |
| Engine.GameManager.Emit | js/gameManager.js:39-42 | the trace grows by exactly `Rules.Deliver`; the game state is untouched |
| Engine.GameManager.CreateDeck | js/gameManager.js:45-87 | a fresh deal of newly allocated cards with counters reset, then `render` and `update` are sent, exactly as `DealStep` |
| Engine.GameManager.ResetDeck | js/gameManager.js:71-84 | the state-changing part of `_createDeck`: a fresh valid deal of newly allocated cards, counters reset |
| Engine.GameManager.Install | js/gameManager.js:79-84 | installing a dealt deck resets state exactly as `DealStep`, and the engine is valid |
| Engine.GameManager.StartTimer | js/gameManager.js:89-96 | the clock runs afterwards; an interval is registered only if it was not running |
| Engine.GameManager.StopTimer | js/gameManager.js:98-104 | the clock is stopped and no interval remains |
| Engine.GameManager.Tick | js/gameManager.js:92-95 | an interval firing performs `TickStep` on state and trace, and the engine stays valid |
| Engine.GameManager.Flip | js/gameManager.js:116-155 | the synchronous part of `flip` performs `FlipStep` on state and trace, keeps the deck and the dimensions, and the engine stays valid |
| Engine.GameManager.Lookup | js/gameManager.js:120-123 | the lookup yields the card at that id exactly when the flip is accepted, and null otherwise |
| Engine.GameManager.TurnUp | js/gameManager.js:126-154 | an accepted card is pushed, shown and settled exactly as `TurnStep`; deck and dimensions are unchanged and the engine stays valid |
| Engine.GameManager.Show | js/gameManager.js:126-127 | the card is appended as the last face-up card, differs from the ones before it, and `render` is sent |
| Engine.GameManager.Settle | js/gameManager.js:129-154 | two face-up cards are compared; otherwise `update` is sent, exactly as `SettleStep`; deck and dimensions are unchanged |
| Engine.GameManager.ComparePair | js/gameManager.js:129-151 | the move is counted, then equal values are resolved or one mismatch continuation is scheduled, as `PairStep`; deck and dimensions are unchanged |
| Engine.GameManager.MarkMatched | js/gameManager.js:132-144 | both cards are matched, pairs +1, the list is emptied, `update` is sent, the win is decided, as `ResolveMatch` |
| Engine.GameManager.MatchCards | js/gameManager.js:135-136 | the two face-up card objects, and only their views, become matched |
| Engine.GameManager.DecideWin | js/gameManager.js:140-144 | on the last pair the clock stops and `win` is sent once, as `WinStep` |
| Engine.GameManager.HideMismatch | js/gameManager.js:147-150 | the continuation empties the face-up list and sends `render` and `update`, as `HideStep` |
| Engine.GameManager.TurnDown | js/gameManager.js:148 | the face-up list is emptied, one pending continuation is used up, and the engine stays valid |
| Engine.GameManager.Restart | js/gameManager.js:158-164 | stop the clock, take the given or previous dimensions, deal again, with newly allocated cards, without a parity check |
| Engine.GameManager.Resize | js/gameManager.js:159-162 | the clock is stopped and the card count recomputed from the new or previous dimensions |
| Format.Digits | js/uiManager.js:81 | `String(n)` is nonempty decimal digits, with no leading zero unless `n == 0`, one digit iff `n < 10` |
| Format.IntText | js/uiManager.js:79 | `String(i)` starts with `-` exactly when `i < 0`, and the rest is digits that read back as the magnitude of `i` |
| Format.PadStart | js/uiManager.js:81 | `padStart` keeps the text as a suffix, fills on the left and never shortens |
| Format.HalfText | js/uiManager.js:79 | `totalPairs` is printed with a minus sign exactly when the card count is negative, and an odd count ends in `.5` |
| Format.HalfTextRoundTrip | js/uiManager.js:79 | the printed `totalPairs` (sign, digits, optional `.5`) reads back as exactly half the card count, for every integer count |
| Format.MinutesText | js/uiManager.js:81 | definition: `String(floor(seconds/60)).padStart(2,'0')`; properties in `MinutesFieldNotTruncated` |
| Format.SecondsText | js/uiManager.js:83 | definition: `String(seconds%60).padStart(2,'0')`; properties in `SecondsFieldTwoDigits` |
| Format.ClockText | js/uiManager.js:81-85 | definition: the `mm:ss` clock; read back by `ClockRoundTrip` |
| Format.MovesLabel | js/uiManager.js:77 | definition: `Moves: ` and the move count |
| Format.MatchedLabel | js/uiManager.js:79 | definition: `Matched: `, the pairs, a slash and `totalPairs`; properties in `MatchedLabelTotal` |
| Format.TimerLabel | js/uiManager.js:85 | definition: `Time: ` and the clock |
| Format.WinText | js/uiManager.js:93 | definition: the `showWin` text; related to the labels by `WinTextAgrees` |
| Format.DigitsRoundTrip | js/uiManager.js:81 | the digits of `n` read back as `n` |
| Format.DigitsAtLeastThree | js/uiManager.js:81 | numbers from 100 on print with three or more digits |
| Format.PaddedValue | js/uiManager.js:81-83 | a zero-padded number is at least two digits and keeps its value |
| Format.SecondsFieldTwoDigits | js/uiManager.js:83 | the seconds field is exactly two digits and reads back as `seconds % 60`, below 60 |
| Format.MinutesFieldNotTruncated | js/uiManager.js:81 | the minutes field has at least two digits, reads back as `floor(seconds/60)`, and has three or more digits from 100 minutes on |
| Format.ClockRoundTrip | js/uiManager.js:81-85 | parsing `mm:ss` gives `mm*60 + ss == seconds` for every number of seconds |
| Format.ClockTextInjective | js/uiManager.js:81-85 | different times never show the same clock |
| Format.WinTextAgrees | js/uiManager.js:93 | the win message is the moves label, the separator, and the same `Time: mm:ss` as `updateStats` |
| Format.MatchedLabelTotal | js/uiManager.js:79 | `Matched: p/t`: after the pairs and the slash, `t` reads back as half the card count for every count; an even count, negative included, shows `t` as the integer `totalCards/2` |

## Left out

- Rendering and the DOM are not modelled: `UIManager.render`, the `document.getElementById` writes, the popup, and the `element` branch of `Card.setMatched`. They only reflect the game state.
- js/main.js is not part of this model. That covers its event wiring, the re-emit after construction, and `parseDifficulty`, whose `String.split`/`Number` behaviour belongs to the library.
- The fairness of `Math.random` is not modelled. The shuffle picks any `j` in `0..i`, so only the permutation is proved, not uniformity.
- Real time is not modelled: `setInterval`, `setTimeout` and the `async` suspension. The interval body is `Tick`, which may run at any point. The 600 ms continuation is `HideMismatch`, which may run at any point while `pendingHides > 0`, in any interleaving with other calls. The promise returned by `flip` is not modelled.
- Engine.GameManager.Emit: a handler is a foreign call and is recorded on the ghost `trace` only. The model assumes a handler neither changes the engine nor re-enters it.
- Colours: a colour string `'#RRGGBB'` is its number `0xRRGGBB`, because only the equality of colours matters.
- The `totalPairs` of a status is `totalCards / 2` on floating-point numbers. The status keeps `totalCards` instead, so an odd count stays exact, and `Format.HalfText` prints the half.
- Engine.NewGame: dimensions are integers. Non-integral JavaScript numbers, `NaN`, and the counters' precision limit above 2^53 are not modelled.
- Format.Digits: JavaScript prints numbers from 1e21 on in exponent notation. The model prints every digit.
- Engine.GameManager.Restart: an absent option (`undefined`) is `None` and takes the previous value. Other falsy or non-number values are not modelled.
- Engine.GameManager.constructor: the source sets `_timer`, `_seconds` and `running` again after `_createDeck`. They already hold those values, so the model sets them once, before dealing.
- The separator of the win message: `js/uiManager.js:93` holds the three characters U+00E2 U+20AC U+201D, a UTF-8 em dash read as Windows-1252. They are modelled as written.
