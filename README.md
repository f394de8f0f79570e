# Flash-cards study session, modelled in Dafny

The app is a single-page flashcard widget. It holds a deck of question/answer cards, each with a
self-assessed status. The user flips the current card, marks it known or unknown, moves forward and
back, shuffles, restarts, and switches between light and dark themes. The app keeps four pieces of
state: the deck `cards`, the position `currentIndex`, the reveal flag `showAnswer` and the theme flag
`isDarkMode`. The statistics (known, unknown and unanswered counts, the score) and the progress-bar
percentage are computed from that state on every render.

The model has six modules, one per concern:

- `Rounding` (Rounding.dfy): `Math.round(part / whole * 100)` as exact half-up rounding on naturals,
  `(200 * part + whole) / (2 * whole)`, and its properties (bounded by 100, exactly 100 for the whole,
  0 for nothing, monotone, unique).
- `Deck` (Deck.dfy): `Status = Unanswered | Known | Unknown` for the source's `known: true | false | null`.
  `Card`, the ten-card starting deck, and the three ways the handlers rebuild the deck: `MarkAt`
  (the index-guarded `map`), `ResetAll` (restart's `map`) and `Permute` (shuffle). A shuffle is
  modelled as reordering by an `order`, a list naming every position once. The module proves that
  such a reordering is a permutation of the deck, and that every permutation arises from some order.
- `Statistics` (Statistics.dfy): the `filter(...).length` counts, as `Count`, and the score
  `percentageKnown`, as `Score` / `PercentageKnown`. It also proves the partition of the deck by the
  three counts, how marking, resetting and reordering change the counts, and the 100 % and 0 % cases
  of the score.
- `ProgressBar` (ProgressBar.dfy): the bar's percentage, including the `Infinity`/`NaN` values
  JavaScript produces for `total == 0`, and the "current of total" counter text with its decimal
  numerals.
- `Session` (Session.dfy): the state as a value and one transition function per user intent. It has
  lemmas for every property of the state machine: clamped navigation over any sequence of moves,
  marking, flip, theme, restart with and without confirmation, shuffle, statistics and progress.
- `StudyApp` (App.dfy): class `App` with the four state fields. Its handler methods update those
  fields the way the source's setters do. Each method's postcondition ties the new state to the
  matching `Session` function of the old state, and keeps the invariant `Valid()`: the deck is
  non-empty and `currentIndex < |cards|`. `Walkthrough` drives a whole session through the handlers.

Sources of nondeterminism become parameters. The answer to the restart confirmation prompt is
`confirmed: bool`. The outcome of the random sort is `order`. The theme read at start-up is the
constructor's `preferDark`.

Marking an out-of-range position is a no-op: the `map` at src/App.tsx:165-169 matches no index, so
`MarkAt` returns the deck unchanged; inside a valid state the case never arises.

A consequence of the rounding, proved in `PercentageFullAtLast`: the bar is full on the last card,
and before the last card it stays short of full only while the deck has fewer than 200 cards. From
200 cards on, the second-to-last position already rounds to 100 %. The deck has 10 cards, so the
app never shows this.

## Model

| member | source | states |
|---|---|---|
| Rounding.RoundedPercent | src/components/ProgressBar.tsx:9 | the result r is the nearest integer to 100·part/whole, halves rounded up: 2·whole·r ≤ 200·part + whole < 2·whole·(r+1) |
| Rounding.RoundedPercentUnique | src/components/ProgressBar.tsx:9 | any r meeting those two inequalities is RoundedPercent, so the rounding is uniquely determined |
| Rounding.RoundedPercentAtMost100 | src/App.tsx:188-190 | a part no larger than the whole never rounds above 100 |
| Rounding.RoundedPercentOfWhole | src/App.tsx:188-190 | the whole rounds to exactly 100 |
| Rounding.RoundedPercentOfNothing | src/App.tsx:188-190 | a part of 0 rounds to 0 |
| Rounding.RoundedPercentMonotone | src/components/ProgressBar.tsx:9 | for a fixed whole, a larger part never rounds lower |
| Deck.InitialDeck | src/App.tsx:22-73 | the starting deck has 10 cards, all unanswered |
| Deck.MarkAt | src/App.tsx:164-170 | the rebuilt deck is the old one with only the card at the index given the new status; an index past the end changes nothing |
| Deck.ResetAll | src/App.tsx:148-150 | same length; every card keeps its question and answer in place and becomes unanswered |
| Deck.Permute | src/App.tsx:157 | the reordered deck has the same length, and its k-th card is the old deck's order[k]-th |
| Deck.MarkLastWriteWins | src/App.tsx:163-181 | marking twice equals marking once with the later status |
| Deck.MarkChangesOnlyThatCard | src/App.tsx:163-171 | marking sets the status of that card, keeps its text, and leaves every other card equal |
| Deck.ResetIdempotent | src/App.tsx:148-150 | resetting a reset deck changes nothing |
| Deck.PermuteIsPermutation | src/App.tsx:156-158 | reordering by an order keeps the multiset of (question, answer, status) cards |
| Deck.EveryPermutationIsReachable | src/App.tsx:157 | every deck with the same multiset of cards is the reordering by some order, so the shuffle is modelled as any permutation |
| Statistics.Count | src/App.tsx:184-186 | the count is at most the deck size; it is 0 exactly when no card has the status, and the deck size exactly when every card has it |
| Statistics.KnownCount | src/App.tsx:184 | the known count is at most the deck size, and 0 exactly when no card is known |
| Statistics.UnknownCount | src/App.tsx:185 | the unknown count is at most the deck size, and 0 exactly when no card is unknown |
| Statistics.UnansweredCount | src/App.tsx:186 | the unanswered count is at most the deck size, and equals it exactly when no card has been answered |
| Statistics.PercentageKnown | src/App.tsx:187-190 | the deck's score is at most 100, and 0 while every card is unanswered |
| Statistics.Score | src/App.tsx:187-190 | the score is 0 when nothing is answered; otherwise it is the half-up rounding of 100·known/answered; it is always in [0, 100] |
| Statistics.CountsPartitionDeck | src/App.tsx:184-186 | known + unknown + unanswered counts equal the deck size |
| Statistics.CountOfPermutation | src/App.tsx:184-186 | decks with the same multiset of cards have the same counts |
| Statistics.CountAfterMark | src/App.tsx:163-186 | marking moves exactly the marked card from its old status's count to its new one |
| Statistics.ResetCounts | src/App.tsx:148-150 | after a reset every card is counted as unanswered, none as known or unknown, and the score is 0 |
| Statistics.PermuteKeepsStatistics | src/App.tsx:156-158 | reordering changes no count and not the score |
| Statistics.PercentageKnownAllKnown | src/App.tsx:187-190 | at least one known card and no unknown ones gives a score of 100 |
| Statistics.PercentageKnownNoneKnown | src/App.tsx:187-190 | unknown cards and no known ones give a score of 0 |
| ProgressBar.Percentage | src/components/ProgressBar.tsx:9 | for total > 0 a number, the half-up rounding of 100·current/total; for total = 0, Infinity when current > 0 and NaN when current = 0 |
| ProgressBar.Decimal | src/components/ProgressBar.tsx:67 | the numeral is non-empty decimal digits with no leading zero except for 0 |
| ProgressBar.DecimalRoundTrip | src/components/ProgressBar.tsx:67 | the numeral of n reads back as n |
| ProgressBar.Counter | src/components/ProgressBar.tsx:67 | the counter is the numeral of current, then " of ", then the numeral of total, and nothing else |
| ProgressBar.CounterReadsBack | src/components/ProgressBar.tsx:67 | the two numerals in the counter read back as current and total |
| ProgressBar.PercentageInRange | src/components/ProgressBar.tsx:9 | for 1 ≤ current ≤ total the bar shows a number in [0, 100] |
| ProgressBar.PercentageFullAtLast | src/components/ProgressBar.tsx:9 | current = total shows 100; an earlier position shows less than 100 when total < 200; the second-to-last position shows 100 when total ≥ 200 |
| ProgressBar.PercentageMonotone | src/components/ProgressBar.tsx:9 | for a fixed total, the bar never shrinks as current grows |
| ProgressBar.FirstOfTen | src/components/ProgressBar.tsx:67 | position 1 of 10 shows 10 % and the text "1 of 10" |
| Session.Initial | src/App.tsx:19-83 | the start-up state is valid: 10 unanswered cards, first card, answer hidden, the given theme |
| Session.IsFirstCard | src/App.tsx:129 | a one-card deck is at its first and its last card at once |
| Session.IsLastCard | src/App.tsx:130 | in a valid state, the last card is the one with no position after it inside the deck |
| Session.NavigationGuards | src/App.tsx:129-144 | in a valid state "previous" does nothing exactly on the first card, "next" exactly on the last, and both guards hold exactly for a one-card deck |
| Session.GoNext | src/App.tsx:132-137 | on the last card nothing changes; otherwise the position rises by one and the answer is hidden; the deck and theme are untouched; validity is kept |
| Session.GoPrevious | src/App.tsx:139-144 | on the first card nothing changes; otherwise the position drops by one and the answer is hidden; the deck and theme are untouched; validity is kept |
| Session.NextPreviousRoundTrip | src/App.tsx:132-144 | next then previous (away from the last card), or previous then next (away from the first), returns to the same state with the answer hidden |
| Session.Navigate | src/App.tsx:132-144 | any sequence of next/previous leaves the deck and the theme as they were |
| Session.NavigateStaysInRange | src/App.tsx:128-144 | any sequence of next/previous from a valid state keeps the position within the deck |
| Session.NavigateForwards | src/App.tsx:132-137 | k presses of next move to min(position + k, last) |
| Session.Flip | src/components/FlashCard.tsx:43 | flip negates showAnswer and changes nothing else |
| Session.FlipTwice | src/components/FlashCard.tsx:43 | two flips restore the state |
| Session.ToggleTheme | src/App.tsx:124-126 | the theme switch negates isDarkMode and changes nothing else |
| Session.ToggleThemeTwice | src/App.tsx:124-126 | switching the theme twice restores the state |
| Session.MarkCurrent | src/App.tsx:163-181 | marking sets the current card's status and keeps its text; every other card, the position, the answer flag and the theme stay; validity is kept |
| Session.MarkCurrentCounts | src/App.tsx:163-186 | after marking, the counts move exactly the current card from its old status to the new one |
| Session.MarkLastWins | src/App.tsx:163-181 | marking known then unknown (or any two marks) leaves the later one |
| Session.MarkSurvivesNavigation | src/App.tsx:132-181 | flip, mark unknown and next hide the answer; coming back finds the card still unknown |
| Session.Restart | src/App.tsx:146-154 | a confirmed restart clears every status, keeps card order and text and the theme, and goes to (0, hidden); a declined one changes nothing; validity is kept |
| Session.RestartCounts | src/App.tsx:146-154 | after a confirmed restart every card counts as unanswered, none as known or unknown, and the score is 0 |
| Session.Shuffle | src/App.tsx:156-161 | the shuffled deck's k-th card is the old deck's order[k]-th; the theme stays; the session goes to (0, hidden); validity is kept |
| Session.ShuffleKeepsCards | src/App.tsx:156-161 | shuffling keeps the multiset of cards with their statuses, every count and the score |
| Session.StatisticsSpec | src/App.tsx:184-190 | in every state the three counts add up to the deck size and the score is at most 100 |
| Session.Progress | src/App.tsx:366-367 | a non-empty deck shows a number on the bar; an empty one would show Infinity |
| Session.ProgressSpec | src/App.tsx:366-367 | in a valid state the bar shows a number in [0, 100], and 100 on the last card |
| Session.InitialProgress | src/App.tsx:366-367 | at start-up the bar shows 10 % and the counter "1 of 10" |
| Session.TenCardWalkthrough | src/App.tsx:132-190 | nine presses of next reach the last card; a tenth changes nothing; marking it known gives 1 known, 9 unanswered and a score of 100 |
| StudyApp.App.constructor | src/App.tsx:19-83 | the app starts in the Session.Initial state for the given theme |
| StudyApp.App.ToggleTheme | src/App.tsx:124-126 | the new state is Session.ToggleTheme of the old one |
| StudyApp.App.GoNext | src/App.tsx:132-137 | the new state is Session.GoNext of the old one, and validity is kept |
| StudyApp.App.GoPrevious | src/App.tsx:139-144 | the new state is Session.GoPrevious of the old one, and validity is kept |
| StudyApp.App.Restart | src/App.tsx:146-154 | the new state is Session.Restart of the old one and the confirmation answer |
| StudyApp.App.ShuffleCards | src/App.tsx:156-161 | the new state is Session.Shuffle of the old one by the given order |
| StudyApp.App.MarkAsKnown | src/App.tsx:163-171 | the new state is Session.MarkCurrent of the old one with Known |
| StudyApp.App.MarkAsUnknown | src/App.tsx:173-181 | the new state is Session.MarkCurrent of the old one with Unknown |
| StudyApp.App.Flip | src/components/FlashCard.tsx:125 | the new state is Session.Flip of the old one |
| StudyApp.Walkthrough | src/App.tsx:132-181 | going through the handlers: nine presses of next reach index 9, a tenth does not move, and marking known gives 1 known, 9 unanswered and a score of 100; after flip, mark unknown, next and previous, the card stays unknown |

## Left out

- The JSX, inline styles and hover handlers of every component. They are presentation only.
- The theme palette (src/App.tsx:90-122). It is a table of constant strings selected by `isDarkMode`.
  Only the flag is modelled.
- The preference store (src/App.tsx:76-87): `localStorage`, `window.matchMedia`, `JSON.parse` and the
  persisting effect are browser I/O. The theme read at start-up is a constructor parameter. The
  unguarded `JSON.parse`, which throws on a corrupt stored value, is not modelled.
- The random comparator sort (src/App.tsx:157). It depends on randomness and on the engine's sort. The
  shuffle takes the resulting order as a parameter, and the model proves such orders are exactly the
  permutations. Uniformity is not modelled.
- `window.confirm` (src/App.tsx:147), a blocking prompt. It is replaced by the `confirmed` parameter.
- The floating-point evaluation of `current / total * 100` and `known / totalAnswered * 100` before
  `Math.round`. Both are modelled as exact rational rounding, so a float that lands just below a half
  is not modelled.
- React's batching of `useState` setters, and its closures over the rendered state. Every handler is
  one atomic transition of the current state.
- The `disabled` attributes of the navigation buttons, which mirror the first/last-card guards the
  handlers already apply. Also the rule that the mark buttons are only shown while the answer is
  revealed: the handlers themselves do not check it, so the model lets marking happen in either state.
- JavaScript numbers are doubles: rendering switches to exponent form from 10^21 and integers above
  2^53 are inexact. The model's naturals are unbounded; the app's values stay at most 10.
- The score's colour threshold (`percentageKnown > 70`). It is presentation only.
