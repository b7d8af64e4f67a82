# Mind-forge mini-games: a Dafny model of the game logic

The site offers three browser mini-games. Each one is a small state machine.
It starts on a settings screen, counts down 3-2-1, shows a stimulus, captures
the player's answers, and scores them on a result screen.

- **Memory cards.** Ten rounds each show the five symbols (star, square,
  circle, crescent, triangle) in a freshly shuffled order. Afterwards the
  player names, slot by slot, the symbol every one of the 50 cards showed.
  The score counts the answers equal to their own round's symbol at that
  card.
- **Chimp test.** The numbers 0..9 are placed on ten distinct tiles of an
  8 x 5 grid. They are shown for a few seconds and then hidden. The player
  clicks them in ascending order. A wrong click reveals every number and
  ends the game.
- **Flash arithmetic.** `count` numbers of `digits` digits are flashed one at
  a time. The player types their sum. The answer is correct when `parseInt`
  of it equals the sum.

The model has one module per concern:

- `Common`: `Option`, "no repetitions", cardinality helpers, and the
  countdown beep pitch.
- `FisherYates`: the full backward shuffle and the forward partial pick.
- `Decimal`: digit strings and the `parseInt` subset the answer field needs.
- `MemoryCards`, `ChimpTest`, `FlashArithmetic`: one module per game page.

Every timer callback and every user action is a pure step function from one
`Game` value to the next. Each game has a `Valid` predicate describing the
reachable states. `Init` satisfies it and every step preserves it; that
invariant is the partner of each step's contract. `Math.random` becomes
draws supplied by the caller, each constrained to the range the source's
`Math.floor(Math.random() * k)` can produce.

## Model

| member | source | states |
|---|---|---|
| FisherYates.Shuffle | src/app/memory-cards/page.tsx:113-120 | The backward Fisher–Yates pass returns a permutation of its input: same length, same multiset, so an input without repetitions stays without repetitions. |
| FisherYates.PartialPick | src/app/chimp-test/page.tsx:80-89 | The forward partial pass takes one element per step, each drawn from the input; picks from a sequence without repetitions are pairwise distinct. |
| MemoryCards.GenerateRounds | src/app/memory-cards/page.tsx:123-129 | Exactly ten rounds, each a five-card arrangement of the five symbols. |
| MemoryCards.SymbolOrderHasEachSymbolOnce | src/app/memory-cards/page.tsx:12-14 | Any shuffled round has five cards, no symbol twice and every symbol once. |
| MemoryCards.CalculateScore | src/app/memory-cards/page.tsx:268-279 | The loop's count equals the number of slots, among all 50, whose answer strictly equals its own round's symbol at that card; it never exceeds 50, and with a full sheet of 50 answers it never exceeds the number of answered slots. |
| MemoryCards.AllCorrectScoresFull | src/app/memory-cards/page.tsx:268-279 | Fifty answers each equal to the symbol its own round showed at that card score 50. |
| MemoryCards.PickScoredAgainstOwnRound | src/app/memory-cards/page.tsx:250-279 | The pick for round r, card c scores exactly when it equals card c of round r itself. |
| MemoryCards.PerfectSelectionScoresFull | src/app/memory-cards/page.tsx:250-279 | Answering every remaining slot correctly, in order, ends in the result with all 50 slots scoring. |
| MemoryCards.AnswerCorrectly | src/app/memory-cards/page.tsx:445 | Opening the picker on the current card and picking its symbol fills exactly that slot with a scoring answer and keeps the game reachable. |
| MemoryCards.Init | src/app/memory-cards/page.tsx:79-94 | The page opens on settings with no rounds and no answers, a state the reachable-state invariant admits. |
| MemoryCards.Configure | src/app/memory-cards/page.tsx:327-333 | The reveal time can be set to 1..30 s only on the settings screen; elsewhere nothing changes. |
| MemoryCards.StartGame | src/app/memory-cards/page.tsx:132-144 | From settings or the result, where its buttons are, starting enters the countdown at 3 with round 0, cards down, slot 0, a blank sheet of 50 answers and the picker closed, keeping the old rounds and the reveal time; in any other phase nothing changes. |
| MemoryCards.CountdownTick | src/app/memory-cards/page.tsx:147-169 | A positive counter drops by exactly one; at zero ten valid rounds are generated and the first is shown face up; nothing else changes. |
| MemoryCards.FlipCards | src/app/memory-cards/page.tsx:189-197 | After the reveal time the cards of the current round turn face down; the reachable-state invariant holds. |
| MemoryCards.AdvanceRound | src/app/memory-cards/page.tsx:172-240 | The next round starts face up, or after round 9 the selection phase begins; the round index stays in 0..9. |
| MemoryCards.SelectionPosition | src/app/memory-cards/page.tsx:291-292 | The slot index decomposes as round * 5 + card with card < 5, and round < 10 while a slot remains. |
| MemoryCards.OpenPicker | src/app/memory-cards/page.tsx:445 | Only a click on the current card opens the symbol picker. |
| MemoryCards.ClosePicker | src/app/memory-cards/page.tsx:471-491 | While the picker is on screen, Cancel closes it and changes nothing else; with no picker shown nothing changes. |
| MemoryCards.SelectSymbol | src/app/memory-cards/page.tsx:250-265 | A pick writes only the current slot and closes the picker, then moves to the next slot or, after the 50th, to the result; the rounds, the reveal time, the round index, the card face and the countdown stay as they were. |
| MemoryCards.ResetGame | src/app/memory-cards/page.tsx:281-289 | On the result screen, where its button is, back to settings with no rounds, no answers, round 0, slot 0, cards down; the reveal time is kept; in any other phase nothing changes. |
| ChimpTest.GenerateTiles | src/app/chimp-test/page.tsx:72-97 | Forty unrevealed, unjudged tiles; each of 0..9 sits on exactly one tile and exactly ten tiles carry a number. |
| ChimpTest.Init | src/app/chimp-test/page.tsx:47-54 | The page opens on settings with no tiles and a zero score, a state the reachable-state invariant admits. |
| ChimpTest.Configure | src/app/chimp-test/page.tsx:280-287 | The display time can be set to 1..10 s only on the settings screen. |
| ChimpTest.StartGame | src/app/chimp-test/page.tsx:100-109 | From settings or the result, where its buttons are, starting enters the countdown at 3 with score 0 and next expected number 0, keeping the old tiles and the display time; in any other phase nothing changes. |
| ChimpTest.CountdownTick | src/app/chimp-test/page.tsx:112-131 | A positive counter drops by exactly one; at zero a well-placed grid is generated once and memorizing begins; nothing else changes. |
| ChimpTest.MemorizeTimeout | src/app/chimp-test/page.tsx:134-143 | After the display time the numbers are hidden for recall. |
| ChimpTest.TileClick | src/app/chimp-test/page.tsx:146-189 | A click changes the game if and only if it is in recall on a hidden numbered tile. A correct click scores one and expects the next number, or ends the game after 9. A wrong click reveals every number and ends the game without scoring. The numbers never move, and the display time and the countdown never change. From a reachable state the score stays at most 10 and equals the next expected number while recalling. |
| ChimpTest.RevealNumbered | src/app/chimp-test/page.tsx:181-186 | Every numbered tile becomes revealed; blank tiles and all judgements are unchanged. |
| ChimpTest.ResetGame | src/app/chimp-test/page.tsx:191-196 | On the result screen, where its button is, back to settings with no tiles, score 0 and next expected 0; the display time is kept; in any other phase nothing changes. |
| ChimpTest.CorrectClick | src/app/chimp-test/page.tsx:161-175 | From a reachable recall state, clicking the tile with the expected number scores one and expects the next number, or after 9 ends in the result; the game stays reachable. |
| ChimpTest.WrongClick | src/app/chimp-test/page.tsx:176-188 | From a reachable recall state, clicking a tile with a later number ends in the result without scoring, with every numbered tile revealed. |
| ChimpTest.InOrderClicksWin | src/app/chimp-test/page.tsx:146-175 | Clicking the remaining numbers in ascending order ends in the result with score 10. |
| ChimpTest.TwoCorrectThenWrong | src/app/chimp-test/page.tsx:146-188 | Clicking 0, 1 and then a tile with a larger number ends with score 2 and every number revealed. |
| ChimpTest.ScoreCountsCorrectTiles | src/app/chimp-test/page.tsx:152-165 | During recall and at the result, the score equals the number of tiles judged correct. |
| FlashArithmetic.Init | src/app/flash-arithmetic/page.tsx:79-88 | The page opens on settings with the sliders' defaults of 2 digits, 5 numbers and 800 ms, all in their slider ranges, no numbers and an empty answer: a state the reachable-state invariant admits. |
| FlashArithmetic.GenerateNumber | src/app/flash-arithmetic/page.tsx:107-111 | A generated number lies in [10^(d-1), 10^d - 1] and so has exactly d decimal digits. |
| FlashArithmetic.GenerateNumbers | src/app/flash-arithmetic/page.tsx:140 | `count` numbers are drawn, every one with exactly `digits` digits. |
| FlashArithmetic.SumBounds | src/app/flash-arithmetic/page.tsx:140-142 | The sum of n numbers each in [lo, hi] lies in [n * lo, n * hi]. |
| FlashArithmetic.Configure | src/app/flash-arithmetic/page.tsx:221-243 | The sliders set digits 1..5, count 3..20 and speed 10..2000 ms in steps of 10, only on the settings screen. |
| FlashArithmetic.StartGame | src/app/flash-arithmetic/page.tsx:114-121 | From settings or the result, where its buttons are, starting enters the countdown at 3 and changes nothing else; in any other phase nothing changes. |
| FlashArithmetic.CountdownTick | src/app/flash-arithmetic/page.tsx:124-147 | A positive counter drops by one; at zero `count` in-range numbers are drawn, their sum is stored and bounded by count * min and count * max, and playback starts at the first number. |
| FlashArithmetic.PlayTick | src/app/flash-arithmetic/page.tsx:150-173 | The playback timer moves to the next number, or after the last one asks for the answer with an empty field; the index never reaches the length of the sequence. |
| FlashArithmetic.PlaybackVisitsEveryNumber | src/app/flash-arithmetic/page.tsx:150-173 | From any reachable playing state, after k ticks, for every k short of the count of numbers left, playback is still on and shows the number k places on; after as many ticks as numbers are left it asks for the answer with an empty field and the same numbers. |
| FlashArithmetic.TypeAnswer | src/app/flash-arithmetic/page.tsx:295-298 | Typing replaces the answer text only while answering. |
| FlashArithmetic.Confirm | src/app/flash-arithmetic/page.tsx:301-306 | The game enters the result if and only if it is answering with a non-empty answer (both controls are disabled on an empty one); only the phase changes. |
| FlashArithmetic.ResetGame | src/app/flash-arithmetic/page.tsx:179-184 | On the result screen, where its button is, back to settings with no numbers, index 0 and an empty answer; the sliders are kept; in any other phase nothing changes. |
| FlashArithmetic.IsCorrect | src/app/flash-arithmetic/page.tsx:186 | An empty answer, or one without a digit, is never correct. |
| FlashArithmetic.TypingTheSumIsCorrect | src/app/flash-arithmetic/page.tsx:186 | Typing the decimal form of the sum is always judged correct. |
| FlashArithmetic.TypedNumberCorrectIffSum | src/app/flash-arithmetic/page.tsx:186 | A typed integer, written in decimal, is judged correct if and only if it equals the sum. |
| FlashArithmetic.WorkedExample | src/app/flash-arithmetic/page.tsx:140-142 | 34 + 12 + 9 = 55, so "55" is judged correct and "54" is not. |
| Decimal.ParseInt | src/app/flash-arithmetic/page.tsx:186 | An empty text parses to NaN; a number is produced if and only if the text starts with a digit, or with a '+' or '-' followed by a digit. |
| Decimal.ParseIntOfDigitsThenRest | src/app/flash-arithmetic/page.tsx:186 | Digits followed by anything that does not start with a digit parse to the value of those digits; the rest is ignored. |
| Decimal.ParseIntOfSignedDigitsThenRest | src/app/flash-arithmetic/page.tsx:186 | After a '+' the same digits-then-rest parse to the same value, after a '-' to its negation. |
| Decimal.ParseIntOfIntToString | src/app/flash-arithmetic/page.tsx:186 | Parsing the decimal form of any integer gives that integer back. |
| Decimal.DigitCountRange | src/app/flash-arithmetic/page.tsx:107-111 | A positive number has exactly d digits if and only if it lies in [10^(d-1), 10^d - 1]. |
| Common.CountdownBeepFrequency | src/app/flash-arithmetic/page.tsx:128-131 | Each positive countdown tick plays 440, 523 or 659 Hz: 440 exactly at 3 and 523 exactly at 2. The same choice appears in all three games. |

## Left out

- Audio (`createAudioContext`, `playBeep`, `playCountdownBeep`, `playFlashTick`) has no effect on game state. The model keeps only the pitch choice of the countdown beep.
- GSAP animations and the JSX presentation (card icons, grid layout, percentage bars, feedback wording) are left out. The percentage uses floating-point `Math.round` and is display only.
- `Math.random` is replaced by caller-supplied draws. Each draw is limited to the values `Math.floor(Math.random() * k)` can produce: j in [0, i] for the backward shuffle, an offset in [0, 40 - i) for the chimp pick, and an offset in [0, max - min] for a flash number.
- Timer delays are left out: each `setTimeout` callback or timeline step is one step function, applied when it fires.
- Delayed results are modelled as immediate transitions: the 300 ms before the memory-cards result, the 300 ms after the last chimp number and the 1 s after a wrong chimp click. In the chimp test nothing can change during the delay, because every numbered tile is already revealed. In memory cards the picker can be reopened on card 50 during the 300 ms and the last answer overwritten; the model does not capture that window.
- The flash arithmetic `showNumber` flag only hides the number between flashes. It is presentation and left out; the 10 ms gap is part of `PlayTick`.
- `firstRoundOrder` in memory cards is written but never read, so it is left out.
- `MemoryCards.SlotMatches` follows JavaScript strict equality. A slot beyond the end of `answers` (undefined) matches a missing round (also undefined). The app cannot reach that case: answers always has 50 slots when rounds exist.
- Decimal.ParseInt: models only an optional sign followed by the longest decimal digit prefix. Leading whitespace and `0x` prefixes are not modelled; the answer field is numeric, so they do not arise. A long typed answer can exceed 2^53, where `parseInt` loses precision and the model does not; that cannot change the verdict, because every sum is at most 1,999,980 (20 x 99,999).
- Integers are unbounded. JavaScript numbers are exact for every value here: sums reach at most 20 * 99999.
- Handlers reachable only from controls shown in some phases are no-ops in every other phase. This holds for the sliders, the start, play-again and change-settings buttons, the answer field, the picker buttons and tile clicks.
- The landing page, the layout and the shared UI components are not part of this model.
