/**
 * Sequential memory cards: ten rounds each show the five symbols in a freshly
 * shuffled order; afterwards the player names, round by round and card by
 * card, the symbol each of the 50 cards showed. The score counts the answers
 * that equal their own round's symbol at that position.
 *
 * Each timer callback and each user action is one step function from game to
 * game. The random source is replaced by draws the caller supplies.
 */
module MemoryCards {
  import opened Common
  import opened FisherYates

  datatype Phase = Settings | Countdown | Rounds | Selection | Result

  datatype Symbol = Star | Square | Circle | Crescent | Triangle

  datatype CardFace = Up | Down

  /** One round: the left-to-right order of the five cards. */
  datatype Round = Round(order: seq<Symbol>)

  /**
   * The session. `revealTime` (seconds each round is shown) is edited on the
   * settings screen; `rounds` is the ground truth; `answers` has one slot per
   * card of every round, `None` until answered; `selectionIndex` is the slot
   * being answered.
   */
  datatype Game = Game(
    phase: Phase,
    revealTime: nat,
    countdown: int,
    rounds: seq<Round>,
    currentRound: nat,
    cardFace: CardFace,
    selectionIndex: nat,
    answers: seq<Option<Symbol>>,
    showPicker: bool)

  const SYMBOLS: seq<Symbol> := [Star, Square, Circle, Crescent, Triangle]
  const TOTAL_ROUNDS := 10
  const CARDS_COUNT := 5
  const SLOTS := TOTAL_ROUNDS * CARDS_COUNT
  const COUNTDOWN_START := 3

  /** The state when the page opens: settings, no rounds, no answers; a reachable state. */
  function Init(): (g: Game)
    ensures g.phase == Settings && g.rounds == [] && g.answers == []
    ensures Valid(g)
  {
    Game(Settings, 3, COUNTDOWN_START, [], 0, Down, 0, [], false)
  }

  // ---------------------------------------------------------------------------
  // Round generation

  /** `order` is an arrangement of the five symbols. */
  ghost predicate IsSymbolOrder(order: seq<Symbol>)
  {
    multiset(order) == multiset(SYMBOLS)
  }

  /**
   * An arrangement of the five symbols has five cards, no symbol twice and
   * every symbol once.
   */
  lemma SymbolOrderHasEachSymbolOnce(order: seq<Symbol>)
    requires IsSymbolOrder(order)
    ensures |order| == CARDS_COUNT
    ensures Distinct(order)
    ensures forall s: Symbol :: s in order
  {
    assert |order| == |multiset(order)| == |multiset(SYMBOLS)| == CARDS_COUNT;
    forall s: Symbol ensures s in order {
      assert s in SYMBOLS by {
        match s
        case Star => assert SYMBOLS[0] == s;
        case Square => assert SYMBOLS[1] == s;
        case Circle => assert SYMBOLS[2] == s;
        case Crescent => assert SYMBOLS[3] == s;
        case Triangle => assert SYMBOLS[4] == s;
      }
      assert s in multiset(order);
    }
    PermutationKeepsDistinct(order, SYMBOLS);
  }

  /** Ten independent shuffle draws, one backward pass over the five symbols each. */
  predicate RoundDraws(draws: seq<seq<nat>>)
  {
    |draws| == TOTAL_ROUNDS && forall i :: 0 <= i < |draws| ==> ShuffleDraws(CARDS_COUNT, draws[i])
  }

  /** Ten rounds, each a valid arrangement of the symbols. */
  ghost predicate RoundsValid(rounds: seq<Round>)
  {
    |rounds| == TOTAL_ROUNDS && forall r :: 0 <= r < |rounds| ==> IsSymbolOrder(rounds[r].order)
  }

  /**
   * `generateRounds`: `TOTAL_ROUNDS` rounds, each a Fisher–Yates shuffle of a
   * copy of `SYMBOLS`. Later rounds may repeat earlier orders.
   */
  function GenerateRounds(draws: seq<seq<nat>>): (rounds: seq<Round>)
    requires RoundDraws(draws)
    ensures |rounds| == TOTAL_ROUNDS
    ensures forall r :: 0 <= r < |rounds| ==> IsSymbolOrder(rounds[r].order) && |rounds[r].order| == CARDS_COUNT
  {
    seq(TOTAL_ROUNDS, r requires 0 <= r < TOTAL_ROUNDS => Round(Shuffle(SYMBOLS, draws[r])))
  }

  // ---------------------------------------------------------------------------
  // Scoring

  /** `rounds[i / 5]?.order[i % 5]`: the symbol slot `i` asks for, `None` (undefined) when missing. */
  function Expected(rounds: seq<Round>, i: nat): Option<Symbol>
  {
    var r := i / CARDS_COUNT;
    var c := i % CARDS_COUNT;
    if r < |rounds| && c < |rounds[r].order| then Some(rounds[r].order[c]) else None
  }

  /**
   * `answers[i] === expectedSymbol` under strict equality: an unanswered slot
   * (null) matches nothing, and a slot beyond the end of `answers`
   * (undefined) matches only a missing expectation (also undefined).
   */
  predicate SlotMatches(answers: seq<Option<Symbol>>, rounds: seq<Round>, i: nat)
  {
    if i < |answers| then answers[i].Some? && answers[i] == Expected(rounds, i)
    else Expected(rounds, i).None?
  }

  /** The slots among the first `n` that match. */
  ghost function MatchingBelow(answers: seq<Option<Symbol>>, rounds: seq<Round>, n: nat): set<nat>
  {
    set i: nat | i < n && SlotMatches(answers, rounds, i)
  }

  /** The slots that score a point. */
  ghost function MatchingSlots(answers: seq<Option<Symbol>>, rounds: seq<Round>): set<nat>
  {
    MatchingBelow(answers, rounds, SLOTS)
  }

  /** The slots that hold an answer. */
  ghost function AnsweredSlots(answers: seq<Option<Symbol>>): set<nat>
  {
    set i: nat | i < |answers| && answers[i].Some?
  }

  /**
   * `calculateScore`: the number of slots, over all 50, whose answer equals
   * the symbol of that slot's own round and card. It never exceeds 50, and
   * with a full answer sheet it never exceeds the number of answered slots.
   */
  method CalculateScore(answers: seq<Option<Symbol>>, rounds: seq<Round>) returns (correct: nat)
    ensures correct == |MatchingSlots(answers, rounds)|
    ensures correct <= SLOTS
    ensures |answers| >= SLOTS ==> correct <= |AnsweredSlots(answers)|
  {
    correct := 0;
    var i := 0;
    while i < SLOTS
      invariant i <= SLOTS
      invariant correct == |MatchingBelow(answers, rounds, i)|
      invariant correct <= i
    {
      MatchingBelowStep(answers, rounds, i);
      if SlotMatches(answers, rounds, i) {
        correct := correct + 1;
      }
      i := i + 1;
    }
    MatchesAreAnswered(answers, rounds);
  }

  lemma MatchingBelowStep(answers: seq<Option<Symbol>>, rounds: seq<Round>, n: nat)
    ensures MatchingBelow(answers, rounds, n + 1)
         == MatchingBelow(answers, rounds, n) + (if SlotMatches(answers, rounds, n) then {n} else {})
  {
  }

  lemma MatchesAreAnswered(answers: seq<Option<Symbol>>, rounds: seq<Round>)
    ensures |answers| >= SLOTS ==> |MatchingSlots(answers, rounds)| <= |AnsweredSlots(answers)|
  {
    if |answers| >= SLOTS {
      SubsetCardinality(MatchingSlots(answers, rounds), AnsweredSlots(answers));
    }
  }

  lemma {:induction false} AllMatchingBelow(answers: seq<Option<Symbol>>, rounds: seq<Round>, n: nat)
    requires forall i :: 0 <= i < n ==> SlotMatches(answers, rounds, i)
    ensures |MatchingBelow(answers, rounds, n)| == n
  {
    if n > 0 {
      AllMatchingBelow(answers, rounds, n - 1);
      MatchingBelowStep(answers, rounds, n - 1);
    }
  }

  /** Fifty answers, each equal to its own round's symbol at its card, score 50. */
  lemma AllCorrectScoresFull(answers: seq<Option<Symbol>>, rounds: seq<Round>)
    requires RoundsValid(rounds) && |answers| == SLOTS
    requires forall i :: 0 <= i < SLOTS ==> answers[i] == Some(rounds[i / CARDS_COUNT].order[i % CARDS_COUNT])
    ensures |MatchingSlots(answers, rounds)| == SLOTS
  {
    forall i | 0 <= i < SLOTS ensures SlotMatches(answers, rounds, i) {
      SymbolOrderHasEachSymbolOnce(rounds[i / CARDS_COUNT].order);
    }
    AllMatchingBelow(answers, rounds, SLOTS);
  }

  // ---------------------------------------------------------------------------
  // Reachable states

  /** Fifty unanswered slots. */
  ghost predicate BlankSheet(answers: seq<Option<Symbol>>)
  {
    |answers| == SLOTS && forall i :: 0 <= i < |answers| ==> answers[i] == None
  }

  /** The states the game can reach from `Init` through the step functions below. */
  ghost predicate Valid(g: Game)
  {
    && 1 <= g.revealTime <= 30
    && g.currentRound < TOTAL_ROUNDS
    && g.selectionIndex < SLOTS
    && (g.phase.Settings? ==> g.rounds == [] && g.answers == [])
    && (g.phase.Countdown? ==>
          && 0 <= g.countdown <= COUNTDOWN_START
          && BlankSheet(g.answers) && g.selectionIndex == 0 && g.currentRound == 0 && !g.showPicker)
    && (g.phase.Rounds? || g.phase.Selection? || g.phase.Result? ==> RoundsValid(g.rounds) && |g.answers| == SLOTS)
    && (g.phase.Rounds? ==> BlankSheet(g.answers) && g.selectionIndex == 0 && !g.showPicker)
    && (g.phase.Selection? ==> forall i :: 0 <= i < SLOTS ==> (g.answers[i].Some? <==> i < g.selectionIndex))
    && (g.phase.Result? ==> !g.showPicker && forall i :: 0 <= i < SLOTS ==> g.answers[i].Some?)
  }

  // ---------------------------------------------------------------------------
  // Steps

  /** The reveal-time slider (1 to 30 seconds), shown only in `Settings`. */
  function Configure(g: Game, revealTime: nat): (r: Game)
    requires 1 <= revealTime <= 30
    ensures g.phase.Settings? ==> r == g.(revealTime := revealTime)
    ensures !g.phase.Settings? ==> r == g
    ensures Valid(g) ==> Valid(r)
  {
    if g.phase.Settings? then g.(revealTime := revealTime) else g
  }

  /** The start buttons are on screen: "Start Training" in settings, "Play Again" at the result. */
  predicate StartShown(g: Game)
  {
    g.phase.Settings? || g.phase.Result?
  }

  /**
   * "Start Training" / "Play Again": countdown at 3, first round, cards face
   * down, first slot, a blank sheet of 50 answers, picker closed. The old
   * rounds stay until the countdown ends. In the other phases neither button
   * is on screen and nothing changes.
   */
  function StartGame(g: Game): (r: Game)
    ensures StartShown(g) ==> r.phase == Countdown && r.countdown == COUNTDOWN_START
    ensures StartShown(g) ==> r.currentRound == 0 && r.selectionIndex == 0 && r.cardFace == Down && !r.showPicker
    ensures StartShown(g) ==> BlankSheet(r.answers)
    ensures StartShown(g) ==> r.rounds == g.rounds && r.revealTime == g.revealTime
    ensures !StartShown(g) ==> r == g
    ensures Valid(g) ==> Valid(r)
  {
    if StartShown(g) then
      g.(phase := Countdown, countdown := COUNTDOWN_START, currentRound := 0, cardFace := Down,
         selectionIndex := 0, answers := seq(SLOTS, _ => None), showPicker := false)
    else g
  }

  /**
   * The countdown effect: a positive counter drops by exactly one; at zero
   * the ten rounds are generated and the first one is shown face up.
   */
  function CountdownTick(g: Game, draws: seq<seq<nat>>): (r: Game)
    requires RoundDraws(draws)
    ensures !g.phase.Countdown? ==> r == g
    ensures g.phase.Countdown? && g.countdown > 0 ==> r == g.(countdown := g.countdown - 1)
    ensures g.phase.Countdown? && g.countdown <= 0 ==>
      && r.phase == Rounds
      && r.cardFace == Up
      && RoundsValid(r.rounds)
      && r.(rounds := g.rounds, cardFace := g.cardFace, phase := g.phase) == g
    ensures Valid(g) ==> Valid(r)
  {
    if !g.phase.Countdown? then g
    else if g.countdown > 0 then g.(countdown := g.countdown - 1)
    else g.(rounds := GenerateRounds(draws), cardFace := Up, phase := Rounds)
  }

  /** The round timeline, after `revealTime` seconds: the cards turn face down. */
  function FlipCards(g: Game): (r: Game)
    ensures g.phase.Rounds? ==> r == g.(cardFace := Down)
    ensures !g.phase.Rounds? ==> r == g
    ensures Valid(g) ==> Valid(r)
  {
    if g.phase.Rounds? then g.(cardFace := Down) else g
  }

  /**
   * The end of a round's timeline: before the last round, the next round
   * starts face up; after the last round the selection phase begins. So the
   * round index only ever takes the values 0 to 9.
   */
  function AdvanceRound(g: Game): (r: Game)
    requires g.currentRound < TOTAL_ROUNDS
    ensures !g.phase.Rounds? ==> r == g
    ensures g.phase.Rounds? && g.currentRound < TOTAL_ROUNDS - 1 ==>
      r == g.(currentRound := g.currentRound + 1, cardFace := Up)
    ensures g.phase.Rounds? && g.currentRound == TOTAL_ROUNDS - 1 ==> r == g.(phase := Selection)
    ensures r.currentRound < TOTAL_ROUNDS
    ensures Valid(g) ==> Valid(r)
  {
    if !g.phase.Rounds? then g
    else if g.currentRound < TOTAL_ROUNDS - 1 then g.(currentRound := g.currentRound + 1, cardFace := Up)
    else g.(phase := Selection)
  }

  /**
   * Where the slot being answered sits: `selectionIndex` is
   * `round * 5 + card` with the card in 0..4, and while a slot remains the
   * round is in 0..9.
   */
  function SelectionPosition(selectionIndex: nat): (pos: (nat, nat))
    ensures pos.0 * CARDS_COUNT + pos.1 == selectionIndex
    ensures pos.1 < CARDS_COUNT
    ensures selectionIndex < SLOTS ==> pos.0 < TOTAL_ROUNDS
  {
    (selectionIndex / CARDS_COUNT, selectionIndex % CARDS_COUNT)
  }

  /** A click on card `idx` during selection: only the current card opens the symbol picker. */
  function OpenPicker(g: Game, idx: nat): (r: Game)
    ensures g.phase.Selection? && idx == SelectionPosition(g.selectionIndex).1 ==> r == g.(showPicker := true)
    ensures !(g.phase.Selection? && idx == SelectionPosition(g.selectionIndex).1) ==> r == g
    ensures Valid(g) ==> Valid(r)
  {
    if g.phase.Selection? && idx == SelectionPosition(g.selectionIndex).1 then g.(showPicker := true) else g
  }

  /** The picker is on screen, so a symbol pick reaches `handleSymbolSelect`. */
  predicate PickerOpen(g: Game)
  {
    g.phase.Selection? && g.showPicker
  }

  /** "Cancel" in the symbol picker closes it; with no picker on screen there is no "Cancel". */
  function ClosePicker(g: Game): (r: Game)
    ensures PickerOpen(g) ==> r == g.(showPicker := false)
    ensures !PickerOpen(g) ==> r == g
    ensures Valid(g) ==> Valid(r)
  {
    if PickerOpen(g) then g.(showPicker := false) else g
  }

  /**
   * `handleSymbolSelect`: writes the pick into the current slot only and
   * closes the picker; then moves to the next slot, or after the 50th goes to
   * the result; nothing else changes. When the picker is not on screen no
   * pick can arrive and nothing changes.
   */
  function SelectSymbol(g: Game, s: Symbol): (r: Game)
    requires PickerOpen(g) ==> g.selectionIndex < |g.answers|
    ensures !PickerOpen(g) ==> r == g
    ensures PickerOpen(g) ==>
      && |r.answers| == |g.answers|
      && r.answers[g.selectionIndex] == Some(s)
      && (forall j :: 0 <= j < |g.answers| && j != g.selectionIndex ==> r.answers[j] == g.answers[j])
      && !r.showPicker
      && r.rounds == g.rounds
      && (if g.selectionIndex < SLOTS - 1
          then r.phase == Selection && r.selectionIndex == g.selectionIndex + 1
          else r.phase == Result && r.selectionIndex == g.selectionIndex)
    ensures PickerOpen(g) ==>
      r.(answers := g.answers, showPicker := g.showPicker, selectionIndex := g.selectionIndex, phase := g.phase) == g
    ensures Valid(g) ==> Valid(r)
  {
    if !PickerOpen(g) then g
    else
      var answers := g.answers[g.selectionIndex := Some(s)];
      if g.selectionIndex < SLOTS - 1
      then g.(answers := answers, showPicker := false, selectionIndex := g.selectionIndex + 1)
      else g.(answers := answers, showPicker := false, phase := Result)
  }

  /**
   * "Change Settings", on the result screen only: back to the settings screen
   * with no rounds and no answers.
   */
  function ResetGame(g: Game): (r: Game)
    ensures g.phase.Result? ==> r.phase == Settings && r.rounds == [] && r.answers == []
    ensures g.phase.Result? ==> r.currentRound == 0 && r.selectionIndex == 0 && r.cardFace == Down
    ensures g.phase.Result? ==> r.revealTime == g.revealTime && r.showPicker == g.showPicker
    ensures !g.phase.Result? ==> r == g
    ensures Valid(g) ==> Valid(r)
  {
    if g.phase.Result? then
      g.(phase := Settings, rounds := [], currentRound := 0, cardFace := Down, selectionIndex := 0, answers := [])
    else g
  }

  // ---------------------------------------------------------------------------
  // Properties over several steps

  /**
   * The slot answered at round r, card c is scored against card c of round r
   * itself (not against the first round): the pick scores exactly when it is
   * the symbol that round showed there.
   */
  lemma PickScoredAgainstOwnRound(g: Game, s: Symbol)
    requires Valid(g) && PickerOpen(g)
    ensures var (r, c) := SelectionPosition(g.selectionIndex);
      SlotMatches(SelectSymbol(g, s).answers, g.rounds, g.selectionIndex) <==> s == g.rounds[r].order[c]
  {
    var (r, c) := SelectionPosition(g.selectionIndex);
    SymbolOrderHasEachSymbolOnce(g.rounds[r].order);
  }

  /** Opening the picker on the current card and picking the symbol that card showed. */
  function AnswerCorrectly(g: Game): (r: Game)
    requires Valid(g) && g.phase.Selection?
    ensures Valid(r)
    ensures r.phase.Selection? ==> r.selectionIndex == g.selectionIndex + 1
    ensures r.phase.Selection? || r.phase.Result?
    ensures r.rounds == g.rounds
    ensures forall j :: 0 <= j < SLOTS && j != g.selectionIndex ==> r.answers[j] == g.answers[j]
    ensures SlotMatches(r.answers, r.rounds, g.selectionIndex)
  {
    var (round, card) := SelectionPosition(g.selectionIndex);
    SymbolOrderHasEachSymbolOnce(g.rounds[round].order);
    var g1 := g.(showPicker := true);
    assert g1 == OpenPicker(g, card) && PickerOpen(g1) && Valid(g1);
    var s := g.rounds[round].order[card];
    assert Expected(g.rounds, g.selectionIndex) == Some(s);
    SelectSymbol(g1, s)
  }

  /** Answering every remaining slot correctly. */
  function AnswerAllCorrectly(g: Game): (r: Game)
    requires Valid(g)
    ensures Valid(r)
    decreases if g.phase.Selection? then SLOTS - g.selectionIndex else 0
  {
    if !g.phase.Selection? then g else AnswerAllCorrectly(AnswerCorrectly(g))
  }

  /**
   * Fifty correct picks in round-and-card order end in the result with a
   * score of 50.
   */
  lemma {:induction false} PerfectSelectionScoresFull(g: Game)
    requires Valid(g) && g.phase.Selection?
    requires forall i :: 0 <= i < g.selectionIndex ==> SlotMatches(g.answers, g.rounds, i)
    ensures AnswerAllCorrectly(g).phase == Result
    ensures |MatchingSlots(AnswerAllCorrectly(g).answers, AnswerAllCorrectly(g).rounds)| == SLOTS
    decreases SLOTS - g.selectionIndex
  {
    var g' := AnswerCorrectly(g);
    forall i | 0 <= i <= g.selectionIndex ensures SlotMatches(g'.answers, g'.rounds, i) {
      if i < g.selectionIndex {
        assert SlotMatches(g.answers, g.rounds, i);
        assert g'.answers[i] == g.answers[i];
      }
    }
    if g'.phase.Selection? {
      PerfectSelectionScoresFull(g');
    } else {
      assert AnswerAllCorrectly(g) == g';
      AllMatchingBelow(g'.answers, g'.rounds, SLOTS);
    }
  }
}
