/**
 * Flash mental arithmetic: after a 3-2-1 countdown the game draws `count`
 * numbers of `digits` decimal digits each, flashes them one at a time, then
 * asks for their sum and marks the typed answer correct when `parseInt` of it
 * equals the precomputed sum.
 *
 * Each timer callback and each user action is one step function from game to
 * game. The random source is replaced by offsets the caller supplies.
 */
module FlashArithmetic {
  import opened Common
  import opened Decimal

  datatype Phase = Settings | Countdown | Playing | Answering | Result

  /**
   * The session. `digits`, `count` and `speed` (milliseconds per number) are
   * edited on the settings screen; `numbers` and `correctSum` are the ground
   * truth; `currentIndex` is the number on screen while playing.
   */
  datatype Game = Game(
    phase: Phase,
    digits: nat,
    count: nat,
    speed: nat,
    numbers: seq<nat>,
    currentIndex: nat,
    userAnswer: string,
    correctSum: int,
    countdown: int)

  const COUNTDOWN_START := 3

  /** The ranges of the three sliders of the settings screen. */
  predicate SettingsInRange(digits: nat, count: nat, speed: nat)
  {
    && 1 <= digits <= 5
    && 3 <= count <= 20
    && 10 <= speed <= 2000 && speed % 10 == 0
  }

  /** The state when the page opens: settings, with the sliders' defaults in range; a reachable state. */
  function Init(): (g: Game)
    ensures g.phase == Settings && g.digits == 2 && g.count == 5 && g.speed == 800
    ensures SettingsInRange(g.digits, g.count, g.speed)
    ensures g.numbers == [] && g.userAnswer == ""
    ensures Valid(g)
  {
    Game(Settings, 2, 5, 800, [], 0, "", 0, COUNTDOWN_START)
  }

  // ---------------------------------------------------------------------------
  // Number generation

  /** The smallest number with `d` digits. */
  function MinValue(d: nat): nat
    requires d >= 1
  {
    Pow10(d - 1)
  }

  /** The largest number with `d` digits. */
  function MaxValue(d: nat): nat
    requires d >= 1
  {
    Pow10(d) - 1
  }

  /**
   * A random number of `numDigits` digits; `offset` stands for
   * `floor(random * (max - min + 1))`. The result has exactly `numDigits`
   * decimal digits.
   */
  function GenerateNumber(numDigits: nat, offset: nat): (r: nat)
    requires numDigits >= 1
    requires offset <= MaxValue(numDigits) - MinValue(numDigits)
    ensures MinValue(numDigits) <= r <= MaxValue(numDigits)
    ensures |NatToDigits(r)| == numDigits
  {
    var r := offset + MinValue(numDigits);
    DigitCountRange(r, numDigits);
    r
  }

  /** One offset per number to draw, each within the span of `d`-digit numbers. */
  predicate ValidOffsets(d: nat, count: nat, offsets: seq<nat>)
    requires d >= 1
  {
    |offsets| == count && forall i :: 0 <= i < |offsets| ==> offsets[i] <= MaxValue(d) - MinValue(d)
  }

  /** Every entry of `xs` has `d` digits. */
  predicate AllInRange(d: nat, xs: seq<nat>)
    requires d >= 1
  {
    forall i :: 0 <= i < |xs| ==> MinValue(d) <= xs[i] <= MaxValue(d)
  }

  /** One generated number of `d` digits per draw, in the order of the draws. */
  function GenerateNumbers(d: nat, offsets: seq<nat>): (nums: seq<nat>)
    requires d >= 1
    requires ValidOffsets(d, |offsets|, offsets)
    ensures |nums| == |offsets|
    ensures AllInRange(d, nums)
    ensures forall i :: 0 <= i < |nums| ==> |NatToDigits(nums[i])| == d
  {
    seq(|offsets|, i requires 0 <= i < |offsets| => GenerateNumber(d, offsets[i]))
  }

  /** The total of the numbers, added one at a time from the first to the last, starting from 0. */
  function Sum(xs: seq<nat>): nat
  {
    if |xs| == 0 then 0 else Sum(xs[..|xs| - 1]) + xs[|xs| - 1]
  }

  /** A sum of n terms each in [lo, hi] lies in [n * lo, n * hi]. */
  lemma {:induction false} SumBounds(xs: seq<nat>, lo: nat, hi: nat)
    requires forall i :: 0 <= i < |xs| ==> lo <= xs[i] <= hi
    ensures |xs| * lo <= Sum(xs) <= |xs| * hi
  {
    if |xs| > 0 {
      var init := xs[..|xs| - 1];
      SumBounds(init, lo, hi);
      assert |xs| * lo == |init| * lo + lo;
      assert |xs| * hi == |init| * hi + hi;
    }
  }

  /** The ground truth of a drawn session. */
  predicate Drawn(g: Game)
  {
    && g.digits >= 1
    && |g.numbers| == g.count
    && AllInRange(g.digits, g.numbers)
    && g.correctSum == Sum(g.numbers)
  }

  /**
   * The states the game can reach from `Init` through the step functions
   * below.
   */
  predicate Valid(g: Game)
  {
    && SettingsInRange(g.digits, g.count, g.speed)
    && (g.phase.Settings? ==> g.numbers == [] && g.currentIndex == 0 && g.userAnswer == "")
    && (g.phase.Countdown? ==> 0 <= g.countdown <= COUNTDOWN_START)
    && (g.phase.Playing? || g.phase.Answering? || g.phase.Result? ==> Drawn(g))
    && (g.phase.Playing? ==> g.currentIndex < |g.numbers|)
    && (g.phase.Answering? || g.phase.Result? ==> g.currentIndex == |g.numbers| - 1)
    && (g.phase.Result? ==> g.userAnswer != "")
  }

  // ---------------------------------------------------------------------------
  // Steps

  /** Moving one of the sliders; the settings screen is shown only in `Settings`. */
  function Configure(g: Game, digits: nat, count: nat, speed: nat): (r: Game)
    requires SettingsInRange(digits, count, speed)
    ensures g.phase.Settings? ==> r == g.(digits := digits, count := count, speed := speed)
    ensures !g.phase.Settings? ==> r == g
    ensures Valid(g) ==> Valid(r)
  {
    if g.phase.Settings? then g.(digits := digits, count := count, speed := speed) else g
  }

  /** The start buttons are on screen: "Start Training" in settings, "Play Again" at the result. */
  predicate StartShown(g: Game)
  {
    g.phase.Settings? || g.phase.Result?
  }

  /**
   * "Start Training" / "Play Again": enter the countdown at 3; nothing else
   * changes. In the other phases neither button is on screen.
   */
  function StartGame(g: Game): (r: Game)
    ensures StartShown(g) ==> r.phase == Countdown && r.countdown == COUNTDOWN_START
    ensures StartShown(g) ==> r.(phase := g.phase, countdown := g.countdown) == g
    ensures !StartShown(g) ==> r == g
    ensures Valid(g) ==> Valid(r)
  {
    if StartShown(g) then g.(phase := Countdown, countdown := COUNTDOWN_START) else g
  }

  /**
   * The countdown effect, fired once per second while in `Countdown`: a
   * positive counter drops by exactly one; at zero the numbers are drawn, their
   * sum is stored, and playback starts at the first number.
   */
  function CountdownTick(g: Game, offsets: seq<nat>): (r: Game)
    requires g.digits >= 1 && ValidOffsets(g.digits, g.count, offsets)
    ensures !g.phase.Countdown? ==> r == g
    ensures g.phase.Countdown? && g.countdown > 0 ==> r == g.(countdown := g.countdown - 1)
    ensures g.phase.Countdown? && g.countdown <= 0 ==>
      && r.phase == Playing
      && |r.numbers| == g.count
      && AllInRange(g.digits, r.numbers)
      && r.correctSum == Sum(r.numbers)
      && g.count * MinValue(g.digits) <= r.correctSum <= g.count * MaxValue(g.digits)
      && r.currentIndex == 0
      && r.(numbers := g.numbers, correctSum := g.correctSum, currentIndex := g.currentIndex, phase := g.phase) == g
    ensures Valid(g) ==> Valid(r)
  {
    if !g.phase.Countdown? then g
    else if g.countdown > 0 then g.(countdown := g.countdown - 1)
    else
      var nums := GenerateNumbers(g.digits, offsets);
      SumBounds(nums, MinValue(g.digits), MaxValue(g.digits));
      g.(numbers := nums, correctSum := Sum(nums), currentIndex := 0, phase := Playing)
  }

  /**
   * The playback timer: once the current number has been shown for `speed`
   * milliseconds and hidden for a short gap, move to the next number, or after
   * the last one ask for the answer with an empty answer field.
   */
  function PlayTick(g: Game): (r: Game)
    ensures !g.phase.Playing? || g.currentIndex >= |g.numbers| ==> r == g
    ensures g.phase.Playing? && g.currentIndex + 1 < |g.numbers| ==> r == g.(currentIndex := g.currentIndex + 1)
    ensures g.phase.Playing? && g.currentIndex + 1 == |g.numbers| ==> r == g.(phase := Answering, userAnswer := "")
    ensures Valid(g) ==> Valid(r)
    ensures Valid(g) && g.phase.Playing? ==> r.currentIndex < |r.numbers|
  {
    if !g.phase.Playing? || g.currentIndex >= |g.numbers| then g
    else if g.currentIndex < |g.numbers| - 1 then g.(currentIndex := g.currentIndex + 1)
    else g.(phase := Answering, userAnswer := "")
  }

  /** Editing the answer field, shown only in `Answering`. */
  function TypeAnswer(g: Game, text: string): (r: Game)
    ensures g.phase.Answering? ==> r == g.(userAnswer := text)
    ensures !g.phase.Answering? ==> r == g
    ensures Valid(g) ==> Valid(r)
  {
    if g.phase.Answering? then g.(userAnswer := text) else g
  }

  /**
   * "Confirm" or Enter: both are disabled while the answer field is empty, so
   * only a non-empty answer reaches the result.
   */
  function Confirm(g: Game): (r: Game)
    ensures g.phase.Answering? && g.userAnswer != "" <==> r.phase == Result && !g.phase.Result?
    ensures r == g.(phase := r.phase)
    ensures Valid(g) ==> Valid(r)
  {
    if g.phase.Answering? && g.userAnswer != "" then g.(phase := Result) else g
  }

  /**
   * "Change Settings", on the result screen only: back to the settings screen
   * with no numbers and an empty answer.
   */
  function ResetGame(g: Game): (r: Game)
    ensures g.phase.Result? ==> r.phase == Settings && r.numbers == [] && r.currentIndex == 0 && r.userAnswer == ""
    ensures g.phase.Result? ==>
      r.(phase := g.phase, numbers := g.numbers, currentIndex := g.currentIndex, userAnswer := g.userAnswer) == g
    ensures !g.phase.Result? ==> r == g
    ensures Valid(g) ==> Valid(r)
  {
    if g.phase.Result? then g.(phase := Settings, numbers := [], currentIndex := 0, userAnswer := "") else g
  }

  /** The answer is correct when its integer reading equals the sum; an answer with no integer reading matches nothing. */
  function IsCorrect(g: Game): (ok: bool)
    ensures g.userAnswer == "" ==> !ok
    ensures ok ==> exists k :: 0 <= k < |g.userAnswer| && IsDigit(g.userAnswer[k])
  {
    ParseInt(g.userAnswer) == Some(g.correctSum)
  }

  // ---------------------------------------------------------------------------
  // Properties over several steps

  /** Typing the decimal form of the sum is always judged correct. */
  lemma TypingTheSumIsCorrect(g: Game)
    requires g.phase.Answering?
    ensures IsCorrect(TypeAnswer(g, IntToString(g.correctSum)))
  {
    ParseIntOfIntToString(g.correctSum);
  }

  /**
   * Typing the decimal form of any integer is judged correct exactly when
   * that integer is the sum, so every other number typed is wrong.
   */
  lemma TypedNumberCorrectIffSum(g: Game, m: int)
    requires g.phase.Answering?
    ensures IsCorrect(TypeAnswer(g, IntToString(m))) <==> m == g.correctSum
  {
    ParseIntOfIntToString(m);
  }

  /** `n` playback timer firings in a row. */
  function PlayTicks(g: Game, n: nat): Game
    decreases n
  {
    if n == 0 then g else PlayTicks(PlayTick(g), n - 1)
  }

  /**
   * Playback shows every remaining number once: from any reachable playing
   * state, the timer stays in `Playing` for exactly the numbers that are left
   * and then asks for the answer.
   */
  lemma {:induction false} PlaybackVisitsEveryNumber(g: Game)
    requires Valid(g) && g.phase.Playing?
    ensures var n := |g.numbers| - g.currentIndex;
      && (forall k :: 0 <= k < n ==> PlayTicks(g, k).phase == Playing && PlayTicks(g, k).currentIndex == g.currentIndex + k)
      && PlayTicks(g, n).phase == Answering
      && PlayTicks(g, n).userAnswer == ""
      && PlayTicks(g, n).numbers == g.numbers
    decreases |g.numbers| - g.currentIndex
  {
    var n := |g.numbers| - g.currentIndex;
    if n == 1 {
      assert PlayTicks(g, 1) == PlayTicks(PlayTick(g), 0);
    } else {
      var g' := PlayTick(g);
      PlaybackVisitsEveryNumber(g');
      forall k | 0 <= k < n
        ensures PlayTicks(g, k).phase == Playing && PlayTicks(g, k).currentIndex == g.currentIndex + k
      {
        if k > 0 {
          assert PlayTicks(g, k) == PlayTicks(g', k - 1);
        }
      }
      assert PlayTicks(g, n) == PlayTicks(g', n - 1);
    }
  }

  /** 34 + 12 + 9, added from left to right, is 55. */
  lemma ExampleSum()
    ensures Sum([34, 12, 9]) == 55
  {
    assert [34, 12, 9][..2] == [34, 12];
    assert [34, 12][..1] == [34];
    assert [34][..0] == [];
  }

  /** A two-digit answer parses to its value. */
  lemma TwoDigitAnswer(text: string, tens: nat, units: nat)
    requires tens < 10 && units < 10
    requires text == [DigitChar(tens), DigitChar(units)]
    ensures ParseInt(text) == Some(10 * tens + units)
  {
    assert IsDigit(text[0]) && text[0] != '-' && text[0] != '+';
    DigitPrefixOfDigits(text);
    assert text[..2] == text && text[..1] == [DigitChar(tens)] && text[..1][..0] == [];
    assert DigitsValue(text[..1]) == tens;
  }

  /** 34 + 12 + 9 = 55: the answer "55" is judged correct and "54" is not. */
  lemma WorkedExample(g: Game)
    requires g.numbers == [34, 12, 9] && g.correctSum == Sum(g.numbers)
    ensures g.correctSum == 55
    ensures IsCorrect(g.(userAnswer := "55"))
    ensures !IsCorrect(g.(userAnswer := "54"))
  {
    ExampleSum();
    TwoDigitAnswer("55", 5, 5);
    TwoDigitAnswer("54", 5, 4);
  }
}
