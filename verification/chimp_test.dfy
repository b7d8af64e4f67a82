/**
 * Chimp test: the numbers 0..9 are placed on distinct tiles of an 8 x 5 grid,
 * shown for a few seconds, then hidden; the player must click them in
 * ascending order. A wrong click reveals every number and ends the game.
 *
 * Each timer callback and each click is one step function from game to game.
 * The random source is replaced by offsets the caller supplies.
 */
module ChimpTest {
  import opened Common
  import opened FisherYates

  datatype Phase = Settings | Countdown | Memorize | Recall | Result

  /** One grid cell: the number it carries (if any), whether it is revealed, and how it was judged. */
  datatype Tile = Tile(number: Option<nat>, isClicked: bool, isCorrect: Option<bool>)

  /**
   * The session. `displayTime` (seconds of memorizing) is edited on the
   * settings screen; `nextExpected` is the number the player must click next.
   */
  datatype Game = Game(
    phase: Phase,
    displayTime: nat,
    countdown: int,
    tiles: seq<Tile>,
    nextExpected: nat,
    score: nat)

  const GRID_COLS := 8
  const GRID_ROWS := 5
  const GRID_SIZE := GRID_COLS * GRID_ROWS
  const NUMBER_COUNT := 10
  const COUNTDOWN_START := 3

  const BlankTile := Tile(None, false, None)

  /** The state when the page opens: settings, no tiles, a zero score; a reachable state. */
  function Init(): (g: Game)
    ensures g.phase == Settings && g.tiles == [] && g.score == 0
    ensures Valid(g)
  {
    Game(Settings, 3, COUNTDOWN_START, [], 0, 0)
  }

  // ---------------------------------------------------------------------------
  // Tile generation

  /** `n` is on some tile. */
  ghost predicate NumberPlaced(tiles: seq<Tile>, n: nat)
  {
    exists t :: 0 <= t < |tiles| && tiles[t].number == Some(n)
  }

  /** The indices of the tiles that carry a number. */
  ghost function NumberedTiles(tiles: seq<Tile>): set<nat>
  {
    set t: nat | t < |tiles| && tiles[t].number.Some?
  }

  /**
   * A grid of 40 tiles on which the numbers 0..9 each appear on exactly one
   * tile and no tile carries any other number.
   */
  ghost predicate WellPlaced(tiles: seq<Tile>)
  {
    && |tiles| == GRID_SIZE
    && (forall t :: 0 <= t < |tiles| && tiles[t].number.Some? ==> tiles[t].number.value < NUMBER_COUNT)
    && (forall n :: 0 <= n < NUMBER_COUNT ==> NumberPlaced(tiles, n))
    && (forall t, t' :: 0 <= t < t' < |tiles| && tiles[t].number.Some? ==> tiles[t].number != tiles[t'].number)
  }

  /** The positions 0, 1, ..., n-1. */
  function Positions(n: nat): (ps: seq<nat>)
    ensures |ps| == n && Distinct(ps)
    ensures forall i :: 0 <= i < n ==> ps[i] == i
  {
    seq(n, i => i)
  }

  /**
   * Writes number i on the tile at the i-th picked position, for every i
   * from `k` on; every other tile keeps its number.
   */
  function PlaceNumbers(tiles: seq<Tile>, picked: seq<nat>, k: nat): (r: seq<Tile>)
    requires k <= |picked|
    requires Distinct(picked)
    requires forall i :: 0 <= i < |picked| ==> picked[i] < |tiles|
    ensures |r| == |tiles|
    ensures forall i :: k <= i < |picked| ==> r[picked[i]].number == Some(i)
    ensures forall t :: 0 <= t < |tiles| && t !in picked[k..] ==> r[t].number == tiles[t].number
    ensures forall t :: 0 <= t < |tiles| ==> r[t].isClicked == tiles[t].isClicked && r[t].isCorrect == tiles[t].isCorrect
    decreases |picked| - k
  {
    if k == |picked| then tiles
    else
      var p := picked[k];
      assert forall j :: k + 1 <= j < |picked| ==> picked[j] != p;
      assert picked[k..] == [p] + picked[k + 1..];
      PlaceNumbers(tiles[p := tiles[p].(number := Some(k))], picked, k + 1)
  }

  /** The empty grid. */
  function Blank(): (tiles: seq<Tile>)
    ensures |tiles| == GRID_SIZE
    ensures forall t :: 0 <= t < |tiles| ==> tiles[t] == BlankTile
  {
    seq(GRID_SIZE, _ => BlankTile)
  }

  /** On the blank grid, tile t carries `Some(i)` exactly when t is the i-th pick. */
  lemma PlacementNumbers(picked: seq<nat>, tiles: seq<Tile>, t: nat)
    requires Distinct(picked)
    requires forall i :: 0 <= i < |picked| ==> picked[i] < GRID_SIZE
    requires tiles == PlaceNumbers(Blank(), picked, 0)
    requires t < |tiles|
    ensures t !in picked ==> tiles[t].number == None
    ensures t in picked ==> exists i :: 0 <= i < |picked| && picked[i] == t && tiles[t].number == Some(i)
  {
    assert picked[0..] == picked;
    if t in picked {
      var i :| 0 <= i < |picked| && picked[i] == t;
      assert tiles[picked[i]].number == Some(i);
    }
  }

  lemma PlacementWellPlaced(picked: seq<nat>, tiles: seq<Tile>)
    requires |picked| == NUMBER_COUNT && Distinct(picked)
    requires forall i :: 0 <= i < |picked| ==> picked[i] < GRID_SIZE
    requires tiles == PlaceNumbers(Blank(), picked, 0)
    ensures WellPlaced(tiles)
  {
    assert picked[0..] == picked;
    forall n | 0 <= n < NUMBER_COUNT ensures NumberPlaced(tiles, n) {
      assert tiles[picked[n]].number == Some(n);
    }
    forall t | 0 <= t < |tiles| && tiles[t].number.Some? ensures tiles[t].number.value < NUMBER_COUNT {
      PlacementNumbers(picked, tiles, t);
    }
    forall t, t' | 0 <= t < t' < |tiles| && tiles[t].number.Some?
      ensures tiles[t].number != tiles[t'].number
    {
      PlacementNumbers(picked, tiles, t);
      PlacementNumbers(picked, tiles, t');
    }
  }

  lemma PlacementCount(picked: seq<nat>, tiles: seq<Tile>)
    requires Distinct(picked)
    requires forall i :: 0 <= i < |picked| ==> picked[i] < GRID_SIZE
    requires tiles == PlaceNumbers(Blank(), picked, 0)
    ensures |NumberedTiles(tiles)| == |picked|
  {
    var numbered := NumberedTiles(tiles);
    var elements := Elements(picked);
    forall t | t in numbered ensures t in elements {
      PlacementNumbers(picked, tiles, t);
    }
    forall x | x in elements ensures x in numbered {
      PlacementNumbers(picked, tiles, x);
    }
    assert numbered == elements;
    DistinctElementsCardinality(picked);
  }

  /** The ten grid positions the partial pass picks: distinct, and all on the grid. */
  function PickPositions(offsets: seq<nat>): (picked: seq<nat>)
    requires |offsets| == NUMBER_COUNT && ForwardOffsets(GRID_SIZE, offsets)
    ensures |picked| == NUMBER_COUNT && Distinct(picked)
    ensures forall i :: 0 <= i < |picked| ==> picked[i] < GRID_SIZE
  {
    var all := Positions(GRID_SIZE);
    var picked := PartialPick(all, offsets);
    forall i | 0 <= i < |picked| ensures picked[i] < GRID_SIZE {
      var k :| 0 <= k < |all| && all[k] == picked[i];
    }
    picked
  }

  /**
   * `generateTiles`: 40 blank tiles, then the first ten positions of a
   * partial Fisher–Yates pass over 0..39 receive 0..9 in the order picked.
   * Exactly ten tiles carry a number, each of 0..9 once, and none is revealed
   * or judged.
   */
  function GenerateTiles(offsets: seq<nat>): (tiles: seq<Tile>)
    requires |offsets| == NUMBER_COUNT && ForwardOffsets(GRID_SIZE, offsets)
    ensures |tiles| == GRID_SIZE
    ensures forall t :: 0 <= t < |tiles| ==> !tiles[t].isClicked && tiles[t].isCorrect == None
    ensures WellPlaced(tiles)
    ensures |NumberedTiles(tiles)| == NUMBER_COUNT
  {
    var picked := PickPositions(offsets);
    var tiles := PlaceNumbers(Blank(), picked, 0);
    PlacementWellPlaced(picked, tiles);
    PlacementCount(picked, tiles);
    tiles
  }

  // ---------------------------------------------------------------------------
  // Reachable states

  /** While recalling: exactly the numbers below `nextExpected` have been clicked, all correctly. */
  ghost predicate RecallProgress(g: Game)
  {
    && g.nextExpected < NUMBER_COUNT
    && g.score == g.nextExpected
    && forall t :: 0 <= t < |g.tiles| ==>
         && (g.tiles[t].isClicked <==> g.tiles[t].number.Some? && g.tiles[t].number.value < g.nextExpected)
         && g.tiles[t].isCorrect == (if g.tiles[t].isClicked then Some(true) else None)
  }

  /**
   * At the result: every numbered tile is revealed and no blank one, the
   * tiles judged correct are exactly those numbered below the score, and the
   * score equals the number reached (or 10 after clicking 9).
   */
  ghost predicate Finished(g: Game)
  {
    && g.nextExpected < NUMBER_COUNT
    && (g.score == g.nextExpected || (g.score == NUMBER_COUNT && g.nextExpected == NUMBER_COUNT - 1))
    && (forall t :: 0 <= t < |g.tiles| && g.tiles[t].number.Some? ==>
         && g.tiles[t].isClicked
         && (g.tiles[t].isCorrect == Some(true) <==> g.tiles[t].number.value < g.score))
    && (forall t :: 0 <= t < |g.tiles| && g.tiles[t].number.None? ==>
         !g.tiles[t].isClicked && g.tiles[t].isCorrect == None)
  }

  /** The states the game can reach from `Init` through the step functions below. */
  ghost predicate Valid(g: Game)
  {
    && 1 <= g.displayTime <= 10
    && (g.phase.Settings? ==> g.tiles == [] && g.score == 0 && g.nextExpected == 0)
    && (g.phase.Countdown? ==> 0 <= g.countdown <= COUNTDOWN_START && g.score == 0 && g.nextExpected == 0)
    && (g.phase.Memorize? || g.phase.Recall? || g.phase.Result? ==> WellPlaced(g.tiles))
    && (g.phase.Memorize? ==>
          && g.score == 0 && g.nextExpected == 0
          && forall t :: 0 <= t < |g.tiles| ==> !g.tiles[t].isClicked && g.tiles[t].isCorrect == None)
    && (g.phase.Recall? ==> RecallProgress(g))
    && (g.phase.Result? ==> Finished(g))
  }

  // ---------------------------------------------------------------------------
  // Steps

  /** The display-time slider (1 to 10 seconds), shown only in `Settings`. */
  function Configure(g: Game, displayTime: nat): (r: Game)
    requires 1 <= displayTime <= 10
    ensures g.phase.Settings? ==> r == g.(displayTime := displayTime)
    ensures !g.phase.Settings? ==> r == g
    ensures Valid(g) ==> Valid(r)
  {
    if g.phase.Settings? then g.(displayTime := displayTime) else g
  }

  /** The start buttons are on screen: "Start Training" in settings, "Play Again" at the result. */
  predicate StartShown(g: Game)
  {
    g.phase.Settings? || g.phase.Result?
  }

  /**
   * "Start Training" / "Play Again": score and expected number back to 0,
   * countdown at 3; the old tiles stay until the countdown ends. In the other
   * phases neither button is on screen and nothing changes.
   */
  function StartGame(g: Game): (r: Game)
    ensures StartShown(g) ==> r.phase == Countdown && r.countdown == COUNTDOWN_START && r.score == 0 && r.nextExpected == 0
    ensures StartShown(g) ==> r.tiles == g.tiles && r.displayTime == g.displayTime
    ensures !StartShown(g) ==> r == g
    ensures Valid(g) ==> Valid(r)
  {
    if StartShown(g) then g.(phase := Countdown, countdown := COUNTDOWN_START, score := 0, nextExpected := 0) else g
  }

  /**
   * The countdown effect: a positive counter drops by exactly one; at zero
   * the tiles are generated, once, and the memorize phase begins.
   */
  function CountdownTick(g: Game, offsets: seq<nat>): (r: Game)
    requires |offsets| == NUMBER_COUNT && ForwardOffsets(GRID_SIZE, offsets)
    ensures !g.phase.Countdown? ==> r == g
    ensures g.phase.Countdown? && g.countdown > 0 ==> r == g.(countdown := g.countdown - 1)
    ensures g.phase.Countdown? && g.countdown <= 0 ==>
      && r.phase == Memorize
      && WellPlaced(r.tiles)
      && |NumberedTiles(r.tiles)| == NUMBER_COUNT
      && r.(tiles := g.tiles, phase := g.phase) == g
    ensures Valid(g) ==> Valid(r)
  {
    if !g.phase.Countdown? then g
    else if g.countdown > 0 then g.(countdown := g.countdown - 1)
    else g.(tiles := GenerateTiles(offsets), phase := Memorize)
  }

  /** The memorize timer: after `displayTime` seconds the numbers are hidden for recall. */
  function MemorizeTimeout(g: Game): (r: Game)
    ensures g.phase.Memorize? ==> r == g.(phase := Recall)
    ensures !g.phase.Memorize? ==> r == g
    ensures Valid(g) ==> Valid(r)
  {
    if g.phase.Memorize? then g.(phase := Recall) else g
  }

  /** Every numbered tile revealed; nothing else changes. */
  function RevealNumbered(tiles: seq<Tile>): (r: seq<Tile>)
    ensures |r| == |tiles|
    ensures forall t :: 0 <= t < |tiles| ==>
      r[t] == tiles[t].(isClicked := tiles[t].number.Some? || tiles[t].isClicked)
  {
    seq(|tiles|, t requires 0 <= t < |tiles| =>
      tiles[t].(isClicked := if tiles[t].number.Some? then true else tiles[t].isClicked))
  }

  /** A click on `tiles[index]` that the handler ignores. */
  predicate IgnoredClick(g: Game, index: nat)
    requires g.phase.Recall? ==> index < |g.tiles|
  {
    !g.phase.Recall? || g.tiles[index].isClicked || g.tiles[index].number.None?
  }

  /**
   * `handleTileClick`: outside recall, on a revealed tile or on an empty tile
   * nothing changes. Otherwise the tile is revealed and judged; a correct click
   * scores a point and expects the next number (or, after 9, ends the game);
   * a wrong click reveals every number and ends the game without scoring.
   * The numbers on the tiles, the display time and the countdown never change.
   */
  function TileClick(g: Game, index: nat): (r: Game)
    requires g.phase.Recall? ==> index < |g.tiles|
    ensures r == g <==> IgnoredClick(g, index)
    ensures |r.tiles| == |g.tiles|
    ensures forall t :: 0 <= t < |g.tiles| ==> r.tiles[t].number == g.tiles[t].number
    ensures r.(tiles := g.tiles, score := g.score, nextExpected := g.nextExpected, phase := g.phase) == g
    ensures !IgnoredClick(g, index) ==>
      var correct := g.tiles[index].number.value == g.nextExpected;
      && r.tiles[index] == g.tiles[index].(isClicked := true, isCorrect := Some(correct))
      && (correct ==>
            && r.score == g.score + 1
            && (forall t :: 0 <= t < |g.tiles| && t != index ==> r.tiles[t] == g.tiles[t])
            && (if g.nextExpected == NUMBER_COUNT - 1
                then r.phase == Result && r.nextExpected == g.nextExpected
                else r.phase == Recall && r.nextExpected == g.nextExpected + 1))
      && (!correct ==>
            && r.score == g.score
            && r.nextExpected == g.nextExpected
            && r.phase == Result
            && forall t :: 0 <= t < |g.tiles| && t != index ==>
                 r.tiles[t] == g.tiles[t].(isClicked := g.tiles[t].number.Some? || g.tiles[t].isClicked))
    ensures Valid(g) ==> Valid(r)
    ensures Valid(g) ==> r.score <= NUMBER_COUNT && (r.phase.Recall? ==> r.score == r.nextExpected)
  {
    if IgnoredClick(g, index) then g
    else
      var tile := g.tiles[index];
      var correct := tile.number.value == g.nextExpected;
      var tiles := g.tiles[index := tile.(isClicked := true, isCorrect := Some(correct))];
      var r :=
        if correct then
          if g.nextExpected == NUMBER_COUNT - 1 then g.(tiles := tiles, score := g.score + 1, phase := Result)
          else g.(tiles := tiles, score := g.score + 1, nextExpected := g.nextExpected + 1)
        else
          g.(tiles := RevealNumbered(tiles), phase := Result);
      assert r.tiles[index] != g.tiles[index];
      ValidAfterClick(g, index, r);
      r
  }

  /** The invariant part of `TileClick`'s contract, proved from its effect. */
  lemma ValidAfterClick(g: Game, index: nat, r: Game)
    requires g.phase.Recall? && index < |g.tiles| && !IgnoredClick(g, index)
    requires var tile := g.tiles[index];
      var correct := tile.number.value == g.nextExpected;
      var tiles := g.tiles[index := tile.(isClicked := true, isCorrect := Some(correct))];
      r == (if correct then
              if g.nextExpected == NUMBER_COUNT - 1 then g.(tiles := tiles, score := g.score + 1, phase := Result)
              else g.(tiles := tiles, score := g.score + 1, nextExpected := g.nextExpected + 1)
            else
              g.(tiles := RevealNumbered(tiles), phase := Result))
    ensures Valid(g) ==> Valid(r)
  {
    if Valid(g) {
      var m := g.tiles[index].number.value;
      var e := g.nextExpected;
      assert m >= e;
      assert WellPlaced(r.tiles) by {
        assert forall t :: 0 <= t < |g.tiles| ==> r.tiles[t].number == g.tiles[t].number;
        forall n | 0 <= n < NUMBER_COUNT ensures NumberPlaced(r.tiles, n) {
          assert NumberPlaced(g.tiles, n);
          var t :| 0 <= t < |g.tiles| && g.tiles[t].number == Some(n);
          assert r.tiles[t].number == Some(n);
        }
      }
      if m == e {
        // only the clicked tile carries e
        forall t | 0 <= t < |g.tiles| && t != index
          ensures g.tiles[t].number != Some(e)
        {
          if t < index {
            assert g.tiles[index].number.Some?;
            if g.tiles[t].number.Some? {
              assert g.tiles[t].number != g.tiles[index].number;
            }
          } else {
            assert g.tiles[index].number != g.tiles[t].number;
          }
        }
      }
    }
  }

  /**
   * "Change Settings", on the result screen only: back to the settings screen
   * with no tiles and a zero score.
   */
  function ResetGame(g: Game): (r: Game)
    ensures g.phase.Result? ==> r.phase == Settings && r.tiles == [] && r.nextExpected == 0 && r.score == 0
    ensures g.phase.Result? ==> r.displayTime == g.displayTime
    ensures !g.phase.Result? ==> r == g
    ensures Valid(g) ==> Valid(r)
  {
    if g.phase.Result? then g.(phase := Settings, tiles := [], nextExpected := 0, score := 0) else g
  }

  // ---------------------------------------------------------------------------
  // Properties over several steps

  /** Clicks on the given tiles, one after the other. */
  function ClickAll(g: Game, clicks: seq<nat>): (r: Game)
    requires Valid(g)
    requires forall i :: 0 <= i < |clicks| ==> clicks[i] < GRID_SIZE
    ensures Valid(r)
    decreases |clicks|
  {
    if |clicks| == 0 then g else ClickAll(TileClick(g, clicks[0]), clicks[1..])
  }

  /** Two tiles carrying the same number are the same tile. */
  lemma SamePosition(tiles: seq<Tile>, t: nat, t': nat)
    requires WellPlaced(tiles)
    requires t < |tiles| && t' < |tiles| && tiles[t].number.Some? && tiles[t].number == tiles[t'].number
    ensures t == t'
  {
  }

  /**
   * Clicking the tiles that carry nextExpected, nextExpected + 1, ..., 9 in
   * that order wins: the game ends in the result with a score of 10.
   */
  lemma {:induction false} InOrderClicksWin(g: Game, clicks: seq<nat>)
    requires Valid(g) && g.phase.Recall?
    requires |clicks| == NUMBER_COUNT - g.nextExpected
    requires forall i :: 0 <= i < |clicks| ==> clicks[i] < GRID_SIZE && g.tiles[clicks[i]].number == Some(g.nextExpected + i)
    ensures ClickAll(g, clicks).phase == Result
    ensures ClickAll(g, clicks).score == NUMBER_COUNT
    decreases |clicks|
  {
    var g' := TileClick(g, clicks[0]);
    CorrectClick(g, clicks[0]);
    ClickAllFirst(g, clicks);
    if g.nextExpected < NUMBER_COUNT - 1 {
      var rest := clicks[1..];
      forall i | 0 <= i < |rest|
        ensures rest[i] < GRID_SIZE && g'.tiles[rest[i]].number == Some(g'.nextExpected + i)
      {
        assert rest[i] == clicks[i + 1];
      }
      InOrderClicksWin(g', rest);
    }
  }

  /** Clicking a sequence of tiles is clicking the first, then the rest. */
  lemma ClickAllFirst(g: Game, clicks: seq<nat>)
    requires Valid(g) && |clicks| > 0
    requires forall i :: 0 <= i < |clicks| ==> clicks[i] < GRID_SIZE
    ensures ClickAll(g, clicks) == ClickAll(TileClick(g, clicks[0]), clicks[1..])
    ensures |clicks| == 1 ==> ClickAll(g, clicks) == TileClick(g, clicks[0])
  {
  }

  /** Three clicks in a row. */
  lemma ThreeClicks(g: Game, c0: nat, c1: nat, c2: nat)
    requires Valid(g) && c0 < GRID_SIZE && c1 < GRID_SIZE && c2 < GRID_SIZE
    ensures ClickAll(g, [c0, c1, c2]) == TileClick(TileClick(TileClick(g, c0), c1), c2)
  {
    var g1 := TileClick(g, c0);
    var g2 := TileClick(g1, c1);
    ClickAllFirst(g, [c0, c1, c2]);
    assert [c0, c1, c2][1..] == [c1, c2];
    ClickAllFirst(g1, [c1, c2]);
    assert [c1, c2][1..] == [c2];
    ClickAllFirst(g2, [c2]);
  }

  /** A click on the hidden tile carrying the expected number, from a reachable recall state. */
  lemma CorrectClick(g: Game, c: nat)
    requires Valid(g) && g.phase.Recall? && c < |g.tiles| && g.tiles[c].number == Some(g.nextExpected)
    ensures var r := TileClick(g, c);
      && Valid(r)
      && r.score == g.score + 1
      && (g.nextExpected < NUMBER_COUNT - 1 ==> r.phase == Recall && r.nextExpected == g.nextExpected + 1)
      && (g.nextExpected == NUMBER_COUNT - 1 ==> r.phase == Result)
      && |r.tiles| == |g.tiles|
      && forall t :: 0 <= t < |g.tiles| ==> r.tiles[t].number == g.tiles[t].number
  {
    assert !g.tiles[c].isClicked;
  }

  /** A click on a hidden tile carrying a later number, from a reachable recall state. */
  lemma WrongClick(g: Game, w: nat)
    requires Valid(g) && g.phase.Recall? && w < |g.tiles|
    requires g.tiles[w].number.Some? && g.tiles[w].number.value > g.nextExpected
    ensures var r := TileClick(g, w);
      && Valid(r)
      && r.phase == Result
      && r.score == g.score
      && forall t :: 0 <= t < |r.tiles| && r.tiles[t].number.Some? ==> r.tiles[t].isClicked
  {
    assert !g.tiles[w].isClicked;
  }

  /**
   * Clicking the tile numbered 0, then the one numbered 1, then one with a
   * number above 2 ends the game at once with a score of 2 and every number
   * revealed.
   */
  lemma TwoCorrectThenWrong(g: Game, c0: nat, c1: nat, w: nat)
    requires Valid(g) && g.phase.Recall? && g.nextExpected == 0
    requires c0 < GRID_SIZE && c1 < GRID_SIZE && w < GRID_SIZE
    requires g.tiles[c0].number == Some(0) && g.tiles[c1].number == Some(1)
    requires g.tiles[w].number.Some? && g.tiles[w].number.value > 2
    ensures var r := ClickAll(g, [c0, c1, w]);
      && r.phase == Result
      && r.score == 2
      && forall t :: 0 <= t < |r.tiles| && r.tiles[t].number.Some? ==> r.tiles[t].isClicked
  {
    var g1 := TileClick(g, c0);
    CorrectClick(g, c0);
    var g2 := TileClick(g1, c1);
    CorrectClick(g1, c1);
    WrongClick(g2, w);
    ThreeClicks(g, c0, c1, w);
  }

  /** The tiles whose number is below `s`. */
  ghost function NumberedBelow(tiles: seq<Tile>, s: nat): set<nat>
  {
    set t: nat | t < |tiles| && tiles[t].number.Some? && tiles[t].number.value < s
  }

  /** Raising the bound by one adds exactly the tile that carries the old bound. */
  lemma NumberedBelowStep(tiles: seq<Tile>, s: nat, p: nat)
    requires WellPlaced(tiles) && p < |tiles| && tiles[p].number == Some(s)
    ensures NumberedBelow(tiles, s + 1) == NumberedBelow(tiles, s) + {p}
    ensures p !in NumberedBelow(tiles, s)
  {
    var lower := NumberedBelow(tiles, s);
    var upper := NumberedBelow(tiles, s + 1);
    forall t | t in upper ensures t in lower + {p} {
      if t !in lower {
        SamePosition(tiles, t, p);
      }
    }
    assert upper <= lower + {p};
  }

  lemma {:induction false} NumberedBelowCount(tiles: seq<Tile>, s: nat)
    requires WellPlaced(tiles) && s <= NUMBER_COUNT
    ensures |NumberedBelow(tiles, s)| == s
  {
    if s > 0 {
      NumberedBelowCount(tiles, s - 1);
      assert NumberPlaced(tiles, s - 1);
      var p :| 0 <= p < |tiles| && tiles[p].number == Some(s - 1);
      NumberedBelowStep(tiles, s - 1, p);
    }
  }

  /** The tiles judged correct. */
  ghost function JudgedCorrect(tiles: seq<Tile>): set<nat>
  {
    set t: nat | t < |tiles| && tiles[t].isCorrect == Some(true)
  }

  /** While recalling and at the result, the score is the number of tiles judged correct. */
  lemma ScoreCountsCorrectTiles(g: Game)
    requires Valid(g) && (g.phase.Recall? || g.phase.Result?)
    ensures |JudgedCorrect(g.tiles)| == g.score
  {
    assert JudgedCorrect(g.tiles) == NumberedBelow(g.tiles, g.score);
    NumberedBelowCount(g.tiles, g.score);
  }
}
