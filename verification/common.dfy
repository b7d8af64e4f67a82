/**
 * Definitions shared by the three mini-games: an optional value (used for the
 * JavaScript `null` of the source), distinctness of sequences with the
 * cardinality facts that go with it, and the countdown cue every game plays.
 */
module Common {

  /** `None` stands for the source's `null` (an unset answer, a tile without a number). */
  datatype Option<+T> = None | Some(value: T)

  /** No value occurs twice in `s`. */
  ghost predicate Distinct<T>(s: seq<T>)
  {
    forall i, j :: 0 <= i < j < |s| ==> s[i] != s[j]
  }

  /** The values that occur in `s`. */
  ghost function Elements<T>(s: seq<T>): set<T>
  {
    set x | x in s
  }

  /** A sequence without repetitions has as many distinct elements as it has entries. */
  lemma {:induction false} DistinctElementsCardinality<T>(s: seq<T>)
    requires Distinct(s)
    ensures |Elements(s)| == |s|
  {
    if |s| > 0 {
      var init := s[..|s| - 1];
      assert Distinct(init);
      DistinctElementsCardinality(init);
      var last := s[|s| - 1];
      assert last !in init by {
        forall k | 0 <= k < |init| ensures init[k] != last {
          assert s[k] != s[|s| - 1];
        }
      }
      assert Elements(s) == Elements(init) + {last} by {
        assert s == init + [last];
      }
    }
  }

  /**
   * The tone, in hertz, played on each countdown tick while the counter is
   * still positive: 3 plays 440, 2 plays 523, and 1 (or any other positive
   * value) plays 659. All three games share this choice.
   */
  function CountdownBeepFrequency(countdown: int): (hz: nat)
    requires countdown > 0
    ensures hz in {440, 523, 659}
    ensures countdown == 3 <==> hz == 440
    ensures countdown == 2 <==> hz == 523
  {
    if countdown == 3 then 440 else if countdown == 2 then 523 else 659
  }

  /** Each value occurs at most once in a sequence without repetitions. */
  lemma {:induction false} DistinctCountsAtMostOne<T>(t: seq<T>, x: T)
    requires Distinct(t)
    ensures multiset(t)[x] <= 1
  {
    if |t| > 0 {
      var init := t[..|t| - 1];
      var last := t[|t| - 1];
      assert Distinct(init);
      DistinctCountsAtMostOne(init, x);
      assert t == init + [last];
      if x == last {
        assert x !in init by {
          forall k | 0 <= k < |init| ensures init[k] != last {
            assert t[k] != t[|t| - 1];
          }
        }
      }
    }
  }

  /** A value found at two positions occurs at least twice. */
  lemma RepeatCountsTwice<T>(s: seq<T>, i: nat, j: nat)
    requires i < j < |s|
    ensures s[i] == s[j] ==> multiset(s)[s[i]] >= 2
  {
    assert s == s[..i] + [s[i]] + s[i + 1..j] + [s[j]] + s[j + 1..];
  }

  /** Rearranging a sequence without repetitions gives a sequence without repetitions. */
  lemma PermutationKeepsDistinct<T>(s: seq<T>, t: seq<T>)
    requires multiset(s) == multiset(t) && Distinct(t)
    ensures Distinct(s)
  {
    forall i, j | 0 <= i < j < |s| ensures s[i] != s[j] {
      DistinctCountsAtMostOne(t, s[i]);
      RepeatCountsTwice(s, i, j);
    }
  }

  lemma SubsetCardinality<T>(a: set<T>, b: set<T>)
    requires a <= b
    ensures |a| <= |b|
  {
    assert b == a + (b - a);
  }
}
