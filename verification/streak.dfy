/**
 Runs of `true` in a sequence of booleans: the reference definition of the
 "best sequence of meals on diet" that the `/info` handler computes in one pass.
 All definitions recurse on the prefix, the order in which the handler reads the rows.
 */
module Streak {

  function Max(a: nat, b: nat): nat {
    if a < b then b else a
  }

  /** `s[i .. i + n]` lies inside `s` and every entry in it is `true`. */
  predicate IsRunFrom(s: seq<bool>, i: nat, n: nat) {
    i + n <= |s| && forall k :: i <= k < i + n ==> s[k]
  }

  /** The number of `true` entries. */
  function CountTrue(s: seq<bool>): (n: nat)
    ensures n <= |s|
  {
    if |s| == 0 then 0
    else CountTrue(s[..|s| - 1]) + (if s[|s| - 1] then 1 else 0)
  }

  /**
   The length of the run of `true` that ends `s`: the whole tail it names is
   `true`, and the entry just before it, if any, is `false`, so it is maximal.
   */
  function TrailingRun(s: seq<bool>): (n: nat)
    ensures n <= |s|
    ensures IsRunFrom(s, |s| - n, n)
    ensures n < |s| ==> !s[|s| - n - 1]
  {
    if |s| == 0 || !s[|s| - 1] then 0
    else
      var init := s[..|s| - 1];
      var m := TrailingRun(init);
      assert forall k :: |s| - (m + 1) <= k < |s| - 1 ==> s[k] == init[k];
      m + 1
  }

  /** The length of the longest run of `true` anywhere in `s`. */
  function LongestRun(s: seq<bool>): (n: nat)
    ensures n <= |s|
  {
    if |s| == 0 then 0
    else Max(LongestRun(s[..|s| - 1]), TrailingRun(s))
  }

  /** A run of `true` lies wholly before or wholly after any `false` entry. */
  lemma RunAvoidsFalse(s: seq<bool>, i: nat, n: nat, k: nat)
    requires IsRunFrom(s, i, n) && k < |s| && !s[k]
    ensures i + n <= k || k < i
  {
  }

  /** A run that reaches the end of `s` is no longer than the trailing run. */
  lemma TrailingRunIsMaximal(s: seq<bool>, i: nat, n: nat)
    requires IsRunFrom(s, i, n) && i + n == |s|
    ensures n <= TrailingRun(s)
  {
  }

  /** Some run of `true` in `s` has exactly the length `LongestRun(s)`. */
  lemma {:induction false} LongestRunIsAchieved(s: seq<bool>)
    ensures exists i: nat :: IsRunFrom(s, i, LongestRun(s))
  {
    if |s| == 0 {
      assert IsRunFrom(s, 0, LongestRun(s));
    } else {
      var init := s[..|s| - 1];
      LongestRunIsAchieved(init);
      if LongestRun(init) >= TrailingRun(s) {
        var i: nat :| IsRunFrom(init, i, LongestRun(init));
        assert IsRunFrom(s, i, LongestRun(s));
      } else {
        assert IsRunFrom(s, |s| - TrailingRun(s), LongestRun(s));
      }
    }
  }

  /** No run of `true` in `s` is longer than `LongestRun(s)`. */
  lemma {:induction false} LongestRunIsMaximal(s: seq<bool>, i: nat, n: nat)
    requires IsRunFrom(s, i, n)
    ensures n <= LongestRun(s)
  {
    if |s| > 0 {
      var init := s[..|s| - 1];
      if i + n < |s| {
        assert IsRunFrom(init, i, n);
        LongestRunIsMaximal(init, i, n);
      } else {
        TrailingRunIsMaximal(s, i, n);
      }
    }
  }

  /** `LongestRun(s)` is the length of a run of `true` in `s` and no run is longer. */
  lemma LongestRunIsLongest(s: seq<bool>)
    ensures exists i: nat :: IsRunFrom(s, i, LongestRun(s))
    ensures forall i: nat, n: nat :: IsRunFrom(s, i, n) ==> n <= LongestRun(s)
  {
    LongestRunIsAchieved(s);
    forall i: nat, n: nat | IsRunFrom(s, i, n)
      ensures n <= LongestRun(s)
    {
      LongestRunIsMaximal(s, i, n);
    }
  }

  /** A run of `true` never has more entries than there are `true` entries. */
  lemma {:induction false} TrailingRunAtMostCount(s: seq<bool>)
    ensures TrailingRun(s) <= CountTrue(s)
  {
    if |s| > 0 && s[|s| - 1] {
      TrailingRunAtMostCount(s[..|s| - 1]);
    }
  }

  /** The longest run is bounded by the number of `true` entries. */
  lemma {:induction false} LongestRunAtMostCount(s: seq<bool>)
    ensures LongestRun(s) <= CountTrue(s)
  {
    if |s| > 0 {
      LongestRunAtMostCount(s[..|s| - 1]);
      TrailingRunAtMostCount(s);
    }
  }

  /** In an all-`true` sequence the longest run is the whole sequence. */
  lemma {:induction false} LongestRunAllTrue(s: seq<bool>)
    requires forall k :: 0 <= k < |s| ==> s[k]
    ensures LongestRun(s) == |s|
  {
    assert IsRunFrom(s, 0, |s|);
    LongestRunIsMaximal(s, 0, |s|);
  }

  /** `CountTrue` agrees with the multiset view: it is the multiplicity of `true`. */
  lemma {:induction false} CountTrueIsMultiplicity(s: seq<bool>)
    ensures CountTrue(s) == multiset(s)[true]
  {
    if |s| > 0 {
      var init := s[..|s| - 1];
      assert s == init + [s[|s| - 1]];
      CountTrueIsMultiplicity(init);
    }
  }
}
