/**
 * The shuffle at app.py:97. Python's `random.shuffle` is the Fisher-Yates
 * shuffle: for i from the last position down to 1 it swaps item i with an
 * item j drawn from 0..i. The random source is a parameter: `draw(k)` is the
 * k-th number it produces, reduced into the range the shuffle asks for.
 */
module Shuffling {

  /** Swapping two items keeps the same items. */
  lemma SwapKeepsItems<T>(s: seq<T>, i: nat, j: nat)
    requires i < |s| && j < |s|
    ensures multiset(s[i := s[j]][j := s[i]]) == multiset(s)
  {
    if i != j {
      var t := s[i := s[j]];
      assert multiset(t) == multiset(s) - multiset{s[i]} + multiset{s[j]};
      assert t[j] == s[j];
      assert multiset(t[j := s[i]]) == multiset(t) - multiset{s[j]} + multiset{s[i]};
    }
  }

  /** The shuffled list is a permutation of the given one, whatever the draws. */
  method Shuffle<T>(s: seq<T>, draw: nat -> nat) returns (r: seq<T>)
    ensures |r| == |s|
    ensures multiset(r) == multiset(s)
  {
    r := s;
    var i := |r| - 1;
    var k := 0;
    while i >= 1
      invariant -1 <= i < |r|
      invariant |r| == |s|
      invariant multiset(r) == multiset(s)
    {
      var j := draw(k) % (i + 1);
      SwapKeepsItems(r, i, j);
      r := r[i := r[j]][j := r[i]];
      i := i - 1;
      k := k + 1;
    }
  }
}
