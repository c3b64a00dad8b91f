/**
 * The iterator helpers of analysis.py (`pairwise`, `pad`, `nth`), as
 * functions on finite sequences with the same results.
 */
module Iterables {

  /** `pairwise(s)`: every element paired with the one after it. */
  function Pairwise<T>(s: seq<T>): (r: seq<(T, T)>)
    ensures |r| == if |s| == 0 then 0 else |s| - 1
    ensures forall i :: 0 <= i < |r| ==> r[i] == (s[i], s[i + 1])
  {
    if |s| < 2 then [] else [(s[0], s[1])] + Pairwise(s[1..])
  }

  /** `pad(s, padding)`: the padding element before and after `s`. */
  function Pad<T>(s: seq<T>, padding: T): (r: seq<T>)
    ensures |r| == |s| + 2 && r[0] == padding && r[|s| + 1] == padding
    ensures forall i :: 0 <= i < |s| ==> r[i + 1] == s[i]
  {
    [padding] + (s + [padding])
  }

  /**
   * `nth(s, n, default)`: skip `n` elements (`islice`), then take the next
   * one, or `default` if there is none.
   */
  function Nth<T>(s: seq<T>, n: nat, default: T): (r: T)
    ensures r == if n < |s| then s[n] else default
  {
    if s == [] then default
    else if n == 0 then s[0]
    else Nth(s[1..], n - 1, default)
  }

  /** Appending an element adds one pair at the end. */
  lemma {:induction false} PairwiseSnoc<T>(s: seq<T>, x: T)
    requires s != []
    ensures Pairwise(s + [x]) == Pairwise(s) + [(s[|s| - 1], x)]
  {
    if |s| > 1 {
      assert (s + [x])[1..] == s[1..] + [x];
      PairwiseSnoc(s[1..], x);
    }
  }

  /** Prepending an element adds one pair at the front. */
  lemma PairwiseCons<T>(x: T, s: seq<T>)
    requires s != []
    ensures Pairwise([x] + s) == [(x, s[0])] + Pairwise(s)
  {
    assert ([x] + s)[1..] == s;
  }

  /**
   * The pairs of a padded sequence: the padding with the first element, the
   * pairs of the sequence itself, the last element with the padding; a
   * padded empty sequence has the single pair (padding, padding).
   */
  lemma PairwisePad<T>(s: seq<T>, padding: T)
    ensures Pairwise(Pad(s, padding)) ==
              if s == [] then [(padding, padding)]
              else [(padding, s[0])] + (Pairwise(s) + [(s[|s| - 1], padding)])
  {
    if s != [] {
      PairwiseCons(padding, s + [padding]);
      PairwiseSnoc(s, padding);
    }
  }
}
