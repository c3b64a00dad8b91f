/**
 * `collections.Counter` as analysis.py uses it: a dictionary from keys to
 * counts that remembers the order in which keys were first inserted. The
 * order matters, because `elements()` (and so `weighted_choice`) walks the
 * keys in that order. A counter is an association list of (key, count)
 * entries in insertion order.
 */
module Counters {

  type Counter<K> = seq<(K, nat)>

  function Keys<K>(c: Counter<K>): set<K> {
    set i | 0 <= i < |c| :: c[i].0
  }

  /** `c[k]`: the count recorded for `k`, 0 for a missing key. */
  function Lookup<K(==,!new)>(c: Counter<K>, k: K): (n: nat)
    ensures n > 0 ==> k in Keys(c)
  {
    if c == [] then 0
    else (if c[0].0 == k then c[0].1 else 0) + Lookup(c[1..], k)
  }

  /** `sum(c.values())`. */
  function Total<K>(c: Counter<K>): nat {
    if c == [] then 0 else c[0].1 + Total(c[1..])
  }

  /** No key occurs twice, as in any dictionary. */
  ghost predicate Distinct<K>(c: Counter<K>) {
    forall i, j :: 0 <= i < j < |c| ==> c[i].0 != c[j].0
  }

  /** Every recorded count is at least 1, as in a counter built by counting. */
  predicate Positive<K>(c: Counter<K>) {
    forall i :: 0 <= i < |c| ==> c[i].1 > 0
  }

  /**
   * `c[x] += 1` inside `Counter(iterable)`: a key already present keeps its
   * place and its count goes up; a new key is appended with count 1.
   */
  function Increment<K(==,!new)>(c: Counter<K>, x: K): (r: Counter<K>)
    ensures forall k :: Lookup(r, k) == Lookup(c, k) + (if k == x then 1 else 0)
    ensures Total(r) == Total(c) + 1
    ensures Keys(r) == Keys(c) + {x}
    ensures Positive(c) ==> Positive(r)
    ensures Distinct(c) ==> Distinct(r)
  {
    if c == [] then [(x, 1)]
    else
      ConsFacts(c[0], c[1..]);
      assert c == [c[0]] + c[1..];
      if c[0].0 == x then
        ConsFacts((x, c[0].1 + 1), c[1..]);
        [(x, c[0].1 + 1)] + c[1..]
      else
        ConsFacts(c[0], Increment(c[1..], x));
        [c[0]] + Increment(c[1..], x)
  }

  /**
   * `Counter(s)`: count the elements of `s` from left to right. Each element
   * is counted as often as it occurs; the keys are the elements.
   */
  function CountAll<K(==,!new)>(s: seq<K>): (c: Counter<K>)
    ensures forall k :: Lookup(c, k) == multiset(s)[k]
    ensures Total(c) == |s|
    ensures Keys(c) == set x | x in s
    ensures Positive(c) && Distinct(c)
  {
    if s == [] then []
    else
      assert s == s[..|s| - 1] + [s[|s| - 1]];
      Increment(CountAll(s[..|s| - 1]), s[|s| - 1])
  }

  /** `c.elements()`: each key repeated as often as its count, in key order. */
  function Elements<K(==,!new)>(c: Counter<K>): (e: seq<K>)
    ensures |e| == Total(c)
    ensures forall k :: multiset(e)[k] == Lookup(c, k)
  {
    if c == [] then []
    else
      RepeatCount(c[0].0, c[0].1);
      Repeat(c[0].0, c[0].1) + Elements(c[1..])
  }

  /** Putting one entry in front of a counter. */
  lemma ConsFacts<K(!new)>(e: (K, nat), c: Counter<K>)
    ensures ([e] + c)[0] == e && ([e] + c)[1..] == c
    ensures forall k :: Lookup([e] + c, k) == (if e.0 == k then e.1 else 0) + Lookup(c, k)
    ensures Positive([e] + c) <==> e.1 > 0 && Positive(c)
    ensures Keys([e] + c) == {e.0} + Keys(c)
    ensures Total([e] + c) == e.1 + Total(c)
    ensures Distinct(c) && e.0 !in Keys(c) ==> Distinct([e] + c)
    ensures Distinct([e] + c) ==> Distinct(c) && e.0 !in Keys(c)
  {
    var d := [e] + c;
    assert d[1..] == c;
    forall k | k in Keys(d) ensures k in {e.0} + Keys(c) {
      var i :| 0 <= i < |d| && d[i].0 == k;
      if i > 0 { assert c[i - 1].0 == k; }
    }
    forall k | k in Keys(c) ensures k in Keys(d) {
      var i :| 0 <= i < |c| && c[i].0 == k;
      assert d[i + 1].0 == k;
    }
    assert e.0 == d[0].0;
    if Distinct(d) {
      forall i, j | 0 <= i < j < |c| ensures c[i].0 != c[j].0 {
        assert d[i + 1] == c[i] && d[j + 1] == c[j];
      }
    }
  }

  function Repeat<K>(k: K, n: nat): (s: seq<K>)
    ensures |s| == n
    ensures forall j :: 0 <= j < n ==> s[j] == k
  {
    if n == 0 then [] else [k] + Repeat(k, n - 1)
  }

  /** A key repeated `n` times occurs `n` times. */
  lemma {:induction false} RepeatCount<K>(k: K, n: nat)
    ensures forall x :: multiset(Repeat(k, n))[x] == if x == k then n else 0
  {
    if n > 0 {
      RepeatCount(k, n - 1);
    }
  }

  /** A non-empty counter with positive counts has a positive total. */
  lemma PositiveTotal<K>(c: Counter<K>)
    requires c != [] && Positive(c)
    ensures Total(c) > 0
  {
  }

  /** Counting a key past an entry for a different key leaves that entry in front. */
  lemma IncrementSkip<K(!new)>(e: (K, nat), c: Counter<K>, x: K)
    requires e.0 != x
    ensures Increment([e] + c, x) == [e] + Increment(c, x)
  {
    assert ([e] + c)[0] == e && ([e] + c)[1..] == c;
  }

  /** Counting a key whose entry comes first raises that entry's count. */
  lemma IncrementHere<K(!new)>(n: nat, c: Counter<K>, x: K)
    ensures Increment([(x, n)] + c, x) == [(x, n + 1)] + c
  {
    assert ([(x, n)] + c)[0] == (x, n) && ([(x, n)] + c)[1..] == c;
  }

  /** `c[x] += 1` for a new key `x` appends the entry `(x, 1)` after all others. */
  lemma {:induction false} IncrementAppends<K(!new)>(c: Counter<K>, x: K)
    requires x !in Keys(c)
    ensures Increment(c, x) == c + [(x, 1)]
  {
    if c != [] {
      var tail := c[1..];
      KeyNotInTail(c, x);
      IncrementAppends(tail, x);
      assert Increment(c, x) == [c[0]] + Increment(tail, x);
      ConsSnoc(c, (x, 1));
    }
  }

  lemma ConsSnoc<T>(s: seq<T>, y: T)
    requires s != []
    ensures [s[0]] + (s[1..] + [y]) == s + [y]
  {
  }

  /** A key missing from a non-empty counter is neither its first key nor one after it. */
  lemma KeyNotInTail<K>(c: Counter<K>, x: K)
    requires c != [] && x !in Keys(c)
    ensures c[0].0 != x && x !in Keys(c[1..])
  {
    assert c[0].0 in Keys(c);
    forall i | 0 <= i < |c| - 1 ensures c[1..][i].0 != x {
      assert c[i + 1].0 in Keys(c);
    }
  }

  /**
   * `c[x] += 1` for a key `x` already present raises the count of its
   * first entry `i` in place; every other entry, and so the order of the
   * keys, stays as it was.
   */
  lemma {:induction false} IncrementInPlace<K(!new)>(c: Counter<K>, x: K) returns (i: nat)
    requires x in Keys(c)
    ensures i < |c| && c[i].0 == x && forall j :: 0 <= j < i ==> c[j].0 != x
    ensures Increment(c, x) == c[i := (x, c[i].1 + 1)]
  {
    var tail := c[1..];
    if c[0].0 == x {
      i := 0;
      assert Increment(c, x) == [(x, c[0].1 + 1)] + tail;
      UpdateFirst(c, (x, c[0].1 + 1));
    } else {
      assert x in Keys(tail) by {
        var k :| 0 <= k < |c| && c[k].0 == x;
        assert tail[k - 1].0 == x;
      }
      var j := IncrementInPlace(tail, x);
      i := j + 1;
      var v := (x, tail[j].1 + 1);
      assert Increment(c, x) == [c[0]] + tail[j := v];
      ConsUpdate(c, j, v);
      KeyAbsentBefore(c, x, j);
    }
  }

  /** `x` is not among the first `j + 1` keys when it is not the first and not among the next `j`. */
  lemma KeyAbsentBefore<K>(c: Counter<K>, x: K, j: nat)
    requires j < |c| - 1 && c[0].0 != x
    requires forall k :: 0 <= k < j ==> c[1..][k].0 != x
    ensures forall k :: 0 <= k < j + 1 ==> c[k].0 != x
  {
    forall k | 0 <= k < j + 1 ensures c[k].0 != x {
      if k > 0 {
        assert c[k] == c[1..][k - 1];
      }
    }
  }

  lemma UpdateFirst<T>(s: seq<T>, v: T)
    requires s != []
    ensures [v] + s[1..] == s[0 := v]
  {
  }

  lemma ConsUpdate<T>(s: seq<T>, j: nat, v: T)
    requires j + 1 < |s|
    ensures [s[0]] + s[1..][j := v] == s[j + 1 := v]
  {
  }

  /** `Counter(s + [x])` is `Counter(s)` with `x` counted once more. */
  lemma CountAllSnoc<K(!new)>(s: seq<K>, x: K)
    ensures CountAll(s + [x]) == Increment(CountAll(s), x)
  {
    assert (s + [x])[..|s|] == s;
  }
}
