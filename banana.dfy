/**
 * The example in the documentation of `make_word`. The word "banana" is taken
 * through the whole model builder: its transition pairs, the counter of those
 * pairs in first-occurrence order, and the resulting table
 * `{None: {b: 1}, b: {a: 1}, a: {n: 2, None: 1}, n: {a: 2}}`. Then one walk
 * on that table, None -> b -> a -> n -> a -> n -> a -> n -> a -> None.
 */
module Banana {
  import opened Iterables
  import opened Counters
  import opened Segmenter
  import opened Transitions
  import opened Generator

  /*
   * Counting the pairs of "banana" one at a time. The five distinct pairs
   * come in the pattern p1 p2 p3 p4 p3 p4 p5; each step is one `Increment`.
   */

  lemma Count1<K(!new)>(p1: K)
    ensures CountAll([p1]) == [(p1, 1)]
  {
    CountAllSnoc([], p1);
    assert [] + [p1] == [p1];
  }

  lemma Count2<K(!new)>(p1: K, p2: K)
    requires p1 != p2
    ensures CountAll([p1, p2]) == [(p1, 1), (p2, 1)]
  {
    Count1(p1);
    CountAllSnoc([p1], p2);
    assert [p1] + [p2] == [p1, p2];
    Step2(p1, p2);
  }

  lemma Step2<K(!new)>(p1: K, p2: K)
    requires p1 != p2
    ensures Increment([(p1, 1)], p2) == [(p1, 1), (p2, 1)]
  {
    IncrementSkip((p1, 1), [], p2);
    assert [(p1, 1)] + [] == [(p1, 1)];
    ConsTwo((p1, 1), (p2, 1));
  }

  lemma Count3<K(!new)>(p1: K, p2: K, p3: K)
    requires p1 != p2 && p1 != p3 && p2 != p3
    ensures CountAll([p1, p2, p3]) == [(p1, 1), (p2, 1), (p3, 1)]
  {
    Count2(p1, p2);
    CountAllSnoc([p1, p2], p3);
    assert [p1, p2] + [p3] == [p1, p2, p3];
    Step3(p1, p2, p3);
  }

  lemma Step3<K(!new)>(p1: K, p2: K, p3: K)
    requires p1 != p3 && p2 != p3
    ensures Increment([(p1, 1), (p2, 1)], p3) == [(p1, 1), (p2, 1), (p3, 1)]
  {
    var c2 := [(p2, 1)];
    IncrementSkip((p2, 1), [], p3);
    assert [(p2, 1)] + [] == c2;
    IncrementSkip((p1, 1), c2, p3);
    ConsTwo((p1, 1), (p2, 1));
    ConsThree((p1, 1), (p2, 1), (p3, 1));
  }

  lemma Count4<K(!new)>(p1: K, p2: K, p3: K, p4: K)
    requires p1 != p2 && p1 != p3 && p2 != p3 && p1 != p4 && p2 != p4 && p3 != p4
    ensures CountAll([p1, p2, p3, p4]) == [(p1, 1), (p2, 1), (p3, 1), (p4, 1)]
  {
    Count3(p1, p2, p3);
    CountAllSnoc([p1, p2, p3], p4);
    assert [p1, p2, p3] + [p4] == [p1, p2, p3, p4];
    Step4(p1, p2, p3, p4);
  }

  lemma Step4<K(!new)>(p1: K, p2: K, p3: K, p4: K)
    requires p1 != p4 && p2 != p4 && p3 != p4
    ensures Increment([(p1, 1), (p2, 1), (p3, 1)], p4) == [(p1, 1), (p2, 1), (p3, 1), (p4, 1)]
  {
    var c3 := [(p3, 1)];
    IncrementSkip((p3, 1), [], p4);
    assert [(p3, 1)] + [] == c3;
    var c2 := [(p2, 1)] + c3;
    IncrementSkip((p2, 1), c3, p4);
    IncrementSkip((p1, 1), c2, p4);
    ConsThree((p1, 1), (p2, 1), (p3, 1));
    ConsFour((p1, 1), (p2, 1), (p3, 1), (p4, 1));
  }

  lemma Count5<K(!new)>(p1: K, p2: K, p3: K, p4: K)
    requires p1 != p2 && p1 != p3 && p2 != p3 && p1 != p4 && p2 != p4 && p3 != p4
    ensures CountAll([p1, p2, p3, p4, p3]) == [(p1, 1), (p2, 1), (p3, 2), (p4, 1)]
  {
    Count4(p1, p2, p3, p4);
    CountAllSnoc([p1, p2, p3, p4], p3);
    assert [p1, p2, p3, p4] + [p3] == [p1, p2, p3, p4, p3];
    Step5(p1, p2, p3, p4);
  }

  lemma Step5<K(!new)>(p1: K, p2: K, p3: K, p4: K)
    requires p1 != p3 && p2 != p3
    ensures Increment([(p1, 1), (p2, 1), (p3, 1), (p4, 1)], p3) == [(p1, 1), (p2, 1), (p3, 2), (p4, 1)]
  {
    var c4 := [(p4, 1)];
    var c3 := [(p3, 1)] + c4;
    IncrementHere(1, c4, p3);
    var c2 := [(p2, 1)] + c3;
    IncrementSkip((p2, 1), c3, p3);
    IncrementSkip((p1, 1), c2, p3);
    ConsFour((p1, 1), (p2, 1), (p3, 1), (p4, 1));
    ConsFour((p1, 1), (p2, 1), (p3, 2), (p4, 1));
  }

  lemma Count6<K(!new)>(p1: K, p2: K, p3: K, p4: K)
    requires p1 != p2 && p1 != p3 && p2 != p3 && p1 != p4 && p2 != p4 && p3 != p4
    ensures CountAll([p1, p2, p3, p4, p3, p4]) == [(p1, 1), (p2, 1), (p3, 2), (p4, 2)]
  {
    Count5(p1, p2, p3, p4);
    CountAllSnoc([p1, p2, p3, p4, p3], p4);
    assert [p1, p2, p3, p4, p3] + [p4] == [p1, p2, p3, p4, p3, p4];
    Step6(p1, p2, p3, p4);
  }

  lemma Step6<K(!new)>(p1: K, p2: K, p3: K, p4: K)
    requires p1 != p4 && p2 != p4 && p3 != p4
    ensures Increment([(p1, 1), (p2, 1), (p3, 2), (p4, 1)], p4) == [(p1, 1), (p2, 1), (p3, 2), (p4, 2)]
  {
    var c4 := [(p4, 1)];
    IncrementHere(1, [], p4);
    assert [(p4, 1)] + [] == c4;
    var c3 := [(p3, 2)] + c4;
    IncrementSkip((p3, 2), c4, p4);
    var c2 := [(p2, 1)] + c3;
    IncrementSkip((p2, 1), c3, p4);
    IncrementSkip((p1, 1), c2, p4);
    ConsFour((p1, 1), (p2, 1), (p3, 2), (p4, 1));
    ConsFour((p1, 1), (p2, 1), (p3, 2), (p4, 2));
  }

  lemma Count7<K(!new)>(p1: K, p2: K, p3: K, p4: K, p5: K)
    requires p1 != p2 && p1 != p3 && p2 != p3 && p1 != p4 && p2 != p4 && p3 != p4
    requires p1 != p5 && p2 != p5 && p3 != p5 && p4 != p5
    ensures CountAll([p1, p2, p3, p4, p3, p4, p5]) == [(p1, 1), (p2, 1), (p3, 2), (p4, 2), (p5, 1)]
  {
    Count6(p1, p2, p3, p4);
    CountAllSnoc([p1, p2, p3, p4, p3, p4], p5);
    assert [p1, p2, p3, p4, p3, p4] + [p5] == [p1, p2, p3, p4, p3, p4, p5];
    Step7(p1, p2, p3, p4, p5);
  }

  lemma Step7<K(!new)>(p1: K, p2: K, p3: K, p4: K, p5: K)
    requires p1 != p5 && p2 != p5 && p3 != p5 && p4 != p5
    ensures Increment([(p1, 1), (p2, 1), (p3, 2), (p4, 2)], p5) ==
              [(p1, 1), (p2, 1), (p3, 2), (p4, 2), (p5, 1)]
  {
    var c4 := [(p4, 2)];
    IncrementSkip((p4, 2), [], p5);
    assert [(p4, 2)] + [] == c4;
    var c3 := [(p3, 2)] + c4;
    IncrementSkip((p3, 2), c4, p5);
    var c2 := [(p2, 1)] + c3;
    IncrementSkip((p2, 1), c3, p5);
    IncrementSkip((p1, 1), c2, p5);
    ConsFour((p1, 1), (p2, 1), (p3, 2), (p4, 2));
    ConsFive((p1, 1), (p2, 1), (p3, 2), (p4, 2), (p5, 1));
  }

  /* Displays put together from the back, one element at a time. */

  lemma ConsTwo<T>(a: T, b: T)
    ensures [a] + [b] == [a, b]
  {
  }

  lemma ConsThree<T>(a: T, b: T, c: T)
    ensures [a] + ([b] + [c]) == [a, b, c]
  {
  }

  lemma ConsFour<T>(a: T, b: T, c: T, d: T)
    ensures [a] + ([b] + ([c] + [d])) == [a, b, c, d]
  {
  }

  lemma ConsFive<T>(a: T, b: T, c: T, d: T, e: T)
    ensures [a] + ([b] + ([c] + ([d] + [e]))) == [a, b, c, d, e]
  {
  }

  /** The pairs of a padded sequence spelled like "banana". */
  lemma PadPairsShape<T>(z: T, b: T, a: T, n: T)
    ensures Pairwise(Pad([b, a, n, a, n, a], z)) == [(z, b), (b, a), (a, n), (n, a), (a, n), (n, a), (a, z)]
  {
    var s := [b, a, n, a, n, a];
    PairwisePad(s, z);
    var ps := Pairwise(s);
    assert ps[0] == (b, a) && ps[1] == (a, n) && ps[2] == (n, a) && ps[3] == (a, n) && ps[4] == (n, a);
    assert ps == [(b, a), (a, n), (n, a), (a, n), (n, a)];
  }

  /** The pair sequence of a word whose pieces are those of "banana". */
  lemma BananaPairs(w: string)
    requires Pieces(w) == ["b", "a", "n", "a", "n", "a"]
    ensures WordPairs(w) ==
              [(Boundary, Piece("b")), (Piece("b"), Piece("a")), (Piece("a"), Piece("n")),
               (Piece("n"), Piece("a")), (Piece("a"), Piece("n")), (Piece("n"), Piece("a")),
               (Piece("a"), Boundary)]
  {
    var l := Lift(Pieces(w));
    assert l[0] == Piece("b") && l[1] == Piece("a") && l[2] == Piece("n");
    assert l[3] == Piece("a") && l[4] == Piece("n") && l[5] == Piece("a");
    assert l == [Piece("b"), Piece("a"), Piece("n"), Piece("a"), Piece("n"), Piece("a")];
    PadPairsShape(Boundary, Piece("b"), Piece("a"), Piece("n"));
  }

  lemma ExtractHit(e: (Pair, nat), tc: Counter<Pair>)
    ensures ExtractTransitions([e] + tc, e.0.0) == [(e.0.1, e.1)] + ExtractTransitions(tc, e.0.0)
  {
    ExtractCons(e, tc, e.0.0);
  }

  lemma ExtractMiss(e: (Pair, nat), tc: Counter<Pair>, x: State)
    requires e.0.0 != x
    ensures ExtractTransitions([e] + tc, x) == ExtractTransitions(tc, x)
  {
    ExtractCons(e, tc, x);
  }

  /** A word of "banana" starts with b. */
  lemma BananaFromBoundary(B: State, b: State, a: State, n: State, tc: Counter<Pair>)
    requires B != b && B != a && B != n && b != a && b != n && a != n
    requires tc == [((B, b), 1), ((b, a), 1), ((a, n), 2), ((n, a), 2), ((a, B), 1)]
    ensures ExtractTransitions(tc, B) == [(b, 1)]
  {
    var t4 := [((a, B), 1)];
    var t3 := [((n, a), 2)] + t4;
    var t2 := [((a, n), 2)] + t3;
    var t1 := [((b, a), 1)] + t2;
    assert tc == [((B, b), 1)] + t1;
    assert t4 == [((a, B), 1)] + [];
    ExtractMiss(((a, B), 1), [], B);
    ExtractMiss(((n, a), 2), t4, B);
    ExtractMiss(((a, n), 2), t3, B);
    ExtractMiss(((b, a), 1), t2, B);
    ExtractHit(((B, b), 1), t1);
  }

  /** After b comes a. */
  lemma BananaFromB(B: State, b: State, a: State, n: State, tc: Counter<Pair>)
    requires B != b && B != a && B != n && b != a && b != n && a != n
    requires tc == [((B, b), 1), ((b, a), 1), ((a, n), 2), ((n, a), 2), ((a, B), 1)]
    ensures ExtractTransitions(tc, b) == [(a, 1)]
  {
    var t4 := [((a, B), 1)];
    var t3 := [((n, a), 2)] + t4;
    var t2 := [((a, n), 2)] + t3;
    var t1 := [((b, a), 1)] + t2;
    assert tc == [((B, b), 1)] + t1;
    assert t4 == [((a, B), 1)] + [];
    ExtractMiss(((a, B), 1), [], b);
    ExtractMiss(((n, a), 2), t4, b);
    ExtractMiss(((a, n), 2), t3, b);
    ExtractHit(((b, a), 1), t2);
    ExtractMiss(((B, b), 1), t1, b);
  }

  /** After a comes n twice, then the boundary once. */
  lemma BananaFromA(B: State, b: State, a: State, n: State, tc: Counter<Pair>)
    requires B != b && B != a && B != n && b != a && b != n && a != n
    requires tc == [((B, b), 1), ((b, a), 1), ((a, n), 2), ((n, a), 2), ((a, B), 1)]
    ensures ExtractTransitions(tc, a) == [(n, 2), (B, 1)]
  {
    var t4 := [((a, B), 1)];
    var t3 := [((n, a), 2)] + t4;
    var t2 := [((a, n), 2)] + t3;
    var t1 := [((b, a), 1)] + t2;
    assert tc == [((B, b), 1)] + t1;
    assert t4 == [((a, B), 1)] + [];
    ExtractHit(((a, B), 1), []);
    ExtractMiss(((n, a), 2), t4, a);
    ExtractHit(((a, n), 2), t3);
    ExtractMiss(((b, a), 1), t2, a);
    ExtractMiss(((B, b), 1), t1, a);
  }

  /** After n comes a twice. */
  lemma BananaFromN(B: State, b: State, a: State, n: State, tc: Counter<Pair>)
    requires B != b && B != a && B != n && b != a && b != n && a != n
    requires tc == [((B, b), 1), ((b, a), 1), ((a, n), 2), ((n, a), 2), ((a, B), 1)]
    ensures ExtractTransitions(tc, n) == [(a, 2)]
  {
    var t4 := [((a, B), 1)];
    var t3 := [((n, a), 2)] + t4;
    var t2 := [((a, n), 2)] + t3;
    var t1 := [((b, a), 1)] + t2;
    assert tc == [((B, b), 1)] + t1;
    assert t4 == [((a, B), 1)] + [];
    ExtractMiss(((a, B), 1), [], n);
    ExtractHit(((n, a), 2), t4);
    ExtractMiss(((a, n), 2), t3, n);
    ExtractMiss(((b, a), 1), t2, n);
    ExtractMiss(((B, b), 1), t1, n);
  }

  /** The start states of the five counted pairs. */
  lemma BananaStarts(B: State, b: State, a: State, n: State, tc: Counter<Pair>)
    requires tc == [((B, b), 1), ((b, a), 1), ((a, n), 2), ((n, a), 2), ((a, B), 1)]
    ensures Starts(tc) == {B, b, a, n}
  {
    assert Keys(tc) == {(B, b), (b, a), (a, n), (n, a), (a, B)} by {
      forall p | p in Keys(tc) ensures p in {(B, b), (b, a), (a, n), (n, a), (a, B)} {
        var i :| 0 <= i < |tc| && tc[i].0 == p;
      }
      assert tc[0].0 == (B, b) && tc[1].0 == (b, a) && tc[2].0 == (a, n);
      assert tc[3].0 == (n, a) && tc[4].0 == (a, B);
    }
  }

  /** The counter of the pairs of a word whose pieces are those of "banana". */
  lemma BananaCounterOf(w: string)
    requires Pieces(w) == ["b", "a", "n", "a", "n", "a"]
    ensures CountAll(WordPairs(w)) ==
              [((Boundary, Piece("b")), 1), ((Piece("b"), Piece("a")), 1), ((Piece("a"), Piece("n")), 2),
               ((Piece("n"), Piece("a")), 2), ((Piece("a"), Boundary), 1)]
  {
    var B, b, a, n := Boundary, Piece("b"), Piece("a"), Piece("n");
    BananaPairs(w);
    Count7((B, b), (b, a), (a, n), (n, a), (a, B));
  }

  /** The counters kept for the four start states of "banana". */
  lemma BananaMapValues(B: State, b: State, a: State, n: State, tc: Counter<Pair>)
    requires B != b && B != a && B != n && b != a && b != n && a != n
    requires tc == [((B, b), 1), ((b, a), 1), ((a, n), 2), ((n, a), 2), ((a, B), 1)]
    ensures MapTransitions(tc).Keys == {B, b, a, n}
    ensures MapTransitions(tc)[B] == [(b, 1)] && MapTransitions(tc)[b] == [(a, 1)]
    ensures MapTransitions(tc)[a] == [(n, 2), (B, 1)] && MapTransitions(tc)[n] == [(a, 2)]
  {
    BananaStarts(B, b, a, n, tc);
    BananaFromBoundary(B, b, a, n, tc);
    BananaFromB(B, b, a, n, tc);
    BananaFromA(B, b, a, n, tc);
    BananaFromN(B, b, a, n, tc);
    MapTransitionsAt(tc, B);
    MapTransitionsAt(tc, b);
    MapTransitionsAt(tc, a);
    MapTransitionsAt(tc, n);
  }

  /** A table with four keys is the display of those keys and their counters. */
  lemma FourKeys(m: Table, k1: State, k2: State, k3: State, k4: State,
                 v1: Counter<State>, v2: Counter<State>, v3: Counter<State>, v4: Counter<State>)
    requires m.Keys == {k1, k2, k3, k4}
    requires k1 != k2 && k1 != k3 && k1 != k4 && k2 != k3 && k2 != k4 && k3 != k4
    requires m[k1] == v1 && m[k2] == v2 && m[k3] == v3 && m[k4] == v4
    ensures m == map[k1 := v1, k2 := v2, k3 := v3, k4 := v4]
  {
  }

  /** Regrouping the counter of "banana" by start state. */
  lemma BananaMap(B: State, b: State, a: State, n: State, tc: Counter<Pair>)
    requires B != b && B != a && B != n && b != a && b != n && a != n
    requires tc == [((B, b), 1), ((b, a), 1), ((a, n), 2), ((n, a), 2), ((a, B), 1)]
    ensures MapTransitions(tc) == map[B := [(b, 1)], b := [(a, 1)], a := [(n, 2), (B, 1)], n := [(a, 2)]]
  {
    BananaMapValues(B, b, a, n, tc);
    FourKeys(MapTransitions(tc), B, b, a, n, [(b, 1)], [(a, 1)], [(n, 2), (B, 1)], [(a, 2)]);
  }

  /** `analyze_words(["banana"])`. */
  lemma BananaTable()
    ensures AnalyzeWords(["banana"]) ==
              map[Boundary := [(Piece("b"), 1)],
                  Piece("b") := [(Piece("a"), 1)],
                  Piece("a") := [(Piece("n"), 2), (Boundary, 1)],
                  Piece("n") := [(Piece("a"), 2)]]
  {
    BananaTokens();
    OneWordCorpus("banana");
    BananaCounterOf("banana");
    BananaMap(Boundary, Piece("b"), Piece("a"), Piece("n"), CountAll(WordPairs("banana")));
  }

  /** A counter with a single key always chooses it. */
  lemma ChooseOnly(k: State, n: nat, draw: nat)
    requires n > 0
    ensures WeightedChoice([(k, n)], draw) == k
  {
    var i := WeightedChoiceInterval([(k, n)], draw);
  }

  /** From `{x: 2, y: 1}`: draw 0 or 1 gives `x`, draw 2 gives `y`. */
  lemma ChooseTwoOne(x: State, y: State, draw: nat)
    requires draw < 3
    ensures WeightedChoice([(x, 2), (y, 1)], draw) == if draw < 2 then x else y
  {
    var c := [(x, 2), (y, 1)];
    var i := WeightedChoiceInterval(c, draw);
    assert c[..0] == [] && c[..1] == [(x, 2)];
    assert Total(c[..1]) == 2;
  }

  /** A walk whose first step, taken with row `c` and draw `d`, chooses the piece `x`. */
  lemma WalkOn(t: Table, from: State, c: Counter<State>, d: nat, tail: seq<nat>, x: string, rest: seq<string>)
    requires from in t && t[from] == c && Total(c) > 0
    requires WeightedChoice(c, d) == Piece(x) && Walk(t, Piece(x), tail) == Ok(rest)
    ensures Walk(t, from, [d] + tail) == Ok([x] + rest)
  {
    assert ([d] + tail)[0] == d && ([d] + tail)[1..] == tail;
  }

  /** A walk whose first step, taken with row `c` and draw `d`, chooses the boundary. */
  lemma WalkOff(t: Table, from: State, c: Counter<State>, d: nat)
    requires from in t && t[from] == c && Total(c) > 0 && WeightedChoice(c, d) == Boundary
    ensures Walk(t, from, [d]) == Ok([])
  {
  }

  /** The rows of the table of "banana", with the pieces left unnamed. */
  ghost predicate BananaRows(t: Table, b: string, a: string, n: string) {
    && Boundary in t && t[Boundary] == [(Piece(b), 1)]
    && Piece(b) in t && t[Piece(b)] == [(Piece(a), 1)]
    && Piece(a) in t && t[Piece(a)] == [(Piece(n), 2), (Boundary, 1)]
    && Piece(n) in t && t[Piece(n)] == [(Piece(a), 2)]
  }

  /** The display in `BananaTable` has those rows. */
  lemma BananaTableRows(t: Table)
    requires t == map[Boundary := [(Piece("b"), 1)],
                      Piece("b") := [(Piece("a"), 1)],
                      Piece("a") := [(Piece("n"), 2), (Boundary, 1)],
                      Piece("n") := [(Piece("a"), 2)]]
    ensures BananaRows(t, "b", "a", "n")
  {
  }

  /** The word of the walk below, built from the back. */
  lemma WordShape<T>(b: T, a: T, n: T)
    ensures [b] + ([a] + ([n] + ([a] + [n, a, n, a]))) == [b, a, n, a, n, a, n, a]
  {
  }

  /** The draws of the walk below, built from the back. */
  lemma DrawShape()
    ensures [0] + ([0] + ([0] + ([0] + [0, 0, 0, 0, 2]))) == [0, 0, 0, 0, 0, 0, 0, 0, 2]
  {
  }

  /** The last four steps of the walk below: a -> n -> a -> n -> a -> None. */
  lemma BananaTail(t: Table, b: string, a: string, n: string)
    requires BananaRows(t, b, a, n)
    ensures Walk(t, Piece(a), [0, 0, 0, 0, 2]) == Ok([n, a, n, a])
  {
    var ca, cn := [(Piece(n), 2), (Boundary, 1)], [(Piece(a), 2)];
    ChooseOnly(Piece(a), 2, 0);
    ChooseTwoOne(Piece(n), Boundary, 0);
    ChooseTwoOne(Piece(n), Boundary, 2);
    WalkOff(t, Piece(a), ca, 2);
    var d3, w3 := [0] + [2], [a] + [];
    WalkOn(t, Piece(n), cn, 0, [2], a, []);
    var d2, w2 := [0] + d3, [n] + w3;
    WalkOn(t, Piece(a), ca, 0, d3, n, w3);
    var d1, w1 := [0] + d2, [a] + w2;
    WalkOn(t, Piece(n), cn, 0, d2, a, w2);
    WalkOn(t, Piece(a), ca, 0, d1, n, w1);
    assert [0] + d1 == [0, 0, 0, 0, 2];
    assert [n] + w1 == [n, a, n, a];
  }

  /**
   * The walk in the documentation of `make_word`,
   * None -> b -> a -> n -> a -> n -> a -> n -> a -> None, on any table with
   * the rows of the banana table, whatever the pieces are called.
   */
  lemma BananaWalkOf(t: Table, b: string, a: string, n: string)
    requires BananaRows(t, b, a, n)
    ensures Generate(t, [0, 0, 0, 0, 0, 0, 0, 0, 2]) == Ok([b, a, n, a, n, a, n, a])
  {
    var cb, ca, cn := [(Piece(a), 1)], [(Piece(n), 2), (Boundary, 1)], [(Piece(a), 2)];
    ChooseOnly(Piece(b), 1, 0);
    ChooseOnly(Piece(a), 1, 0);
    ChooseOnly(Piece(a), 2, 0);
    ChooseTwoOne(Piece(n), Boundary, 0);
    BananaTail(t, b, a, n);
    var d4, w4 := [0, 0, 0, 0, 2], [n, a, n, a];
    var d3, w3 := [0] + d4, [a] + w4;
    WalkOn(t, Piece(n), cn, 0, d4, a, w4);
    var d2, w2 := [0] + d3, [n] + w3;
    WalkOn(t, Piece(a), ca, 0, d3, n, w3);
    var d1, w1 := [0] + d2, [a] + w2;
    WalkOn(t, Piece(b), cb, 0, d2, a, w2);
    WalkOn(t, Boundary, [(Piece(b), 1)], 0, d1, b, w1);
    DrawShape();
    WordShape(b, a, n);
  }

  /** This walk is one `make_word` can take on the model built from "banana". */
  lemma BananaWord()
    ensures Generate(AnalyzeWords(["banana"]), [0, 0, 0, 0, 0, 0, 0, 0, 2]) ==
              Ok(["b", "a", "n", "a", "n", "a", "n", "a"])
  {
    BananaTable();
    BananaTableRows(AnalyzeWords(["banana"]));
    BananaWalkOf(AnalyzeWords(["banana"]), "b", "a", "n");
  }
}
