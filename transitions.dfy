/**
 * The transition model builder of analysis.py: `count_transitions`,
 * `extract_transitions`, `map_transitions`, `analyze_word` and
 * `analyze_words`. Each word's pieces are bracketed by the boundary marker
 * (the source's `None`), every consecutive pair of the corpus is counted,
 * and the counts are regrouped into `from -> {to: count}`.
 */
module Transitions {
  import opened Iterables
  import opened Counters
  import opened Segmenter

  /** A state of the model: the word boundary (`None` in the source) or a piece. */
  datatype State = Boundary | Piece(value: string)

  type Pair = (State, State)

  /** `{from: Counter({to: count})}`. */
  type Table = map<State, Counter<State>>

  function Lift(pieces: seq<string>): (s: seq<State>)
    ensures |s| == |pieces|
    ensures forall i :: 0 <= i < |s| ==> s[i] == Piece(pieces[i])
  {
    if pieces == [] then [] else [Piece(pieces[0])] + Lift(pieces[1..])
  }

  /** `pad(pieces)`: the pieces of one word between two boundaries. */
  function PadWord(pieces: seq<string>): seq<State> {
    Pad(Lift(pieces), Boundary)
  }

  /** `count_transitions(s)`: how often each consecutive pair occurs in `s`. */
  function CountTransitions(s: seq<State>): (tc: Counter<Pair>)
    ensures forall p :: Lookup(tc, p) == multiset(Pairwise(s))[p]
    ensures Keys(tc) == set p | p in Pairwise(s)
    ensures Positive(tc) && Distinct(tc)
  {
    CountAll(Pairwise(s))
  }

  /** The states that start some counted pair. */
  function Starts(tc: Counter<Pair>): set<State> {
    set p | p in Keys(tc) :: p.0
  }

  /**
   * `extract_transitions(tc, start)`: the pairs that start at `start`,
   * re-keyed by where they end, in the order of `tc`.
   */
  function ExtractTransitions(tc: Counter<Pair>, start: State): (c: Counter<State>)
    ensures forall b :: Lookup(c, b) == Lookup(tc, (start, b))
    ensures Keys(c) == set p | p in Keys(tc) && p.0 == start :: p.1
    ensures Positive(tc) ==> Positive(c)
    ensures Distinct(tc) ==> Distinct(c)
  {
    if tc == [] then []
    else
      var rest := ExtractTransitions(tc[1..], start);
      ConsFacts(tc[0], tc[1..]);
      assert tc == [tc[0]] + tc[1..];
      if tc[0].0.0 == start then
        ConsFacts((tc[0].0.1, tc[0].1), rest);
        [(tc[0].0.1, tc[0].1)] + rest
      else
        rest
  }

  /** `m[a][b]`, where a start that is missing counts as an empty counter. */
  function CountOf(m: Table, a: State, b: State): nat {
    if a in m then Lookup(m[a], b) else 0
  }

  /** `map_transitions(tc)`: one counter per start state. */
  function MapTransitions(tc: Counter<Pair>): (m: Table)
    ensures m.Keys == Starts(tc)
    ensures forall a, b :: CountOf(m, a, b) == Lookup(tc, (a, b))
    ensures Positive(tc) ==> forall a :: a in m ==> Positive(m[a]) && m[a] != []
    ensures Distinct(tc) ==> forall a :: a in m ==> Distinct(m[a])
  {
    var m := map a | a in Starts(tc) :: ExtractTransitions(tc, a);
    assert forall a :: a in m ==> m[a] != [] by {
      forall a | a in m ensures m[a] != [] {
        var p :| p in Keys(tc) && p.0 == a;
        assert p.1 in Keys(m[a]);
      }
    }
    m
  }

  /** The counter that `map_transitions(tc)` keeps for a start state. */
  lemma MapTransitionsAt(tc: Counter<Pair>, a: State)
    requires a in Starts(tc)
    ensures a in MapTransitions(tc) && MapTransitions(tc)[a] == ExtractTransitions(tc, a)
  {
  }

  /** The pairs that one word contributes: `pairwise(pad(split(word)))`. */
  function WordPairs(w: string): seq<Pair> {
    Pairwise(PadWord(Pieces(w)))
  }

  /** `chain(*transitions)`: the pairs of all words, word after word. */
  function CorpusPairs(ws: seq<string>): seq<Pair> {
    if ws == [] then [] else WordPairs(ws[0]) + CorpusPairs(ws[1..])
  }

  /** `analyze_word(word)`. */
  function AnalyzeWord(w: string): Table {
    MapTransitions(CountTransitions(PadWord(Pieces(w))))
  }

  /** `analyze_words(words)`. */
  function AnalyzeWords(ws: seq<string>): Table {
    MapTransitions(CountAll(CorpusPairs(ws)))
  }

  /** `map_transitions(Counter(ps))` has exactly the first components of `ps` as keys. */
  lemma MapCountedKeys(ps: seq<Pair>)
    ensures MapTransitions(CountAll(ps)).Keys == set p | p in ps :: p.0
  {
    var tc := CountAll(ps);
    var m := MapTransitions(tc);
    assert Keys(tc) == set x | x in ps;
    forall a | a in m ensures exists p :: p in ps && p.0 == a {
      var p :| p in Keys(tc) && p.0 == a;
      assert p in ps;
    }
    forall p | p in ps ensures p.0 in m {
      assert p in Keys(tc);
    }
  }

  /** In `map_transitions(Counter(ps))`, `m[a][b]` is the number of occurrences of `(a, b)` in `ps`. */
  lemma MapCountedCounts(ps: seq<Pair>)
    ensures forall a, b :: CountOf(MapTransitions(CountAll(ps)), a, b) == multiset(ps)[(a, b)]
  {
  }

  /** Every inner counter of `map_transitions(Counter(ps))` is non-empty, positive and distinct. */
  lemma MapCountedInner(ps: seq<Pair>, a: State)
    requires a in MapTransitions(CountAll(ps))
    ensures MapTransitions(CountAll(ps))[a] != []
    ensures Positive(MapTransitions(CountAll(ps))[a]) && Distinct(MapTransitions(CountAll(ps))[a])
  {
  }

  /** One entry in front of a counter of pairs, seen from one start state. */
  lemma ExtractCons(e: (Pair, nat), tc: Counter<Pair>, a: State)
    ensures ExtractTransitions([e] + tc, a) ==
              (if e.0.0 == a then [(e.0.1, e.1)] else []) + ExtractTransitions(tc, a)
  {
    assert ([e] + tc)[1..] == tc;
  }

  /** The shape of the pairs of one word. */
  lemma WordPairsShape(w: string)
    ensures |WordPairs(w)| == |Pieces(w)| + 1
    ensures WordPairs(w)[0].0 == Boundary && WordPairs(w)[|WordPairs(w)| - 1].1 == Boundary
    ensures forall i :: 0 < i < |WordPairs(w)| ==> WordPairs(w)[i].0.Piece?
    ensures forall i :: 0 <= i < |WordPairs(w)| - 1 ==> WordPairs(w)[i].1.Piece?
    ensures forall i :: 0 < i < |WordPairs(w)| ==> WordPairs(w)[i].0 == WordPairs(w)[i - 1].1
  {
    var s := PadWord(Pieces(w));
    var l := Lift(Pieces(w));
    var ps := WordPairs(w);
    assert s == [Boundary] + l + [Boundary];
    assert |s| == |l| + 2 && s[0] == Boundary && s[|s| - 1] == Boundary;
    assert |ps| == |s| - 1;
    assert ps[|ps| - 1].1 == s[|s| - 1];
    forall i | 0 < i < |ps| ensures ps[i].0.Piece? && ps[i].0 == ps[i - 1].1 {
      assert ps[i] == (s[i], s[i + 1]) && ps[i - 1] == (s[i - 1], s[i]);
      assert s[i] == l[i - 1];
    }
    forall i | 0 <= i < |ps| - 1 ensures ps[i].1.Piece? {
      assert ps[i] == (s[i], s[i + 1]);
      assert s[i + 1] == l[i];
    }
  }

  /** An empty word contributes the single pair (boundary, boundary). */
  lemma EmptyWordPairs()
    ensures WordPairs("") == [(Boundary, Boundary)]
  {
    assert Tokens("") == [];
    assert PadWord([]) == [Boundary, Boundary];
  }

  function FirstCount(ps: seq<Pair>, a: State): nat {
    if ps == [] then 0 else (if ps[0].0 == a then 1 else 0) + FirstCount(ps[1..], a)
  }

  lemma {:induction false} FirstCountAppend(x: seq<Pair>, y: seq<Pair>, a: State)
    ensures FirstCount(x + y, a) == FirstCount(x, a) + FirstCount(y, a)
  {
    if x == [] {
      assert x + y == y;
    } else {
      assert (x + y)[0] == x[0];
      assert (x + y)[1..] == x[1..] + y;
      FirstCountAppend(x[1..], y, a);
    }
  }

  lemma {:induction false} FirstCountNone(ps: seq<Pair>, a: State)
    requires forall i :: 0 <= i < |ps| ==> ps[i].0 != a
    ensures FirstCount(ps, a) == 0
  {
    if ps != [] {
      FirstCountNone(ps[1..], a);
    }
  }

  /** Each word starts exactly one pair at the boundary. */
  lemma WordStartsOnce(w: string)
    ensures FirstCount(WordPairs(w), Boundary) == 1
  {
    var ps := WordPairs(w);
    WordPairsShape(w);
    assert ps == [ps[0]] + ps[1..];
    FirstCountNone(ps[1..], Boundary);
  }

  lemma {:induction false} CorpusStarts(ws: seq<string>)
    ensures FirstCount(CorpusPairs(ws), Boundary) == |ws|
  {
    if ws != [] {
      WordStartsOnce(ws[0]);
      CorpusStarts(ws[1..]);
      FirstCountAppend(WordPairs(ws[0]), CorpusPairs(ws[1..]), Boundary);
    }
  }

  /** Counting one more pair adds one to the total of the counter of its start. */
  lemma {:induction false} ExtractIncrement(c: Counter<Pair>, p: Pair, a: State)
    ensures Total(ExtractTransitions(Increment(c, p), a)) ==
              Total(ExtractTransitions(c, a)) + (if p.0 == a then 1 else 0)
  {
    if c == [] {
      ExtractCons((p, 1), [], a);
    } else {
      assert c == [c[0]] + c[1..];
      ExtractCons(c[0], c[1..], a);
      if c[0].0 == p {
        ExtractCons((p, c[0].1 + 1), c[1..], a);
      } else {
        ExtractCons(c[0], Increment(c[1..], p), a);
        ExtractIncrement(c[1..], p, a);
      }
    }
  }

  /** The counter of a start state holds as many pairs as start there. */
  lemma {:induction false} ExtractTotal(ps: seq<Pair>, a: State)
    ensures Total(ExtractTransitions(CountAll(ps), a)) == FirstCount(ps, a)
  {
    if ps != [] {
      var init, last := ps[..|ps| - 1], ps[|ps| - 1];
      assert ps == init + [last];
      ExtractTotal(init, a);
      ExtractIncrement(CountAll(init), last, a);
      FirstCountAppend(init, [last], a);
    }
  }

  /**
   * The boundary as a start state: the model of an empty corpus is empty;
   * otherwise the boundary has a counter, and its counts add up to the
   * number of words.
   */
  lemma BoundaryTotal(ws: seq<string>)
    ensures ws == [] ==> AnalyzeWords(ws) == map[]
    ensures ws != [] ==> Boundary in AnalyzeWords(ws) && Total(AnalyzeWords(ws)[Boundary]) == |ws|
  {
    var ps := CorpusPairs(ws);
    MapCountedKeys(ps);
    if ws != [] {
      WordPairsShape(ws[0]);
      assert ps[0] == WordPairs(ws[0])[0];
      assert ps[0] in ps;
      CorpusStarts(ws);
      ExtractTotal(ps, Boundary);
    }
  }

  lemma {:induction false} CorpusPairsAppend(ws1: seq<string>, ws2: seq<string>)
    ensures CorpusPairs(ws1 + ws2) == CorpusPairs(ws1) + CorpusPairs(ws2)
  {
    if ws1 == [] {
      assert ws1 + ws2 == ws2;
    } else {
      assert (ws1 + ws2)[1..] == ws1[1..] + ws2;
      CorpusPairsAppend(ws1[1..], ws2);
    }
  }

  /** The first components of two sequences of pairs together. */
  lemma FirstsAppend(ps1: seq<Pair>, ps2: seq<Pair>)
    ensures (set p | p in ps1 + ps2 :: p.0) == (set p | p in ps1 :: p.0) + (set p | p in ps2 :: p.0)
  {
    var k1, k2 := set p | p in ps1 :: p.0, set p | p in ps2 :: p.0;
    var k := set p | p in ps1 + ps2 :: p.0;
    forall a | a in k ensures a in k1 || a in k2 {
      var p: Pair :| p in ps1 + ps2 && p.0 == a;
      assert p in ps1 || p in ps2;
    }
    forall a | a in k1 || a in k2 ensures a in k {
      var p: Pair :| (p in ps1 || p in ps2) && p.0 == a;
      assert p in ps1 + ps2;
    }
  }

  /** The start states of the counted pairs of two sequences together. */
  lemma PairKeysAppend(ps1: seq<Pair>, ps2: seq<Pair>)
    ensures MapTransitions(CountAll(ps1 + ps2)).Keys ==
              MapTransitions(CountAll(ps1)).Keys + MapTransitions(CountAll(ps2)).Keys
  {
    MapCountedKeys(ps1);
    MapCountedKeys(ps2);
    MapCountedKeys(ps1 + ps2);
    FirstsAppend(ps1, ps2);
  }

  /**
   * Counting is additive over corpora: the model of two corpora together has
   * the starts of both, and each count is the sum of the two counts.
   */
  lemma AdditiveKeys(ws1: seq<string>, ws2: seq<string>)
    ensures AnalyzeWords(ws1 + ws2).Keys == AnalyzeWords(ws1).Keys + AnalyzeWords(ws2).Keys
  {
    CorpusPairsAppend(ws1, ws2);
    PairKeysAppend(CorpusPairs(ws1), CorpusPairs(ws2));
  }

  lemma AdditiveCounts(ws1: seq<string>, ws2: seq<string>)
    ensures forall a, b :: CountOf(AnalyzeWords(ws1 + ws2), a, b) ==
              CountOf(AnalyzeWords(ws1), a, b) + CountOf(AnalyzeWords(ws2), a, b)
  {
    CorpusPairsAppend(ws1, ws2);
    var ps1, ps2 := CorpusPairs(ws1), CorpusPairs(ws2);
    MapCountedCounts(ps1);
    MapCountedCounts(ps2);
    MapCountedCounts(ps1 + ps2);
    assert multiset(ps1 + ps2) == multiset(ps1) + multiset(ps2);
  }

  /** Doubling the corpus doubles every count and keeps the start states. */
  lemma Doubling(ws: seq<string>)
    ensures AnalyzeWords(ws + ws).Keys == AnalyzeWords(ws).Keys
    ensures forall a, b :: CountOf(AnalyzeWords(ws + ws), a, b) == 2 * CountOf(AnalyzeWords(ws), a, b)
  {
    AdditiveKeys(ws, ws);
    AdditiveCounts(ws, ws);
  }

  /** A corpus of one word has that word's pairs. */
  lemma OneWordCorpus(w: string)
    ensures CorpusPairs([w]) == WordPairs(w)
  {
    assert [w][1..] == [];
    assert CorpusPairs([w]) == WordPairs(w) + [];
    assert WordPairs(w) + [] == WordPairs(w);
  }

  /** `analyze_word(w)` is `analyze_words([w])`. */
  lemma WordIsOneWordCorpus(w: string)
    ensures AnalyzeWord(w) == AnalyzeWords([w])
  {
    OneWordCorpus(w);
  }

  /** The model of the empty word alone: one (boundary, boundary) transition. */
  lemma EmptyWordModel()
    ensures AnalyzeWord("") == map[Boundary := [(Boundary, 1)]]
  {
    EmptyWordPairs();
    var e := ((Boundary, Boundary), 1);
    var tc := CountTransitions(PadWord(Pieces("")));
    assert tc == [e] by {
      assert [(Boundary, Boundary)][..0] == [];
    }
    assert Keys(tc) == {(Boundary, Boundary)} by {
      ConsFacts(e, []);
    }
    assert Starts(tc) == {Boundary};
    ExtractCons(e, [], Boundary);
    var m := MapTransitions(tc);
    assert m.Keys == {Boundary};
    assert m[Boundary] == [(Boundary, 1)];
  }

  /** The sum of the values of a map. */
  ghost function SumValues(m: map<State, nat>): nat
    decreases |m.Keys|
  {
    if m == map[] then 0
    else
      var a :| a in m;
      m[a] + SumValues(m - {a})
  }

  /** The sum does not depend on which key is taken out first. */
  lemma {:induction false} SumValuesRemove(m: map<State, nat>, a: State)
    requires a in m
    ensures SumValues(m) == m[a] + SumValues(m - {a})
    decreases |m.Keys|
  {
    var b :| b in m && SumValues(m) == m[b] + SumValues(m - {b});
    if b != a {
      SumValuesRemove(m - {b}, a);
      SumValuesRemove(m - {a}, b);
      assert m - {b} - {a} == m - {a} - {b};
    }
  }

  /** Adding one to the value of `x` (a new key starting at 0) adds one to the sum. */
  lemma SumValuesBump(t: map<State, nat>, t': map<State, nat>, x: State)
    requires t'.Keys == t.Keys + {x}
    requires t'[x] == (if x in t then t[x] else 0) + 1
    requires forall a :: a in t && a != x ==> t'[a] == t[a]
    ensures SumValues(t') == SumValues(t) + 1
  {
    SumValuesRemove(t', x);
    assert t' - {x} == t - {x};
    if x in t {
      SumValuesRemove(t, x);
    } else {
      assert t - {x} == t;
    }
  }

  /** The total count stored under each start state. */
  function Totals(m: Table): (t: map<State, nat>)
    ensures t.Keys == m.Keys
  {
    map a | a in m :: Total(m[a])
  }

  /** The sum of all counts of a table. */
  ghost function TableTotal(m: Table): nat {
    SumValues(Totals(m))
  }

  /** A counter without keys is empty. */
  lemma NoKeys<K>(c: Counter<K>)
    requires Keys(c) == {}
    ensures c == []
  {
    assert c != [] ==> c[0].0 in Keys(c);
  }

  /** Counting one more pair adds its start to the start states. */
  lemma StartsIncrement(c: Counter<Pair>, p: Pair)
    ensures Starts(Increment(c, p)) == Starts(c) + {p.0}
  {
    var k := Keys(Increment(c, p));
    assert k == Keys(c) + {p};
    forall a | a in Starts(Increment(c, p)) ensures a in Starts(c) + {p.0} {
      var q :| q in k && q.0 == a;
    }
    forall a | a in Starts(c) ensures a in Starts(Increment(c, p)) {
      var q :| q in Keys(c) && q.0 == a;
      assert q in k;
    }
    assert p in k;
  }

  /** The counter of start `a` in `map_transitions(tc)`. */
  lemma TotalsAt(tc: Counter<Pair>, a: State)
    ensures a in Totals(MapTransitions(tc)) <==> a in Starts(tc)
    ensures a in Starts(tc) ==> Totals(MapTransitions(tc))[a] == Total(ExtractTransitions(tc, a))
    ensures a !in Starts(tc) ==> ExtractTransitions(tc, a) == []
  {
    if a !in Starts(tc) {
      assert Keys(ExtractTransitions(tc, a)) == {};
      NoKeys(ExtractTransitions(tc, a));
    }
  }

  /** Counting one more pair adds its start to the start states of the table. */
  lemma TotalsKeysIncrement(c: Counter<Pair>, p: Pair)
    ensures Totals(MapTransitions(Increment(c, p))).Keys == Totals(MapTransitions(c)).Keys + {p.0}
  {
    StartsIncrement(c, p);
  }

  /** Counting one more pair adds one to the sum of the counts under its start and no other. */
  lemma TotalsValueIncrement(c: Counter<Pair>, p: Pair, a: State)
    requires a in Totals(MapTransitions(Increment(c, p)))
    ensures Totals(MapTransitions(Increment(c, p)))[a] ==
              (if a in Totals(MapTransitions(c)) then Totals(MapTransitions(c))[a] else 0) +
              (if a == p.0 then 1 else 0)
  {
    ExtractIncrement(c, p, a);
    TotalsAt(c, a);
    TotalsAt(Increment(c, p), a);
  }

  /** The counts of `map_transitions(Counter(ps))` add up to the number of pairs. */
  lemma {:induction false} CountedTotal(ps: seq<Pair>)
    ensures TableTotal(MapTransitions(CountAll(ps))) == |ps|
  {
    if ps == [] {
      assert MapTransitions(CountAll(ps)) == map[];
      assert Totals(map[]) == map[];
    } else {
      var init, last := ps[..|ps| - 1], ps[|ps| - 1];
      assert ps == init + [last];
      CountedTotal(init);
      var c := CountAll(init);
      assert CountAll(ps) == Increment(c, last);
      var t, t' := Totals(MapTransitions(c)), Totals(MapTransitions(Increment(c, last)));
      TotalsKeysIncrement(c, last);
      forall a | a in t' ensures t'[a] == (if a in t then t[a] else 0) + (if a == last.0 then 1 else 0) {
        TotalsValueIncrement(c, last, a);
      }
      SumValuesBump(t, t', last.0);
    }
  }

  /** The number of pieces of each word plus one, summed over the corpus. */
  function PairTotal(ws: seq<string>): nat {
    if ws == [] then 0 else |Pieces(ws[0])| + 1 + PairTotal(ws[1..])
  }

  lemma {:induction false} CorpusPairsLength(ws: seq<string>)
    ensures |CorpusPairs(ws)| == PairTotal(ws)
  {
    if ws != [] {
      WordPairsShape(ws[0]);
      CorpusPairsLength(ws[1..]);
    }
  }

  /**
   * All counts of `analyze_words(ws)` together: one transition per piece plus
   * one for the final boundary, for every word.
   */
  lemma AnalyzeWordsTotal(ws: seq<string>)
    ensures TableTotal(AnalyzeWords(ws)) == PairTotal(ws)
  {
    CountedTotal(CorpusPairs(ws));
    CorpusPairsLength(ws);
  }

  /** Every pair of a word is followed by a pair from where it ends, unless it ends at the boundary. */
  lemma WordPairsClosed(w: string, i: int)
    requires 0 <= i < |WordPairs(w)| && WordPairs(w)[i].1 != Boundary
    ensures i + 1 < |WordPairs(w)| && WordPairs(w)[i + 1].0 == WordPairs(w)[i].1
  {
    WordPairsShape(w);
  }

  /** The states some pair of `ps` starts at. */
  function Firsts(ps: seq<Pair>): set<State> {
    if ps == [] then {} else {ps[0].0} + Firsts(ps[1..])
  }

  /** The states some pair of `ps` ends at. */
  function Ends(ps: seq<Pair>): set<State> {
    if ps == [] then {} else {ps[0].1} + Ends(ps[1..])
  }

  lemma {:induction false} FirstsIn(ps: seq<Pair>, p: Pair)
    requires p in ps
    ensures p.0 in Firsts(ps) && p.1 in Ends(ps)
  {
    if ps[0] != p {
      assert p in ps[1..];
      FirstsIn(ps[1..], p);
    }
  }

  lemma {:induction false} FirstsHas(ps: seq<Pair>, a: State)
    requires a in Firsts(ps)
    ensures exists p :: p in ps && p.0 == a
  {
    if ps[0].0 != a {
      FirstsHas(ps[1..], a);
      var p :| p in ps[1..] && p.0 == a;
      assert p in ps;
    }
  }

  lemma {:induction false} EndsHas(ps: seq<Pair>, b: State)
    requires b in Ends(ps)
    ensures exists i :: 0 <= i < |ps| && ps[i].1 == b
  {
    if ps[0].1 != b {
      EndsHas(ps[1..], b);
      var i :| 0 <= i < |ps[1..]| && ps[1..][i].1 == b;
      assert ps[i + 1].1 == b;
    }
  }

  lemma {:induction false} FirstsEndsAppend(x: seq<Pair>, y: seq<Pair>)
    ensures Firsts(x + y) == Firsts(x) + Firsts(y)
    ensures Ends(x + y) == Ends(x) + Ends(y)
  {
    if x == [] {
      assert x + y == y;
    } else {
      assert (x + y)[0] == x[0];
      assert (x + y)[1..] == x[1..] + y;
      FirstsEndsAppend(x[1..], y);
    }
  }

  /** Within one word, every state a pair leads to starts a pair, and so does the boundary. */
  lemma WordClosed(w: string)
    ensures Boundary in Firsts(WordPairs(w))
    ensures Ends(WordPairs(w)) <= Firsts(WordPairs(w))
  {
    var wp := WordPairs(w);
    WordPairsShape(w);
    FirstsIn(wp, wp[0]);
    forall b | b in Ends(wp) ensures b in Firsts(wp) {
      EndsHas(wp, b);
      var i :| 0 <= i < |wp| && wp[i].1 == b;
      if b != Boundary {
        WordPairsClosed(w, i);
        FirstsIn(wp, wp[i + 1]);
      }
    }
  }

  /**
   * In the pairs of a corpus, every state a pair leads to starts some pair,
   * and the boundary starts a pair as soon as there is a word.
   */
  lemma {:induction false} CorpusClosed(ws: seq<string>)
    ensures ws != [] ==> Boundary in Firsts(CorpusPairs(ws))
    ensures Ends(CorpusPairs(ws)) <= Firsts(CorpusPairs(ws))
  {
    if ws != [] {
      WordClosed(ws[0]);
      CorpusClosed(ws[1..]);
      FirstsEndsAppend(WordPairs(ws[0]), CorpusPairs(ws[1..]));
    }
  }

  /** A table counted from pairs that always lead on never leads into a missing state. */
  lemma CountedClosed(ps: seq<Pair>, a: State, b: State)
    requires Ends(ps) <= Firsts(ps)
    requires CountOf(MapTransitions(CountAll(ps)), a, b) > 0
    ensures b in MapTransitions(CountAll(ps))
  {
    MapCountedKeys(ps);
    MapCountedCounts(ps);
    assert (a, b) in ps;
    FirstsIn(ps, (a, b));
    FirstsHas(ps, b);
  }

  /**
   * A built model never leads into a state it has no counter for, and every
   * counter it has can be drawn from.
   */
  lemma AnalyzeWordsClosed(ws: seq<string>)
    ensures ws != [] ==> Boundary in AnalyzeWords(ws)
    ensures forall a, b :: CountOf(AnalyzeWords(ws), a, b) > 0 ==> b in AnalyzeWords(ws)
    ensures forall a :: a in AnalyzeWords(ws) ==> Total(AnalyzeWords(ws)[a]) > 0
  {
    var ps := CorpusPairs(ws);
    var m := AnalyzeWords(ws);
    BoundaryTotal(ws);
    CorpusClosed(ws);
    forall a, b | CountOf(m, a, b) > 0 ensures b in m {
      CountedClosed(ps, a, b);
    }
    forall a | a in m ensures Total(m[a]) > 0 {
      MapCountedInner(ps, a);
      PositiveTotal(m[a]);
    }
  }
}
