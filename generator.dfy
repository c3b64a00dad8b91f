/**
 * The word generator of analysis.py: `weighted_choice` and `make_word`.
 *
 * The random source is a sequence of draws. A choice from a counter whose
 * counts add up to `n` uses the next draw `d` as `randrange(n)`'s outcome
 * `d % n`, so every outcome can be drawn and every draw gives one. The
 * finite list of draws is the walk's fuel: a walk that needs more draws than
 * it has ends in `OutOfDraws`. `transitions[state]` on a missing state (the
 * source's `KeyError`) and `randrange(0)` on a counter without counts (the
 * source's `ValueError`) end the walk with an error value.
 */
module Generator {
  import opened Iterables
  import opened Counters
  import opened Transitions

  datatype WalkError =
    | MissingState(state: State)
    | EmptyDistribution(state: State)
    | OutOfDraws

  datatype Result<T> = Ok(value: T) | Err(error: WalkError)

  /** `randrange(n)`'s outcome for `draw`: below `n`, and the draw itself when it already is. */
  function Outcome(draw: nat, n: nat): (r: nat)
    requires n > 0
    ensures r < n
    ensures draw < n ==> r == draw
  {
    draw % n
  }

  /**
   * `weighted_choice(counter)` with `randrange`'s outcome taken from `draw`:
   * the element at that position of `counter.elements()`.
   */
  function WeightedChoice<K(==,!new)>(c: Counter<K>, draw: nat): (k: K)
    requires Total(c) > 0
    ensures k == Elements(c)[Outcome(draw, Total(c))]
    ensures Lookup(c, k) > 0
  {
    var e := Elements(c);
    assert e[Outcome(draw, Total(c))] in multiset(e);
    Nth(e, Outcome(draw, Total(c)), e[0])
  }

  /** The next draw used as an index into `elements()`: it is the source's `nth`. */
  lemma WeightedChoiceIsNth<K(!new)>(c: Counter<K>, r: nat, default: K)
    requires r < Total(c)
    ensures WeightedChoice(c, r) == Nth(Elements(c), r, default)
  {
  }

  /**
   * The entry an index of `elements()` falls into: the entries before it
   * hold at most that many elements, and together with it more.
   */
  lemma {:induction false} ElementsInterval<K(!new)>(c: Counter<K>, r: nat) returns (i: nat)
    requires r < Total(c)
    ensures i < |c| && Total(c[..i]) <= r < Total(c[..i]) + c[i].1
    ensures Elements(c)[r] == c[i].0
  {
    var rep := Repeat(c[0].0, c[0].1);
    assert Elements(c) == rep + Elements(c[1..]);
    if r < c[0].1 {
      i := 0;
      assert c[..0] == [];
      assert Elements(c)[r] == rep[r];
    } else {
      var j := ElementsInterval(c[1..], r - c[0].1);
      i := j + 1;
      assert c[..i][0] == c[0] && c[..i][1..] == c[1..][..j];
      assert Elements(c)[r] == Elements(c[1..])[r - c[0].1];
    }
  }

  /**
   * The choice is the key whose cumulative-count interval, in insertion
   * order, contains the draw.
   */
  lemma WeightedChoiceInterval<K(!new)>(c: Counter<K>, draw: nat) returns (i: nat)
    requires Total(c) > 0
    ensures i < |c| && c[i].0 == WeightedChoice(c, draw)
    ensures Total(c[..i]) <= Outcome(draw, Total(c)) < Total(c[..i]) + c[i].1
  {
    i := ElementsInterval(c, Outcome(draw, Total(c)));
  }

  /** Every key with a positive count is the choice for some draw below the total. */
  lemma ChoiceReachable<K(!new)>(c: Counter<K>, k: K) returns (draw: nat)
    requires Lookup(c, k) > 0
    ensures draw < Total(c) && WeightedChoice(c, draw) == k
  {
    var e := Elements(c);
    assert k in multiset(e);
    var r :| 0 <= r < |e| && e[r] == k;
    draw := r;
  }

  /** The positions of `k` in `e`. */
  function Positions<K(==)>(e: seq<K>, k: K): set<nat> {
    set i: nat | i < |e| && e[i] == k
  }

  lemma {:induction false} PositionsCount<K>(e: seq<K>, k: K)
    ensures |Positions(e, k)| == multiset(e)[k]
  {
    if e != [] {
      var init, x := e[..|e| - 1], e[|e| - 1];
      assert e == init + [x];
      PositionsCount(init, k);
      if x == k {
        assert Positions(e, k) == Positions(init, k) + {|init|};
      } else {
        assert Positions(e, k) == Positions(init, k);
      }
    }
  }

  /**
   * Choices are proportional to counts: of the `Total(c)` outcomes of
   * `randrange`, exactly `c[k]` choose `k`.
   */
  lemma ChoiceProportional<K(!new)>(c: Counter<K>, k: K)
    requires Total(c) > 0
    ensures |set r: nat | r < Total(c) && WeightedChoice(c, r) == k| == Lookup(c, k)
  {
    var e := Elements(c);
    PositionsCount(e, k);
    assert (set r: nat | r < Total(c) && WeightedChoice(c, r) == k) == Positions(e, k);
  }

  /**
   * One step of the walk: `weighted_choice(transitions[state])` with the
   * first of `draws`.
   */
  function Step(t: Table, from: State, draws: seq<nat>): (r: Result<State>)
    ensures r.Ok? ==> draws != [] && CountOf(t, from, r.value) > 0
    ensures r == Err(MissingState(from)) <==> from !in t
    ensures r == Err(EmptyDistribution(from)) <==> from in t && Total(t[from]) == 0
    ensures r == Err(OutOfDraws) <==> from in t && Total(t[from]) > 0 && draws == []
  {
    if from !in t then Err(MissingState(from))
    else if Total(t[from]) == 0 then Err(EmptyDistribution(from))
    else if draws == [] then Err(OutOfDraws)
    else Ok(WeightedChoice(t[from], draws[0]))
  }

  /** The walk from `from` until the boundary is chosen: the pieces it passes. */
  function Walk(t: Table, from: State, draws: seq<nat>): Result<seq<string>>
    decreases |draws|
  {
    match Step(t, from, draws)
    case Err(e) => Err(e)
    case Ok(next) =>
      if next == Boundary then Ok([])
      else Prepend([next.value], Walk(t, next, draws[1..]))
  }

  /** `w + rest` when the walk went on to produce `rest`. */
  function Prepend(w: seq<string>, r: Result<seq<string>>): Result<seq<string>> {
    match r
    case Ok(rest) => Ok(w + rest)
    case Err(e) => Err(e)
  }

  /** `make_word(transitions)`: the walk from the start boundary. */
  function Generate(t: Table, draws: seq<nat>): Result<seq<string>> {
    Walk(t, Boundary, draws)
  }

  /**
   * The rest of a walk once `cur` has been chosen: nothing when it is the
   * boundary, otherwise its piece and the walk from it.
   */
  function Continue(t: Table, cur: State, draws: seq<nat>): Result<seq<string>> {
    if cur == Boundary then Ok([]) else Prepend([cur.value], Walk(t, cur, draws))
  }

  lemma PrependNil(r: Result<seq<string>>)
    ensures Prepend([], r) == r
  {
    if r.Ok? {
      assert [] + r.value == r.value;
    }
  }

  lemma PrependPrepend(w: seq<string>, v: seq<string>, r: Result<seq<string>>)
    ensures Prepend(w, Prepend(v, r)) == Prepend(w + v, r)
  {
    if r.Ok? {
      assert w + (v + r.value) == (w + v) + r.value;
    }
  }

  /**
   * `make_word(transitions)`: start with the choice from the boundary, then
   * append each piece and choose again from it until the boundary comes.
   */
  method MakeWord(transitions: Table, draws: seq<nat>) returns (result: Result<seq<string>>)
    ensures result == Generate(transitions, draws)
  {
    var word: seq<string> := [];
    var step := Step(transitions, Boundary, draws);
    if step.Err? {
      return Err(step.error);
    }
    var letterGroup := step.value;
    var used := 1;
    PrependNil(Continue(transitions, letterGroup, draws[used..]));
    while letterGroup != Boundary
      invariant 0 < used <= |draws|
      invariant Generate(transitions, draws) == Prepend(word, Continue(transitions, letterGroup, draws[used..]))
      decreases |draws| - used
    {
      word := word + [letterGroup.value];
      step := Step(transitions, letterGroup, draws[used..]);
      PrependPrepend(word[..|word| - 1], [letterGroup.value], Walk(transitions, letterGroup, draws[used..]));
      assert word[..|word| - 1] + [letterGroup.value] == word;
      if step.Err? {
        return Err(step.error);
      }
      assert draws[used..][1..] == draws[used + 1..];
      letterGroup := step.value;
      used := used + 1;
    }
    assert word + [] == word;
    return Ok(word);
  }

  /** Every consecutive pair of `s` is a transition with a positive count in `t`. */
  predicate Chain(t: Table, s: seq<State>) {
    forall p :: p in Pairwise(s) ==> CountOf(t, p.0, p.1) > 0
  }

  lemma ChainCons(t: Table, x: State, s: seq<State>)
    requires s != []
    ensures Chain(t, [x] + s) <==> CountOf(t, x, s[0]) > 0 && Chain(t, s)
  {
    PairwiseCons(x, s);
  }

  /** The states of a walk from `from` that produced `out`, ending at the boundary. */
  function Path(from: State, out: seq<string>): seq<State> {
    [from] + Lift(out) + [Boundary]
  }

  lemma PathCons(from: State, x: string, rest: seq<string>)
    ensures Path(from, [x] + rest) == [from] + Path(Piece(x), rest)
  {
    assert Lift([x] + rest) == [Piece(x)] + Lift(rest) by {
      assert ([x] + rest)[1..] == rest;
    }
  }

  lemma PathNil(t: Table, from: State)
    ensures Chain(t, Path(from, [])) <==> CountOf(t, from, Boundary) > 0
  {
    assert Path(from, []) == [from, Boundary];
    assert Pairwise([from, Boundary]) == [(from, Boundary)];
  }

  /**
   * The walk with its step as a parameter. `Walk` is this walk for `Step`
   * (`WalkIsWalkWith`), so facts that hold for any step that consumes one
   * draw and depends only on that draw are proved here once.
   */
  function WalkWith(step: (State, seq<nat>) -> Result<State>, from: State, draws: seq<nat>): Result<seq<string>>
    decreases |draws|
  {
    match step(from, draws)
    case Err(e) => Err(e)
    case Ok(next) =>
      if next == Boundary || draws == [] then Ok([])
      else Prepend([next.value], WalkWith(step, next, draws[1..]))
  }

  lemma {:induction false} WalkIsWalkWith(t: Table, from: State, draws: seq<nat>)
    ensures Walk(t, from, draws) == WalkWith((f, d) => Step(t, f, d), from, draws)
    decreases |draws|
  {
    var step := Step(t, from, draws);
    if step.Ok? && step.value != Boundary {
      WalkIsWalkWith(t, step.value, draws[1..]);
    }
  }

  /**
   * For a step that needs a draw and looks only at the first one, a finished
   * walk uses one draw per piece and one for the final boundary: the first
   * `|out| + 1` draws alone give the same walk.
   */
  lemma {:induction false} WalkWithPrefix(step: (State, seq<nat>) -> Result<State>, from: State, draws: seq<nat>)
    returns (out: seq<string>)
    requires forall f, d :: step(f, d).Ok? ==> d != []
    requires forall f, a, b :: a != [] && b != [] && a[0] == b[0] ==> step(f, a) == step(f, b)
    requires WalkWith(step, from, draws).Ok?
    ensures WalkWith(step, from, draws) == Ok(out)
    ensures |out| < |draws| && WalkWith(step, from, draws[..|out| + 1]) == Ok(out)
    decreases |draws|
  {
    var s := step(from, draws);
    assert draws != [];
    assert step(from, draws[..1]) == s;
    if s.value == Boundary {
      out := [];
    } else {
      var next := s.value;
      var rest := WalkWithPrefix(step, next, draws[1..]);
      out := [next.value] + rest;
      var pre := draws[..|out| + 1];
      assert step(from, pre) == s;
      assert pre[1..] == draws[1..][..|rest| + 1];
    }
  }

  /**
   * A finished walk uses one draw per piece and one for the final boundary:
   * the first `|out| + 1` draws decide it, and the draws after them play no
   * part.
   */
  lemma WalkPrefix(t: Table, from: State, draws: seq<nat>)
    requires Walk(t, from, draws).Ok?
    ensures |Walk(t, from, draws).value| < |draws|
    ensures Walk(t, from, draws[..|Walk(t, from, draws).value| + 1]) == Walk(t, from, draws)
  {
    WalkIsWalkWith(t, from, draws);
    var out := WalkWithPrefix((f, d) => Step(t, f, d), from, draws);
    WalkIsWalkWith(t, from, draws[..|out| + 1]);
  }

  /**
   * What a finished walk produces: the boundary, its pieces and the boundary
   * again form a chain of positive-count transitions, and it used one draw
   * per piece and one for the final boundary: the first `|out| + 1` draws
   * decide the walk, and the draws after them play no part.
   */
  lemma {:induction false} WalkSound(t: Table, from: State, draws: seq<nat>)
    requires Walk(t, from, draws).Ok?
    ensures Chain(t, Path(from, Walk(t, from, draws).value))
    ensures |Walk(t, from, draws).value| < |draws|
    ensures Walk(t, from, draws[..|Walk(t, from, draws).value| + 1]) == Walk(t, from, draws)
    decreases |draws|
  {
    WalkPrefix(t, from, draws);
    var out := Walk(t, from, draws).value;
    var next := Step(t, from, draws).value;
    if next == Boundary {
      assert out == [];
      PathNil(t, from);
    } else {
      WalkSound(t, next, draws[1..]);
      var rest := Walk(t, next, draws[1..]).value;
      assert out == [next.value] + rest;
      PathCons(from, next.value, rest);
      ChainCons(t, from, Path(next, rest));
    }
  }

  /**
   * A generated word never leaves the model: every piece's state starts a
   * counter, the chain boundary, pieces, boundary holds in the table, and
   * only the first `|out| + 1` draws are used.
   */
  lemma GenerateSound(t: Table, draws: seq<nat>)
    requires Generate(t, draws).Ok?
    ensures Chain(t, PadWord(Generate(t, draws).value))
    ensures forall i :: 0 <= i < |Generate(t, draws).value| ==> Piece(Generate(t, draws).value[i]) in t
    ensures |Generate(t, draws).value| < |draws|
    ensures Generate(t, draws[..|Generate(t, draws).value| + 1]) == Generate(t, draws)
  {
    var out := Generate(t, draws).value;
    WalkSound(t, Boundary, draws);
    assert PadWord(out) == Path(Boundary, out);
    var s := PadWord(out);
    forall i | 0 <= i < |out| ensures Piece(out[i]) in t {
      assert Pairwise(s)[i + 1] == (s[i + 1], s[i + 2]);
      assert Pairwise(s)[i + 1] in Pairwise(s);
    }
  }

  /**
   * Every chain of positive-count transitions from `from` back to the
   * boundary is a walk: some draws, one per step, produce exactly it.
   */
  lemma {:induction false} WalkComplete(t: Table, from: State, out: seq<string>) returns (draws: seq<nat>)
    requires Chain(t, Path(from, out))
    ensures |draws| == |out| + 1 && Walk(t, from, draws) == Ok(out)
    decreases |out|
  {
    if out == [] {
      PathNil(t, from);
      var d := ChoiceReachable(t[from], Boundary);
      draws := [d];
    } else {
      var x, rest := out[0], out[1..];
      assert out == [x] + rest;
      PathCons(from, x, rest);
      ChainCons(t, from, Path(Piece(x), rest));
      var d := ChoiceReachable(t[from], Piece(x));
      var tail := WalkComplete(t, Piece(x), rest);
      draws := [d] + tail;
      assert draws[1..] == tail;
    }
  }

  /** Every word that follows positive transitions from boundary to boundary can be generated. */
  lemma GenerateComplete(t: Table, out: seq<string>) returns (draws: seq<nat>)
    requires Chain(t, PadWord(out))
    ensures |draws| == |out| + 1 && Generate(t, draws) == Ok(out)
  {
    assert PadWord(out) == Path(Boundary, out);
    draws := WalkComplete(t, Boundary, out);
  }

  /** Without a counter for the boundary, `make_word` fails at its first lookup. */
  lemma NoStart(t: Table, draws: seq<nat>)
    requires Boundary !in t
    ensures Generate(t, draws) == Err(MissingState(Boundary))
  {
  }

  /** The model of an empty corpus cannot start a word. */
  lemma EmptyCorpus(draws: seq<nat>)
    ensures Generate(AnalyzeWords([]), draws) == Err(MissingState(Boundary))
  {
    BoundaryTotal([]);
  }

  /** A table where every counter can be drawn from and leads only to states it has. */
  ghost predicate Closed(t: Table) {
    && (forall a, b :: CountOf(t, a, b) > 0 ==> b in t)
    && (forall a :: a in t ==> Total(t[a]) > 0)
  }

  /** In a closed table, a walk from a known state can only run out of draws. */
  lemma {:induction false} ClosedWalk(t: Table, from: State, draws: seq<nat>)
    requires Closed(t) && from in t
    ensures Walk(t, from, draws).Ok? || Walk(t, from, draws) == Err(OutOfDraws)
    decreases |draws|
  {
    var step := Step(t, from, draws);
    if step.Ok? && step.value != Boundary {
      ClosedWalk(t, step.value, draws[1..]);
    }
  }

  /**
   * On a model built from a non-empty corpus, `make_word` never fails with
   * a missing state or an empty counter; it only runs out of draws.
   */
  lemma BuiltModelWalks(ws: seq<string>, draws: seq<nat>)
    requires ws != []
    ensures Generate(AnalyzeWords(ws), draws).Ok? || Generate(AnalyzeWords(ws), draws) == Err(OutOfDraws)
  {
    AnalyzeWordsClosed(ws);
    ClosedWalk(AnalyzeWords(ws), Boundary, draws);
  }
}
