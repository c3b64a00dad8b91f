# analysis.py — a verified model of a letter-group Markov word generator

`analysis.py` builds a quick Markov chain over the letter groups of a
corpus and uses it to make up new words. It works in three stages:

1. **Segmenting.** The routines `split` and `tokenize` scan a word with the
   alternation `word_patterns`. It tries VOWEL, CONSONANT, PUNCTUATION,
   WHITESPACE and OTHER in that order, and each match is one piece.
2. **Building the model.** Each word's pieces are padded with the boundary
   marker `None` and cut into consecutive pairs (`pad`, `pairwise`). The
   pairs of the whole corpus are counted (`count_transitions`,
   `analyze_words`). The counts are then regrouped into the table
   `from -> Counter({to: count})` (`extract_transitions`, `map_transitions`).
3. **Generating.** `make_word` walks that table from `None` back to `None`.
   Each next group comes from `weighted_choice`, which picks a key in
   proportion to its count.

The Dafny project has one module per part of the program:

- `Segmenter` (segmenter.dfy) holds the character classes and the ordered
  classifier, the recursive specification `Tokens` of the scanner, and the
  scanner loops `MatchAt`, `Tokenize` and `Split`. The loops are proved
  against `Tokens`. The file also proves that the tokens form the unique
  maximal-munch segmentation.
- `Iterables` (iterables.dfy) holds `pairwise`, `pad` and `nth` as sequence
  functions.
- `Counters` (counters.dfy) models `collections.Counter` as an association
  list in insertion order, because `elements()` and so `weighted_choice`
  depend on that order. It covers counting, lookup, totals and `elements()`.
- `Transitions` (transitions.dfy) holds the model builder, with the
  boundary as the constructor `Boundary` of `State`. It proves the key, count
  and positivity facts of `map_transitions`, the two count sums, additivity
  and doubling, and that a model built from words is closed.
- `Generator` (generator.dfy) holds `weighted_choice` over an injected draw,
  the walk (`Step`, `Walk`, `Generate`), and the loop `MakeWord`, which is
  proved equal to the walk. It proves that the walk is sound and complete
  with respect to chains of positive transitions.
- `Banana` (banana.dfy) works through the example in `make_word`'s
  documentation: the table built from "banana", and the walk
  None -> b -> a -> n -> a -> n -> a -> n -> a -> None.

Randomness is a parameter. A walk receives a finite sequence of draws. Step
`i` uses draw `d`, and its `randrange(n)` outcome is `d % n`, so every
outcome is reachable and every draw yields a legal one. The finiteness of
the draws bounds the walk. A `KeyError` on a missing state, `randrange(0)`
on a counter without counts, and running out of draws are `Err` values.

## Model

| member | source | states |
|---|---|---|
| Segmenter.Classify | analysis.py:9-15 | the alternative chosen for a first character is VOWEL exactly for vowels, CONSONANT exactly for consonants, PUNCTUATION exactly for `-` and `'`, WHITESPACE exactly for `\s` characters in none of those classes; OTHER never starts at a newline |
| Segmenter.RunLength | analysis.py:10-14 | the greedy `+` consumes a prefix every character of which extends the match, and stops at the end or at a character that does not |
| Segmenter.MatchLength | analysis.py:9-15 | the match at the start of a non-empty word is at least one character, within the word, greedy, and stops where the chosen alternative can no longer go on |
| Segmenter.MatchLengthUnique | analysis.py:9-15 | any length that is greedy in that sense is the match length |
| Segmenter.Values | analysis.py:28 | keeping only the matched text keeps the number of tokens and each token's text in place |
| Segmenter.FitsKind | analysis.py:9-15 | a token that fits its label is non-empty, carries the label the priority order gives its first character, and every later character extends that alternative |
| Segmenter.FirstTokenFits | analysis.py:9-15 | the first match of a non-empty word fits its label |
| Segmenter.TokensAreSegmentation | analysis.py:18-28 | the scanner's tokens spell the word, each is a vowel run, a consonant run, one `-` or `'`, a whitespace run, or an OTHER run without newlines starting outside those classes, and no token could have been extended over the next one |
| Segmenter.SegmentationUnique | analysis.py:18-28 | every maximal-munch segmentation of a word is the scanner's |
| Segmenter.SplitCovers | analysis.py:25-28 | joining `split(w)` gives back `w`, and no piece is empty |
| Segmenter.AdjacentTokens | analysis.py:9-15 | two neighbouring tokens of the same kind are both PUNCTUATION, and an OTHER token is followed only by one that starts with a newline |
| Segmenter.MatchAt | analysis.py:20-21 | one `scanner.match` at a position: the match ends after the position, within the word, and is the first token of the rest of the word |
| Segmenter.Tokenize | analysis.py:18-22 | the scan loop yields exactly the tokens of the specification `Tokens` |
| Segmenter.Split | analysis.py:25-28 | the scan loop returns exactly the texts of those tokens, so `split` and `tokenize` agree piece by piece |
| Segmenter.AlternatingWord | analysis.py:9-15 | a word whose letters alternate between vowels and consonants is split into its single letters, each labelled by its class |
| Segmenter.BananaShapeTokens | analysis.py:9-15 | a consonant, vowel, consonant, vowel, consonant, vowel word gives six one-letter tokens labelled consonant, vowel, consonant, vowel, consonant, vowel |
| Segmenter.BananaShapePieces | analysis.py:25-28 | the pieces of such a word are its letters |
| Segmenter.BananaTokens | analysis.py:18-28 | `tokenize("banana")` is b, a, n, a, n, a with consonant and vowel labels, and `split("banana")` is `["b", "a", "n", "a", "n", "a"]` |
| Segmenter.AllVowelWord | analysis.py:10 | every non-empty word made only of vowels is one VOWEL token holding the whole word |
| Segmenter.OtherWord | analysis.py:14 | OTHER swallows the rest of the line, letters included: "3abc" is one OTHER token |
| Iterables.Pairwise | analysis.py:31-38 | `pairwise(s)` has one element fewer than `s`, or none when `s` is empty, and element `i` is `(s[i], s[i + 1])` |
| Iterables.Pad | analysis.py:49-53 | `pad(s)` is two elements longer than `s`, starts and ends with the padding, and holds `s` in between |
| Iterables.Nth | analysis.py:41-46 | `nth(s, n, default)` is `s[n]` when `n` is an index of `s`, otherwise the default |
| Iterables.PairwiseSnoc | analysis.py:31-38 | appending an element adds one pair at the end |
| Iterables.PairwiseCons | analysis.py:31-38 | prepending an element adds one pair at the front |
| Iterables.PairwisePad | analysis.py:49-53 | the pairs of a padded sequence are padding and first element, the sequence's own pairs, last element and padding; a padded empty sequence gives the single pair (padding, padding) |
| Counters.Lookup | analysis.py:68 | a key with a positive count is one of the counter's keys |
| Counters.Increment | analysis.py:63 | counting `x` once more raises its count by one and no other, raises the total by one, adds `x` to the keys, and keeps counts positive and keys distinct |
| Counters.CountAll | analysis.py:87 | `Counter(s)` counts each element as often as it occurs in `s`, has the length of `s` as its total, has the elements of `s` as keys, and has positive counts and distinct keys |
| Counters.Elements | analysis.py:58 | `elements()` has as many entries as the total, and each key occurs in it as often as its count |
| Counters.Repeat | analysis.py:58 | a key repeated `n` times is `n` copies of the key |
| Counters.RepeatCount | analysis.py:58 | a key repeated `n` times occurs `n` times and no other key occurs |
| Counters.ConsFacts | analysis.py:68 | an entry in front of a counter adds its count to its key, its key to the keys and its count to the total, and the counter stays distinct exactly when the key is new |
| Counters.PositiveTotal | analysis.py:58 | a non-empty counter with positive counts has a positive total |
| Counters.IncrementSkip | analysis.py:63 | counting a key passes an entry with a different key unchanged |
| Counters.IncrementHere | analysis.py:63 | counting the key of the first entry raises that entry's count in place |
| Counters.IncrementAppends | analysis.py:63 | counting a key that is not yet present appends the entry (key, 1) after all existing entries |
| Counters.IncrementInPlace | analysis.py:63 | counting a key that is present raises the count of its first entry by one in place and leaves every other entry and the key order as it was |
| Counters.CountAllSnoc | analysis.py:87 | `Counter(s + [x])` is `Counter(s)` with `x` counted once more |
| Transitions.Lift | analysis.py:86 | the pieces become states one by one, in order |
| Transitions.CountTransitions | analysis.py:61-63 | `count_transitions(s)` counts each consecutive pair of `s` as often as it occurs, has exactly those pairs as keys, and has positive counts and distinct keys |
| Transitions.ExtractTransitions | analysis.py:66-69 | `extract_transitions(tc, a)[b]` is `tc[(a, b)]`, its keys are the ends of the pairs that start at `a`, and positivity and distinctness carry over |
| Transitions.MapTransitions | analysis.py:72-76 | the keys are exactly the start states, `m[a][b]` is the count of `(a, b)`, and a positive counter gives non-empty, positive inner counters with distinct keys |
| Transitions.MapTransitionsAt | analysis.py:75-76 | the counter kept for a start state is `extract_transitions` for it |
| Transitions.MapCountedKeys | analysis.py:72-76 | the keys of `map_transitions(Counter(ps))` are exactly the first components of `ps` |
| Transitions.MapCountedCounts | analysis.py:61-76 | in `map_transitions(Counter(ps))`, `m[a][b]` is the number of occurrences of `(a, b)` in `ps` |
| Transitions.MapCountedInner | analysis.py:72-76 | every inner counter is non-empty, every stored count is at least 1, and no key repeats |
| Transitions.ExtractCons | analysis.py:66-69 | an entry in front of a pair counter is kept, re-keyed by its end, exactly when it starts at the given state |
| Transitions.WordPairsShape | analysis.py:86 | a word contributes one pair more than it has pieces; the first starts and the last ends at the boundary, the pairs link up end to start, and the boundary occurs nowhere in between |
| Transitions.EmptyWordPairs | analysis.py:86 | the empty word contributes the single pair (None, None) |
| Transitions.FirstCountAppend | analysis.py:87 | the pairs starting at a state in two sequences together are those of each |
| Transitions.FirstCountNone | analysis.py:87 | no pair starts at a state that no pair's first component is |
| Transitions.WordStartsOnce | analysis.py:86 | each word starts exactly one pair at the boundary |
| Transitions.CorpusStarts | analysis.py:86-87 | the pairs of a corpus start at the boundary once per word |
| Transitions.ExtractIncrement | analysis.py:63-69 | counting one more pair adds one to the total of the counter of its start and nothing to the others |
| Transitions.ExtractTotal | analysis.py:66-69 | the counter of a start state holds as many pairs as start there |
| Transitions.BoundaryTotal | analysis.py:84-87 | an empty corpus gives an empty model; otherwise the boundary has a counter whose counts add up to the number of words |
| Transitions.CorpusPairsAppend | analysis.py:86-87 | the pairs of two corpora together are the pairs of the first followed by those of the second |
| Transitions.FirstsAppend | analysis.py:74 | the first components of two pair sequences together are those of each |
| Transitions.PairKeysAppend | analysis.py:74 | the start states of two counted pair sequences together are those of each |
| Transitions.AdditiveKeys | analysis.py:84-87 | the model of two corpora together has the start states of both |
| Transitions.AdditiveCounts | analysis.py:84-87 | each count of the model of two corpora together is the sum of the two counts |
| Transitions.Doubling | analysis.py:84-87 | doubling the corpus keeps the start states and doubles every count |
| Transitions.OneWordCorpus | analysis.py:86-87 | a corpus of one word has that word's pairs |
| Transitions.WordIsOneWordCorpus | analysis.py:79-87 | `analyze_word(w) == analyze_words([w])` |
| Transitions.EmptyWordModel | analysis.py:79-81 | the model of the empty word is the single transition None -> None with count 1 |
| Transitions.SumValuesRemove | analysis.py:87 | the sum of a map's values is one value plus the sum of the rest, whichever key is taken |
| Transitions.SumValuesBump | analysis.py:87 | raising one value of a map by one, or adding a new key with value 1, raises the sum by one |
| Transitions.Totals | analysis.py:72-76 | there is one total per start state of the table |
| Transitions.NoKeys | analysis.py:68 | a counter without keys is empty |
| Transitions.StartsIncrement | analysis.py:74 | counting one more pair adds its start to the start states |
| Transitions.TotalsAt | analysis.py:72-76 | a state has a total exactly when it is a start state, and that total is the total of its extracted counter; a state that starts nothing extracts the empty counter |
| Transitions.TotalsKeysIncrement | analysis.py:72-76 | counting one more pair adds its start to the states that have a total |
| Transitions.TotalsValueIncrement | analysis.py:72-76 | counting one more pair adds one to the total of its start and nothing to the others |
| Transitions.CountedTotal | analysis.py:61-76 | all counts of `map_transitions(Counter(ps))` together add up to the length of `ps` |
| Transitions.CorpusPairsLength | analysis.py:86-87 | a corpus has, summed over its words, one pair per piece plus one |
| Transitions.AnalyzeWordsTotal | analysis.py:84-87 | all counts of `analyze_words(ws)` together add up to the number of pieces of each word plus one, summed over the words |
| Transitions.WordPairsClosed | analysis.py:86 | every pair of a word that ends at a piece is followed by a pair starting there |
| Transitions.FirstsIn | analysis.py:74 | the start and end of every pair are among the starts and ends |
| Transitions.FirstsHas | analysis.py:74 | every start state is the first component of some pair |
| Transitions.EndsHas | analysis.py:74 | every end state is the second component of some pair |
| Transitions.FirstsEndsAppend | analysis.py:74 | the starts and ends of two pair sequences together are those of each |
| Transitions.WordClosed | analysis.py:86 | within one word the boundary starts a pair, and every state a pair leads to starts one |
| Transitions.CorpusClosed | analysis.py:86-87 | the same holds in the pairs of any corpus (the boundary as soon as there is a word) |
| Transitions.CountedClosed | analysis.py:72-76 | if every state a pair leads to starts a pair, the counted table never leads into a state it has no counter for |
| Transitions.AnalyzeWordsClosed | analysis.py:84-87 | a model built from a non-empty corpus has a counter for None; every state it leads to has a counter; every counter has a positive total |
| Generator.Outcome | analysis.py:58 | the `randrange(n)` outcome taken from a draw is below `n`, and is the draw itself when the draw already is |
| Generator.WeightedChoice | analysis.py:56-58 | the choice is the element of `elements()` at the drawn outcome, and it has a positive count |
| Generator.WeightedChoiceIsNth | analysis.py:41-46 | for a draw below the total, the choice is `nth(elements(), draw)` |
| Generator.ElementsInterval | analysis.py:56-58 | position `r` of `elements()` lies in the cumulative-count interval of one entry, in insertion order, and holds that entry's key |
| Generator.WeightedChoiceInterval | analysis.py:56-58 | the choice is the key whose cumulative-count interval contains the outcome |
| Generator.ChoiceReachable | analysis.py:56-58 | every key with a positive count is chosen by some draw below the total |
| Generator.PositionsCount | analysis.py:58 | a key occupies as many positions of a sequence as it occurs there |
| Generator.ChoiceProportional | analysis.py:56-58 | of the possible `randrange` outcomes, exactly the key's count choose that key |
| Generator.Step | analysis.py:117-120 | one step fails with a missing state exactly when the state has no counter, with an empty distribution exactly when its counter has no counts, and out of draws exactly when the draws have run out; a state it chooses follows with a positive count |
| Generator.PrependNil | analysis.py:116 | putting nothing in front of a walk's result leaves it unchanged |
| Generator.PrependPrepend | analysis.py:119 | putting two groups in front one after the other puts them in front together |
| Generator.MakeWord | analysis.py:90-121 | the loop returns exactly the walk from the boundary for these draws, so the same draws always give the same word |
| Generator.ChainCons | analysis.py:118-120 | a chain with a state in front holds exactly when the first step is a positive transition and the rest is a chain |
| Generator.PathCons | analysis.py:118-120 | the states of a walk that goes through the piece `x` are the start followed by the states of the walk from `x` |
| Generator.PathNil | analysis.py:118 | a walk that goes straight back to the boundary is a chain exactly when that transition is positive |
| Generator.WalkIsWalkWith | analysis.py:116-121 | the walk equals the walk whose step is a parameter, instantiated with the step of `weighted_choice(transitions[state])` |
| Generator.WalkWithPrefix | analysis.py:116-121 | for any step that needs a draw and depends only on the first one, a finished walk returns fewer groups than draws and its first group-count-plus-one draws alone give the same walk |
| Generator.WalkPrefix | analysis.py:116-121 | a finished walk returns fewer groups than it was given draws, and its first group-count-plus-one draws alone give the same walk, so the later draws play no part |
| Generator.WalkSound | analysis.py:116-121 | a finished walk's states form a chain of positive-count transitions that ends at the boundary; it returns fewer groups than draws, and its first group-count-plus-one draws alone give the same walk |
| Generator.GenerateSound | analysis.py:90-121 | a generated word never contains None; None, its groups and None again form a chain of positive transitions; every group is a "to" key that has a counter; fewer groups than draws are returned, and the first group-count-plus-one draws alone give the same word |
| Generator.WalkComplete | analysis.py:116-121 | every chain of positive transitions from a state back to the boundary is the walk of some draws, one per step |
| Generator.GenerateComplete | analysis.py:90-121 | every word that follows positive transitions from None to None is generated by some draws |
| Generator.NoStart | analysis.py:117 | without a counter for None, `make_word` fails at its first lookup |
| Generator.EmptyCorpus | analysis.py:84-87 | on the model of an empty corpus, `make_word` fails at its first lookup |
| Generator.ClosedWalk | analysis.py:118-120 | in a closed table, the walk from a known state can only succeed or run out of draws |
| Generator.BuiltModelWalks | analysis.py:90-121 | on a model built from a non-empty corpus, `make_word` never meets a missing state or an empty counter |
| Banana.Count7 | analysis.py:87 | counting seven pairs shaped like those of "banana" gives five entries in first-occurrence order, with counts 1, 1, 2, 2, 1 |
| Banana.PadPairsShape | analysis.py:86 | the pairs of a six-element sequence shaped like "banana", padded, are the seven pairs of that shape |
| Banana.BananaPairs | analysis.py:86 | "banana" contributes the pairs None-b, b-a, a-n, n-a, a-n, n-a, a-None |
| Banana.ExtractHit | analysis.py:66-69 | a pair starting at the state is kept in front, re-keyed by its end |
| Banana.ExtractMiss | analysis.py:66-69 | a pair starting elsewhere is dropped |
| Banana.BananaStarts | analysis.py:74 | the start states of the banana pairs are None, b, a and n |
| Banana.BananaCounterOf | analysis.py:87 | the counter of the banana pairs lists them in first-occurrence order with their counts |
| Banana.BananaFromBoundary | analysis.py:66-69 | from the boundary, the banana pair counter leads only to b, once |
| Banana.BananaFromB | analysis.py:66-69 | from b it leads only to a, once |
| Banana.BananaFromA | analysis.py:66-69 | from a it leads to n twice and then to the boundary once, in that order |
| Banana.BananaFromN | analysis.py:66-69 | from n it leads only to a, twice |
| Banana.BananaMapValues | analysis.py:72-76 | regrouping the banana pair counter gives exactly the four start states, each with those counters |
| Banana.BananaMap | analysis.py:72-76 | regrouping that counter gives the four inner counters of the documented table |
| Banana.BananaTable | analysis.py:99-104 | `analyze_words(["banana"])` is `{None: {b: 1}, b: {a: 1}, a: {n: 2, None: 1}, n: {a: 2}}`, with `a`'s counter in the order n, None |
| Banana.ChooseOnly | analysis.py:56-58 | a counter with a single key always chooses it |
| Banana.ChooseTwoOne | analysis.py:56-58 | from `{x: 2, y: 1}`, outcomes 0 and 1 choose `x` and outcome 2 chooses `y` |
| Banana.WalkOn | analysis.py:118-120 | a step that chooses a piece puts that piece in front of the rest of the walk |
| Banana.WalkOff | analysis.py:118 | a step that chooses the boundary ends the walk with nothing more |
| Banana.BananaTableRows | analysis.py:101-104 | the documented table has the four banana rows |
| Banana.BananaTail | analysis.py:108 | on those rows, the draws 0, 0, 0, 0, 2 take a -> n -> a -> n -> a -> None |
| Banana.BananaWalkOf | analysis.py:106-112 | on any table with the banana rows, the draws 0, 0, 0, 0, 0, 0, 0, 0, 2 give `['b', 'a', 'n', 'a', 'n', 'a', 'n', 'a']` |
| Banana.BananaWord | analysis.py:99-112 | `make_word(analyze_words(["banana"]))` can return `['b', 'a', 'n', 'a', 'n', 'a', 'n', 'a']` along the documented path |

## Left out

- The `__main__` block (analysis.py:124-130) is not modelled. It reads `top10000en.txt`, strips lines and prints words, which is all I/O.
- The `random` module is not modelled. `randrange(n)` becomes the next draw modulo `n`. The model states which outcomes choose which key (`ChoiceProportional`), but no probabilities.
- The regex engine and the `scanner` object are not modelled. They become the ordered classifier `Classify` with greedy run lengths, which has the same matches for these five alternatives.
- `\s` is not taken from the regex engine's Unicode tables. It is the explicit set of code points for which `str.isspace` holds: tab through carriage return, U+001C to U+001F, space, U+0085, U+00A0, U+1680, U+2000 to U+200A, U+2028, U+2029, U+202F, U+205F and U+3000. `.` is any character except `'\n'`.
- Words are Dafny strings, whose characters are Unicode scalar values. A Python `str` can also hold lone surrogates (U+D800 to U+DFFF), which the source would put in OTHER tokens. Such words are outside the model.
- The consonant class is written as "an ASCII letter that is not a vowel". This is the same 42 characters as the listed class.
- Iterator laziness (`tee`, `islice`, `chain`, generators) is not modelled. The iterators become finite sequences with the same elements.
- Dictionary and set iteration order is not modelled. The outer table of `map_transitions` is a map, since nothing reads its order. Counters keep insertion order, because `elements()` follows it.
- Counter values are `nat`. Negative counts cannot arise from counting and are not modelled.
- Generator.MakeWord: does not model an unbounded walk. The source loops until `None` is chosen, which need not happen. The model consumes one draw per step and returns `OutOfDraws` when the draws run out, so it speaks only of walks that end within the given draws.
- Generator.WeightedChoice: requires a positive total instead of raising `randrange(0)`'s `ValueError`. That error is modelled as `EmptyDistribution` in `Generator.Step`, which is where the source can meet it.
- Exceptions are not modelled as Python exception types. `KeyError` on `transitions[state]` becomes `MissingState`, and the `ValueError` becomes `EmptyDistribution`.
