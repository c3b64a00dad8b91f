/**
 * The segmenter of analysis.py: the compiled alternation `word_patterns`
 * and the scanner loops `tokenize` and `split`.
 *
 * The alternation is modelled as an ordered classifier over the first
 * character of the rest of the word (`Classify`, tried in the order VOWEL,
 * CONSONANT, PUNCTUATION, WHITESPACE, OTHER) plus an explicit maximal-munch
 * run length (`RunLength`) for the `+` of the chosen alternative.
 */
module Segmenter {

  /** The group names of `word_patterns`, in priority order. */
  datatype Kind = Vowel | Consonant | Punctuation | Whitespace | Other

  /** `Token(type, value)`: the alternative that matched and the text it matched. */
  datatype Token = Token(kind: Kind, value: string)

  predicate IsVowel(c: char) {
    c in {'a', 'e', 'i', 'o', 'u', 'A', 'E', 'I', 'O', 'U'}
  }

  /**
   * The class `[bcdfghjklmnpqrstvwxyzBCDFGHJKLMNPQRSTVWXYZ]`: the ASCII
   * letters that are not vowels.
   */
  predicate IsConsonant(c: char) {
    ('a' <= c <= 'z' || 'A' <= c <= 'Z') && !IsVowel(c)
  }

  predicate IsPunctuation(c: char) {
    c == '-' || c == '\''
  }

  /** The class `\s` of a str pattern: the characters for which str.isspace holds. */
  predicate IsSpace(c: char) {
    || ('\t' <= c <= '\r')
    || ('\U{1C}' <= c <= '\U{1F}')
    || c == ' ' || c == '\U{85}' || c == '\U{A0}' || c == '\U{1680}'
    || ('\U{2000}' <= c <= '\U{200A}')
    || c == '\U{2028}' || c == '\U{2029}' || c == '\U{202F}' || c == '\U{205F}' || c == '\U{3000}'
  }

  /**
   * The alternative that matches at a position whose character is `c`: the
   * first one in priority order whose first character class contains `c`.
   * OTHER (`.+`) accepts any `c` but a newline, and a newline is `\s`, so
   * some alternative always matches.
   */
  function Classify(c: char): (k: Kind)
    ensures k == Vowel <==> IsVowel(c)
    ensures k == Consonant <==> IsConsonant(c)
    ensures k == Punctuation <==> IsPunctuation(c)
    ensures k == Whitespace <==> IsSpace(c) && !IsVowel(c) && !IsConsonant(c) && !IsPunctuation(c)
    ensures k == Other ==> c != '\n'
  {
    if IsVowel(c) then Vowel
    else if IsConsonant(c) then Consonant
    else if IsPunctuation(c) then Punctuation
    else if IsSpace(c) then Whitespace
    else Other
  }

  /**
   * Whether a match of alternative `k` that has already consumed its first
   * character goes on over `c`. PUNCTUATION has no `+`; OTHER is `.`, which
   * stops at a newline.
   */
  predicate Extends(k: Kind, c: char) {
    match k
    case Vowel => IsVowel(c)
    case Consonant => IsConsonant(c)
    case Punctuation => false
    case Whitespace => IsSpace(c)
    case Other => c != '\n'
  }

  /** How many leading characters of `s` a greedy repetition of `k` consumes. */
  function RunLength(s: string, k: Kind): (n: nat)
    ensures n <= |s|
    ensures forall j :: 0 <= j < n ==> Extends(k, s[j])
    ensures n == |s| || !Extends(k, s[n])
  {
    if s == [] || !Extends(k, s[0]) then 0 else 1 + RunLength(s[1..], k)
  }

  /** The length of the match of `word_patterns` at the start of `w`. */
  function MatchLength(w: string): (n: nat)
    requires w != []
    ensures 1 <= n <= |w|
    ensures forall j :: 1 <= j < n ==> Extends(Classify(w[0]), w[j])
    ensures n == |w| || !Extends(Classify(w[0]), w[n])
  {
    1 + RunLength(w[1..], Classify(w[0]))
  }

  /** The match length is the only length that is greedy in that sense. */
  lemma MatchLengthUnique(w: string, n: nat)
    requires 1 <= n <= |w|
    requires forall j :: 1 <= j < n ==> Extends(Classify(w[0]), w[j])
    requires n == |w| || !Extends(Classify(w[0]), w[n])
    ensures n == MatchLength(w)
  {
  }

  /** The tokens the scanner yields for `w`, in order: first match, then the rest. */
  function Tokens(w: string): seq<Token>
    decreases |w|
  {
    if w == [] then []
    else
      var n := MatchLength(w);
      [Token(Classify(w[0]), w[..n])] + Tokens(w[n..])
  }

  function Values(ts: seq<Token>): (vs: seq<string>)
    ensures |vs| == |ts|
    ensures forall i :: 0 <= i < |ts| ==> vs[i] == ts[i].value
  {
    if ts == [] then [] else [ts[0].value] + Values(ts[1..])
  }

  /** `split(w)`: the text of each token, without its label. */
  function Pieces(w: string): seq<string> {
    Values(Tokens(w))
  }

  /** `''.join(pieces)`. */
  function Concat(ps: seq<string>): string {
    if ps == [] then "" else ps[0] + Concat(ps[1..])
  }

  /**
   * What a token of each alternative looks like on its own: a run of vowels,
   * a run of consonants, a single hyphen or apostrophe, a run of whitespace,
   * or OTHER: a first character in none of the four classes and no newline.
   */
  predicate Fits(t: Token) {
    var v := t.value;
    match t.kind
    case Vowel => v != [] && forall j :: 0 <= j < |v| ==> IsVowel(v[j])
    case Consonant => v != [] && forall j :: 0 <= j < |v| ==> IsConsonant(v[j])
    case Punctuation => |v| == 1 && IsPunctuation(v[0])
    case Whitespace => v != [] && forall j :: 0 <= j < |v| ==> IsSpace(v[j])
    case Other =>
      && v != []
      && !IsVowel(v[0]) && !IsConsonant(v[0]) && !IsPunctuation(v[0]) && !IsSpace(v[0])
      && forall j :: 0 <= j < |v| ==> v[j] != '\n'
  }

  /**
   * A left-to-right maximal-munch segmentation of `w`: the tokens spell `w`,
   * each token fits its label, and no token could have been extended over
   * the first character of the token after it.
   */
  predicate IsSegmentation(w: string, ts: seq<Token>) {
    && Concat(Values(ts)) == w
    && (forall i :: 0 <= i < |ts| ==> Fits(ts[i]))
    && (forall i :: 0 <= i < |ts| - 1 ==> Stops(ts[i], ts[i + 1]))
  }

  /** Token `t` could not have been extended over the first character of `next`. */
  predicate Stops(t: Token, next: Token) {
    next.value != [] && !Extends(t.kind, next.value[0])
  }

  /** A fitting token carries the label that the priority order gives its first character. */
  lemma FitsKind(t: Token)
    requires Fits(t)
    ensures t.value != [] && t.kind == Classify(t.value[0])
    ensures forall j :: 1 <= j < |t.value| ==> Extends(t.kind, t.value[j])
  {
  }

  /** The first match of `w` fits its label. */
  lemma FirstTokenFits(w: string)
    requires w != []
    ensures Fits(Token(Classify(w[0]), w[..MatchLength(w)]))
  {
    var k, n := Classify(w[0]), MatchLength(w);
    var v := w[..n];
    assert forall j :: 1 <= j < |v| ==> Extends(k, v[j]);
    match k
    case Vowel =>
    case Consonant =>
    case Punctuation =>
    case Whitespace =>
    case Other =>
  }

  /** The scanner's tokens form a maximal-munch segmentation of the word. */
  lemma {:induction false} TokensAreSegmentation(w: string)
    ensures IsSegmentation(w, Tokens(w))
    decreases |w|
  {
    if w != [] {
      var n := MatchLength(w);
      var t := Token(Classify(w[0]), w[..n]);
      var rest := Tokens(w[n..]);
      assert Tokens(w) == [t] + rest;
      TokensAreSegmentation(w[n..]);
      FirstTokenFits(w);
      assert Values([t] + rest) == [t.value] + Values(rest) by {
        assert ([t] + rest)[1..] == rest;
      }
      assert w[..n] + w[n..] == w;
      if rest != [] {
        assert rest[0].value != [];
        assert w[n..] != [] && rest[0].kind == Classify(w[n]) by {
          assert w[n..] != [];
        }
        assert rest[0].value[0] == w[n];
      }
      var ts := [t] + rest;
      forall i | 0 <= i < |ts| - 1
        ensures Stops(ts[i], ts[i + 1])
      {
        if i > 0 {
          assert ts[i] == rest[i - 1] && ts[i + 1] == rest[i];
        }
      }
    }
  }

  /** Maximal-munch segmentations are unique: the scanner's is the only one. */
  lemma {:induction false} SegmentationUnique(w: string, ts: seq<Token>)
    requires IsSegmentation(w, ts)
    ensures ts == Tokens(w)
    decreases |ts|
  {
    if ts != [] {
      var t := ts[0];
      var v := t.value;
      var rest := ts[1..];
      assert ts == [t] + rest;
      assert Values(ts) == [v] + Values(rest) by {
        assert ([t] + rest)[1..] == rest;
      }
      var tail := Concat(Values(rest));
      assert w == v + tail;
      FitsKind(t);
      var n := |v|;
      assert w[..n] == v && w[n..] == tail;
      assert t.kind == Classify(w[0]);
      forall j | 1 <= j < n ensures Extends(Classify(w[0]), w[j]) {
        assert w[j] == v[j];
      }
      if rest != [] {
        assert rest[0].value != [];
        assert Fits(rest[0]);
        FitsKind(rest[0]);
        assert Values(rest)[0] == rest[0].value;
        assert Values(rest) == [rest[0].value] + Values(rest)[1..];
        assert tail == rest[0].value + Concat(Values(rest)[1..]);
        assert w[n] == rest[0].value[0];
        assert !Extends(Classify(w[0]), w[n]);
      } else {
        assert tail == "";
      }
      MatchLengthUnique(w, n);
      assert IsSegmentation(tail, rest) by {
        forall i | 0 <= i < |rest| - 1
          ensures Stops(rest[i], rest[i + 1])
        {
          assert rest[i] == ts[i + 1] && rest[i + 1] == ts[i + 2];
        }
      }
      SegmentationUnique(tail, rest);
    }
  }

  /** Joining `split(w)` gives back `w`, and no piece is empty. */
  lemma SplitCovers(w: string)
    ensures Concat(Pieces(w)) == w
    ensures forall i :: 0 <= i < |Pieces(w)| ==> Pieces(w)[i] != ""
  {
    TokensAreSegmentation(w);
    var ts := Tokens(w);
    forall i | 0 <= i < |ts| ensures Pieces(w)[i] != "" {
      assert Fits(ts[i]);
    }
  }

  /**
   * Neighbouring tokens: two VOWEL, two CONSONANT, two WHITESPACE or two
   * OTHER tokens are never adjacent (only single-character PUNCTUATION
   * tokens can repeat), and an OTHER token is followed by nothing or by a
   * token that begins with a newline.
   */
  lemma AdjacentTokens(w: string)
    ensures forall i, j :: 0 <= i && j == i + 1 && j < |Tokens(w)| ==>
              && (Tokens(w)[i].kind == Tokens(w)[j].kind ==> Tokens(w)[i].kind == Punctuation)
              && (Tokens(w)[i].kind == Other ==> Tokens(w)[j].value != [] && Tokens(w)[j].value[0] == '\n')
  {
    TokensAreSegmentation(w);
    var ts := Tokens(w);
    forall i, j | 0 <= i && j == i + 1 && j < |ts|
      ensures ts[i].kind == ts[j].kind ==> ts[i].kind == Punctuation
      ensures ts[i].kind == Other ==> ts[j].value != [] && ts[j].value[0] == '\n'
    {
      assert Stops(ts[i], ts[j]);
      FitsKind(ts[j]);
    }
  }

  /**
   * One call of the scanner's `match` at `pos`: the alternative chosen by
   * the character at `pos`, then a greedy scan for the end of its run.
   */
  method MatchAt(word: string, pos: nat) returns (kind: Kind, end: nat)
    requires pos < |word|
    ensures pos < end <= |word|
    ensures Tokens(word[pos..]) == [Token(kind, word[pos..end])] + Tokens(word[end..])
  {
    kind := Classify(word[pos]);
    end := pos + 1;
    while end < |word| && Extends(kind, word[end])
      invariant pos < end <= |word|
      invariant forall j :: pos < j < end ==> Extends(kind, word[j])
    {
      end := end + 1;
    }
    ghost var w := word[pos..];
    MatchLengthUnique(w, end - pos);
    assert w[..end - pos] == word[pos..end];
    assert w[end - pos..] == word[end..];
  }

  /** `tokenize`: scan the word from the left, one match at a time. */
  method Tokenize(word: string) returns (tokens: seq<Token>)
    ensures tokens == Tokens(word)
  {
    tokens := [];
    var pos := 0;
    while pos < |word|
      invariant 0 <= pos <= |word|
      invariant tokens + Tokens(word[pos..]) == Tokens(word)
      decreases |word| - pos
    {
      var kind, end := MatchAt(word, pos);
      tokens := tokens + [Token(kind, word[pos..end])];
      pos := end;
    }
  }

  /** `split`: the same scan, keeping only the matched text. */
  method Split(word: string) returns (pieces: seq<string>)
    ensures pieces == Pieces(word)
  {
    pieces := [];
    var pos := 0;
    while pos < |word|
      invariant 0 <= pos <= |word|
      invariant pieces + Pieces(word[pos..]) == Pieces(word)
      decreases |word| - pos
    {
      var kind, end := MatchAt(word, pos);
      ghost var rest := Tokens(word[end..]);
      assert Values([Token(kind, word[pos..end])] + rest) == [word[pos..end]] + Values(rest);
      pieces := pieces + [word[pos..end]];
      pos := end;
    }
  }

  /**
   * A word whose letters alternate between vowels and consonants is split
   * into its single letters.
   */
  lemma {:induction false} AlternatingWord(w: string)
    requires forall i :: 0 <= i < |w| ==> IsVowel(w[i]) || IsConsonant(w[i])
    requires forall i :: 0 <= i < |w| - 1 ==> (IsVowel(w[i]) <==> IsConsonant(w[i + 1]))
    ensures |Tokens(w)| == |w|
    ensures forall i :: 0 <= i < |w| ==> Tokens(w)[i] == Token(Classify(w[i]), [w[i]])
    decreases |w|
  {
    if w != [] {
      MatchLengthUnique(w, 1);
      assert w[..1] == [w[0]];
      AlternatingWord(w[1..]);
      var ts := Tokens(w);
      assert ts == [Token(Classify(w[0]), [w[0]])] + Tokens(w[1..]);
      forall i | 1 <= i < |w| ensures ts[i] == Token(Classify(w[i]), [w[i]]) {
        assert ts[i] == Tokens(w[1..])[i - 1] && w[i] == w[1..][i - 1];
      }
    }
  }

  /**
   * A word spelled like "banana" (a consonant, then a vowel and another
   * consonant alternating) is split into its single letters.
   */
  lemma BananaShapeTokens(b: char, a: char, n: char)
    requires IsConsonant(b) && IsVowel(a) && IsConsonant(n)
    ensures Tokens([b, a, n, a, n, a]) ==
              [Token(Consonant, [b]), Token(Vowel, [a]), Token(Consonant, [n]),
               Token(Vowel, [a]), Token(Consonant, [n]), Token(Vowel, [a])]
  {
    var w := [b, a, n, a, n, a];
    AlternatingWord(w);
    var ts := Tokens(w);
    assert ts[0] == Token(Consonant, [b]) && ts[1] == Token(Vowel, [a]) && ts[2] == Token(Consonant, [n]);
    assert ts[3] == Token(Vowel, [a]) && ts[4] == Token(Consonant, [n]) && ts[5] == Token(Vowel, [a]);
  }

  /** Such a word's pieces are its letters. */
  lemma BananaShapePieces(b: char, a: char, n: char)
    requires IsConsonant(b) && IsVowel(a) && IsConsonant(n)
    ensures Pieces([b, a, n, a, n, a]) == [[b], [a], [n], [a], [n], [a]]
  {
    BananaShapeTokens(b, a, n);
    var ps := Pieces([b, a, n, a, n, a]);
    assert ps[0] == [b] && ps[1] == [a] && ps[2] == [n] && ps[3] == [a] && ps[4] == [n] && ps[5] == [a];
  }

  /** `tokenize("banana")` and `split("banana")`. */
  lemma BananaTokens()
    ensures Tokens("banana") == [Token(Consonant, "b"), Token(Vowel, "a"), Token(Consonant, "n"),
                                 Token(Vowel, "a"), Token(Consonant, "n"), Token(Vowel, "a")]
    ensures Pieces("banana") == ["b", "a", "n", "a", "n", "a"]
  {
    BananaShapeTokens('b', 'a', 'n');
    BananaShapePieces('b', 'a', 'n');
  }

  /** An all-vowel word is a single VOWEL piece. */
  lemma AllVowelWord(w: string)
    requires w != [] && forall i :: 0 <= i < |w| ==> IsVowel(w[i])
    ensures Tokens(w) == [Token(Vowel, w)]
  {
    var ts := [Token(Vowel, w)];
    assert Values(ts) == [w];
    assert Concat([w]) == w by {
      assert [w][1..] == [];
    }
    assert Fits(ts[0]);
    SegmentationUnique(w, ts);
  }

  /** OTHER swallows the rest of the line, vowels and consonants included. */
  lemma OtherWord()
    ensures Tokens("3abc") == [Token(Other, "3abc")]
  {
    var w := "3abc";
    assert Classify(w[0]) == Other by {
      assert !IsVowel('3') && !IsConsonant('3') && !IsPunctuation('3') && !IsSpace('3');
    }
    assert w[1] != '\n' && w[2] != '\n' && w[3] != '\n';
    MatchLengthUnique(w, 4);
    assert w[..4] == w && w[4..] == "";
  }
}
