/**
 * The Scrabble demo: two letter-value tables, word scores, and the
 * pipelines over the Shakespeare and Scrabble word sets (the count of
 * allowed words, the length and score histograms, and the groupings of the
 * longest and best-scoring words).
 *
 * A `HashSet<String>` is streamed in an order the code does not control:
 * `order` below is that order, an `Enumerates` of the set.
 */
module Scrabble {
  import opened Counting
  import opened Strings

  /** Which of the two tables a score uses. */
  datatype Language = English | French

  /** `scrabbleENScore`, indexed from 'a' to 'z'. */
  const EnglishTable: seq<int> := [1, 3, 3, 2, 1, 4, 2, 4, 1, 8, 5, 1, 3, 1, 1, 3, 10, 1, 1, 1, 1, 4, 4, 8, 4, 10]

  /** `scrabbleFRScore`, indexed from 'a' to 'z'. */
  const FrenchTable: seq<int> := [1, 3, 3, 2, 1, 4, 2, 4, 1, 8, 10, 1, 2, 1, 1, 3, 8, 1, 1, 1, 1, 4, 10, 10, 10, 10]

  /** A table has one value per letter, each between 1 and 10. */
  function Table(lang: Language): (t: seq<int>)
    ensures |t| == 26
    ensures forall i | 0 <= i < |t| :: 1 <= t[i] <= 10
  {
    match lang
    case English => EnglishTable
    case French => FrenchTable
  }

  /** The characters the tables cover. */
  predicate IsLetter(c: char) {
    'a' <= c <= 'z'
  }

  /** A word every character of which the tables cover. */
  predicate IsWord(w: string) {
    forall i | 0 <= i < |w| :: IsLetter(w[i])
  }

  /**
   * `c -> table[c - 'a']`. Any character outside 'a'..'z' indexes outside
   * the array and throws, so a letter is required.
   */
  function LetterValue(lang: Language, c: char): (v: int)
    requires IsLetter(c)
    ensures 1 <= v <= 10
  {
    Table(lang)[c as int - 'a' as int]
  }

  /** The two tables disagree on exactly the letters k, m, q, w, x, y. */
  lemma TablesDiffer(c: char)
    requires IsLetter(c)
    ensures LetterValue(English, c) != LetterValue(French, c) <==> c in "kmqwxy"
  {
  }

  /** `word.chars().map(letterValue).sum()`: from 1 to 10 points per letter. */
  function Score(lang: Language, w: string): (n: int)
    requires IsWord(w)
    ensures |w| <= n <= 10 * |w|
  {
    if |w| == 0 then 0
    else Score(lang, w[..|w| - 1]) + LetterValue(lang, w[|w| - 1])
  }

  /** The score of a concatenation is the sum of the scores. */
  lemma {:induction false} ScoreAppend(lang: Language, u: string, v: string)
    requires IsWord(u) && IsWord(v)
    ensures IsWord(u + v)
    ensures Score(lang, u + v) == Score(lang, u) + Score(lang, v)
  {
    WordAppend(u, v);
    var w := u + v;
    if |v| == 0 {
      assert w == u;
    } else {
      var v' := v[..|v| - 1];
      var c := v[|v| - 1];
      WordPrefix(v, |v| - 1);
      ScoreAppend(lang, u, v');
      assert w[..|w| - 1] == u + v';
      assert w[|w| - 1] == c;
      ScoreSnoc(lang, w);
      ScoreSnoc(lang, v);
    }
  }

  /** The score of a word is its last letter's value on top of the rest's score. */
  lemma ScoreSnoc(lang: Language, w: string)
    requires IsWord(w) && |w| > 0
    ensures IsWord(w[..|w| - 1])
    ensures Score(lang, w) == Score(lang, w[..|w| - 1]) + LetterValue(lang, w[|w| - 1])
  {
    WordPrefix(w, |w| - 1);
  }

  /** Two words run together make a word. */
  lemma WordAppend(u: string, v: string)
    requires IsWord(u) && IsWord(v)
    ensures IsWord(u + v)
  {
    forall i | 0 <= i < |u + v|
      ensures IsLetter((u + v)[i])
    {
      if i < |u| {
        assert (u + v)[i] == u[i];
      } else {
        assert (u + v)[i] == v[i - |u|];
      }
    }
  }

  /** A prefix of a word is a word. */
  lemma WordPrefix(w: string, n: nat)
    requires IsWord(w) && n <= |w|
    ensures IsWord(w[..n])
  {
    forall i | 0 <= i < n
      ensures IsLetter(w[..n][i])
    {
      assert w[..n][i] == w[i];
    }
  }

  /** A one-letter word scores its letter's value. */
  lemma ScoreLetter(lang: Language, c: char)
    requires IsLetter(c)
    ensures IsWord([c]) && Score(lang, [c]) == LetterValue(lang, c)
  {
    assert [c][..0] == [];
  }

  /** `getScrabbleScore`: the word lower-cased, scored with the French table. */
  function ScrabbleScore(word: string): (n: int)
    requires IsWord(Lower(word))
    ensures |word| <= n <= 10 * |word|
  {
    Score(French, Lower(word))
  }

  /** The score does not depend on letter case. */
  lemma ScrabbleScoreIgnoresCase(word: string)
    requires IsWord(Lower(word))
    ensures IsWord(Lower(Lower(word)))
    ensures ScrabbleScore(Lower(word)) == ScrabbleScore(word)
  {
    LowerIdempotent(word);
  }

  /** Lower-casing distributes over concatenation. */
  lemma LowerAppend(u: string, v: string)
    ensures Lower(u + v) == Lower(u) + Lower(v)
  {
  }

  /** `getScrabbleScore` is additive. */
  lemma ScrabbleScoreAppend(u: string, v: string)
    requires IsWord(Lower(u)) && IsWord(Lower(v))
    ensures IsWord(Lower(u + v))
    ensures ScrabbleScore(u + v) == ScrabbleScore(u) + ScrabbleScore(v)
  {
    LowerAppend(u, v);
    ScoreAppend(French, Lower(u), Lower(v));
  }

  // ---------------------------------------------------------------------
  // The word sets

  /** `lines().map(String::toLowerCase).collect(toSet())`: lower-case words only. */
  function WordSet(lines: seq<string>): (s: set<string>)
    ensures forall w | w in s :: Lower(w) == w
    ensures forall i | 0 <= i < |lines| :: Lower(lines[i]) in s
    ensures forall w | w in s :: exists i | 0 <= i < |lines| :: Lower(lines[i]) == w
    ensures |s| <= |lines|
  {
    var ws := Mapped(lines, Lower);
    forall w | w in ws
      ensures Lower(w) == w
    {
      var i :| 0 <= i < |ws| && ws[i] == w;
      LowerIdempotent(lines[i]);
    }
    Elements(ws)
  }

  /** Every word of the set is already lower-case. */
  predicate LowerCase(words: set<string>) {
    forall w | w in words :: Lower(w) == w
  }

  /**
   * The Shakespeare stream after `map(String::toLowerCase)` and
   * `filter(scrabbleWords::contains)`.
   */
  function Allowed(order: seq<string>, scrabble: set<string>): (r: seq<string>)
    ensures |r| <= |order|
    ensures forall w | w in r :: w in scrabble
  {
    Filter(Mapped(order, Lower), w => w in scrabble)
  }

  /** The `count()` of the allowed words. */
  function AllowedCount(order: seq<string>, scrabble: set<string>): (n: nat)
    ensures n <= |order|
  {
    |Allowed(order, scrabble)|
  }

  /** On lower-case words the allowed stream is the intersection of the sets, each word once. */
  lemma AllowedWords(words: set<string>, scrabble: set<string>, order: seq<string>)
    requires Enumerates(order, words) && LowerCase(words)
    ensures Distinct(Allowed(order, scrabble))
    ensures Elements(Allowed(order, scrabble)) == words * scrabble
  {
    var lowered := Mapped(order, Lower);
    assert lowered == order;
    FilterDistinct(order, w => w in scrabble);
  }

  /**
   * The count is the size of the intersection of the two sets, so it is at
   * most the size of either.
   */
  lemma AllowedCountIsIntersection(words: set<string>, scrabble: set<string>, order: seq<string>)
    requires Enumerates(order, words) && LowerCase(words)
    ensures AllowedCount(order, scrabble) == |words * scrabble|
    ensures AllowedCount(order, scrabble) <= |words| && AllowedCount(order, scrabble) <= |scrabble|
  {
    AllowedWords(words, scrabble, order);
    DistinctCard(Allowed(order, scrabble));
    SubsetCard(words * scrabble, words);
    SubsetCard(words * scrabble, scrabble);
  }

  // ---------------------------------------------------------------------
  // Grouping by length

  /** `String::length`. */
  function Length(w: string): int {
    |w|
  }

  /** The words of the set with `n` letters. */
  function OfLength(words: set<string>, n: int): set<string> {
    set w | w in words && |w| == n
  }

  /** map1: `groupingBy(String::length, counting())`. */
  function LengthCounts(order: seq<string>): (h: map<int, int>)
    ensures forall w | w in order :: |w| in h
    ensures forall n | n in h :: h[n] > 0 && exists w | w in order :: |w| == n
  {
    MappedHistogram(order, Length);
    Histogram(Mapped(order, Length))
  }

  /**
   * map1 has a key for every length that occurs, the number of words of
   * that length under it, and counts summing to the number of words.
   */
  lemma LengthCountsSpec(words: set<string>, order: seq<string>)
    requires Enumerates(order, words)
    ensures forall n | n in LengthCounts(order) :: LengthCounts(order)[n] == |OfLength(words, n)|
    ensures forall w | w in words :: |w| in LengthCounts(order)
    ensures forall n | n in LengthCounts(order) :: OfLength(words, n) != {}
    ensures Total(LengthCounts(order)) == |words|
  {
    var h := LengthCounts(order);
    forall n | n in h
      ensures h[n] == |OfLength(words, n)|
    {
      MappedCount(order, Length, n);
      assert WithKey(order, Length, n) == OfLength(words, n);
    }
    forall w | w in words
      ensures |w| in h
    {
      var i :| 0 <= i < |order| && order[i] == w;
      assert Mapped(order, Length)[i] == |w|;
    }
    HistogramTotal(Mapped(order, Length));
    EnumeratesElements(order, words);
    DistinctCard(order);
  }

  /** The filter of map2. */
  predicate IsLong(w: string) {
    |w| > 15
  }

  /** map2: `filter(word -> word.length() > 15).collect(groupingBy(String::length))`. */
  function LongWords(order: seq<string>): (g: map<int, seq<string>>)
    ensures forall n | n in g :: n > 15 && g[n] != []
    ensures forall n, i | n in g && 0 <= i < |g[n]| :: g[n][i] in order && |g[n][i]| == n
    ensures forall w | w in order && |w| > 15 :: |w| in g && w in g[|w|]
  {
    FilteredGroups(order, IsLong, Length);
    GroupBy(Filter(order, IsLong), Length)
  }

  /**
   * map2 has only keys above 15; it lists under `n` the words of length `n`,
   * every long word once, as many as map1 counts for `n`.
   */
  lemma LongWordsSpec(words: set<string>, order: seq<string>)
    requires Enumerates(order, words)
    ensures forall n | n in LongWords(order) :: n > 15
    ensures forall n, i | n in LongWords(order) && 0 <= i < |LongWords(order)[n]| :: LongWords(order)[n][i] in words && |LongWords(order)[n][i]| == n
    ensures forall w | w in words && |w| > 15 :: |w| in LongWords(order) && w in LongWords(order)[|w|]
    ensures forall n | n in LongWords(order) :: n in LengthCounts(order) && |LongWords(order)[n]| == LengthCounts(order)[n]
  {
    var g := LongWords(order);
    forall n | n in g
      ensures n > 15
      ensures n in LengthCounts(order) && |g[n]| == LengthCounts(order)[n]
    {
      LongWordCount(order, n);
    }
  }

  /** A key of map2 is a key of map1 with as many words as map1 counts. */
  lemma LongWordCount(order: seq<string>, n: int)
    requires n in LongWords(order)
    ensures n in LengthCounts(order) && |LongWords(order)[n]| == LengthCounts(order)[n]
  {
    var long := Filter(order, IsLong);
    var i :| 0 <= i < |long| && Mapped(long, Length)[i] == n;
    assert long[i] in long;
    assert IsLong(long[i]);
    FilterKeepsCount(order, IsLong, Length, n);
    assert Occurrences(Mapped(long, Length), n) > 0;
    assert n in Mapped(order, Length);
  }

  // ---------------------------------------------------------------------
  // Grouping by score

  /** The `score` lambda: the English table, no lower-casing. */
  function EnglishScore(w: string): (n: int)
    requires IsWord(w)
    ensures |w| <= n <= 10 * |w|
  {
    Score(English, w)
  }

  /** The Java code throws unless every allowed word can be scored. */
  predicate Scorable(order: seq<string>, scrabble: set<string>) {
    forall w | w in Allowed(order, scrabble) :: IsWord(w)
  }

  /** map3: `groupingBy(score, TreeMap::new, counting())` over the allowed words. */
  function ScoreCounts(order: seq<string>, scrabble: set<string>): (h: map<int, int>)
    requires Scorable(order, scrabble)
    ensures forall w | w in Allowed(order, scrabble) :: IsWord(w) && Score(English, w) in h
    ensures forall s | s in h :: h[s] > 0 && exists w | w in Allowed(order, scrabble) :: IsWord(w) && Score(English, w) == s
  {
    MappedHistogram(Allowed(order, scrabble), EnglishScore);
    Histogram(Mapped(Allowed(order, scrabble), EnglishScore))
  }

  /** The words of both sets that score `s` with the English table. */
  function ScoringWords(words: set<string>, scrabble: set<string>, s: int): set<string> {
    set w | w in words && w in scrabble && IsWord(w) && Score(English, w) == s
  }

  /**
   * map3 counts under `s` the words of both sets that score `s`; each
   * such word's score is a key, and the counts sum to the size of the
   * intersection.
   */
  lemma ScoreCountsSpec(words: set<string>, scrabble: set<string>, order: seq<string>)
    requires Enumerates(order, words) && LowerCase(words)
    requires Scorable(order, scrabble)
    ensures forall s | s in ScoreCounts(order, scrabble) :: ScoreCounts(order, scrabble)[s] == |ScoringWords(words, scrabble, s)|
    ensures forall w | w in words && w in scrabble :: IsWord(w) && Score(English, w) in ScoreCounts(order, scrabble)
    ensures Total(ScoreCounts(order, scrabble)) == |words * scrabble|
  {
    var h := ScoreCounts(order, scrabble);
    forall s | s in h
      ensures h[s] == |ScoringWords(words, scrabble, s)|
    {
      ScoreCountOf(words, scrabble, order, s);
    }
    ScoreCountsComplete(words, scrabble, order);
    ScoreCountsTotal(words, scrabble, order);
  }

  /** One score's count is the number of words of both sets with that score. */
  lemma ScoreCountOf(words: set<string>, scrabble: set<string>, order: seq<string>, s: int)
    requires Enumerates(order, words) && LowerCase(words)
    requires Scorable(order, scrabble)
    requires s in ScoreCounts(order, scrabble)
    ensures ScoreCounts(order, scrabble)[s] == |ScoringWords(words, scrabble, s)|
  {
    var allowed := Allowed(order, scrabble);
    AllowedWords(words, scrabble, order);
    MappedCount(allowed, EnglishScore, s);
    ScoringWordsAllowed(words, scrabble, order, s);
  }

  /** The words of both sets with score `s` are the allowed words with that score. */
  lemma ScoringWordsAllowed(words: set<string>, scrabble: set<string>, order: seq<string>, s: int)
    requires Enumerates(order, words) && LowerCase(words)
    requires Scorable(order, scrabble)
    ensures WithKey(Allowed(order, scrabble), EnglishScore, s) == ScoringWords(words, scrabble, s)
  {
    var allowed := Allowed(order, scrabble);
    AllowedWords(words, scrabble, order);
    var a := WithKey(allowed, EnglishScore, s);
    var b := ScoringWords(words, scrabble, s);
    forall w | w in a
      ensures w in b
    {
      assert w in Elements(allowed);
    }
    forall w | w in b
      ensures w in a
    {
      assert w in Elements(allowed);
    }
  }

  /** Every word of both sets has its score as a key. */
  lemma ScoreCountsComplete(words: set<string>, scrabble: set<string>, order: seq<string>)
    requires Enumerates(order, words) && LowerCase(words)
    requires Scorable(order, scrabble)
    ensures forall w | w in words && w in scrabble :: IsWord(w) && Score(English, w) in ScoreCounts(order, scrabble)
  {
    var allowed := Allowed(order, scrabble);
    AllowedWords(words, scrabble, order);
    forall w | w in words && w in scrabble
      ensures IsWord(w) && Score(English, w) in ScoreCounts(order, scrabble)
    {
      assert w in allowed;
      var i :| 0 <= i < |allowed| && allowed[i] == w;
      assert Mapped(allowed, EnglishScore)[i] == Score(English, w);
    }
  }

  /** The counts add up to the size of the intersection. */
  lemma ScoreCountsTotal(words: set<string>, scrabble: set<string>, order: seq<string>)
    requires Enumerates(order, words) && LowerCase(words)
    requires Scorable(order, scrabble)
    ensures Total(ScoreCounts(order, scrabble)) == |words * scrabble|
  {
    var allowed := Allowed(order, scrabble);
    AllowedWords(words, scrabble, order);
    HistogramTotal(Mapped(allowed, EnglishScore));
    DistinctCard(allowed);
  }

  /** The `scoreGT28` filter. */
  predicate HighScore(w: string)
    requires IsWord(w)
  {
    Score(English, w) > 28
  }

  /** map4: `filter(scoreGT28).collect(groupingBy(score, TreeMap::new, toList()))`. */
  function HighScorers(order: seq<string>, scrabble: set<string>): (g: map<int, seq<string>>)
    requires Scorable(order, scrabble)
    ensures forall s | s in g :: s > 28 && g[s] != []
    ensures forall s, i | s in g && 0 <= i < |g[s]| :: g[s][i] in Allowed(order, scrabble) && IsWord(g[s][i]) && Score(English, g[s][i]) == s
    ensures forall w | w in Allowed(order, scrabble) && IsWord(w) && Score(English, w) > 28 :: Score(English, w) in g && w in g[Score(English, w)]
  {
    FilteredGroups(Allowed(order, scrabble), HighScore, EnglishScore);
    GroupBy(Filter(Allowed(order, scrabble), HighScore), EnglishScore)
  }

  /**
   * map4 has only scores above 28; it lists under `s` words of both sets
   * scoring `s`, every such word, as many as map3 counts for `s`.
   */
  lemma HighScorersSpec(words: set<string>, scrabble: set<string>, order: seq<string>)
    requires Enumerates(order, words) && LowerCase(words)
    requires Scorable(order, scrabble)
    ensures forall s | s in HighScorers(order, scrabble) :: s > 28
    ensures forall s, i | s in HighScorers(order, scrabble) && 0 <= i < |HighScorers(order, scrabble)[s]| ::
      var w := HighScorers(order, scrabble)[s][i]; w in words && w in scrabble && IsWord(w) && Score(English, w) == s
    ensures forall w | w in words && w in scrabble && IsWord(w) && Score(English, w) > 28 ::
      Score(English, w) in HighScorers(order, scrabble) && w in HighScorers(order, scrabble)[Score(English, w)]
    ensures forall s | s in HighScorers(order, scrabble) :: s in ScoreCounts(order, scrabble) && |HighScorers(order, scrabble)[s]| == ScoreCounts(order, scrabble)[s]
  {
    HighScorersSound(words, scrabble, order);
    var g := HighScorers(order, scrabble);
    forall s | s in g
      ensures s > 28
      ensures s in ScoreCounts(order, scrabble) && |g[s]| == ScoreCounts(order, scrabble)[s]
    {
      HighScorerCount(order, scrabble, s);
    }
    HighScorersComplete(words, scrabble, order);
  }

  /** Every word filed under a score is an allowed word with that score. */
  lemma HighScorersSound(words: set<string>, scrabble: set<string>, order: seq<string>)
    requires Enumerates(order, words) && LowerCase(words)
    requires Scorable(order, scrabble)
    ensures forall s, i | s in HighScorers(order, scrabble) && 0 <= i < |HighScorers(order, scrabble)[s]| ::
      var w := HighScorers(order, scrabble)[s][i]; w in words && w in scrabble && IsWord(w) && Score(English, w) == s
  {
    AllowedWords(words, scrabble, order);
  }

  /** Every allowed word scoring above 28 is filed under its score. */
  lemma HighScorersComplete(words: set<string>, scrabble: set<string>, order: seq<string>)
    requires Enumerates(order, words) && LowerCase(words)
    requires Scorable(order, scrabble)
    ensures forall w | w in words && w in scrabble && IsWord(w) && Score(English, w) > 28 ::
      Score(English, w) in HighScorers(order, scrabble) && w in HighScorers(order, scrabble)[Score(English, w)]
  {
    var allowed := Allowed(order, scrabble);
    var high := Filter(allowed, HighScore);
    AllowedWords(words, scrabble, order);
    forall w | w in words && w in scrabble && IsWord(w) && Score(English, w) > 28
      ensures w in high
    {
      assert w in allowed;
    }
  }

  /** A key of map4 is a key of map3 with as many words as map3 counts. */
  lemma HighScorerCount(order: seq<string>, scrabble: set<string>, s: int)
    requires Scorable(order, scrabble)
    requires s in HighScorers(order, scrabble)
    ensures s in ScoreCounts(order, scrabble) && |HighScorers(order, scrabble)[s]| == ScoreCounts(order, scrabble)[s]
  {
    var allowed := Allowed(order, scrabble);
    var high := Filter(allowed, HighScore);
    var i :| 0 <= i < |high| && Mapped(high, EnglishScore)[i] == s;
    var w := high[i];
    assert w in high;
    assert w in allowed && HighScore(w);
    assert s > 28;
    FilterKeepsCount(allowed, HighScore, EnglishScore, s);
    assert Occurrences(Mapped(high, EnglishScore), s) > 0;
    assert s in Mapped(allowed, EnglishScore);
  }

  // ---------------------------------------------------------------------
  // TreeMap iteration

  /** Strictly ascending keys. */
  predicate Increasing(ks: seq<int>) {
    forall i, j | 0 <= i < j < |ks| :: ks[i] < ks[j]
  }

  /** A non-empty set of integers has a least element. */
  lemma {:induction false} LeastKey(s: set<int>) returns (m: int)
    requires s != {}
    ensures m in s && forall x | x in s :: m <= x
    decreases s
  {
    if forall y: int :: y !in s {
      assert false;
    }
    var x :| x in s;
    if s == {x} {
      m := x;
    } else {
      var m' := LeastKey(s - {x});
      m := if x < m' then x else m';
      forall y | y in s
        ensures m <= y
      {
        if y != x {
          assert y in s - {x};
        }
      }
    }
  }

  /** The key set of a `TreeMap` as it iterates: every key once, ascending. */
  method AscendingKeys(keys: set<int>) returns (ks: seq<int>)
    ensures Increasing(ks)
    ensures Enumerates(ks, keys)
  {
    ks := [];
    var rest := keys;
    while rest != {}
      invariant rest <= keys
      invariant forall k | k in keys :: k in ks || k in rest
      invariant forall i | 0 <= i < |ks| :: ks[i] in keys && ks[i] !in rest
      invariant Increasing(ks)
      invariant forall i, k | 0 <= i < |ks| && k in rest :: ks[i] < k
      decreases rest
    {
      ghost var least := LeastKey(rest);
      var m :| m in rest && forall x | x in rest :: m <= x;
      ks := ks + [m];
      rest := rest - {m};
    }
  }
}
