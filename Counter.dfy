/**
 * The counting loop of WordCounter.wordCount: every line is cut into
 * tokens by nextWordOrSeparator, each token is lower-cased, and every token
 * that is a word (not a separator run) is tallied in a word -> count table.
 */
module Counter {
  import opened SeparatorSet
  import opened Tokenizer

  // ---------------------------------------------------------------------
  // Lower-casing

  /** One character of String.toLowerCase, restricted to ASCII: A-Z become a-z, everything else is kept. */
  function LowerChar(c: char): (d: char)
  {
    if 'A' <= c <= 'Z' then (c as int + 32) as char else c
  }

  /** String.toLowerCase as a length-preserving map over the characters. */
  function Lower(s: string): (r: string)
    ensures |r| == |s|
    ensures forall k :: 0 <= k < |s| ==> r[k] == LowerChar(s[k])
  {
    if s == [] then [] else [LowerChar(s[0])] + Lower(s[1..])
  }

  /** Lower-casing keeps a character's separator class and never yields an upper-case letter. */
  lemma LowerCharKeepsClass(c: char)
    ensures IsSep(Separators, LowerChar(c)) == IsSep(Separators, c)
    ensures !('A' <= LowerChar(c) <= 'Z')
  {
    if 'A' <= c <= 'Z' {
      NoLetterIsSeparator(c);
      NoLetterIsSeparator(LowerChar(c));
    }
  }

  /** The separator check on a lower-cased token agrees with the token's own class. */
  lemma LowerKeepsFirstClass(t: string)
    requires 0 < |t|
    ensures (Lower(t)[0] in Separators) == (t[0] in Separators)
  {
    LowerCharKeepsClass(t[0]);
  }

  /** A table key: non-empty, lower case, and free of separators. */
  ghost predicate IsNormalWord(w: string)
  {
    && 0 < |w|
    && forall k :: 0 <= k < |w| ==> !IsSep(Separators, w[k]) && !('A' <= w[k] <= 'Z')
  }

  // ---------------------------------------------------------------------
  // What the document says: words as maximal non-separator runs

  /**
   * `line[i..j]` is a maximal run of non-separator characters: it holds no
   * separator and can be extended neither to the left nor to the right.
   */
  ghost predicate IsWordRun(line: string, i: int, j: int)
  {
    && 0 <= i < j <= |line|
    && (forall k :: i <= k < j ==> !IsSep(Separators, line[k]))
    && (i == 0 || IsSep(Separators, line[i - 1]))
    && (j == |line| || IsSep(Separators, line[j]))
  }

  /** The occurrences of `w` in `line` that start at `p` or later, as (start, end) pairs. */
  ghost function WordRuns(line: string, w: string, p: nat): set<(int, int)>
  {
    set i: int, j: int | p <= i < j <= |line| && IsWordRun(line, i, j) && Lower(line[i..j]) == w :: (i, j)
  }

  /** How many times `w` occurs, case-insensitively, as a maximal non-separator run in the document. */
  ghost function Occurrences(lines: seq<string>, w: string): nat
  {
    if lines == [] then 0 else Occurrences(lines[..|lines| - 1], w) + |WordRuns(lines[|lines| - 1], w, 0)|
  }

  // ---------------------------------------------------------------------
  // What the loop sees: the lower-cased word tokens, in order

  /** The lower-cased tokens among `ts` whose first character is not a separator. */
  function WordsOf(ts: seq<string>): seq<string>
  {
    if ts == [] then []
    else (if 0 < |ts[0]| && !IsSep(Separators, ts[0][0]) then [Lower(ts[0])] else []) + WordsOf(ts[1..])
  }

  lemma {:induction false} WordsOfAppend(ts: seq<string>, t: string)
    ensures WordsOf(ts + [t]) == WordsOf(ts) + WordsOf([t])
  {
    if ts != [] {
      assert (ts + [t])[1..] == ts[1..] + [t];
      WordsOfAppend(ts[1..], t);
    }
  }

  /** The lower-cased words of a line, in order. */
  function LineWords(line: string): seq<string>
  {
    WordsOf(Tokens(Separators, line))
  }

  /** The lower-cased words of the document, line after line. */
  function DocumentWords(lines: seq<string>): seq<string>
  {
    if lines == [] then [] else DocumentWords(lines[..|lines| - 1]) + LineWords(lines[|lines| - 1])
  }

  // ---------------------------------------------------------------------
  // The table

  /**
   * `words` is the tally of the multiset `m`: its keys are exactly the
   * elements of `m`, each mapped to its multiplicity.
   */
  ghost predicate Tallies(words: map<string, int>, m: multiset<string>)
  {
    forall w :: (w in words <==> w in m) && (w in words ==> words[w] == m[w])
  }

  /** Records one more occurrence of `w`: add it with count 1, or raise its count by 1. */
  function Increment(words: map<string, int>, w: string): (r: map<string, int>)
    ensures r.Keys == words.Keys + {w}
    ensures r[w] == if w in words then words[w] + 1 else 1
    ensures forall k :: k in words && k != w ==> r[k] == words[k]
    ensures (forall k :: k in words ==> words[k] >= 1) ==> forall k :: k in r ==> r[k] >= 1
  {
    if w in words then words[w := words[w] + 1] else words[w := 1]
  }

  /** Incrementing a tally of `m` gives the tally of `m` with one more `w`. */
  lemma IncrementTallies(words: map<string, int>, m: multiset<string>, w: string)
    requires Tallies(words, m)
    ensures Tallies(Increment(words, w), m + multiset{w})
  {
  }

  /** The table after recording each of `ws`, in order, into `words`. */
  function AddAll(words: map<string, int>, ws: seq<string>): map<string, int>
  {
    if ws == [] then words else Increment(AddAll(words, ws[..|ws| - 1]), ws[|ws| - 1])
  }

  /** Recording a sequence of words into a tally of `m` gives the tally of `m` plus those words. */
  lemma {:induction false} AddAllTallies(words: map<string, int>, m: multiset<string>, ws: seq<string>)
    requires Tallies(words, m)
    ensures Tallies(AddAll(words, ws), m + multiset(ws))
    decreases |ws|
  {
    if ws != [] {
      var init := ws[..|ws| - 1];
      AddAllTallies(words, m, init);
      IncrementTallies(AddAll(words, init), m + multiset(init), ws[|ws| - 1]);
      assert ws == init + [ws[|ws| - 1]];
    }
  }

  lemma AddAllStep(words: map<string, int>, ws: seq<string>, w: string)
    ensures AddAll(words, ws + [w]) == Increment(AddAll(words, ws), w)
  {
    assert (ws + [w])[..|ws|] == ws;
  }

  lemma {:induction false} AddAllConcat(words: map<string, int>, a: seq<string>, b: seq<string>)
    ensures AddAll(AddAll(words, a), b) == AddAll(words, a + b)
    decreases |b|
  {
    if b == [] {
      assert a + b == a;
    } else {
      var init := b[..|b| - 1];
      AddAllConcat(words, a, init);
      assert (a + b)[..|a + b| - 1] == a + init;
      assert (a + b)[|a + b| - 1] == b[|b| - 1];
    }
  }

  /** Every entry of a tally is a positive count. */
  lemma TalliesArePositive(words: map<string, int>, m: multiset<string>)
    requires Tallies(words, m)
    ensures forall w :: w in words ==> words[w] >= 1
  {
  }

  // ---------------------------------------------------------------------
  // The counting loop

  /**
   * Reads the lines one by one and tallies the words of each; the
   * resulting table holds, for every word of the document, its number of
   * occurrences, and nothing else.
   */
  method CountWords(lines: seq<string>) returns (words: map<string, int>)
    ensures forall w :: w in words <==> Occurrences(lines, w) > 0
    ensures forall w :: w in words ==> words[w] == Occurrences(lines, w)
    ensures forall w :: w in words ==> IsNormalWord(w)
  {
    var separators := DefineSeparators({});
    words := map[];
    var n := 0;
    while n < |lines|
      invariant 0 <= n <= |lines|
      invariant words == AddAll(map[], DocumentWords(lines[..n]))
    {
      words := CountLine(lines[n], separators, words);
      AddAllConcat(map[], DocumentWords(lines[..n]), LineWords(lines[n]));
      assert lines[..n + 1][..n] == lines[..n];
      n := n + 1;
    }
    assert lines[..n] == lines;
    TableCountsOccurrences(lines);
  }

  /**
   * Walks one line token by token, advancing `position` by the length of
   * the lower-cased token; word tokens are recorded in the table and
   * separator runs are skipped. The tokens consumed always spell out the
   * line up to `position`.
   */
  method CountLine(line: string, separators: set<char>, words: map<string, int>) returns (r: map<string, int>)
    requires separators == Separators
    ensures r == AddAll(words, LineWords(line))
  {
    r := words;
    var position := 0;
    ghost var consumed: seq<string> := [];
    while position < |line|
      invariant 0 <= position <= |line|
      invariant Concat(consumed) == line[..position]
      invariant consumed + TokensFrom(Separators, line, position) == Tokens(Separators, line)
      invariant r == AddAll(words, WordsOf(consumed))
      decreases |line| - position
    {
      var token := NextWordOrSeparator(line, position, separators);
      MaximalRunIsUnique(Separators, line, position, token);
      TokenStep(line, position, consumed, token);
      WordStep(consumed, token, words, r);
      var wordOrSeparator := Lower(token);
      position := position + |wordOrSeparator|;
      if !(wordOrSeparator[0] in separators) {
        r := Increment(r, wordOrSeparator);
      }
      consumed := consumed + [token];
    }
    assert consumed == Tokens(Separators, line);
  }

  /**
   * Recording the document's words into an empty table yields, for every
   * word, its number of occurrences, and only valid keys.
   */
  lemma TableCountsOccurrences(lines: seq<string>)
    ensures var words := AddAll(map[], DocumentWords(lines));
      && (forall w :: w in words <==> Occurrences(lines, w) > 0)
      && (forall w :: w in words ==> words[w] == Occurrences(lines, w))
      && (forall w :: w in words ==> IsNormalWord(w))
  {
    AddAllTallies(map[], multiset{}, DocumentWords(lines));
    forall w ensures multiset(DocumentWords(lines))[w] == Occurrences(lines, w) {
      DocumentCount(lines, w);
    }
    DocumentWordsAreNormal(lines);
  }

  /**
   * One step of the line loop, for the table: recording the lower-cased
   * token when it is a word, and nothing otherwise, records exactly the
   * words of the tokens consumed so far.
   */
  lemma WordStep(consumed: seq<string>, token: string, words: map<string, int>, r: map<string, int>)
    requires 0 < |token| && r == AddAll(words, WordsOf(consumed))
    ensures Lower(token)[0] !in Separators ==> Increment(r, Lower(token)) == AddAll(words, WordsOf(consumed + [token]))
    ensures Lower(token)[0] in Separators ==> r == AddAll(words, WordsOf(consumed + [token]))
  {
    LowerKeepsFirstClass(token);
    WordsOfAppend(consumed, token);
    assert [token][1..] == [];
    AddAllStep(words, WordsOf(consumed), Lower(token));
    assert WordsOf(consumed) + [] == WordsOf(consumed);
  }

  /**
   * One step of the inner loop: appending the token at `position` to the
   * tokens consumed so far keeps them a prefix of the line's tokens that
   * spells out the line up to the new position.
   */
  lemma TokenStep(line: string, position: nat, consumed: seq<string>, token: string)
    requires position < |line| && token == Token(Separators, line, position)
    requires Concat(consumed) == line[..position]
    requires consumed + TokensFrom(Separators, line, position) == Tokens(Separators, line)
    ensures Concat(consumed + [token]) == line[..position + |token|]
    ensures (consumed + [token]) + TokensFrom(Separators, line, position + |token|) == Tokens(Separators, line)
  {
    var next := position + |token|;
    assert (consumed + [token]) + TokensFrom(Separators, line, next) == Tokens(Separators, line) by {
      assert TokensFrom(Separators, line, position) == [token] + TokensFrom(Separators, line, next);
    }
    assert Concat(consumed + [token]) == line[..next] by {
      ConcatAppend(consumed, token);
      assert line[..next] == line[..position] + token;
    }
  }

  // ---------------------------------------------------------------------
  // The loop's words are the document's maximal runs

  /** `p` is where a run may start: the line's ends, or a change of class. */
  ghost predicate IsBoundary(line: string, p: nat)
  {
    p == 0 || p >= |line| || IsSep(Separators, line[p - 1]) != IsSep(Separators, line[p])
  }

  /**
   * From a boundary, the runs of `w` are the token at `p` (when it is an
   * occurrence of `w`) together with the runs from the end of that token.
   */
  lemma WordRunsSplit(line: string, w: string, p: nat)
    requires p < |line| && IsBoundary(line, p)
    ensures var e := RunEnd(Separators, line, p);
      WordRuns(line, w, p)
      == WordRuns(line, w, e) + (if !IsSep(Separators, line[p]) && Lower(line[p..e]) == w then {(p, e)} else {})
  {
    var e := RunEnd(Separators, line, p);
    forall r | r in WordRuns(line, w, p)
      ensures r in WordRuns(line, w, e) || (r == (p, e) && !IsSep(Separators, line[p]) && Lower(line[p..e]) == w)
    {
      RunFromBoundary(line, p, r.0, r.1);
    }
  }

  /** Hence, from a boundary, the number of runs of `w` goes down by one exactly when the token at `p` is `w`. */
  lemma WordRunsStep(line: string, w: string, p: nat)
    requires p < |line| && IsBoundary(line, p)
    ensures var e := RunEnd(Separators, line, p);
      |WordRuns(line, w, p)|
      == (if !IsSep(Separators, line[p]) && Lower(line[p..e]) == w then 1 else 0) + |WordRuns(line, w, e)|
  {
    var e := RunEnd(Separators, line, p);
    var later := WordRuns(line, w, e);
    WordRunsSplit(line, w, p);
    if !IsSep(Separators, line[p]) && Lower(line[p..e]) == w {
      assert (p, e) !in later;
      assert |later + {(p, e)}| == |later| + 1;
    } else {
      assert later + {} == later;
    }
  }

  /** The end of a run is again a boundary. */
  lemma RunEndIsBoundary(line: string, p: nat)
    requires p < |line|
    ensures IsBoundary(line, RunEnd(Separators, line, p))
  {
    var e := RunEnd(Separators, line, p);
    assert e < |line| ==> IsSep(Separators, line[e - 1]) == IsSep(Separators, line[p]);
  }

  /** A word run that starts at or after a boundary `p` is the token at `p` or starts after it. */
  lemma RunFromBoundary(line: string, p: nat, i: int, j: int)
    requires p < |line| && IsBoundary(line, p)
    requires p <= i && IsWordRun(line, i, j)
    ensures var e := RunEnd(Separators, line, p);
      (i == p && j == e && !IsSep(Separators, line[p])) || e <= i
  {
    var e := RunEnd(Separators, line, p);
    if i < e {
      assert IsSep(Separators, line[i]) == IsSep(Separators, line[p]);
      assert forall k :: p <= k < e ==> !IsSep(Separators, line[k]);
      assert i == p;
      assert j == e;
    }
  }

  /** On one line, the loop's count of `w` from a boundary `p` is the number of runs of `w` from `p`. */
  lemma {:induction false} LineCount(line: string, w: string, p: nat)
    requires p <= |line| && IsBoundary(line, p)
    ensures multiset(WordsOf(TokensFrom(Separators, line, p)))[w] == |WordRuns(line, w, p)|
    decreases |line| - p
  {
    if p == |line| {
      assert WordRuns(line, w, p) == {};
    } else {
      var e := RunEnd(Separators, line, p);
      WordRunsStep(line, w, p);
      RunEndIsBoundary(line, p);
      LineCount(line, w, e);
      var ts := TokensFrom(Separators, line, p);
      assert ts[1..] == TokensFrom(Separators, line, e);
    }
  }

  /** Over the document, the loop's count of `w` is the number of occurrences of `w`. */
  lemma {:induction false} DocumentCount(lines: seq<string>, w: string)
    ensures multiset(DocumentWords(lines))[w] == Occurrences(lines, w)
    decreases |lines|
  {
    if lines != [] {
      DocumentCount(lines[..|lines| - 1], w);
      LineCount(lines[|lines| - 1], w, 0);
    }
  }

  /** Every word a line yields is a valid table key. */
  lemma {:induction false} TokenWordsAreNormal(line: string, p: nat)
    requires p <= |line|
    ensures forall x :: x in WordsOf(TokensFrom(Separators, line, p)) ==> IsNormalWord(x)
    decreases |line| - p
  {
    if p < |line| {
      var e := RunEnd(Separators, line, p);
      TokenWordsAreNormal(line, e);
      var ts := TokensFrom(Separators, line, p);
      assert ts[1..] == TokensFrom(Separators, line, e);
      var t := Token(Separators, line, p);
      if !IsSep(Separators, t[0]) {
        forall k | 0 <= k < |t| ensures !IsSep(Separators, Lower(t)[k]) && !('A' <= Lower(t)[k] <= 'Z') {
          LowerCharKeepsClass(t[k]);
        }
      }
    }
  }

  lemma {:induction false} DocumentWordsAreNormal(lines: seq<string>)
    ensures forall x :: x in DocumentWords(lines) ==> IsNormalWord(x)
    decreases |lines|
  {
    if lines != [] {
      DocumentWordsAreNormal(lines[..|lines| - 1]);
      TokenWordsAreNormal(lines[|lines| - 1], 0);
    }
  }
}
