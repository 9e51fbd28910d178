/**
 * WordCounter.nextWordOrSeparator: the maximal run of characters, starting at
 * a given position, that all are separators or all are not; and the
 * partition of a line into such runs that repeated calls produce.
 */
module Tokenizer {

  /** The separator class of a character: true for a separator. */
  predicate IsSep(separators: set<char>, c: char)
  {
    c in separators
  }

  /**
   * Scans forward from `i` over characters of class `sep`; the result is the
   * first index that leaves the class, or the end of `text`.
   */
  function ScanEnd(separators: set<char>, text: string, i: nat, sep: bool): (e: nat)
    requires i <= |text|
    ensures i <= e <= |text|
    ensures forall k :: i <= k < e ==> IsSep(separators, text[k]) == sep
    ensures e == |text| || IsSep(separators, text[e]) != sep
    decreases |text| - i
  {
    if i < |text| && IsSep(separators, text[i]) == sep then ScanEnd(separators, text, i + 1, sep) else i
  }

  /** The index just past the maximal run that starts at `p`. */
  function RunEnd(separators: set<char>, text: string, p: nat): (e: nat)
    requires p < |text|
    ensures p < e <= |text|
  {
    ScanEnd(separators, text, p + 1, IsSep(separators, text[p]))
  }

  /**
   * The contract of nextWordOrSeparator: `t` is the non-empty slice of `text`
   * at `p`, all of its characters share the class of `text[p]`, and it stops
   * at the end of `text` or just before a character of the other class.
   */
  ghost predicate IsMaximalRun(separators: set<char>, text: string, p: nat, t: string)
  {
    && p < |text|
    && 0 < |t| && p + |t| <= |text|
    && t == text[p..p + |t|]
    && (forall k :: p <= k < p + |t| ==> IsSep(separators, text[k]) == IsSep(separators, text[p]))
    && (p + |t| == |text| || IsSep(separators, text[p + |t|]) != IsSep(separators, text[p]))
  }

  /** The token that starts at `p`, as a value. */
  function Token(separators: set<char>, text: string, p: nat): (t: string)
    requires p < |text|
    ensures IsMaximalRun(separators, text, p, t)
  {
    text[p..RunEnd(separators, text, p)]
  }

  /** The contract determines the token: there is only one maximal run at `p`. */
  lemma MaximalRunIsUnique(separators: set<char>, text: string, p: nat, t: string)
    requires p < |text| && IsMaximalRun(separators, text, p, t)
    ensures t == Token(separators, text, p)
  {
  }

  /**
   * Builds the token one character at a time, as the source does, and
   * returns it.
   */
  method NextWordOrSeparator(text: string, position: int, separators: set<char>) returns (output: string)
    requires 0 <= position < |text|
    ensures 0 < |output| && position + |output| <= |text|
    ensures output == text[position..position + |output|]
    ensures forall k :: position <= k < position + |output| ==> IsSep(separators, text[k]) == IsSep(separators, text[position])
    ensures position + |output| == |text| || IsSep(separators, text[position + |output|]) != IsSep(separators, text[position])
  {
    var first := text[position];
    var isSeparator := first in separators;
    output := [first];
    var i := position + 1;
    while i < |text| && isSeparator == (text[i] in separators)
      invariant position < i <= |text|
      invariant output == text[position..i]
      invariant forall k :: position <= k < i ==> IsSep(separators, text[k]) == isSeparator
    {
      output := output + [text[i]];
      i := i + 1;
    }
  }

  /**
   * Re-tokenising a token from its own start gives back the whole token: it
   * is a maximal run of itself.
   */
  lemma TokenIsIdempotent(separators: set<char>, text: string, p: nat)
    requires p < |text|
    ensures Token(separators, Token(separators, text, p), 0) == Token(separators, text, p)
  {
    var t := Token(separators, text, p);
    assert IsMaximalRun(separators, t, 0, t);
    MaximalRunIsUnique(separators, t, 0, t);
  }

  /** The tokens that repeated calls return, starting at `p` and advancing by each token's length. */
  function TokensFrom(separators: set<char>, line: string, p: nat): (ts: seq<string>)
    requires p <= |line|
    decreases |line| - p
  {
    if p == |line| then [] else [Token(separators, line, p)] + TokensFrom(separators, line, RunEnd(separators, line, p))
  }

  /** The tokens of a whole line. */
  function Tokens(separators: set<char>, line: string): seq<string>
  {
    TokensFrom(separators, line, 0)
  }

  /** Concatenation of a sequence of strings. */
  function Concat(ts: seq<string>): string
  {
    if ts == [] then [] else ts[0] + Concat(ts[1..])
  }

  lemma {:induction false} ConcatAppend(ts: seq<string>, t: string)
    ensures Concat(ts + [t]) == Concat(ts) + t
  {
    if ts != [] {
      assert (ts + [t])[1..] == ts[1..] + [t];
      ConcatAppend(ts[1..], t);
    }
  }

  /** True when every character of `t` has the class `sep`. */
  ghost predicate Homogeneous(separators: set<char>, t: string, sep: bool)
  {
    forall k :: 0 <= k < |t| ==> IsSep(separators, t[k]) == sep
  }

  /**
   * The partition property: the tokens from `p` are non-empty and
   * homogeneous, neighbours have opposite classes, and together they spell
   * out the rest of the line with no gap and no overlap.
   */
  lemma {:induction false} TokensPartitionLine(separators: set<char>, line: string, p: nat)
    requires p <= |line|
    ensures var ts := TokensFrom(separators, line, p);
      && Concat(ts) == line[p..]
      && (forall k :: 0 <= k < |ts| ==> 0 < |ts[k]| && Homogeneous(separators, ts[k], IsSep(separators, ts[k][0])))
      && (forall k :: 0 <= k < |ts| - 1 ==> IsSep(separators, ts[k][0]) != IsSep(separators, ts[k + 1][0]))
    decreases |line| - p
  {
    if p < |line| {
      var e := RunEnd(separators, line, p);
      TokensPartitionLine(separators, line, e);
      var rest := TokensFrom(separators, line, e);
      var ts := TokensFrom(separators, line, p);
      assert ts[1..] == rest;
      assert line[p..] == line[p..e] + line[e..];
      if rest != [] {
        assert rest[0] == Token(separators, line, e);
      }
    }
  }
}
