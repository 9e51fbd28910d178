/**
 * WordCounter.wordCount end to end, without its I/O: the document's lines
 * are counted into a table, and the table is turned into the sorted report
 * that generateIndex writes out.
 */
module WordCounter {
  import opened SeparatorSet
  import opened Tokenizer
  import opened StringOrder
  import opened Counter
  import opened Reporter

  /**
   * The rows of the report for a document: every word that occurs in it,
   * once, with its number of occurrences, in strictly ascending compareTo
   * order.
   */
  method WordCount(lines: seq<string>) returns (rows: seq<Row>)
    ensures forall i :: 0 <= i < |rows| ==> 0 < rows[i].count == Occurrences(lines, rows[i].word)
    ensures forall i :: 0 <= i < |rows| ==> IsNormalWord(rows[i].word)
    ensures forall w :: 0 < Occurrences(lines, w) ==> exists i :: 0 <= i < |rows| && rows[i].word == w
    ensures forall i, j :: 0 <= i < j < |rows| ==> CompareTo(rows[i].word, rows[j].word) < 0
  {
    var words := CountWords(lines);
    rows := GenerateIndex(words);
  }

  // ---------------------------------------------------------------------
  // Case-insensitivity

  /** Lower-casing commutes with slicing. */
  lemma LowerSlice(s: string, i: nat, j: nat)
    requires i <= j <= |s|
    ensures Lower(s[i..j]) == Lower(s)[i..j]
  {
    var a, b := Lower(s[i..j]), Lower(s)[i..j];
    forall k | 0 <= k < |a|
      ensures a[k] == b[k]
    {
      assert s[i..j][k] == s[i + k];
    }
  }

  /** Two lines that lower-case alike have the same separator positions. */
  lemma SameClasses(l1: string, l2: string)
    requires Lower(l1) == Lower(l2)
    ensures |l1| == |l2|
    ensures forall k :: 0 <= k < |l1| ==> IsSep(Separators, l1[k]) == IsSep(Separators, l2[k])
  {
    forall k | 0 <= k < |l1|
      ensures IsSep(Separators, l1[k]) == IsSep(Separators, l2[k])
    {
      LowerCharKeepsClass(l1[k]);
      LowerCharKeepsClass(l2[k]);
      assert Lower(l1)[k] == Lower(l2)[k];
    }
  }

  /** A run of one line that lower-cases to `w` is a run of the other line that lower-cases to `w`. */
  lemma SameRuns(l1: string, l2: string, w: string, i: int, j: int)
    requires Lower(l1) == Lower(l2)
    requires IsWordRun(l1, i, j) && Lower(l1[i..j]) == w
    ensures IsWordRun(l2, i, j) && Lower(l2[i..j]) == w
  {
    SameClasses(l1, l2);
    LowerSlice(l1, i, j);
    LowerSlice(l2, i, j);
  }

  /** Lines that lower-case alike hold the same occurrences of every word. */
  lemma LineCaseInsensitive(l1: string, l2: string, w: string)
    requires Lower(l1) == Lower(l2)
    ensures WordRuns(l1, w, 0) == WordRuns(l2, w, 0)
  {
    forall r | r in WordRuns(l1, w, 0)
      ensures r in WordRuns(l2, w, 0)
    {
      SameRuns(l1, l2, w, r.0, r.1);
    }
    forall r | r in WordRuns(l2, w, 0)
      ensures r in WordRuns(l1, w, 0)
    {
      SameRuns(l2, l1, w, r.0, r.1);
    }
  }

  /**
   * Documents whose lines lower-case alike count every word the same:
   * "Apple", "apple" and "APPLE" are one word.
   */
  lemma {:induction false} DocumentCaseInsensitive(d1: seq<string>, d2: seq<string>, w: string)
    requires |d1| == |d2|
    requires forall n :: 0 <= n < |d1| ==> Lower(d1[n]) == Lower(d2[n])
    ensures Occurrences(d1, w) == Occurrences(d2, w)
  {
    if d1 != [] {
      DocumentCaseInsensitive(d1[..|d1| - 1], d2[..|d2| - 1], w);
      LineCaseInsensitive(d1[|d1| - 1], d2[|d2| - 1], w);
    }
  }

  // ---------------------------------------------------------------------
  // Separator runs are never counted

  /** A line made only of separators holds no word. */
  lemma SeparatorLineHasNoWords(line: string, w: string)
    requires forall k :: 0 <= k < |line| ==> line[k] in Separators
    ensures WordRuns(line, w, 0) == {}
  {
  }

  /** A document made only of separators has no word with an occurrence, so its table is empty. */
  lemma {:induction false} SeparatorDocumentHasNoWords(lines: seq<string>, w: string)
    requires forall n, k :: 0 <= n < |lines| && 0 <= k < |lines[n]| ==> lines[n][k] in Separators
    ensures Occurrences(lines, w) == 0
  {
    if lines != [] {
      SeparatorDocumentHasNoWords(lines[..|lines| - 1], w);
      SeparatorLineHasNoWords(lines[|lines| - 1], w);
    }
  }
}
