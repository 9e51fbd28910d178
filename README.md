# Word counter, modelled in Dafny

WordCounter reads a text file line by line and cuts every line into
alternating runs of "word" characters and "separator" characters. The
eleven separators are space and `. , : ; ? ! " ( ) -`. It lower-cases each
run and counts every word run in a table from word to count. It then writes
an HTML table of the words and their counts, sorted with
`String.compareTo`.

This project models that core and proves:

- the tokenizer's contract;
- the partition of each line into runs;
- that the table holds exactly the number of occurrences of every word,
  with every count positive and separator runs never counted;
- that the report lists every word once, in strictly ascending order, with
  its count.

Modules, leaf first:

| file | module | models |
|---|---|---|
| `SeparatorSet.dfy` | `SeparatorSet` | `defineSeparators` |
| `StringOrder.dfy` | `StringOrder` | `StringLT.compare`, i.e. `String.compareTo` |
| `Tokenizer.dfy` | `Tokenizer` | `nextWordOrSeparator`; the tokens that repeated calls produce |
| `Counter.dfy` | `Counter` | the two nested loops of `wordCount` that fill the table |
| `Reporter.dfy` | `Reporter` | `generateIndex`, without the HTML text |
| `WordCounter.dfy` | `WordCounter` | `wordCount` end to end; case-insensitivity; separator-only input |

There are two independent descriptions of what is counted:

- **What the loop sees.** `Counter.LineWords` gives the lower-cased word
  tokens of a line. It is built from `Tokenizer.Tokens`, which gives the
  runs that repeated `nextWordOrSeparator` calls return.
- **What the document says.** `Counter.Occurrences` counts, line by line,
  the maximal non-separator runs `line[i..j]` that lower-case to the word.
  It is defined as a set of `(i, j)` pairs and never mentions the
  tokenizer.

`Counter.DocumentCount` proves that the two agree. The loop's table is
proved to be the tally of the loop's words, so the table holds the
document's occurrence counts.

## Model

| member | source | states |
|---|---|---|
| SeparatorSet.DefineSeparators | WordCounter.java:37-49 | the set it is given comes back enlarged by exactly the eleven separator characters |
| SeparatorSet.SeparatorCount | WordCounter.java:38-48 | the eleven characters added are pairwise distinct: the set has 11 elements |
| SeparatorSet.NoLetterIsSeparator | WordCounter.java:38-48 | no ASCII letter of either case is a separator, so lower-casing never moves a character between classes |
| StringOrder.CompareTo | WordCounter.java:55-60 | compareTo is zero exactly when the two strings are equal |
| StringOrder.CompareToIsLexLess | WordCounter.java:52-60 | compareTo is negative exactly when the first string is lexicographically smaller (a proper prefix, or smaller at the first difference) |
| StringOrder.CompareToAntisymmetric | WordCounter.java:55-60 | swapping the arguments negates the result |
| StringOrder.CompareToTransitive | WordCounter.java:55-60 | "at most" under compareTo is transitive |
| StringOrder.CompareToStrictTransitive | WordCounter.java:55-60 | "strictly below" followed by "at most" is strictly below |
| Tokenizer.ScanEnd | WordCounter.java:104-107 | the scan stops at the first character outside the starting class, or at the end of the text, and every character it passes has that class |
| Tokenizer.RunEnd | WordCounter.java:101-107 | a run started at `p` always advances: `p < e <= \|text\|` |
| Tokenizer.Token | WordCounter.java:77-92 | the run at `p` satisfies the documented contract: non-empty slice of the text at `p`, homogeneous, and maximal |
| Tokenizer.MaximalRunIsUnique | WordCounter.java:77-92 | the documented contract has exactly one solution, so any result meeting it is the token |
| Tokenizer.NextWordOrSeparator | WordCounter.java:94-110 | the loop returns a non-empty slice of `text` at `position` whose characters all share the class of the first, ending at the end of the text or just before a character of the other class |
| Tokenizer.TokenIsIdempotent | WordCounter.java:77-110 | a token, re-tokenised from its own start, comes back unchanged |
| Tokenizer.TokensPartitionLine | WordCounter.java:225-233 | the tokens from `p` are non-empty and homogeneous, neighbours have opposite classes, and their concatenation is exactly `line[p..]` (no gap, no overlap) |
| Counter.Lower | WordCounter.java:227-228 | lower-casing keeps the length and maps every character by the ASCII case fold |
| Counter.LowerCharKeepsClass | WordCounter.java:227-234 | lower-casing keeps a character's separator class and never yields an upper-case letter |
| Counter.LowerKeepsFirstClass | WordCounter.java:234 | testing the first character of the lower-cased token gives the same answer as testing the token itself |
| Counter.Increment | WordCounter.java:236-242 | the key gains `w`; `w`'s count goes up by one, or starts at 1 when absent; every other entry is unchanged; positive counts stay positive |
| Counter.IncrementTallies | WordCounter.java:236-242 | incrementing the tally of a multiset gives the tally of that multiset with one more `w` |
| Counter.AddAllTallies | WordCounter.java:225-244 | recording a sequence of words into a tally of `m` gives the tally of `m` plus those words |
| Counter.AddAllStep | WordCounter.java:236-242 | recording one more word is one more increment |
| Counter.AddAllConcat | WordCounter.java:219-245 | recording `a` and then `b` is recording `a + b` (line after line) |
| Counter.TalliesArePositive | WordCounter.java:236-242 | every count in a tally is at least 1 |
| Counter.CountWords | WordCounter.java:210-245 | the table's keys are exactly the words with at least one occurrence in the document; each count is that word's number of occurrences; every key is non-empty, lower case and free of separators |
| Counter.CountLine | WordCounter.java:225-244 | after walking a line, the table is the given one with every word token of the line recorded, in order; separator runs are skipped |
| Counter.TableCountsOccurrences | WordCounter.java:219-245 | recording the document's word tokens into an empty table gives each word's occurrence count, and only valid keys |
| Counter.WordStep | WordCounter.java:234-243 | one step of the line loop records the lower-cased token exactly when it is a word |
| Counter.TokenStep | WordCounter.java:225-231 | one step of the line loop keeps the consumed tokens a prefix of the line's tokens that spells out the line up to the new position |
| Counter.WordRunsSplit | WordCounter.java:225-244 | from a run boundary, the occurrences of `w` are the token there, when it is `w`, plus the occurrences after it |
| Counter.WordRunsStep | WordCounter.java:225-244 | from a run boundary, the number of occurrences drops by one exactly when the token there is `w` |
| Counter.RunEndIsBoundary | WordCounter.java:99-110 | the end of a run is again a run boundary |
| Counter.RunFromBoundary | WordCounter.java:99-110 | a word run starting at or after a boundary is the token at that boundary or lies after it |
| Counter.LineCount | WordCounter.java:225-244 | the number of times the line loop records `w` equals the number of maximal runs of the line that lower-case to `w` |
| Counter.DocumentCount | WordCounter.java:219-245 | over the document, the number of times `w` is recorded equals its number of occurrences |
| Counter.TokenWordsAreNormal | WordCounter.java:227-242 | every word recorded from a line is non-empty, lower case and free of separators |
| Counter.DocumentWordsAreNormal | WordCounter.java:219-245 | every word recorded from the document is a valid key |
| Reporter.Insert | WordCounter.java:185 | inserting into an ascending queue keeps it ascending and adds exactly one copy of the word |
| Reporter.InsertAscending | WordCounter.java:185 | placing a word after everything at most it and before everything above it keeps the order |
| Reporter.Sort | WordCounter.java:185 | the sorted queue is in non-descending compareTo order and is a permutation of the input |
| Reporter.QueueKeys | WordCounter.java:179-182 | the queue holds every key of the table exactly once |
| Reporter.GenerateIndex | WordCounter.java:168-198 | one row per key of the table, each with that key's count, in strictly ascending compareTo order |
| Reporter.SortedKeys | WordCounter.java:176-185 | the sorted queue of keys has one entry per key, only keys, in strictly ascending order (so the `hasKey` test never fails) |
| Reporter.RowsOfSortedKeys | WordCounter.java:187-193 | emitting one row per sorted key, with its count, yields a report of the table |
| Reporter.MultiplicityOneIsDistinct | WordCounter.java:179-185 | a queue in which nothing occurs twice has no repeated element |
| Reporter.StrictlyAscendingIsUnique | WordCounter.java:185 | two strictly ascending sequences with the same elements are equal |
| Reporter.HeadsAgree | WordCounter.java:185 | two strictly ascending sequences with the same elements start with the same least element |
| Reporter.TailsAgree | WordCounter.java:185 | removing a shared head that occurs nowhere else leaves tails with the same elements |
| Reporter.ReportWords | WordCounter.java:187-193 | the words of a report are exactly the table's keys, strictly ascending |
| Reporter.ReportIsUnique | WordCounter.java:176-193 | the report is determined by the table alone: the map's iteration order does not affect the output |
| WordCounter.WordCount | WordCounter.java:210-248 | the report of a document lists every word that occurs in it, once, with a positive count equal to its number of occurrences, in strictly ascending compareTo order |
| WordCounter.LowerSlice | WordCounter.java:227-228 | lower-casing commutes with slicing |
| WordCounter.SameClasses | WordCounter.java:227-234 | two lines that lower-case alike have separators at the same positions |
| WordCounter.SameRuns | WordCounter.java:227-234 | a run of one such line that lower-cases to `w` is a run of the other that lower-cases to `w` |
| WordCounter.LineCaseInsensitive | WordCounter.java:227-243 | lines that lower-case alike hold the same occurrences of every word |
| WordCounter.DocumentCaseInsensitive | WordCounter.java:219-245 | documents whose lines lower-case alike give every word the same count ("Apple", "apple" and "APPLE" share one entry) |
| WordCounter.SeparatorLineHasNoWords | WordCounter.java:234 | a line made only of separators has no occurrence of any word |
| WordCounter.SeparatorDocumentHasNoWords | WordCounter.java:219-245 | a document made only of separators gives every word zero occurrences, so its table is empty |

## Left out

- Reading the input file, the prompts for file names, opening and closing streams, and `main` are not modelled. The document is a parameter `lines: seq<string>`, one string per line as `nextLine` returns it.
- The HTML text that `outputHeader`, `outputFooter` and `generateIndex` print is not modelled. `Reporter.GenerateIndex` returns the `(word, count)` rows that become the table's rows, in order.
- The OSU component library (`Set1L`, `Map1L`, `Queue1L`, `SimpleReader`, `SimpleWriter`) is not part of this model. Its sets and maps are Dafny `set` and `map` values, and a queue is a `seq`.
- Reporter.Sort: `Queue1L.sort` is a library routine whose algorithm is not part of this model. It is modelled by an insertion sort, and only its outcome is stated: ordered by the comparator, and a permutation.
- Reporter.QueueKeys: the iteration order of `Map1L` is not fixed. It is modelled by picking an arbitrary remaining key each time. `Reporter.ReportIsUnique` shows that the order cannot change the report.
- Counter.LowerChar: `String.toLowerCase` is Unicode- and locale-aware. The model folds only `A`-`Z` to `a`-`z` and is length-preserving. The source adds the lower-cased token's length to `position`, which equals the original token's length only under this assumption.
- StringOrder.CompareTo: Java compares UTF-16 code units, while a Dafny `char` is a Unicode scalar value. The two orders differ only between characters outside the Basic Multilingual Plane and characters from U+E000 to U+FFFF.
- Counter.Increment: counts are unbounded integers. The `Integer` overflow that more than 2^31 - 1 occurrences of one word would cause is not modelled.
- SeparatorSet.DefineSeparators: the source adds to a set passed by reference. The model takes the set as a value and returns the enlarged set.
- Counter.CountLine: the inner `while` loop of `wordCount` is a separate method in the model. Its separator set must be the one `defineSeparators` builds, which is the only set the source passes in.
- Reporter.GenerateIndex: the `hasKey` test before each row is kept. `Reporter.SortedKeys` proves that it always succeeds.
- The `assert` statements at the top of `nextWordOrSeparator` for null arguments have no counterpart. Dafny values are never null, and the position bounds are the precondition of `Tokenizer.NextWordOrSeparator`.
