/**
 * The fixed set of characters that delimit words (WordCounter.defineSeparators).
 */
module SeparatorSet {

  /** The eleven separator characters: space and . , : ; ? ! " ( ) - */
  const Separators: set<char> := {' ', '.', ',', ':', ';', '?', '!', '"', '(', ')', '-'}

  /**
   * Adds every separator character to `s`, one at a time, as the source adds
   * them to the set it is given. The caller's set is returned enlarged.
   */
  method DefineSeparators(s: set<char>) returns (r: set<char>)
    ensures r == s + Separators
  {
    r := s;
    r := r + {' '};
    r := r + {'.'};
    r := r + {','};
    r := r + {':'};
    r := r + {';'};
    r := r + {'?'};
    r := r + {'!'};
    r := r + {'"'};
    r := r + {'('};
    r := r + {')'};
    r := r + {'-'};
  }

  /** The eleven characters are pairwise distinct. */
  lemma SeparatorCount()
    ensures |Separators| == 11
  {
    var s0: set<char> := {};
    assert |s0 + {' '}| == 1;
    assert |s0 + {' ', '.'}| == 2;
  }

  /** No separator is a letter of either case, so case folding never changes a character's class. */
  lemma NoLetterIsSeparator(c: char)
    requires 'A' <= c <= 'Z' || 'a' <= c <= 'z'
    ensures c !in Separators
  {
  }
}
