/**
 * WordCounter.generateIndex without its HTML: the table's keys are put in
 * a queue, sorted with StringLT (String.compareTo), and one (word, count)
 * row is emitted per key.
 */
module Reporter {
  import opened StringOrder

  /** One row of the report: a word and its count. */
  datatype Row = Row(word: string, count: int)

  /** `s` is in non-descending compareTo order. */
  ghost predicate Ascending(s: seq<string>)
  {
    forall i, j :: 0 <= i < j < |s| ==> CompareTo(s[i], s[j]) <= 0
  }

  /** `s` holds no element twice. */
  ghost predicate Distinct(s: seq<string>)
  {
    forall i, j :: 0 <= i < j < |s| ==> s[i] != s[j]
  }

  /**
   * A report of `words`: one row per key, each with that key's count, in
   * strictly ascending compareTo order of the words.
   */
  ghost predicate IsReport(words: map<string, int>, rows: seq<Row>)
  {
    && |rows| == |words|
    && (forall i :: 0 <= i < |rows| ==> rows[i].word in words && rows[i].count == words[rows[i].word])
    && (forall w :: w in words ==> exists i :: 0 <= i < |rows| && rows[i].word == w)
    && (forall i, j :: 0 <= i < j < |rows| ==> CompareTo(rows[i].word, rows[j].word) < 0)
  }

  /** Inserts `x` into the ascending `s` just before the first element above it. */
  method Insert(s: seq<string>, x: string) returns (r: seq<string>)
    requires Ascending(s)
    ensures Ascending(r)
    ensures multiset(r) == multiset(s) + multiset{x}
  {
    var i := 0;
    while i < |s| && CompareTo(s[i], x) <= 0
      invariant 0 <= i <= |s|
      invariant forall k :: 0 <= k < i ==> CompareTo(s[k], x) <= 0
    {
      i := i + 1;
    }
    forall k | i <= k < |s|
      ensures CompareTo(x, s[k]) <= 0
    {
      CompareToAntisymmetric(s[i], x);
      CompareToTransitive(x, s[i], s[k]);
    }
    r := s[..i] + [x] + s[i..];
    InsertAscending(s, i, x);
    assert s == s[..i] + s[i..];
  }

  /** Placing `x` after everything at most `x` and before everything above keeps order. */
  lemma InsertAscending(s: seq<string>, i: nat, x: string)
    requires Ascending(s) && i <= |s|
    requires forall k :: 0 <= k < i ==> CompareTo(s[k], x) <= 0
    requires forall k :: i <= k < |s| ==> CompareTo(x, s[k]) <= 0
    ensures Ascending(s[..i] + [x] + s[i..])
  {
    var r := s[..i] + [x] + s[i..];
    forall a, b | 0 <= a < b < |r|
      ensures CompareTo(r[a], r[b]) <= 0
    {
      if b < i {
        assert r[a] == s[a] && r[b] == s[b];
      } else if b == i {
        assert r[a] == s[a] && r[b] == x;
      } else if a == i {
        assert r[a] == x && r[b] == s[b - 1];
      } else if a < i {
        assert r[a] == s[a] && r[b] == s[b - 1];
      } else {
        assert r[a] == s[a - 1] && r[b] == s[b - 1];
      }
    }
  }

  /** Sorts `q` into non-descending compareTo order, by insertion. */
  method Sort(q: seq<string>) returns (s: seq<string>)
    ensures Ascending(s)
    ensures multiset(s) == multiset(q)
  {
    s := [];
    for n := 0 to |q|
      invariant Ascending(s)
      invariant multiset(s) == multiset(q[..n])
    {
      s := Insert(s, q[n]);
      assert q[..n + 1] == q[..n] + [q[n]];
    }
    assert q[..|q|] == q;
  }

  /**
   * Enqueues every key of the table, once each, in an order the table does
   * not fix (the iteration order of the map).
   */
  method QueueKeys(words: map<string, int>) returns (queue: seq<string>)
    ensures multiset(queue) == multiset(words.Keys)
  {
    queue := [];
    var rest := words.Keys;
    while rest != {}
      invariant rest <= words.Keys
      invariant multiset(queue) == multiset(words.Keys - rest)
      decreases |rest|
    {
      var key :| key in rest;
      assert words.Keys - (rest - {key}) == (words.Keys - rest) + {key};
      queue := queue + [key];
      rest := rest - {key};
    }
    assert words.Keys - rest == words.Keys;
  }

  /**
   * Queues the table's keys, sorts the queue with compareTo, and emits one
   * row per queued word that is a key, with its count.
   */
  method GenerateIndex(words: map<string, int>) returns (rows: seq<Row>)
    ensures IsReport(words, rows)
  {
    var queue := QueueKeys(words);
    queue := Sort(queue);
    SortedKeys(words, queue);
    rows := [];
    for i := 0 to |queue|
      invariant |rows| == i
      invariant forall k :: 0 <= k < i ==> rows[k] == Row(queue[k], words[queue[k]])
    {
      if queue[i] in words {
        rows := rows + [Row(queue[i], words[queue[i]])];
      }
    }
    RowsOfSortedKeys(words, queue, rows);
  }

  /**
   * The sorted queue of a table's keys holds each key once, and every
   * element is a key, in strictly ascending order.
   */
  lemma SortedKeys(words: map<string, int>, queue: seq<string>)
    requires Ascending(queue) && multiset(queue) == multiset(words.Keys)
    ensures |queue| == |words|
    ensures forall k :: 0 <= k < |queue| ==> queue[k] in words
    ensures forall w :: w in words ==> w in queue
    ensures forall i, j :: 0 <= i < j < |queue| ==> CompareTo(queue[i], queue[j]) < 0
  {
    assert |multiset(queue)| == |multiset(words.Keys)|;
    MultiplicityOneIsDistinct(queue);
    forall k | 0 <= k < |queue|
      ensures queue[k] in words
    {
      assert queue[k] in multiset(queue);
    }
    forall w | w in words
      ensures w in queue
    {
      assert w in multiset(queue);
    }
  }

  /** One row per sorted key, with the key's count, is a report of the table. */
  lemma RowsOfSortedKeys(words: map<string, int>, queue: seq<string>, rows: seq<Row>)
    requires |queue| == |words| && |rows| == |queue|
    requires forall k :: 0 <= k < |queue| ==> queue[k] in words
    requires forall w :: w in words ==> w in queue
    requires forall i, j :: 0 <= i < j < |queue| ==> CompareTo(queue[i], queue[j]) < 0
    requires forall k :: 0 <= k < |rows| ==> rows[k] == Row(queue[k], words[queue[k]])
    ensures IsReport(words, rows)
  {
    forall w | w in words
      ensures exists i :: 0 <= i < |rows| && rows[i].word == w
    {
      var i :| 0 <= i < |queue| && queue[i] == w;
      assert rows[i].word == w;
    }
    forall i, j | 0 <= i < j < |rows|
      ensures CompareTo(rows[i].word, rows[j].word) < 0
    {
      assert rows[i].word == queue[i] && rows[j].word == queue[j];
    }
  }

  /** A sequence in which nothing occurs twice has distinct elements. */
  lemma MultiplicityOneIsDistinct(s: seq<string>)
    requires forall x :: multiset(s)[x] <= 1
    ensures Distinct(s)
  {
    forall i, j | 0 <= i < j < |s|
      ensures s[i] != s[j]
    {
      assert s == s[..i] + [s[i]] + s[i + 1..j] + [s[j]] + s[j + 1..];
      assert multiset(s)[s[i]] >= multiset{s[i]}[s[i]] + multiset{s[j]}[s[i]];
    }
  }

  /** Two strictly ascending sequences with the same elements are equal. */
  lemma {:induction false} StrictlyAscendingIsUnique(a: seq<string>, b: seq<string>)
    requires forall i, j :: 0 <= i < j < |a| ==> CompareTo(a[i], a[j]) < 0
    requires forall i, j :: 0 <= i < j < |b| ==> CompareTo(b[i], b[j]) < 0
    requires forall x :: x in a <==> x in b
    ensures a == b
    decreases |a|
  {
    if a != [] && b != [] {
      HeadsAgree(a, b);
      TailsAgree(a, b);
      StrictlyAscendingIsUnique(a[1..], b[1..]);
      assert a == [a[0]] + a[1..] && b == [b[0]] + b[1..];
    } else if a != [] {
      HeadIsMember(a);
      assert false;
    } else if b != [] {
      HeadIsMember(b);
      assert false;
    }
  }

  /** Both sequences start with their common least element. */
  lemma HeadsAgree(a: seq<string>, b: seq<string>)
    requires a != [] && b != []
    requires forall i :: 0 < i < |a| ==> CompareTo(a[0], a[i]) < 0
    requires forall i :: 0 < i < |b| ==> CompareTo(b[0], b[i]) < 0
    requires forall x :: x in a <==> x in b
    ensures a[0] == b[0]
  {
    assert b[0] in b && a[0] in a;
    var m :| 0 <= m < |a| && a[m] == b[0];
    var k :| 0 <= k < |b| && b[k] == a[0];
    if m > 0 && k > 0 {
      CompareToAntisymmetric(a[0], b[0]);
    }
  }

  /** With equal heads that occur nowhere else, the tails hold the same elements. */
  lemma TailsAgree(a: seq<string>, b: seq<string>)
    requires a != [] && b != [] && a[0] == b[0]
    requires forall i :: 0 < i < |a| ==> a[0] != a[i]
    requires forall i :: 0 < i < |b| ==> b[0] != b[i]
    requires forall x :: x in a <==> x in b
    ensures forall x :: x in a[1..] <==> x in b[1..]
  {
    forall x
      ensures x in a[1..] <==> x in b[1..]
    {
      if x in a[1..] {
        var t :| 1 <= t < |a| && a[t] == x;
        assert x in a;
        var u :| 0 <= u < |b| && b[u] == x;
        assert u != 0;
        assert b[1..][u - 1] == x;
      }
      if x in b[1..] {
        var u :| 1 <= u < |b| && b[u] == x;
        assert x in b;
        var t :| 0 <= t < |a| && a[t] == x;
        assert t != 0;
        assert a[1..][t - 1] == x;
      }
    }
  }

  /** A non-empty sequence holds its first element. */
  lemma HeadIsMember(s: seq<string>)
    requires s != []
    ensures s[0] in s
  {
  }

  /** The words of a sequence of rows. */
  function WordsOfRows(rows: seq<Row>): (ws: seq<string>)
    ensures |ws| == |rows| && forall i :: 0 <= i < |rows| ==> ws[i] == rows[i].word
  {
    seq(|rows|, i requires 0 <= i < |rows| => rows[i].word)
  }

  /** The words of a report are exactly the table's keys, strictly ascending. */
  lemma ReportWords(words: map<string, int>, rows: seq<Row>)
    requires IsReport(words, rows)
    ensures forall x :: x in WordsOfRows(rows) <==> x in words
    ensures forall i, j :: 0 <= i < j < |rows| ==> CompareTo(WordsOfRows(rows)[i], WordsOfRows(rows)[j]) < 0
  {
    var a := WordsOfRows(rows);
    forall x
      ensures x in a <==> x in words
    {
      if x in a {
        var i :| 0 <= i < |a| && a[i] == x;
        assert rows[i].word == x;
      }
      if x in words {
        var i :| 0 <= i < |rows| && rows[i].word == x;
        assert a[i] == x;
      }
    }
  }

  /**
   * The report of a table is determined by the table alone: whatever order
   * the keys were queued in, the rows come out the same.
   */
  lemma ReportIsUnique(words: map<string, int>, r1: seq<Row>, r2: seq<Row>)
    requires IsReport(words, r1) && IsReport(words, r2)
    ensures r1 == r2
  {
    ReportWords(words, r1);
    ReportWords(words, r2);
    var a, b := WordsOfRows(r1), WordsOfRows(r2);
    StrictlyAscendingIsUnique(a, b);
    forall i | 0 <= i < |r1|
      ensures r1[i] == r2[i]
    {
      assert r1[i].word == a[i] == b[i] == r2[i].word;
    }
  }
}
