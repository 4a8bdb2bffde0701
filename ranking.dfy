/**
 * The ordering of search results: the results are sorted by decreasing total score with the
 * stable Array.prototype.sort, so results with equal scores keep the order of the index.
 */
module Ranking {
  import opened Corpus
  import opened Snippets

  /** One search result: the index entry, its scores and its excerpts. */
  datatype Hit = Hit(item: Document, titleScore: nat, contentScore: nat, totalScore: nat, snippets: seq<Snippet>)

  /** Inserts `h` in front of the first result that does not score more than it. */
  function Insert(h: Hit, sorted: seq<Hit>): seq<Hit>
  {
    if sorted == [] || sorted[0].totalScore <= h.totalScore then [h] + sorted
    else [sorted[0]] + Insert(h, sorted[1..])
  }

  /** The stable sort by decreasing total score. */
  function SortByScore(hits: seq<Hit>): seq<Hit>
  {
    if hits == [] then [] else Insert(hits[0], SortByScore(hits[1..]))
  }

  predicate SortedByScore(hits: seq<Hit>)
  {
    forall i, j :: 0 <= i < j < |hits| ==> hits[i].totalScore >= hits[j].totalScore
  }

  /** The results of one score, in order. */
  function OfScore(hits: seq<Hit>, score: nat): seq<Hit>
  {
    if hits == [] then []
    else (if hits[0].totalScore == score then [hits[0]] else []) + OfScore(hits[1..], score)
  }

  lemma {:induction false} InsertPermutes(h: Hit, sorted: seq<Hit>)
    ensures multiset(Insert(h, sorted)) == multiset(sorted) + multiset{h}
    ensures |Insert(h, sorted)| == |sorted| + 1
  {
    if sorted != [] && sorted[0].totalScore > h.totalScore {
      InsertPermutes(h, sorted[1..]);
      assert sorted == [sorted[0]] + sorted[1..];
    }
  }

  lemma {:induction false} InsertSorted(h: Hit, sorted: seq<Hit>)
    requires SortedByScore(sorted)
    ensures SortedByScore(Insert(h, sorted))
    ensures Insert(h, sorted) != [] && (Insert(h, sorted)[0] == h || Insert(h, sorted)[0] == sorted[0])
  {
    if sorted != [] && sorted[0].totalScore > h.totalScore {
      var rest := Insert(h, sorted[1..]);
      InsertSorted(h, sorted[1..]);
      InsertPermutes(h, sorted[1..]);
      var r := [sorted[0]] + rest;
      forall i, j | 0 <= i < j < |r|
        ensures r[i].totalScore >= r[j].totalScore
      {
        if i == 0 {
          assert r[j] in multiset(rest);
          assert r[j] in multiset(sorted[1..]) + multiset{h};
          if r[j] != h {
            assert r[j] in sorted[1..];
          }
        } else {
          assert r[i] == rest[i - 1] && r[j] == rest[j - 1];
        }
      }
    }
  }

  /**
   * Inserting `h` keeps every other score's results as they were, and puts `h` first among
   * the results of its own score.
   */
  lemma {:induction false} InsertOfScore(h: Hit, sorted: seq<Hit>, score: nat)
    ensures OfScore(Insert(h, sorted), score)
         == (if h.totalScore == score then [h] else []) + OfScore(sorted, score)
  {
    if sorted != [] && sorted[0].totalScore > h.totalScore {
      var r := [sorted[0]] + Insert(h, sorted[1..]);
      assert r[0] == sorted[0] && r[1..] == Insert(h, sorted[1..]);
      InsertOfScore(h, sorted[1..], score);
      if sorted[0].totalScore == score {
        assert h.totalScore != score;
      }
    } else {
      var r := [h] + sorted;
      assert r[0] == h && r[1..] == sorted;
    }
  }

  /** The sort orders by decreasing total score. */
  lemma {:induction false} SortByScoreSorted(hits: seq<Hit>)
    ensures SortedByScore(SortByScore(hits))
  {
    if hits != [] {
      SortByScoreSorted(hits[1..]);
      InsertSorted(hits[0], SortByScore(hits[1..]));
    }
  }

  /** The sort neither drops nor duplicates a result. */
  lemma {:induction false} SortByScorePermutes(hits: seq<Hit>)
    ensures multiset(SortByScore(hits)) == multiset(hits)
    ensures |SortByScore(hits)| == |hits|
  {
    if hits != [] {
      SortByScorePermutes(hits[1..]);
      InsertPermutes(hits[0], SortByScore(hits[1..]));
      assert hits == [hits[0]] + hits[1..];
    }
  }

  /** The sort is stable: the results of every score appear in their original order. */
  lemma {:induction false} SortByScoreStable(hits: seq<Hit>, score: nat)
    ensures OfScore(SortByScore(hits), score) == OfScore(hits, score)
  {
    if hits != [] {
      SortByScoreStable(hits[1..], score);
      InsertOfScore(hits[0], SortByScore(hits[1..]), score);
    }
  }

  /** A sorted sequence, stable on every score, is the sort's result: the order is fully determined. */
  lemma {:induction false} SortByScoreUnique(hits: seq<Hit>, r: seq<Hit>)
    requires SortedByScore(r)
    requires forall score: nat :: OfScore(r, score) == OfScore(hits, score)
    ensures r == SortByScore(hits)
  {
    SortByScoreSorted(hits);
    forall score: nat
      ensures OfScore(SortByScore(hits), score) == OfScore(r, score)
    {
      SortByScoreStable(hits, score);
    }
    SortedEqual(r, SortByScore(hits));
  }

  /** Two sorted sequences with the same results of every score are equal. */
  lemma {:induction false} SortedEqual(a: seq<Hit>, b: seq<Hit>)
    requires SortedByScore(a) && SortedByScore(b)
    requires forall score: nat :: OfScore(a, score) == OfScore(b, score)
    ensures a == b
    decreases |a| + |b|
  {
    if a != [] || b != [] {
      var top := if a == [] then b[0].totalScore
                 else if b == [] then a[0].totalScore
                 else if a[0].totalScore >= b[0].totalScore then a[0].totalScore else b[0].totalScore;
      SortedTop(a, top);
      SortedTop(b, top);
      assert OfScore(a, top) == OfScore(b, top);
      assert a != [] && b != [];
      assert a[0] == b[0];
      forall score: nat
        ensures OfScore(a[1..], score) == OfScore(b[1..], score)
      {
        var x, y := OfScore(a[1..], score), OfScore(b[1..], score);
        assert OfScore(a, score) == OfScore(b, score);
        assert OfScore(a, score) == (if a[0].totalScore == score then [a[0]] else []) + x;
        assert OfScore(b, score) == (if b[0].totalScore == score then [b[0]] else []) + y;
        if a[0].totalScore == score {
          assert ([a[0]] + x)[1..] == x && ([a[0]] + y)[1..] == y;
        } else {
          assert [] + x == x && [] + y == y;
        }
      }
      SortedTail(a);
      SortedTail(b);
      SortedEqual(a[1..], b[1..]);
      assert a == [a[0]] + a[1..] && b == [b[0]] + b[1..];
    }
  }

  lemma SortedTail(a: seq<Hit>)
    requires SortedByScore(a) && a != []
    ensures SortedByScore(a[1..])
  {
    forall i, j | 0 <= i < j < |a| - 1
      ensures a[1..][i].totalScore >= a[1..][j].totalScore
    {
      assert a[1..][i] == a[i + 1] && a[1..][j] == a[j + 1];
    }
  }

  /**
   * In a sorted sequence whose scores are at most `top` and whose first score is `top`, the
   * results of score `top` begin with its first element.
   */
  lemma SortedTop(a: seq<Hit>, top: nat)
    requires SortedByScore(a)
    requires forall i :: 0 <= i < |a| ==> a[i].totalScore <= top
    ensures OfScore(a, top) != [] <==> (a != [] && a[0].totalScore == top)
    ensures a != [] && a[0].totalScore == top ==> OfScore(a, top)[0] == a[0]
  {
  }
}
