/**
 * PDFSearch: the ranked search over a loaded index. The index is fetched from
 * search-index.json when the object is built; until that succeeds every search is empty.
 */
module Engine {
  import opened Strings
  import opened Corpus
  import opened Query
  import opened Scoring
  import opened Snippets
  import opened Ranking

  /** Excerpts shown per result. */
  const MaxSnippets: nat := 3

  /** The result search()'s map callback makes of one entry, or None when it scores nothing. */
  function Score(item: Document, query: string, terms: seq<string>): Option<Hit>
    requires forall t <- terms :: |t| > 0
  {
    var titleScore := TitleScore(item.title, query, terms);
    var contentScore := ContentScore(item.content, terms);
    var totalScore := titleScore + contentScore;
    if totalScore > 0 then
      Some(Hit(item, titleScore, contentScore, totalScore, ContentSnippets(item.content, terms, MaxSnippets)))
    else None
  }

  /** The hits of the index, in index order: every record that scores is kept, the others dropped. */
  function Hits(items: seq<Document>, query: string, terms: seq<string>): seq<Hit>
    requires forall t <- terms :: |t| > 0
  {
    if items == [] then []
    else
      var last := Score(items[|items| - 1], query, terms);
      Hits(items[..|items| - 1], query, terms) + (if last.Some? then [last.value] else [])
  }

  /** What search(query) returns for the given state of the index. */
  function SearchResults(searchIndex: Option<seq<Document>>, query: string): seq<Hit>
  {
    var terms := Tokenize(query);
    if searchIndex.None? || terms == [] then []
    else SortByScore(Hits(searchIndex.value, query, terms))
  }

  class PDFSearch {
    /** null until the index has been loaded. */
    var searchIndex: Option<seq<Document>>

    /** The index is not loaded yet; loadSearchIndex runs afterwards. */
    constructor ()
      ensures searchIndex == None
    {
      searchIndex := None;
    }

    /**
     * loadSearchIndex, given what fetching and parsing search-index.json yields (None when
     * either fails): a failure is logged and leaves the index as it was.
     */
    method LoadSearchIndex(fetched: Option<seq<Document>>)
      modifies this
      ensures searchIndex == (if fetched.Some? then fetched else old(searchIndex))
    {
      if fetched.Some? {
        searchIndex := fetched;
      }
    }

    method Search(query: string) returns (results: seq<Hit>)
      ensures results == SearchResults(searchIndex, query)
      ensures searchIndex.None? ==> results == []
      ensures Tokenize(query) == [] ==> results == []
    {
      if searchIndex.None? {
        return [];
      }
      var searchTerms := Tokenize(query);
      if |searchTerms| == 0 {
        return [];
      }
      var hits := ScoreAndFilter(searchIndex.value, query, searchTerms);
      results := SortByScore(hits);
    }
  }

  /** The map and filter passes of search(): the entries that score, in index order. */
  method ScoreAndFilter(items: seq<Document>, query: string, searchTerms: seq<string>) returns (hits: seq<Hit>)
    requires forall t <- searchTerms :: |t| > 0
    ensures hits == Hits(items, query, searchTerms)
  {
    hits := [];
    for i := 0 to |items|
      invariant hits == Hits(items[..i], query, searchTerms)
    {
      var item := items[i];
      HitsStep(items, i, query, searchTerms);
      var titleScore, contentScore := ScoreItem(item, query, searchTerms);
      var totalScore := titleScore + contentScore;
      if totalScore > 0 {
        var snippets := GetContentSnippets(item.content, searchTerms, MaxSnippets);
        hits := hits + [Hit(item, titleScore, contentScore, totalScore, snippets)];
      }
    }
    assert items[..|items|] == items;
  }

  lemma HitsStep(items: seq<Document>, i: nat, query: string, terms: seq<string>)
    requires forall t <- terms :: |t| > 0
    requires i < |items|
    ensures var s := Score(items[i], query, terms);
      Hits(items[..i + 1], query, terms) == Hits(items[..i], query, terms) + (if s.Some? then [s.value] else [])
  {
    assert items[..i + 1][..i] == items[..i];
  }

  // ---------------------------------------------------------------------------
  // What a search returns.
  // ---------------------------------------------------------------------------

  /** Each hit of the filter pass belongs to an index entry that scored, with consistent scores. */
  lemma {:induction false} HitsSound(items: seq<Document>, query: string, terms: seq<string>)
    requires forall t <- terms :: |t| > 0
    ensures forall h <- Hits(items, query, terms) :: h.item in items && Score(h.item, query, terms) == Some(h)
  {
    if items != [] {
      var init := items[..|items| - 1];
      HitsSound(init, query, terms);
      assert forall d <- init :: d in items;
    }
  }

  /** Every index entry that scores is among the hits. */
  lemma {:induction false} HitsComplete(items: seq<Document>, query: string, terms: seq<string>, k: nat)
    requires forall t <- terms :: |t| > 0
    requires k < |items| && Score(items[k], query, terms).Some?
    ensures Score(items[k], query, terms).value in Hits(items, query, terms)
  {
    var init := items[..|items| - 1];
    if k < |items| - 1 {
      assert init[k] == items[k];
      HitsComplete(init, query, terms, k);
    }
  }

  /** The result made of an entry that scores: its scores, their sum, and its excerpts. */
  lemma ScoreFacts(item: Document, query: string, terms: seq<string>)
    requires forall t <- terms :: |t| > 0
    ensures Score(item, query, terms).Some?
        <==> TitleScore(item.title, query, terms) + ContentScore(item.content, terms) > 0
    ensures Score(item, query, terms).Some? ==>
      var h := Score(item, query, terms).value;
      && h.item == item
      && h.titleScore == TitleScore(item.title, query, terms)
      && h.contentScore == ContentScore(item.content, terms)
      && h.totalScore == h.titleScore + h.contentScore
      && h.snippets == ContentSnippets(item.content, terms, MaxSnippets)
  {
  }

  /** Every result is the result of an index entry that scores. */
  lemma ResultsSound(index: seq<Document>, query: string)
    requires Tokenize(query) != []
    ensures forall h <- SearchResults(Some(index), query) ::
      h.item in index && Score(h.item, query, Tokenize(query)) == Some(h)
  {
    var terms := Tokenize(query);
    var hits := Hits(index, query, terms);
    SortByScorePermutes(hits);
    HitsSound(index, query, terms);
    forall h | h in SortByScore(hits)
      ensures h in hits
    {
      assert h in multiset(SortByScore(hits));
    }
  }

  /** Every index entry that scores has its result among the results. */
  lemma ResultsComplete(index: seq<Document>, query: string, k: nat)
    requires Tokenize(query) != []
    requires k < |index| && Score(index[k], query, Tokenize(query)).Some?
    ensures Score(index[k], query, Tokenize(query)).value in SearchResults(Some(index), query)
  {
    var terms := Tokenize(query);
    var hits := Hits(index, query, terms);
    SortByScorePermutes(hits);
    HitsComplete(index, query, terms, k);
    assert Score(index[k], query, terms).value in multiset(hits);
  }

  /**
   * An index entry is among the results exactly when its total score is positive, and each
   * result carries its entry's title and content scores, their sum, and the entry's excerpts.
   */
  lemma ResultsAreScoredEntries(index: seq<Document>, query: string, k: nat)
    requires Tokenize(query) != [] && k < |index|
    ensures var terms := Tokenize(query);
      (exists h <- SearchResults(Some(index), query) :: h.item == index[k])
        <==> TitleScore(index[k].title, query, terms) + ContentScore(index[k].content, terms) > 0
    ensures var terms := Tokenize(query);
      forall h <- SearchResults(Some(index), query) ::
        && h.item in index
        && h.titleScore == TitleScore(h.item.title, query, terms)
        && h.contentScore == ContentScore(h.item.content, terms)
        && h.totalScore == h.titleScore + h.contentScore > 0
        && h.snippets == ContentSnippets(h.item.content, terms, MaxSnippets)
  {
    var terms := Tokenize(query);
    var results := SearchResults(Some(index), query);
    ResultsSound(index, query);
    forall h | h in results
      ensures h.item in index
      ensures h.titleScore == TitleScore(h.item.title, query, terms)
      ensures h.contentScore == ContentScore(h.item.content, terms)
      ensures h.totalScore == h.titleScore + h.contentScore > 0
      ensures h.snippets == ContentSnippets(h.item.content, terms, MaxSnippets)
    {
      ScoreFacts(h.item, query, terms);
    }
    ScoreFacts(index[k], query, terms);
    if Score(index[k], query, terms).Some? {
      ResultsComplete(index, query, k);
    }
  }

  /** Results are ordered by decreasing total score, ties in index order. */
  lemma ResultsRanked(index: seq<Document>, query: string)
    requires Tokenize(query) != []
    ensures SortedByScore(SearchResults(Some(index), query))
    ensures forall score: nat :: OfScore(SearchResults(Some(index), query), score)
                        == OfScore(Hits(index, query, Tokenize(query)), score)
  {
    var hits := Hits(index, query, Tokenize(query));
    SortByScoreSorted(hits);
    forall score: nat
      ensures OfScore(SortByScore(hits), score) == OfScore(hits, score)
    {
      SortByScoreStable(hits, score);
    }
  }

  /** A search whose query has no term of two or more characters finds nothing, loaded or not. */
  lemma ShortQueriesFindNothing(searchIndex: Option<seq<Document>>, query: string)
    requires forall w <- Split(Lower(query)) :: |w| <= 1
    ensures SearchResults(searchIndex, query) == []
  {
    NoTermsOfShortWords(query);
  }

  /** Every result has at most three excerpts, and entries without content have none. */
  lemma ResultSnippetsBounded(index: seq<Document>, query: string)
    ensures forall h <- SearchResults(Some(index), query) ::
      |h.snippets| <= MaxSnippets && (h.item.content.None? ==> h.snippets == [])
  {
    if Tokenize(query) != [] {
      ResultsSound(index, query);
      forall h | h in SearchResults(Some(index), query)
        ensures |h.snippets| <= MaxSnippets && (h.item.content.None? ==> h.snippets == [])
      {
        ScoreFacts(h.item, query, Tokenize(query));
      }
    }
  }
}
