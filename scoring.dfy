/**
 * How search() scores one index entry against the query: 1000 when the whole lower-cased title
 * is the whole lower-cased query, then for each term 100 when the title contains it and 50 more
 * when the title starts with it, and one point for every match of the term in the content.
 */
module Scoring {
  import opened Strings
  import opened Occurrences
  import opened Corpus

  /** The text searched in a record: a missing content reads as the empty text. */
  function ContentText(content: Option<string>): string
  {
    if content.Some? then content.value else ""
  }

  /** The bonus for a title equal to the whole query. */
  function ExactBonus(titleLower: string, queryLower: string): nat
  {
    if titleLower == queryLower then 1000 else 0
  }

  /** The title points one term earns. */
  function TermBonus(titleLower: string, term: string): nat
  {
    if Includes(titleLower, term) then 100 + (if StartsWith(titleLower, term) then 50 else 0) else 0
  }

  /** The title points of the given terms, summed in order. */
  function TitleBonuses(titleLower: string, terms: seq<string>): nat
  {
    if terms == [] then 0
    else TitleBonuses(titleLower, terms[..|terms| - 1]) + TermBonus(titleLower, terms[|terms| - 1])
  }

  /** The content points of one term: its non-overlapping matches, none in an empty text. */
  function TermCount(contentLower: string, term: string): nat
    requires |term| > 0
  {
    if contentLower == [] then 0 else |Matches(contentLower, term, 0)|
  }

  function Counts(contentLower: string, terms: seq<string>): nat
    requires forall t <- terms :: |t| > 0
  {
    if terms == [] then 0
    else Counts(contentLower, terms[..|terms| - 1]) + TermCount(contentLower, terms[|terms| - 1])
  }

  function TitleScore(title: string, query: string, terms: seq<string>): nat
  {
    ExactBonus(Lower(title), Lower(query)) + TitleBonuses(Lower(title), terms)
  }

  function ContentScore(content: Option<string>, terms: seq<string>): nat
    requires forall t <- terms :: |t| > 0
  {
    Counts(Lower(ContentText(content)), terms)
  }

  /** The scoring part of search()'s map callback for one entry. */
  method ScoreItem(item: Document, query: string, searchTerms: seq<string>) returns (titleScore: nat, contentScore: nat)
    requires forall t <- searchTerms :: |t| > 0
    ensures titleScore == TitleScore(item.title, query, searchTerms)
    ensures contentScore == ContentScore(item.content, searchTerms)
  {
    var titleLower := Lower(item.title);
    var contentLower := Lower(ContentText(item.content));
    titleScore := 0;
    contentScore := 0;
    if titleLower == Lower(query) {
      titleScore := titleScore + 1000;
    }
    for i := 0 to |searchTerms|
      invariant titleScore == ExactBonus(titleLower, Lower(query)) + TitleBonuses(titleLower, searchTerms[..i])
      invariant contentScore == Counts(contentLower, searchTerms[..i])
    {
      var term := searchTerms[i];
      assert searchTerms[..i + 1][..i] == searchTerms[..i];
      if Includes(titleLower, term) {
        titleScore := titleScore + 100;
        if StartsWith(titleLower, term) {
          titleScore := titleScore + 50;
        }
      }
      if contentLower != [] {
        var termCount := CountOccurrences(contentLower, term);
        contentScore := contentScore + termCount * 1;
      }
    }
    assert searchTerms[..|searchTerms|] == searchTerms;
  }

  // ---------------------------------------------------------------------------
  // What the scores mean.
  // ---------------------------------------------------------------------------

  /**
   * A term earns nothing when the title does not contain it, 150 when the title starts with it
   * (a title that starts with a term contains it) and 100 otherwise.
   */
  lemma TermBonusValues(titleLower: string, term: string)
    ensures TermBonus(titleLower, term) == 0 <==> !Includes(titleLower, term)
    ensures StartsWith(titleLower, term) ==> TermBonus(titleLower, term) == 150
    ensures Includes(titleLower, term) && !StartsWith(titleLower, term) ==> TermBonus(titleLower, term) == 100
  {
    StartsWithIncludes(titleLower, term);
  }

  /** The title points of the terms are positive exactly when the title contains one of them. */
  lemma {:induction false} TitleBonusesPositive(titleLower: string, terms: seq<string>)
    ensures TitleBonuses(titleLower, terms) > 0 <==> exists t <- terms :: Includes(titleLower, t)
    ensures TitleBonuses(titleLower, terms) <= 150 * |terms|
  {
    if terms != [] {
      var init := terms[..|terms| - 1];
      var last := terms[|terms| - 1];
      TitleBonusesPositive(titleLower, init);
      TermBonusValues(titleLower, last);
      assert terms == init + [last];
      assert forall t <- terms :: t in init || t == last;
    }
  }

  /**
   * An entry has a title score (and is shown as a title match) exactly when its title equals
   * the query or contains one of the terms, ignoring case.
   */
  lemma TitleScorePositive(title: string, query: string, terms: seq<string>)
    ensures TitleScore(title, query, terms) > 0
        <==> Lower(title) == Lower(query) || exists t <- terms :: Includes(Lower(title), t)
    ensures Lower(title) == Lower(query) ==> TitleScore(title, query, terms) >= 1000
    ensures Lower(title) != Lower(query) ==> TitleScore(title, query, terms) <= 150 * |terms|
  {
    TitleBonusesPositive(Lower(title), terms);
  }

  /** Each term's count in the content: zero exactly when the content does not contain the term. */
  lemma TermCountZero(contentLower: string, term: string)
    requires |term| > 0
    ensures TermCount(contentLower, term) == 0 <==> !Includes(contentLower, term)
    ensures TermCount(contentLower, term) * |term| <= |contentLower|
  {
    if contentLower == [] {
      assert !OccursAt(contentLower, term, 0);
    } else {
      MatchesEmptyIff(contentLower, term);
      MatchesBound(contentLower, term, 0);
    }
  }

  /** The content score is positive exactly when the lower-cased content contains some term. */
  lemma {:induction false} CountsPositive(contentLower: string, terms: seq<string>)
    requires forall t <- terms :: |t| > 0
    ensures Counts(contentLower, terms) > 0 <==> exists t <- terms :: Includes(contentLower, t)
  {
    if terms != [] {
      var init := terms[..|terms| - 1];
      var last := terms[|terms| - 1];
      assert terms == init + [last];
      assert forall t <- terms :: t in init || t == last;
      CountsPositive(contentLower, init);
      TermCountZero(contentLower, last);
    }
  }

  lemma ContentScorePositive(content: Option<string>, terms: seq<string>)
    requires forall t <- terms :: |t| > 0
    ensures ContentScore(content, terms) > 0 <==> exists t <- terms :: Includes(Lower(ContentText(content)), t)
    ensures content.None? ==> ContentScore(content, terms) == 0
  {
    CountsPositive(Lower(ContentText(content)), terms);
  }

  // ---------------------------------------------------------------------------
  // The relevance shown next to each result.
  // ---------------------------------------------------------------------------

  /** The relevance shown for a result: a tenth of its score, rounded down, at most 100. */
  function Relevance(totalScore: nat): nat
  {
    Min(100, totalScore / 10)
  }

  /** The relevance is a percentage: a tenth of the score, rounded down, capped at 100. */
  lemma RelevanceIs(totalScore: nat)
    ensures Relevance(totalScore) <= 100
    ensures Relevance(totalScore) == 100 <==> totalScore >= 1000
    ensures Relevance(totalScore) < 100 ==>
      Relevance(totalScore) * 10 <= totalScore < Relevance(totalScore) * 10 + 10
  {
  }

  /** A higher score never shows a lower relevance. */
  lemma RelevanceMonotone(a: nat, b: nat)
    requires a <= b
    ensures Relevance(a) <= Relevance(b)
  {
  }
}
