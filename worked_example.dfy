/**
 * A two-entry index searched for "memory": the entry titled "Memory Management" is the only
 * result, with 150 title points (its title contains and starts with the term, but
 * "memory management" is not the whole query "memory", so there is no exact-match bonus) and
 * 2 content points (two matches in its text), 152 in all. "Allocator" scores nothing.
 */
module WorkedExample {
  import opened Strings
  import opened Corpus
  import opened Query
  import opened Occurrences
  import opened Scoring
  import opened Ranking
  import opened Engine

  const Term: string := "memory"
  const Allocation: string := " allocation and "
  const Safety: string := " safety in systems"
  const MemoryText: string := Term + Allocation + Term + Safety

  const MemoryDoc: Document := Document("Memory Management", "a/memory.html", Some(MemoryText))
  const AllocatorDoc: Document := Document("Allocator", "b/alloc.html", Some("general allocator design"))

  /** Lower-case letters and spaces: what toLowerCase leaves as it is. */
  predicate LowerWords(s: string)
  {
    forall i :: 0 <= i < |s| ==> 'a' <= s[i] <= 'z' || s[i] == ' '
  }

  lemma LowerOfLowerWords(s: string)
    requires LowerWords(s)
    ensures Lower(s) == s
  {
    LowerAt(s);
  }

  lemma LowerAppend(a: string, b: string)
    ensures Lower(a + b) == Lower(a) + Lower(b)
  {
    LowerAt(a);
    LowerAt(b);
    LowerAt(a + b);
  }

  /** The text is already lower case. */
  lemma MemoryTextLowered()
    ensures Lower(MemoryText) == MemoryText
  {
    LowerOfLowerWords(Term);
    LowerOfLowerWords(Allocation);
    LowerOfLowerWords(Safety);
    LowerAppend(Term, Allocation);
    LowerAppend(Term + Allocation, Term);
    LowerAppend(Term + Allocation + Term, Safety);
  }

  lemma LowerWordsHaveNoSpaceIfNoBlank(s: string)
    requires forall i :: 0 <= i < |s| ==> 'a' <= s[i] <= 'z'
    ensures NoSpace(s)
  {
    forall i | 0 <= i < |s|
      ensures !IsSpace(s[i])
    {
      IsSpaceIff(s[i]);
    }
  }

  /** Positions holding no first character of the term cannot start a match. */
  lemma {:induction false} FindFromSkips(s: string, t: string, k: nat, e: nat)
    requires |t| > 0 && k <= e <= |s|
    requires forall j :: k <= j < e ==> s[j] != t[0]
    ensures FindFrom(s, t, k) == FindFrom(s, t, e)
    decreases e - k
  {
    if k < e {
      if k + |t| <= |s| {
        assert s[k..k + |t|][0] == s[k];
      }
      FindFromSkips(s, t, k + 1, e);
    }
  }

  /** The query is one term. */
  lemma QueryTerms()
    ensures Tokenize(Term) == [Term]
  {
    LowerOfLowerWords(Term);
    LowerWordsHaveNoSpaceIfNoBlank(Term);
    WordLengthOfWord(Term);
    assert Split(Term) == [Term];
    assert [Term][1..] == [];
    assert KeepLong([Term]) == [Term] + KeepLong([]);
  }

  lemma FirstMatch()
    ensures IndexOf(MemoryText, Term, 0) == 0
  {
    assert MemoryText == Term + (Allocation + Term + Safety);
    assert MemoryText[0..6] == Term;
  }

  lemma SecondMatch()
    ensures IndexOf(MemoryText, Term, 6) == 22
  {
    FindFromSkips(MemoryText, Term, 6, 22);
    assert MemoryText == (Term + Allocation) + Term + Safety;
    assert MemoryText[22..28] == Term;
  }

  lemma NoThirdMatch()
    ensures IndexOf(MemoryText, Term, 28) == -1
  {
    FindFromSkips(MemoryText, Term, 28, 41);
  }

  /** The term occurs twice in the text, at its start and at position 22. */
  lemma MemoryMatches()
    ensures Matches(MemoryText, Term, 0) == [0, 22]
  {
    assert |MemoryText| == 46;
    FirstMatch();
    SecondMatch();
    NoThirdMatch();
    MatchesUnfold(MemoryText, Term, 0);
    MatchesUnfold(MemoryText, Term, 6);
  }

  /** "Memory Management": 100 for containing the term, 50 for starting with it, no exact bonus. */
  lemma MemoryDocTitleScore()
    ensures TitleScore(MemoryDoc.title, Term, [Term]) == 150
  {
    var titleLower := Lower(MemoryDoc.title);
    LowerAt(MemoryDoc.title);
    assert titleLower == "memory management";
    assert titleLower[..6] == Term;
    StartsWithIncludes(titleLower, Term);
    assert TitleBonuses(titleLower, [Term]) == TitleBonuses(titleLower, []) + TermBonus(titleLower, Term);
  }

  lemma MemoryDocContentScore()
    ensures ContentScore(MemoryDoc.content, [Term]) == 2
  {
    MemoryTextLowered();
    MemoryMatches();
    assert Counts(MemoryText, [Term]) == Counts(MemoryText, []) + TermCount(MemoryText, Term);
  }

  lemma AllocatorTitleScore()
    ensures TitleScore(AllocatorDoc.title, Term, [Term]) == 0
  {
    var titleLower := Lower(AllocatorDoc.title);
    LowerAt(AllocatorDoc.title);
    assert titleLower == "allocator";
    FindFromSkips(titleLower, Term, 0, |titleLower|);
    IncludesIff(titleLower, Term);
    IndexOfLeftmost(titleLower, Term, 0);
    assert TitleBonuses(titleLower, [Term]) == TitleBonuses(titleLower, []) + TermBonus(titleLower, Term);
  }

  lemma AllocatorContentScore()
    ensures ContentScore(AllocatorDoc.content, [Term]) == 0
  {
    var text := "general allocator design";
    LowerOfLowerWords(text);
    FindFromSkips(text, Term, 0, |text|);
    MatchesEmptyIff(text, Term);
    assert Counts(text, [Term]) == Counts(text, []) + TermCount(text, Term);
  }

  /** The filter pass over two entries of which only the first scores. */
  lemma HitsOfPair(d1: Document, d2: Document, query: string, terms: seq<string>)
    requires forall t <- terms :: |t| > 0
    requires Score(d1, query, terms).Some? && Score(d2, query, terms).None?
    ensures Hits([d1, d2], query, terms) == [Score(d1, query, terms).value]
  {
    assert [d1, d2][..1] == [d1] && [d1, d2][1] == d2 && [d1][..0] == [];
    assert Hits([d1], query, terms) == Hits([], query, terms) + [Score(d1, query, terms).value];
  }

  /** A search of such a pair returns the first entry's result alone. */
  lemma SearchOfPair(d1: Document, d2: Document, query: string)
    requires Tokenize(query) != []
    requires Score(d1, query, Tokenize(query)).Some? && Score(d2, query, Tokenize(query)).None?
    ensures SearchResults(Some([d1, d2]), query) == [Score(d1, query, Tokenize(query)).value]
  {
    var h := Score(d1, query, Tokenize(query)).value;
    HitsOfPair(d1, d2, query, Tokenize(query));
    assert [h][1..] == [];
    assert SortByScore([h]) == Insert(h, []);
  }

  /** The one result of such a search carries the first entry's scores. */
  lemma SearchOfPairScores(d1: Document, d2: Document, query: string, titleScore: nat, contentScore: nat)
    requires Tokenize(query) != []
    requires TitleScore(d1.title, query, Tokenize(query)) == titleScore
    requires ContentScore(d1.content, Tokenize(query)) == contentScore
    requires titleScore + contentScore > 0
    requires TitleScore(d2.title, query, Tokenize(query)) + ContentScore(d2.content, Tokenize(query)) == 0
    ensures var results := SearchResults(Some([d1, d2]), query);
      && |results| == 1
      && results[0].item == d1
      && results[0].titleScore == titleScore
      && results[0].contentScore == contentScore
      && results[0].totalScore == titleScore + contentScore
  {
    ScoreFacts(d1, query, Tokenize(query));
    ScoreFacts(d2, query, Tokenize(query));
    SearchOfPair(d1, d2, query);
  }

  /** The scores of both entries, against the terms the query yields. */
  lemma ExampleScores()
    ensures Tokenize(Term) == [Term]
    ensures TitleScore(MemoryDoc.title, Term, Tokenize(Term)) == 150
    ensures ContentScore(MemoryDoc.content, Tokenize(Term)) == 2
    ensures TitleScore(AllocatorDoc.title, Term, Tokenize(Term)) + ContentScore(AllocatorDoc.content, Tokenize(Term)) == 0
  {
    QueryTerms();
    MemoryDocTitleScore();
    MemoryDocContentScore();
    AllocatorTitleScore();
    AllocatorContentScore();
  }

  /**
   * Searching the two-entry index for "memory" returns one result: the "Memory Management"
   * entry with 150 title points, 2 content points, and 152 in all.
   */
  lemma MemorySearch()
    ensures var results := SearchResults(Some([MemoryDoc, AllocatorDoc]), Term);
      && |results| == 1
      && results[0].item == MemoryDoc
      && results[0].titleScore == 150
      && results[0].contentScore == 2
      && results[0].totalScore == 152
  {
    ExampleScores();
    SearchOfPairScores(MemoryDoc, AllocatorDoc, Term, 150, 2);
  }
}
