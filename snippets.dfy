/**
 * getContentSnippets: up to `maxSnippets` excerpts of an entry's content, one around each
 * match of each term (terms in query order, matches in text order), with 50 characters of
 * context on either side, each wrapped in "...".
 */
module Snippets {
  import opened Strings
  import opened Occurrences

  datatype Snippet = Snippet(text: string, term: string)

  const Context: nat := 50

  /** The excerpt around the match of `term` at `pos`, cut out of the original-case content. */
  function SnippetAt(content: string, term: string, pos: nat): Snippet
    requires pos <= |content|
  {
    var start := Max(0, pos - Context);
    var end := Min(|content|, pos + |term| + Context);
    Snippet("..." + content[start..end] + "...", term)
  }

  /**
   * An excerpt shows its match: wrapped in "...", it holds at most 50 characters on either
   * side of the match, and at the match's place the original-case text, lower-cased, is the term.
   */
  lemma SnippetShowsMatch(content: string, term: string, pos: nat)
    requires OccursAt(Lower(content), term, pos)
    ensures var s := SnippetAt(content, term, pos);
      var at := 3 + pos - Max(0, pos - Context);
      && s.term == term
      && |s.text| <= |term| + 2 * Context + 6
      && s.text[..3] == "..." && s.text[|s.text| - 3..] == "..."
      && at + |term| <= |s.text| && Lower(s.text[at..at + |term|]) == term
  {
    var start := Max(0, pos - Context);
    var end := Min(|content|, pos + |term| + Context);
    var x := content[start..end];
    var text := "..." + x + "...";
    var at := 3 + pos - start;
    assert text[at..at + |term|] == content[pos..pos + |term|];
    LowerAt(content);
    LowerAt(content[pos..pos + |term|]);
    assert Lower(content[pos..pos + |term|]) == Lower(content)[pos..pos + |term|];
  }

  /** The excerpts for the given match positions, in order. */
  function SnippetsAt(content: string, term: string, ps: seq<nat>): seq<Snippet>
    requires forall k :: 0 <= k < |ps| ==> ps[k] <= |content|
  {
    if ps == [] then [] else [SnippetAt(content, term, ps[0])] + SnippetsAt(content, term, ps[1..])
  }

  /** The excerpts of every match of one term. */
  function TermSnippets(content: string, term: string): seq<Snippet>
    requires |term| > 0
  {
    var ms := Matches(Lower(content), term, 0);
    MatchesAreOccurrences(Lower(content), term, 0);
    SnippetsAt(content, term, ms)
  }

  /** The excerpts of every match of every term, the terms taken in order. */
  function AllSnippets(content: string, terms: seq<string>): seq<Snippet>
    requires forall t <- terms :: |t| > 0
  {
    if terms == [] then []
    else AllSnippets(content, terms[..|terms| - 1]) + TermSnippets(content, terms[|terms| - 1])
  }

  /** The first `n` elements of `s`, or all of them when there are fewer. */
  function Take<T>(s: seq<T>, n: nat): (r: seq<T>)
    ensures |r| == Min(n, |s|) && r == s[..|r|]
  {
    if |s| <= n then s else s[..n]
  }

  /** What getContentSnippets returns. */
  function ContentSnippets(content: Option<string>, terms: seq<string>, maxSnippets: nat): seq<Snippet>
    requires forall t <- terms :: |t| > 0
  {
    if content.None? || content.value == "" then []
    else Take(AllSnippets(content.value, terms), maxSnippets)
  }

  lemma TakeAppend<T>(a: seq<T>, b: seq<T>, n: nat)
    requires |a| >= n
    ensures Take(a + b, n) == Take(a, n)
  {
    assert (a + b)[..n] == a[..n];
  }

  lemma {:induction false} SnippetsAtAppend(content: string, term: string, ps: seq<nat>, p: nat)
    requires forall k :: 0 <= k < |ps| ==> ps[k] <= |content|
    requires p <= |content|
    ensures SnippetsAt(content, term, ps + [p]) == SnippetsAt(content, term, ps) + [SnippetAt(content, term, p)]
    decreases |ps|
  {
    if ps == [] {
      assert [p][1..] == [];
    } else {
      assert (ps + [p])[1..] == ps[1..] + [p];
      SnippetsAtAppend(content, term, ps[1..], p);
    }
  }

  /**
   * The scan for one term: `done` are the matches already turned into excerpts, and the search
   * resumes at `lastPos`, which is where the remaining matches start.
   */
  lemma {:induction false} MatchesResume(s: string, t: string, done: seq<nat>, lastPos: nat, pos: nat, done': seq<nat>, next: nat)
    requires |t| > 0 && lastPos <= |s|
    requires Matches(s, t, 0) == done + Matches(s, t, lastPos)
    requires pos == IndexOf(s, t, lastPos)
    requires done' == done + [pos] && next == pos + |t|
    ensures next <= |s|
    ensures Matches(s, t, 0) == done' + Matches(s, t, next)
  {
    MatchesUnfold(s, t, lastPos);
    AppendAssoc(done, [pos], Matches(s, t, next));
  }

  /** Cutting at `n` twice is cutting once. */
  lemma TakeTake<T>(a: seq<T>, b: seq<T>, n: nat)
    ensures Take(Take(a, n) + b, n) == Take(a + b, n)
  {
    if |a| >= n {
      TakeAppend(a, b, n);
      TakeAppend(a[..n], b, n);
    }
  }

  method GetContentSnippets(content: Option<string>, searchTerms: seq<string>, maxSnippets: nat)
    returns (snippets: seq<Snippet>)
    requires forall t <- searchTerms :: |t| > 0
    ensures snippets == ContentSnippets(content, searchTerms, maxSnippets)
  {
    if content.None? || content.value == "" {
      return [];
    }
    var text := content.value;
    snippets := [];
    var contentLower := Lower(text);
    for i := 0 to |searchTerms|
      invariant snippets == Take(AllSnippets(text, searchTerms[..i]), maxSnippets)
    {
      var term := searchTerms[i];
      assert searchTerms[..i + 1][..i] == searchTerms[..i];
      ghost var before := AllSnippets(text, searchTerms[..i]);
      snippets := ScanTerm(text, contentLower, term, snippets, maxSnippets);
      TakeTake(before, TermSnippets(text, term), maxSnippets);
    }
    assert searchTerms[..|searchTerms|] == searchTerms;
  }

  /**
   * The inner loop of getContentSnippets for one term: excerpts of its matches, in order, are
   * pushed until there are `maxSnippets` excerpts in all.
   */
  method ScanTerm(text: string, contentLower: string, term: string, snippets0: seq<Snippet>, maxSnippets: nat)
    returns (snippets: seq<Snippet>)
    requires contentLower == Lower(text) && |term| > 0
    requires |snippets0| <= maxSnippets
    ensures snippets == Take(snippets0 + TermSnippets(text, term), maxSnippets)
  {
    snippets := snippets0;
    ghost var done: seq<nat> := [];
    var lastPos := 0;
    while |snippets| < maxSnippets
      invariant ScanInvariant(text, contentLower, term, snippets0, snippets, done, lastPos, maxSnippets)
      decreases |contentLower| - lastPos
    {
      var pos := IndexOf(contentLower, term, lastPos);
      if pos == -1 {
        break;
      }
      var start := Max(0, pos - 50);
      var end := Min(|text|, pos + |term| + 50);
      var snippet := text[start..end];
      ghost var snippets1, done1, lastPos1 := snippets, done, lastPos;
      snippets := snippets + [Snippet("..." + snippet + "...", term)];
      done := done + [pos];
      lastPos := pos + |term|;
      ScanStep(text, contentLower, term, snippets0, snippets1, done1, lastPos1, maxSnippets, pos, snippets, done, lastPos);
    }
    ScanTermDone(text, term, snippets0, done, Matches(contentLower, term, lastPos), maxSnippets);
  }

  /** What the inner loop keeps: the matches before `lastPos` are `done`, each turned into an excerpt. */
  ghost predicate ScanInvariant(text: string, contentLower: string, term: string, snippets0: seq<Snippet>,
                                snippets: seq<Snippet>, done: seq<nat>, lastPos: int, maxSnippets: nat)
    requires contentLower == Lower(text) && |term| > 0
  {
    && 0 <= lastPos <= |contentLower|
    && Matches(contentLower, term, 0) == done + Matches(contentLower, term, lastPos)
    && (forall k :: 0 <= k < |done| ==> done[k] <= |text|)
    && |snippets| <= maxSnippets
    && snippets == snippets0 + SnippetsAt(text, term, done)
  }

  lemma ScanStep(text: string, contentLower: string, term: string, snippets0: seq<Snippet>,
                 snippets: seq<Snippet>, done: seq<nat>, lastPos: int, maxSnippets: nat, pos: int,
                 snippets': seq<Snippet>, done': seq<nat>, lastPos': int)
    requires contentLower == Lower(text) && |term| > 0
    requires ScanInvariant(text, contentLower, term, snippets0, snippets, done, lastPos, maxSnippets)
    requires |snippets| < maxSnippets
    requires pos == IndexOf(contentLower, term, lastPos) && pos != -1
    requires snippets' == snippets + [Snippet("..." + text[Max(0, pos - 50)..Min(|text|, pos + |term| + 50)] + "...", term)]
    requires done' == done + [pos] && lastPos' == pos + |term|
    ensures ScanInvariant(text, contentLower, term, snippets0, snippets', done', lastPos', maxSnippets)
  {
    MatchesResume(contentLower, term, done, lastPos, pos, done', lastPos');
    SnippetsStep(text, term, snippets0, snippets, done, pos, snippets');
  }

  lemma SnippetsStep(text: string, term: string, snippets0: seq<Snippet>, snippets: seq<Snippet>,
                     done: seq<nat>, pos: nat, snippets': seq<Snippet>)
    requires forall k :: 0 <= k < |done| ==> done[k] <= |text|
    requires pos + |term| <= |text|
    requires snippets == snippets0 + SnippetsAt(text, term, done)
    requires snippets' == snippets + [Snippet("..." + text[Max(0, pos - 50)..Min(|text|, pos + |term| + 50)] + "...", term)]
    ensures forall k :: 0 <= k < |done + [pos]| ==> (done + [pos])[k] <= |text|
    ensures snippets' == snippets0 + SnippetsAt(text, term, done + [pos])
  {
    SnippetsAtAppend(text, term, done, pos);
    assert snippets' == snippets + [SnippetAt(text, term, pos)];
  }

  lemma {:induction false} ScanTermDone(text: string, term: string, snippets0: seq<Snippet>, done: seq<nat>, rest: seq<nat>, maxSnippets: nat)
    requires |term| > 0 && Matches(Lower(text), term, 0) == done + rest
    requires forall k :: 0 <= k < |done| ==> done[k] <= |text|
    requires |snippets0 + SnippetsAt(text, term, done)| <= maxSnippets
    requires rest == [] || |snippets0 + SnippetsAt(text, term, done)| == maxSnippets
    ensures snippets0 + SnippetsAt(text, term, done) == Take(snippets0 + TermSnippets(text, term), maxSnippets)
  {
    var a := snippets0 + SnippetsAt(text, term, done);
    var b := TermSnippetsSplit(text, term, done, rest);
    AppendAssoc(snippets0, SnippetsAt(text, term, done), b);
    if rest != [] {
      TakeAppend(a, b, maxSnippets);
    } else {
      assert b == [];
      assert a + b == a;
    }
  }

  /** Splitting the matches of a term splits its excerpts the same way. */
  lemma TermSnippetsSplit(text: string, term: string, done: seq<nat>, rest: seq<nat>) returns (b: seq<Snippet>)
    requires |term| > 0 && Matches(Lower(text), term, 0) == done + rest
    requires forall k :: 0 <= k < |done| ==> done[k] <= |text|
    ensures forall k :: 0 <= k < |rest| ==> rest[k] <= |text|
    ensures b == SnippetsAt(text, term, rest)
    ensures TermSnippets(text, term) == SnippetsAt(text, term, done) + b
    ensures rest == [] ==> b == []
  {
    MatchesAreOccurrences(Lower(text), term, 0);
    SnippetsAtConcat(text, term, done, rest);
    b := SnippetsAt(text, term, rest);
  }

  lemma {:induction false} SnippetsAtConcat(content: string, term: string, ps: seq<nat>, qs: seq<nat>)
    requires forall k :: 0 <= k < |ps + qs| ==> (ps + qs)[k] <= |content|
    ensures forall k :: 0 <= k < |ps| ==> ps[k] <= |content|
    ensures forall k :: 0 <= k < |qs| ==> qs[k] <= |content|
    ensures SnippetsAt(content, term, ps + qs) == SnippetsAt(content, term, ps) + SnippetsAt(content, term, qs)
    decreases |ps|
  {
    assert forall k :: 0 <= k < |ps| ==> ps[k] == (ps + qs)[k];
    assert forall k :: 0 <= k < |qs| ==> qs[k] == (ps + qs)[|ps| + k];
    if ps != [] {
      assert (ps + qs)[1..] == ps[1..] + qs;
      SnippetsAtConcat(content, term, ps[1..], qs);
      AppendAssoc([SnippetAt(content, term, ps[0])], SnippetsAt(content, term, ps[1..]), SnippetsAt(content, term, qs));
    } else {
      assert ps + qs == qs;
    }
  }
}
