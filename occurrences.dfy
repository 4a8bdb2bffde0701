/**
 * Counting a term in a text the way the ranked search does: repeated indexOf, each search
 * resuming just after the previous match, so matches never overlap.
 */
module Occurrences {
  import opened Strings

  /** The positions the repeated indexOf finds, starting the search at `from`. */
  function Matches(s: string, t: string, from: nat): seq<nat>
    requires |t| > 0 && from <= |s|
    decreases |s| - from
  {
    var p := IndexOf(s, t, from);
    if p == -1 then [] else [p] + Matches(s, t, p + |t|)
  }

  /** A search that finds the term at `p` resumes right after that match. */
  lemma MatchesUnfold(s: string, t: string, from: nat)
    requires |t| > 0 && from <= |s| && IndexOf(s, t, from) != -1
    ensures IndexOf(s, t, from) + |t| <= |s|
    ensures Matches(s, t, from) == [IndexOf(s, t, from)] + Matches(s, t, IndexOf(s, t, from) + |t|)
  {
  }

  /** The counting loop of search(): termCount is the number of matches from position 0. */
  method CountOccurrences(contentLower: string, term: string) returns (termCount: nat)
    requires |term| > 0
    ensures termCount == |Matches(contentLower, term, 0)|
  {
    var pos: int := 0;
    termCount := 0;
    while true
      invariant 0 <= pos <= |contentLower|
      invariant termCount + |Matches(contentLower, term, pos)| == |Matches(contentLower, term, 0)|
      decreases |contentLower| - pos
    {
      pos := IndexOf(contentLower, term, pos);
      if pos == -1 {
        break;
      }
      termCount := termCount + 1;
      pos := pos + |term|;
    }
  }

  /** Every match is an occurrence of the term at or after the start. */
  lemma {:induction false} MatchesAreOccurrences(s: string, t: string, from: nat)
    requires |t| > 0 && from <= |s|
    ensures forall k :: 0 <= k < |Matches(s, t, from)| ==>
      from <= Matches(s, t, from)[k] && OccursAt(s, t, Matches(s, t, from)[k])
    decreases |s| - from
  {
    var p := IndexOf(s, t, from);
    if p != -1 {
      MatchesAreOccurrences(s, t, p + |t|);
    }
  }

  /** Matches do not overlap: each one starts at least a term's length after the previous. */
  lemma {:induction false} MatchesApart(s: string, t: string, from: nat)
    requires |t| > 0 && from <= |s|
    ensures forall k :: 0 <= k < |Matches(s, t, from)| - 1 ==>
      Matches(s, t, from)[k] + |t| <= Matches(s, t, from)[k + 1]
    decreases |s| - from
  {
    var p := IndexOf(s, t, from);
    if p != -1 {
      var rest := Matches(s, t, p + |t|);
      MatchesApart(s, t, p + |t|);
      MatchesAreOccurrences(s, t, p + |t|);
      assert Matches(s, t, from) == [p] + rest;
      if rest != [] {
        assert p + |t| <= rest[0];
      }
    }
  }

  /**
   * No occurrence is missed except by overlapping a match: every occurrence at or after the
   * start lies inside one of the matches, which begins no later than it.
   */
  lemma {:induction false} MatchesCover(s: string, t: string, from: nat, j: int)
    requires |t| > 0 && from <= |s|
    requires from <= j && OccursAt(s, t, j)
    ensures exists k :: (0 <= k < |Matches(s, t, from)|
      && Matches(s, t, from)[k] <= j < Matches(s, t, from)[k] + |t|)
    decreases |s| - from
  {
    var p := IndexOf(s, t, from);
    IndexOfLeftmost(s, t, from);
    assert Min(from, |s|) == from;
    assert p != -1 && p <= j;
    var m := Matches(s, t, from);
    assert m[0] == p;
    if j >= p + |t| {
      MatchesCover(s, t, p + |t|, j);
      var rest := Matches(s, t, p + |t|);
      var k :| 0 <= k < |rest| && rest[k] <= j < rest[k] + |t|;
      assert m[k + 1] == rest[k];
    }
  }

  /** The matches fit in the text: their number times the term's length is at most what remains. */
  lemma {:induction false} MatchesBound(s: string, t: string, from: nat)
    requires |t| > 0 && from <= |s|
    ensures |Matches(s, t, from)| * |t| <= |s| - from
    decreases |s| - from
  {
    var p := IndexOf(s, t, from);
    if p != -1 {
      var n := |Matches(s, t, p + |t|)|;
      MatchesBound(s, t, p + |t|);
      assert |Matches(s, t, from)| == n + 1;
      MultiplySucc(n, |t|);
    }
  }

  lemma MultiplySucc(n: int, l: int)
    ensures (n + 1) * l == n * l + l
  {
  }

  /** A text without the term has no matches; a text with it has at least one. */
  lemma MatchesEmptyIff(s: string, t: string)
    requires |t| > 0
    ensures Matches(s, t, 0) == [] <==> !Includes(s, t)
  {
  }

  /** Overlapping occurrences count once: "aa" is counted once in "aaa". */
  lemma OverlapsCountOnce()
    ensures |Matches("aaa", "aa", 0)| == 1
  {
    assert OccursAt("aaa", "aa", 0);
    IndexOfIs("aaa", "aa", 0, 0);
    assert !OccursAt("aaa", "aa", 2);
    IndexOfIs("aaa", "aa", 2, -1);
  }
}
