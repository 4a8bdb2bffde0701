/**
 * The JavaScript string built-ins that the indexer and the query engine rely on, stated over
 * `string` (a sequence of characters): toLowerCase, split(/\s+/), trim, indexOf, includes,
 * startsWith, endsWith, the first-occurrence form of replace with a string pattern, and join.
 */
module Strings {

  datatype Option<+T> = None | Some(value: T)

  function Min(a: int, b: int): int { if a <= b then a else b }
  function Max(a: int, b: int): int { if a <= b then b else a }

  // ---------------------------------------------------------------------------
  // Whitespace: the characters matched by the regular-expression class \s, which
  // are also the characters String.prototype.trim removes.
  // ---------------------------------------------------------------------------

  const Whitespace: seq<char> := [
    ' ', '\t', '\n', '\U{000B}', '\U{000C}', '\r', '\U{00A0}', '\U{1680}',
    '\U{2000}', '\U{2001}', '\U{2002}', '\U{2003}', '\U{2004}', '\U{2005}', '\U{2006}',
    '\U{2007}', '\U{2008}', '\U{2009}', '\U{200A}', '\U{2028}', '\U{2029}', '\U{202F}',
    '\U{205F}', '\U{3000}', '\U{FEFF}'
  ]

  predicate IsSpace(c: char)
  {
    IsSpaceFrom(c, 0)
  }

  /** `c` is one of Whitespace[i..]. */
  predicate IsSpaceFrom(c: char, i: nat)
    decreases |Whitespace| - i
  {
    i < |Whitespace| && (Whitespace[i] == c || IsSpaceFrom(c, i + 1))
  }

  lemma {:induction false} IsSpaceFromIff(c: char, i: nat)
    ensures IsSpaceFrom(c, i) <==> i < |Whitespace| && c in Whitespace[i..]
    decreases |Whitespace| - i
  {
    if i < |Whitespace| {
      IsSpaceFromIff(c, i + 1);
      assert Whitespace[i..] == [Whitespace[i]] + Whitespace[i + 1..];
    }
  }

  /** The whitespace characters are exactly those listed. */
  lemma IsSpaceIff(c: char)
    ensures IsSpace(c) <==> c in Whitespace
  {
    IsSpaceFromIff(c, 0);
  }

  predicate NoSpace(s: string)
  {
    forall i :: 0 <= i < |s| ==> !IsSpace(s[i])
  }

  // ---------------------------------------------------------------------------
  // toLowerCase, as a length-preserving map on characters (ASCII letters only).
  // ---------------------------------------------------------------------------

  function LowerChar(c: char): char
  {
    if 'A' <= c <= 'Z' then (c as int + 32) as char else c
  }

  function Lower(s: string): (r: string)
    ensures |r| == |s|
  {
    seq(|s|, i requires 0 <= i < |s| => LowerChar(s[i]))
  }

  /** toLowerCase maps each character on its own. */
  lemma LowerAt(s: string)
    ensures forall i :: 0 <= i < |s| ==> Lower(s)[i] == LowerChar(s[i])
  {
  }

  /** A string that toLowerCase leaves unchanged. */
  predicate IsLowered(s: string)
  {
    forall i :: 0 <= i < |s| ==> LowerChar(s[i]) == s[i]
  }

  lemma LowerIsLowered(s: string)
    ensures IsLowered(Lower(s)) && Lower(Lower(s)) == Lower(s)
  {
    LowerAt(s);
    LowerAt(Lower(s));
  }

  /** toLowerCase leaves a lower-case string as it is. */
  lemma LowerOfLowered(s: string)
    requires IsLowered(s)
    ensures Lower(s) == s
  {
    LowerAt(s);
  }

  /** Lower-case pieces joined with a lower-case separator give lower-case text. */
  lemma {:induction false} JoinWithLowered(ps: seq<string>, sep: string)
    requires IsLowered(sep) && forall k :: 0 <= k < |ps| ==> IsLowered(ps[k])
    ensures IsLowered(JoinWith(ps, sep))
  {
    if |ps| > 1 {
      JoinWithLowered(ps[1..], sep);
      var rest := JoinWith(ps[1..], sep);
      assert JoinWith(ps, sep) == ps[0] + sep + rest;
      forall i | 0 <= i < |JoinWith(ps, sep)|
        ensures LowerChar(JoinWith(ps, sep)[i]) == JoinWith(ps, sep)[i]
      {
        if i < |ps[0]| {
        } else if i < |ps[0]| + |sep| {
          assert JoinWith(ps, sep)[i] == sep[i - |ps[0]|];
        } else {
          assert JoinWith(ps, sep)[i] == rest[i - |ps[0]| - |sep|];
        }
      }
    }
  }

  // ---------------------------------------------------------------------------
  // indexOf, includes, startsWith, endsWith.
  // ---------------------------------------------------------------------------

  /** `t` occurs in `s` starting at position `k`. */
  predicate OccursAt(s: string, t: string, k: int)
  {
    0 <= k && k + |t| <= |s| && s[k..k + |t|] == t
  }

  /** The leftmost occurrence of `t` in `s` at a position `>= k`, or -1. */
  function FindFrom(s: string, t: string, k: nat): (r: int)
    requires k <= |s|
    ensures r == -1 || (k <= r && OccursAt(s, t, r))
    decreases |s| - k
  {
    if k + |t| > |s| then -1
    else if s[k..k + |t|] == t then k
    else FindFrom(s, t, k + 1)
  }

  /** FindFrom finds the leftmost occurrence: there is none between `k` and the result. */
  lemma {:induction false} FindFromLeftmost(s: string, t: string, k: nat)
    requires k <= |s|
    ensures forall j :: k <= j && (FindFrom(s, t, k) == -1 || j < FindFrom(s, t, k)) ==> !OccursAt(s, t, j)
    decreases |s| - k
  {
    if k + |t| <= |s| && s[k..k + |t|] != t {
      FindFromLeftmost(s, t, k + 1);
    }
  }

  /**
   * s.indexOf(t, from): the search starts at `from` clamped to the length of `s`;
   * the result is the leftmost occurrence from there on, or -1 when there is none.
   */
  function IndexOf(s: string, t: string, from: nat): (r: int)
    ensures r == -1 || (Min(from, |s|) <= r && OccursAt(s, t, r))
  {
    FindFrom(s, t, Min(from, |s|))
  }

  /** indexOf finds the leftmost occurrence at or after the (clamped) start. */
  lemma IndexOfLeftmost(s: string, t: string, from: nat)
    ensures forall j :: Min(from, |s|) <= j && (IndexOf(s, t, from) == -1 || j < IndexOf(s, t, from)) ==> !OccursAt(s, t, j)
  {
    FindFromLeftmost(s, t, Min(from, |s|));
  }

  /** The value of indexOf is determined by its two postconditions. */
  lemma IndexOfIs(s: string, t: string, from: nat, r: int)
    requires r == -1 || (Min(from, |s|) <= r && OccursAt(s, t, r))
    requires forall j :: Min(from, |s|) <= j && (r == -1 || j < r) ==> !OccursAt(s, t, j)
    ensures IndexOf(s, t, from) == r
  {
    var q := IndexOf(s, t, from);
    IndexOfLeftmost(s, t, from);
    assert r != -1 ==> q != -1 && q <= r;
    assert q != -1 ==> r != -1 && r <= q;
  }

  /** includes: `t` occurs somewhere in `s`. */
  predicate Includes(s: string, t: string)
  {
    IndexOf(s, t, 0) != -1
  }

  lemma IncludesIff(s: string, t: string)
    ensures Includes(s, t) <==> exists k :: OccursAt(s, t, k)
  {
    if exists k :: OccursAt(s, t, k) {
      var k :| OccursAt(s, t, k);
      IndexOfLeftmost(s, t, 0);
      assert Min(0, |s|) <= k;
    }
  }

  /** startsWith: `s` begins with `t`. */
  predicate StartsWith(s: string, t: string)
  {
    |t| <= |s| && s[..|t|] == t
  }

  /** endsWith: `s` finishes with `t`. */
  predicate EndsWith(s: string, t: string)
  {
    |t| <= |s| && s[|s| - |t|..] == t
  }

  lemma EndsWithAppend(a: string, b: string, t: string)
    requires EndsWith(b, t)
    ensures EndsWith(a + b, t)
  {
    assert (a + b)[|a + b| - |t|..] == b[|b| - |t|..];
  }

  lemma StartsWithIncludes(s: string, t: string)
    ensures StartsWith(s, t) ==> Includes(s, t)
  {
    if StartsWith(s, t) {
      assert OccursAt(s, t, 0);
      IncludesIff(s, t);
    }
  }

  // ---------------------------------------------------------------------------
  // s.replace(pat, rep) with a string pattern: only the first occurrence is replaced.
  // ---------------------------------------------------------------------------

  function ReplaceFirst(s: string, pat: string, rep: string): string
  {
    var i := IndexOf(s, pat, 0);
    if i == -1 then s else s[..i] + rep + s[i + |pat|..]
  }

  /** A string with no occurrence of the pattern is left unchanged. */
  lemma ReplaceFirstAbsent(s: string, pat: string, rep: string)
    requires !Includes(s, pat)
    ensures ReplaceFirst(s, pat, rep) == s
  {
  }

  /** When no occurrence of `pat` starts inside `x`, indexOf on x + y is indexOf on y, shifted. */
  lemma IndexOfShift(x: string, y: string, pat: string)
    requires forall j :: 0 <= j < |x| ==> !OccursAt(x + y, pat, j)
    ensures IndexOf(x + y, pat, 0) == (if IndexOf(y, pat, 0) == -1 then -1 else |x| + IndexOf(y, pat, 0))
  {
    var s := x + y;
    var q := IndexOf(y, pat, 0);
    IndexOfLeftmost(y, pat, 0);
    forall j | |x| <= j
      ensures OccursAt(s, pat, j) <==> OccursAt(y, pat, j - |x|)
    {
      if j + |pat| <= |s| {
        assert s[j..j + |pat|] == y[j - |x|..j - |x| + |pat|];
      }
    }
    IndexOfIs(s, pat, 0, if q == -1 then -1 else |x| + q);
  }

  /** Replacing at the first occurrence, when that occurrence is at position |x| of x + pat + y. */
  lemma ReplaceFirstAt(x: string, y: string, pat: string, rep: string)
    requires IndexOf(x + pat + y, pat, 0) == |x|
    ensures ReplaceFirst(x + pat + y, pat, rep) == x + rep + y
  {
    var s := x + pat + y;
    assert s[..|x|] == x;
    assert s[|x| + |pat|..] == y;
  }

  /** No occurrence of `pat` starts inside x + [sep] when `x` lacks `pat` and `pat` lacks `sep`. */
  lemma NoOccurrenceBeforeSeparator(x: string, sep: char, y: string, pat: string)
    requires !Includes(x, pat)
    requires forall i :: 0 <= i < |pat| ==> pat[i] != sep
    ensures forall j :: 0 <= j < |x| + 1 ==> !OccursAt(x + [sep] + y, pat, j)
  {
    var s := x + [sep] + y;
    IncludesIff(x, pat);
    forall j | 0 <= j < |x| + 1
      ensures !OccursAt(s, pat, j)
    {
      if j + |pat| <= |x| {
        assert s[j..j + |pat|] == x[j..j + |pat|];
        assert !OccursAt(x, pat, j);
      } else if j + |pat| <= |s| {
        assert s[j..j + |pat|][|x| - j] == sep;
      }
    }
  }

  /**
   * When `x` does not contain `pat` and the separator character `sep` is not in `pat`,
   * no occurrence of `pat` in x + [sep] + y starts before y: the replacement happens in `y`.
   */
  lemma ReplaceFirstAfterSeparator(x: string, sep: char, y: string, pat: string, rep: string)
    requires !Includes(x, pat)
    requires forall i :: 0 <= i < |pat| ==> pat[i] != sep
    ensures ReplaceFirst(x + [sep] + y, pat, rep) == x + [sep] + ReplaceFirst(y, pat, rep)
  {
    var x' := x + [sep];
    assert x + [sep] + y == x' + y;
    NoOccurrenceBeforeSeparator(x, sep, y, pat);
    IndexOfShift(x', y, pat);
    ReplaceFirstShifted(x', y, pat, rep);
    assert x' + ReplaceFirst(y, pat, rep) == x + [sep] + ReplaceFirst(y, pat, rep);
  }

  /** When the first occurrence in x + y is the first occurrence in y, shifted, so is the replacement. */
  lemma {:induction false} ReplaceFirstShifted(x: string, y: string, pat: string, rep: string)
    requires IndexOf(x + y, pat, 0) == (if IndexOf(y, pat, 0) == -1 then -1 else |x| + IndexOf(y, pat, 0))
    ensures ReplaceFirst(x + y, pat, rep) == x + ReplaceFirst(y, pat, rep)
  {
    var q := IndexOf(y, pat, 0);
    ReplaceFirstIs(y, pat, rep, q);
    ReplaceFirstIs(x + y, pat, rep, IndexOf(x + y, pat, 0));
    if q != -1 {
      ShiftedPieces(x, y, q, |pat|);
      AppendAssoc(x, y[..q] + rep, y[q + |pat|..]);
      AppendAssoc(x, y[..q], rep);
    }
  }

  /** What replace does, given where indexOf finds the pattern. */
  lemma ReplaceFirstIs(s: string, pat: string, rep: string, i: int)
    requires i == IndexOf(s, pat, 0)
    ensures i == -1 ==> ReplaceFirst(s, pat, rep) == s
    ensures i != -1 ==> i + |pat| <= |s| && ReplaceFirst(s, pat, rep) == s[..i] + rep + s[i + |pat|..]
  {
  }

  /** The pieces of x + y around a stretch that starts at position q of y. */
  lemma ShiftedPieces(x: string, y: string, q: nat, n: nat)
    requires q + n <= |y|
    ensures (x + y)[..|x| + q] == x + y[..q]
    ensures (x + y)[|x| + q + n..] == y[q + n..]
  {
  }

  lemma AppendAssoc<T>(a: seq<T>, b: seq<T>, c: seq<T>)
    ensures a + (b + c) == (a + b) + c
  {
  }

  /**
   * When `pat` does not occur in `stem` and its first character does not occur again in it,
   * the first occurrence of `pat` in stem + pat is the suffix: the suffix is what is replaced.
   */
  lemma ReplaceFirstSuffix(stem: string, pat: string, rep: string)
    requires !Includes(stem, pat)
    requires |pat| > 0 && forall i :: 1 <= i < |pat| ==> pat[i] != pat[0]
    ensures ReplaceFirst(stem + pat, pat, rep) == stem + rep
  {
    var s := stem + pat;
    IncludesIff(stem, pat);
    forall j | 0 <= j < |stem|
      ensures !OccursAt(s, pat, j)
    {
      if j + |pat| <= |stem| {
        assert s[j..j + |pat|] == stem[j..j + |pat|];
        assert !OccursAt(stem, pat, j);
      } else if j + |pat| <= |s| {
        assert s[j..j + |pat|][|stem| - j] == pat[0];
      }
    }
    assert s[|stem|..|stem| + |pat|] == pat;
    IndexOfIs(s, pat, 0, |stem|);
    assert s == stem + pat + [];
    ReplaceFirstAt(stem, [], pat, rep);
  }

  // ---------------------------------------------------------------------------
  // trim: strip leading and trailing whitespace.
  // ---------------------------------------------------------------------------

  /** The number of whitespace characters `s` starts with. */
  function SpaceRun(s: string): (n: nat)
    ensures n <= |s|
  {
    if s != [] && IsSpace(s[0]) then 1 + SpaceRun(s[1..]) else 0
  }

  lemma {:induction false} SpaceRunShape(s: string)
    ensures forall i :: 0 <= i < SpaceRun(s) ==> IsSpace(s[i])
    ensures SpaceRun(s) == |s| || !IsSpace(s[SpaceRun(s)])
    decreases |s|
  {
    if s != [] && IsSpace(s[0]) {
      SpaceRunShape(s[1..]);
    }
  }

  /** The length of the longest whitespace-free prefix of `s`. */
  function WordLength(s: string): (k: nat)
    ensures k <= |s|
  {
    if s == [] || IsSpace(s[0]) then 0 else 1 + WordLength(s[1..])
  }

  lemma {:induction false} WordLengthShape(s: string)
    ensures NoSpace(s[..WordLength(s)])
    ensures WordLength(s) == |s| || IsSpace(s[WordLength(s)])
    decreases |s|
  {
    if s != [] && !IsSpace(s[0]) {
      WordLengthShape(s[1..]);
      var k := WordLength(s);
      assert s[..k] == [s[0]] + s[1..][..k - 1];
    }
  }

  function TrimStart(s: string): string
  {
    s[SpaceRun(s)..]
  }

  function TrimEnd(s: string): (r: string)
    ensures |r| <= |s|
  {
    if s != [] && IsSpace(s[|s| - 1]) then TrimEnd(s[..|s| - 1]) else s
  }

  lemma {:induction false} TrimEndShape(s: string)
    ensures TrimEnd(s) == s[..|TrimEnd(s)|]
    ensures TrimEnd(s) == [] || !IsSpace(TrimEnd(s)[|TrimEnd(s)| - 1])
    ensures forall i :: |TrimEnd(s)| <= i < |s| ==> IsSpace(s[i])
    decreases |s|
  {
    if s != [] && IsSpace(s[|s| - 1]) {
      TrimEndShape(s[..|s| - 1]);
    }
  }

  /** trim: the whitespace at both ends removed. */
  function Trim(s: string): string
  {
    TrimEnd(TrimStart(s))
  }

  /**
   * trim keeps a middle part of `s` that neither starts nor ends with whitespace, and what it
   * removes before and after that part is whitespace.
   */
  lemma TrimIsInfix(s: string)
    ensures Trim(s) == [] || (!IsSpace(Trim(s)[0]) && !IsSpace(Trim(s)[|Trim(s)| - 1]))
    ensures exists a, b :: (0 <= a <= b <= |s| && Trim(s) == s[a..b]
      && (forall i :: 0 <= i < a ==> IsSpace(s[i])) && (forall i :: b <= i < |s| ==> IsSpace(s[i])))
  {
    var a := SpaceRun(s);
    var t := TrimStart(s);
    var r := TrimEnd(t);
    SpaceRunShape(s);
    TrimEndShape(t);
    assert r == s[a..a + |r|];
    assert forall i :: a + |r| <= i < |s| ==> s[i] == t[i - a];
    if r != [] {
      assert r[0] == t[0] == s[a];
    }
  }

  /**
   * `t` is `s` with its leading and trailing whitespace cut off: a slice of `s` with only
   * whitespace before and after it, neither starting nor ending with whitespace itself.
   */
  ghost predicate TrimmedFrom(t: string, s: string)
  {
    && (t == [] || (!IsSpace(t[0]) && !IsSpace(t[|t| - 1])))
    && exists a, b :: 0 <= a <= b <= |s| && t == s[a..b]
         && (forall i :: 0 <= i < a ==> IsSpace(s[i])) && (forall i :: b <= i < |s| ==> IsSpace(s[i]))
  }

  /** Each of the texts, trimmed, is that text with its surrounding whitespace cut off. */
  lemma TrimAll(ss: seq<string>)
    ensures forall k :: 0 <= k < |ss| ==> TrimmedFrom(Trim(ss[k]), ss[k])
  {
    forall k | 0 <= k < |ss|
      ensures TrimmedFrom(Trim(ss[k]), ss[k])
    {
      TrimIsInfix(ss[k]);
    }
  }

  // ---------------------------------------------------------------------------
  // split(/\s+/): the pieces between maximal runs of whitespace. A leading or trailing
  // run gives an empty first or last piece, and the empty string gives [""].
  // ---------------------------------------------------------------------------

  /** A text without whitespace is a single word. */
  lemma {:induction false} WordLengthOfWord(s: string)
    requires NoSpace(s)
    ensures WordLength(s) == |s|
  {
    if s != [] {
      WordLengthOfWord(s[1..]);
    }
  }

  function Split(s: string): (pieces: seq<string>)
    ensures |pieces| >= 1
    decreases |s|
  {
    var k := WordLength(s);
    if k == |s| then [s]
    else [s[..k]] + Split(TrimStart(s[k + 1..]))
  }

  /** No piece of split contains whitespace. */
  lemma {:induction false} SplitNoSpace(s: string)
    ensures forall p <- Split(s) :: NoSpace(p)
    decreases |s|
  {
    WordLengthShape(s);
    var k := WordLength(s);
    if k < |s| {
      SplitNoSpace(TrimStart(s[k + 1..]));
    }
  }

  /** Every character of every piece of split is a character of the input. */
  lemma {:induction false} SplitChars(s: string)
    ensures forall p <- Split(s), i | 0 <= i < |p| :: p[i] in s
    decreases |s|
  {
    var k := WordLength(s);
    if k < |s| {
      var t := TrimStart(s[k + 1..]);
      SplitChars(t);
      forall p <- Split(t), i | 0 <= i < |p|
        ensures p[i] in s
      {
        assert p[i] in t;
      }
    }
  }

  /** `s` with every whitespace character removed. */
  function RemoveSpaces(s: string): string
  {
    if s == [] then [] else (if IsSpace(s[0]) then [] else [s[0]]) + RemoveSpaces(s[1..])
  }

  /** The pieces one after the other. */
  function Concat(ps: seq<string>): string
  {
    if ps == [] then [] else ps[0] + Concat(ps[1..])
  }

  lemma {:induction false} RemoveSpacesAppend(a: string, b: string)
    ensures RemoveSpaces(a + b) == RemoveSpaces(a) + RemoveSpaces(b)
    decreases |a|
  {
    if a == [] {
      assert a + b == b;
    } else {
      var head := if IsSpace(a[0]) then [] else [a[0]];
      assert (a + b)[0] == a[0];
      assert (a + b)[1..] == a[1..] + b;
      RemoveSpacesAppend(a[1..], b);
      assert RemoveSpaces(a + b) == head + RemoveSpaces(a[1..] + b);
      assert RemoveSpaces(a) == head + RemoveSpaces(a[1..]);
    }
  }

  lemma {:induction false} RemoveSpacesOfWord(s: string)
    requires NoSpace(s)
    ensures RemoveSpaces(s) == s
    decreases |s|
  {
    if s != [] {
      RemoveSpacesOfWord(s[1..]);
    }
  }

  lemma {:induction false} RemoveSpacesOfBlank(s: string)
    requires forall i :: 0 <= i < |s| ==> IsSpace(s[i])
    ensures RemoveSpaces(s) == []
    decreases |s|
  {
    if s != [] {
      RemoveSpacesOfBlank(s[1..]);
    }
  }

  /** split(/\s+/) loses nothing but whitespace: the pieces, put together, are `s` without it. */
  lemma {:induction false} SplitConcat(s: string)
    ensures Concat(Split(s)) == RemoveSpaces(s)
    decreases |s|
  {
    var k := WordLength(s);
    WordLengthShape(s);
    if k == |s| {
      assert s[..k] == s;
      RemoveSpacesOfWord(s);
      assert Concat([s]) == s + Concat([]);
    } else {
      var t := TrimStart(s[k + 1..]);
      SplitConcat(t);
      SplitUnfold(s);
      RemoveSpacesUnfold(s, k, t);
    }
  }

  lemma {:induction false} SplitUnfold(s: string)
    requires WordLength(s) < |s|
    ensures Concat(Split(s)) == s[..WordLength(s)] + Concat(Split(TrimStart(s[WordLength(s) + 1..])))
  {
    SplitStep(s);
    ConcatCons(s[..WordLength(s)], Split(TrimStart(s[WordLength(s) + 1..])));
  }

  /** The first piece of split and the split of what follows the whitespace after it. */
  lemma SplitStep(s: string)
    requires WordLength(s) < |s|
    ensures Split(s) == [s[..WordLength(s)]] + Split(TrimStart(s[WordLength(s) + 1..]))
  {
  }

  lemma ConcatCons(w: string, ps: seq<string>)
    ensures Concat([w] + ps) == w + Concat(ps)
  {
    assert ([w] + ps)[1..] == ps;
  }

  lemma {:induction false} RemoveSpacesUnfold(s: string, k: nat, t: string)
    requires k == WordLength(s) && k < |s| && t == TrimStart(s[k + 1..])
    ensures RemoveSpaces(s) == s[..k] + RemoveSpaces(t)
  {
    var rest := s[k + 1..];
    var blank := rest[..SpaceRun(rest)];
    WordLengthShape(s);
    SpaceRunShape(rest);
    GapIsBlank(s[k], blank);
    assert rest == blank + t;
    SplitAround(s, k, blank, t);
    RemoveSpacesAround(s[..k], [s[k]] + blank, t);
  }

  /** `s` cut at position `k`, the rest being `blank` followed by `t`. */
  lemma SplitAround(s: string, k: nat, blank: string, t: string)
    requires k < |s| && s[k + 1..] == blank + t
    ensures s == s[..k] + ([s[k]] + blank) + t
  {
    assert s == s[..k] + ([s[k]] + s[k + 1..]);
  }

  /** A word, then only whitespace, then `t`: removing the whitespace leaves the word and `t`'s remainder. */
  lemma RemoveSpacesAround(head: string, gap: string, t: string)
    requires NoSpace(head) && RemoveSpaces(gap) == []
    ensures RemoveSpaces(head + gap + t) == head + RemoveSpaces(t)
  {
    RemoveSpacesAppend(head + gap, t);
    RemoveSpacesAppend(head, gap);
    RemoveSpacesOfWord(head);
    assert head + [] == head;
  }

  lemma GapIsBlank(c: char, blank: string)
    requires IsSpace(c) && forall i :: 0 <= i < |blank| ==> IsSpace(blank[i])
    ensures RemoveSpaces([c] + blank) == []
  {
    var gap := [c] + blank;
    forall i | 0 <= i < |gap|
      ensures IsSpace(gap[i])
    {
      if i > 0 {
        assert gap[i] == blank[i - 1];
      }
    }
    RemoveSpacesOfBlank(gap);
  }

  /** A whitespace-free prefix followed by whitespace (or nothing) is the first word. */
  lemma {:induction false} WordLengthBefore(w: string, t: string)
    requires NoSpace(w) && (t == [] || IsSpace(t[0]))
    ensures WordLength(w + t) == |w|
    decreases |w|
  {
    if w == [] {
      assert w + t == t;
    } else {
      assert (w + t)[0] == w[0];
      assert (w + t)[1..] == w[1..] + t;
      WordLengthBefore(w[1..], t);
    }
  }

  /** A run of whitespace at the front of `b + s` is all of `b` and the run `s` starts with. */
  lemma {:induction false} SpaceRunOfBlank(b: string, s: string)
    requires forall i :: 0 <= i < |b| ==> IsSpace(b[i])
    ensures SpaceRun(b + s) == |b| + SpaceRun(s)
    decreases |b|
  {
    if b == [] {
      assert b + s == s;
    } else {
      assert (b + s)[0] == b[0];
      assert (b + s)[1..] == b[1..] + s;
      SpaceRunOfBlank(b[1..], s);
    }
  }

  /**
   * split(/\s+/) cuts exactly at runs of whitespace: a whitespace-free word, a non-empty run
   * of whitespace and a text that does not start with whitespace split into the word and the
   * pieces of that text.
   */
  lemma {:induction false} SplitAtGap(w: string, gap: string, s: string)
    requires NoSpace(w) && |gap| > 0 && (forall i :: 0 <= i < |gap| ==> IsSpace(gap[i]))
    requires s == [] || !IsSpace(s[0])
    ensures Split(w + gap + s) == [w] + Split(s)
  {
    GapPieces(w, gap, s);
    SplitStep(w + gap + s);
  }

  /** Where split cuts `w + gap + s`: after `w`, resuming at `s`. */
  lemma {:induction false} GapPieces(w: string, gap: string, s: string)
    requires NoSpace(w) && |gap| > 0 && (forall i :: 0 <= i < |gap| ==> IsSpace(gap[i]))
    requires s == [] || !IsSpace(s[0])
    ensures WordLength(w + gap + s) == |w| < |w + gap + s|
    ensures (w + gap + s)[..|w|] == w
    ensures TrimStart((w + gap + s)[|w| + 1..]) == s
  {
    var x := w + gap + s;
    assert x == w + (gap + s);
    WordLengthBefore(w, gap + s);
    assert x[|w| + 1..] == gap[1..] + s;
    SpaceRunOfBlank(gap[1..], s);
  }

  /** A text without whitespace is one piece. */
  lemma SplitOfWord(s: string)
    requires NoSpace(s)
    ensures Split(s) == [s]
  {
    WordLengthOfWord(s);
  }

  /** Non-empty pieces without whitespace. */
  ghost predicate Words(ws: seq<string>)
  {
    forall k :: 0 <= k < |ws| ==> |ws[k]| > 0 && NoSpace(ws[k])
  }

  /**
   * Splitting words joined with single spaces gives back the words: split(/\s+/) and
   * join(" ") are inverse on non-empty whitespace-free words.
   */
  lemma {:induction false} SplitOfJoin(ws: seq<string>)
    requires |ws| > 0 && Words(ws)
    ensures Split(JoinWith(ws, " ")) == ws
    decreases |ws|
  {
    if |ws| == 1 {
      SplitOfWord(ws[0]);
    } else {
      var tail := ws[1..];
      assert Words(tail) by {
        forall k | 0 <= k < |tail|
          ensures |tail[k]| > 0 && NoSpace(tail[k])
        {
          assert tail[k] == ws[k + 1];
        }
      }
      SplitOfJoin(tail);
      SplitOfJoinStep(ws[0], tail);
      assert ws == [ws[0]] + tail;
    }
  }

  lemma {:induction false} SplitOfJoinStep(w: string, tail: seq<string>)
    requires NoSpace(w) && |tail| > 0 && |tail[0]| > 0 && NoSpace(tail[0])
    requires Split(JoinWith(tail, " ")) == tail
    ensures Split(JoinWith([w] + tail, " ")) == [w] + tail
  {
    var ws := [w] + tail;
    assert ws[0] == w && ws[1..] == tail;
    assert JoinWith(ws, " ") == w + " " + JoinWith(tail, " ");
    JoinWithFirst(tail, " ");
    IsSpaceIff(' ');
    SplitAtGap(w, " ", JoinWith(tail, " "));
  }

  /** A join whose first piece is not empty starts with that piece's first character. */
  lemma JoinWithFirst(ps: seq<string>, sep: string)
    requires |ps| > 0 && |ps[0]| > 0
    ensures |JoinWith(ps, sep)| > 0 && JoinWith(ps, sep)[0] == ps[0][0]
  {
  }

  // ---------------------------------------------------------------------------
  // Array.prototype.join(sep)
  // ---------------------------------------------------------------------------

  function JoinWith(ps: seq<string>, sep: string): string
  {
    if ps == [] then []
    else if |ps| == 1 then ps[0]
    else ps[0] + sep + JoinWith(ps[1..], sep)
  }

  /** Joining adds exactly one separator between neighbouring pieces and nothing else. */
  lemma {:induction false} JoinWithLength(ps: seq<string>, sep: string)
    ensures |JoinWith(ps, sep)| == |Concat(ps)| + (if ps == [] then 0 else (|ps| - 1) * |sep|)
  {
    if |ps| > 1 {
      JoinWithLength(ps[1..], sep);
    } else if |ps| == 1 {
      assert Concat(ps) == ps[0] + Concat([]);
    }
  }

  /** Joining one more piece appends the separator and that piece. */
  lemma {:induction false} JoinWithSnoc(ps: seq<string>, x: string, sep: string)
    ensures JoinWith(ps + [x], sep) == if ps == [] then x else JoinWith(ps, sep) + sep + x
    decreases |ps|
  {
    if |ps| == 1 {
      assert ps + [x] == [ps[0], x];
      assert [ps[0], x][1..] == [x];
    } else if |ps| > 1 {
      assert (ps + [x])[0] == ps[0];
      assert (ps + [x])[1..] == ps[1..] + [x];
      JoinWithSnoc(ps[1..], x, sep);
    }
  }

  /** Where the piece `k` starts in the joined text: the pieces before it, each with its separator. */
  function Offset(ps: seq<string>, sep: string, k: nat): nat
    requires k <= |ps|
  {
    if k == 0 then 0 else |ps[0]| + |sep| + Offset(ps[1..], sep, k - 1)
  }

  /** A slice of the second part of a concatenation, seen from the whole. */
  lemma SliceAfter(a: string, b: string, i: nat, j: nat)
    requires i <= j <= |b|
    ensures (a + b)[|a| + i..|a| + j] == b[i..j]
  {
  }

  /** Piece `k` of `ps` sits in the joined text at its offset. */
  ghost predicate PieceAt(ps: seq<string>, sep: string, k: nat)
    requires k < |ps|
  {
    && Offset(ps, sep, k) + |ps[k]| <= |JoinWith(ps, sep)|
    && JoinWith(ps, sep)[Offset(ps, sep, k)..Offset(ps, sep, k) + |ps[k]|] == ps[k]
  }

  /** Right after piece `k` of `ps`, the joined text holds one separator. */
  ghost predicate SeparatorAfter(ps: seq<string>, sep: string, k: nat)
    requires k < |ps|
  {
    && Offset(ps, sep, k) + |ps[k]| + |sep| <= |JoinWith(ps, sep)|
    && JoinWith(ps, sep)[Offset(ps, sep, k) + |ps[k]|..Offset(ps, sep, k) + |ps[k]| + |sep|] == sep
  }

  /**
   * The joined text laid out: each piece sits at its offset, exactly one separator follows
   * each piece but the last, and the text ends with the last piece.
   */
  lemma {:induction false} JoinWithLayout(ps: seq<string>, sep: string)
    ensures ps == [] ==> JoinWith(ps, sep) == []
    ensures ps != [] ==> |JoinWith(ps, sep)| == Offset(ps, sep, |ps| - 1) + |ps[|ps| - 1]|
    ensures forall k :: 0 <= k < |ps| ==> PieceAt(ps, sep, k)
    ensures forall k :: 0 <= k < |ps| - 1 ==> SeparatorAfter(ps, sep, k)
  {
    if ps != [] {
      JoinWithEnd(ps, sep);
    }
    forall k | 0 <= k < |ps|
      ensures PieceAt(ps, sep, k)
    {
      JoinWithPiece(ps, sep, k);
    }
    forall k | 0 <= k < |ps| - 1
      ensures SeparatorAfter(ps, sep, k)
    {
      JoinWithSeparator(ps, sep, k);
    }
  }

  /** The joined text ends where the last piece ends. */
  lemma {:induction false} JoinWithEnd(ps: seq<string>, sep: string)
    requires ps != []
    ensures |JoinWith(ps, sep)| == Offset(ps, sep, |ps| - 1) + |ps[|ps| - 1]|
    decreases |ps|
  {
    if |ps| > 1 {
      JoinWithEnd(ps[1..], sep);
    }
  }

  lemma {:induction false} JoinWithPiece(ps: seq<string>, sep: string, k: nat)
    requires k < |ps|
    ensures PieceAt(ps, sep, k)
    decreases |ps|
  {
    if |ps| == 1 {
    } else if k > 0 {
      var rest := JoinWith(ps[1..], sep);
      JoinWithPiece(ps[1..], sep, k - 1);
      SliceAfter(ps[0] + sep, rest, Offset(ps[1..], sep, k - 1), Offset(ps[1..], sep, k - 1) + |ps[k]|);
    }
  }

  lemma {:induction false} JoinWithSeparator(ps: seq<string>, sep: string, k: nat)
    requires k + 1 < |ps|
    ensures SeparatorAfter(ps, sep, k)
    decreases |ps|
  {
    var rest := JoinWith(ps[1..], sep);
    if k == 0 {
      assert JoinWith(ps, sep) == ps[0] + sep + rest;
    } else {
      JoinWithSeparator(ps[1..], sep, k - 1);
      var o := Offset(ps[1..], sep, k - 1) + |ps[k]|;
      SliceAfter(ps[0] + sep, rest, o, o + |sep|);
    }
  }
}
