/**
 * The search terms of a query: the query lower-cased, split on runs of whitespace, and
 * stripped of every piece shorter than two characters.
 */
module Query {
  import opened Strings

  /** The pieces of at least two characters, in their order, with repeats kept. */
  function KeepLong(pieces: seq<string>): (terms: seq<string>)
    ensures forall t <- terms :: |t| > 1 && t in pieces
    ensures forall p <- pieces :: |p| > 1 ==> p in terms
  {
    if pieces == [] then []
    else (if |pieces[0]| > 1 then [pieces[0]] else []) + KeepLong(pieces[1..])
  }

  /** The query lower-cased, split on whitespace runs, with the short pieces dropped. */
  function Tokenize(query: string): (terms: seq<string>)
    ensures forall t <- terms :: |t| > 1
  {
    KeepLong(Split(Lower(query)))
  }

  /**
   * Every term has at least two characters, no whitespace and no upper-case letter; and every
   * whitespace-separated word of the lower-cased query with at least two characters is a term.
   */
  lemma TermsShape(query: string)
    ensures forall t <- Tokenize(query) :: |t| > 1 && NoSpace(t) && IsLowered(t)
    ensures forall w <- Split(Lower(query)) :: |w| > 1 ==> w in Tokenize(query)
  {
    var pieces := Split(Lower(query));
    SplitNoSpace(Lower(query));
    SplitChars(Lower(query));
    LowerIsLowered(query);
    forall t <- Tokenize(query)
      ensures IsLowered(t)
    {
      assert t in pieces;
      forall i | 0 <= i < |t|
        ensures LowerChar(t[i]) == t[i]
      {
        var j :| 0 <= j < |Lower(query)| && Lower(query)[j] == t[i];
      }
    }
  }

  /** A query that is blank, or made only of one-letter words, has no terms. */
  lemma NoTermsOfShortWords(query: string)
    requires forall w <- Split(Lower(query)) :: |w| <= 1
    ensures Tokenize(query) == []
  {
    KeepLongOfShort(Split(Lower(query)));
  }

  lemma {:induction false} KeepLongOfShort(pieces: seq<string>)
    requires forall p <- pieces :: |p| <= 1
    ensures KeepLong(pieces) == []
  {
    if pieces != [] {
      assert forall p <- pieces[1..] :: p in pieces;
      KeepLongOfShort(pieces[1..]);
    }
  }

  /** Upper and lower case in the query make no difference to its terms. */
  lemma TokenizeIgnoresCase(query: string)
    ensures Tokenize(Lower(query)) == Tokenize(query)
  {
    LowerIsLowered(query);
  }

  /** Filtering works piece by piece: it keeps order and repeats and drops only short pieces. */
  lemma {:induction false} KeepLongAppend(a: seq<string>, b: seq<string>)
    ensures KeepLong(a + b) == KeepLong(a) + KeepLong(b)
    decreases |a|
  {
    if a != [] {
      var ab := a + b;
      assert ab[0] == a[0] && ab[1..] == a[1..] + b;
      var head := if |a[0]| > 1 then [a[0]] else [];
      KeepLongAppend(a[1..], b);
      calc {
        KeepLong(ab);
        head + KeepLong(a[1..] + b);
        head + (KeepLong(a[1..]) + KeepLong(b));
        { AppendAssoc(head, KeepLong(a[1..]), KeepLong(b)); }
        head + KeepLong(a[1..]) + KeepLong(b);
        KeepLong(a) + KeepLong(b);
      }
    } else {
      assert a + b == b;
    }
  }

  /** One piece is kept exactly when it has at least two characters. */
  lemma KeepLongOne(p: string)
    ensures KeepLong([p]) == if |p| > 1 then [p] else []
  {
    assert [p][1..] == [];
  }

  /** Pieces that are all long enough pass through unchanged. */
  lemma {:induction false} KeepLongOfLong(pieces: seq<string>)
    requires forall k :: 0 <= k < |pieces| ==> |pieces[k]| > 1
    ensures KeepLong(pieces) == pieces
  {
    if pieces != [] {
      KeepLongOfLong(pieces[1..]);
    }
  }

  /**
   * Tokenising undoes joining with single spaces: lower-case words of at least two characters
   * and without whitespace, joined with " ", tokenise back to the same words in order.
   */
  lemma TokenizeOfJoin(ws: seq<string>)
    requires |ws| > 0 && Words(ws)
    requires forall k :: 0 <= k < |ws| ==> |ws[k]| > 1 && IsLowered(ws[k])
    ensures Tokenize(JoinWith(ws, " ")) == ws
  {
    var text := JoinWith(ws, " ");
    JoinWithLowered(ws, " ");
    LowerOfLowered(text);
    SplitOfJoin(ws);
    KeepLongOfLong(ws);
  }
}
