/** Rust's `str::split_whitespace`: split at every character with the Unicode
    White_Space property (`char::is_whitespace`) and drop the empty pieces. */
module Tokens {
  import opened Text

  /** `char::is_whitespace`: the Unicode White_Space code points. */
  predicate IsWhitespace(c: char) {
    || '\t' <= c <= '\r'
    || c == ' '
    || c == '\U{0085}'
    || c == '\U{00A0}'
    || c == '\U{1680}'
    || '\U{2000}' <= c <= '\U{200A}'
    || c == '\U{2028}'
    || c == '\U{2029}'
    || c == '\U{202F}'
    || c == '\U{205F}'
    || c == '\U{3000}'
  }

  predicate NoWhitespace(t: string) {
    forall i :: 0 <= i < |t| ==> !IsWhitespace(t[i])
  }

  /** `s.split(char::is_whitespace)`: the (possibly empty) pieces between
      whitespace characters, one more piece than there are separators. */
  function Pieces(s: string): (r: seq<string>)
    ensures |r| >= 1
    ensures forall k :: 0 <= k < |r| ==> NoWhitespace(r[k])
  {
    if |s| == 0 then [""]
    else
      var rest := Pieces(s[1..]);
      if IsWhitespace(s[0]) then [""] + rest
      else [[s[0]] + rest[0]] + rest[1..]
  }

  function NonEmpty(ps: seq<string>): (r: seq<string>)
    ensures forall k :: 0 <= k < |r| ==> |r[k]| > 0
    ensures forall k :: 0 <= k < |r| ==> r[k] in ps
  {
    if |ps| == 0 then []
    else if |ps[0]| == 0 then NonEmpty(ps[1..])
    else [ps[0]] + NonEmpty(ps[1..])
  }

  /** The tokens of a query, `s.split_whitespace()`. */
  function Words(s: string): (r: seq<string>)
    ensures forall k :: 0 <= k < |r| ==> |r[k]| > 0 && NoWhitespace(r[k])
  {
    NonEmpty(Pieces(s))
  }

  function Concat(ps: seq<string>): string {
    if |ps| == 0 then "" else ps[0] + Concat(ps[1..])
  }

  /** `s` with every whitespace character removed. */
  function Strip(s: string): string {
    if |s| == 0 then ""
    else if IsWhitespace(s[0]) then Strip(s[1..])
    else [s[0]] + Strip(s[1..])
  }

  lemma NonEmptyAppend(a: seq<string>, b: seq<string>)
    ensures NonEmpty(a + b) == NonEmpty(a) + NonEmpty(b)
  {
    if |a| == 0 {
      assert a + b == b;
    } else {
      assert (a + b)[0] == a[0];
      assert (a + b)[1..] == a[1..] + b;
      NonEmptyAppend(a[1..], b);
    }
  }

  lemma {:induction false} ConcatNonEmpty(ps: seq<string>)
    ensures Concat(NonEmpty(ps)) == Concat(ps)
  {
    if |ps| > 0 {
      ConcatNonEmpty(ps[1..]);
    }
  }

  lemma {:induction false} ConcatPieces(s: string)
    ensures Concat(Pieces(s)) == Strip(s)
  {
    if |s| > 0 {
      ConcatPieces(s[1..]);
      var rest := Pieces(s[1..]);
      if !IsWhitespace(s[0]) {
        assert ([[s[0]] + rest[0]] + rest[1..])[1..] == rest[1..];
      }
    }
  }

  lemma {:induction false} StripEmpty(s: string)
    ensures Strip(s) == "" <==> forall i :: 0 <= i < |s| ==> IsWhitespace(s[i])
  {
    if |s| > 0 {
      StripEmpty(s[1..]);
      assert forall i :: 1 <= i < |s| ==> s[i] == s[1..][i - 1];
    }
  }

  lemma ConcatEmpty(ps: seq<string>)
    requires forall k :: 0 <= k < |ps| ==> |ps[k]| > 0
    ensures Concat(ps) == "" <==> |ps| == 0
  {
  }

  /** The tokens are the non-whitespace characters of the query, in order. */
  lemma WordsContent(s: string)
    ensures Concat(Words(s)) == Strip(s)
  {
    ConcatNonEmpty(Pieces(s));
    ConcatPieces(s);
  }

  /** An empty or all-whitespace query has no tokens, and only such a query. */
  lemma WordsEmpty(s: string)
    ensures Words(s) == [] <==> forall i :: 0 <= i < |s| ==> IsWhitespace(s[i])
  {
    WordsContent(s);
    ConcatEmpty(Words(s));
    StripEmpty(s);
  }

  lemma {:induction false} PiecesSplit(a: string, w: char, b: string)
    requires IsWhitespace(w)
    ensures Pieces(a + [w] + b) == Pieces(a) + Pieces(b)
  {
    if |a| == 0 {
      assert a + [w] + b == [w] + b;
      assert ([w] + b)[1..] == b;
    } else {
      assert (a + [w] + b)[1..] == a[1..] + [w] + b;
      PiecesSplit(a[1..], w, b);
    }
  }

  lemma {:induction false} PiecesRun(t: string)
    requires NoWhitespace(t)
    ensures Pieces(t) == [t]
  {
    if |t| > 0 {
      PiecesRun(t[1..]);
      assert [t[0]] + t[1..] == t;
    }
  }

  /** A whitespace character separates tokens: the tokens of `a w b` are the
      tokens of `a` followed by those of `b`. */
  lemma WordsSplit(a: string, w: char, b: string)
    requires IsWhitespace(w)
    ensures Words(a + [w] + b) == Words(a) + Words(b)
  {
    PiecesSplit(a, w, b);
    NonEmptyAppend(Pieces(a), Pieces(b));
  }

  /** A non-empty whitespace-free run is a single token. Together with
      `WordsSplit` and `Words("") == []` this determines `Words` entirely. */
  lemma WordsRun(t: string)
    requires |t| > 0 && NoWhitespace(t)
    ensures Words(t) == [t]
  {
    PiecesRun(t);
    assert [t][1..] == [];
    assert NonEmpty([t]) == [t] + NonEmpty([]);
  }

  function LowerAll(ts: seq<string>): (r: seq<string>)
    ensures |r| == |ts|
    ensures forall k :: 0 <= k < |ts| ==> r[k] == Lower(ts[k])
  {
    seq(|ts|, k requires 0 <= k < |ts| => Lower(ts[k]))
  }

  lemma WhitespaceCaseless(c: char)
    ensures IsWhitespace(LowerChar(c)) == IsWhitespace(c)
  {
  }

  lemma {:induction false} PiecesLower(s: string)
    ensures Pieces(Lower(s)) == LowerAll(Pieces(s))
  {
    if |s| > 0 {
      LowerTail(s);
      PiecesLower(s[1..]);
      WhitespaceCaseless(s[0]);
      var rest := Pieces(s[1..]);
      if !IsWhitespace(s[0]) {
        LowerAppend([s[0]], rest[0]);
        assert Lower([s[0]]) == [LowerChar(s[0])];
        var p := [[s[0]] + rest[0]] + rest[1..];
        assert LowerAll(p) == [Lower([s[0]] + rest[0])] + LowerAll(rest)[1..];
      } else {
        assert LowerAll([""] + rest) == [""] + LowerAll(rest);
      }
    }
  }

  lemma {:induction false} NonEmptyLower(ps: seq<string>)
    ensures NonEmpty(LowerAll(ps)) == LowerAll(NonEmpty(ps))
  {
    if |ps| > 0 {
      assert LowerAll(ps)[1..] == LowerAll(ps[1..]);
      NonEmptyLower(ps[1..]);
    }
  }

  /** Folding the case of a query folds the case of each token and changes
      nothing else: whitespace is caseless. */
  lemma WordsLower(s: string)
    ensures Words(Lower(s)) == LowerAll(Words(s))
  {
    PiecesLower(s);
    NonEmptyLower(Pieces(s));
  }
}
