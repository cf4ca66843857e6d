/** Query matching: `get_results` keeps, in index order, every comic whose
    case-folded blob contains at least one case-folded query token. */
module Search {
  import opened Text
  import opened Tokens
  import opened Index

  /** The searchable text of a comic: title, alt text and transcript. */
  function Blob(c: Comic): string {
    c.title + c.alt + c.transcript
  }

  /** Some token, case-folded, occurs in the case-folded blob. */
  ghost predicate Matches(c: Comic, words: seq<string>) {
    exists k :: 0 <= k < |words| && Contains(Lower(Blob(c)), Lower(words[k]))
  }

  /** The matching comics of `index`, in index order. */
  ghost function Select(index: seq<Comic>, words: seq<string>): seq<Comic> {
    if |index| == 0 then []
    else
      var last := index[|index| - 1];
      Select(index[..|index| - 1], words) + (if Matches(last, words) then [last] else [])
  }

  /** The result of searching `index` for `query`. */
  ghost function Search(index: seq<Comic>, query: string): seq<Comic> {
    Select(index, Words(query))
  }

  /** The inner loop of `get_results`: try the tokens in order and stop at
      the first one that occurs in the case-folded blob. */
  method AnyTokenOccurs(blob: string, words: seq<string>) returns (found: bool)
    ensures found <==> exists k :: 0 <= k < |words| && Contains(blob, Lower(words[k]))
  {
    found := false;
    for k := 0 to |words|
      invariant forall m :: 0 <= m < k ==> !Contains(blob, Lower(words[m]))
    {
      if Find(blob, Lower(words[k])).Some? {
        found := true;
        break;
      }
    }
  }

  /** `get_results` over an already updated index: each comic is pushed at
      most once, when some token matches it. */
  method GetResults(index: seq<Comic>, query: string) returns (results: seq<Comic>)
    ensures results == Search(index, query)
    ensures |results| <= |index|
    ensures forall c :: c in results <==> c in index && Matches(c, Words(query))
  {
    var words := Words(query);
    results := [];
    for i := 0 to |index|
      invariant results == Select(index[..i], words)
    {
      assert index[..i + 1][..i] == index[..i];
      var comic := index[i];
      var found := AnyTokenOccurs(Lower(Blob(comic)), words);
      if found {
        results := results + [comic];
      }
    }
    assert index[..|index|] == index;
    SelectMembership(index, words);
    SelectLength(index, words);
  }

  /** The positions in the index of the comics a search keeps. */
  ghost function Positions(index: seq<Comic>, words: seq<string>): (p: seq<nat>)
    ensures forall k :: 0 <= k < |p| ==> p[k] < |index|
    ensures forall k1, k2 :: 0 <= k1 < k2 < |p| ==> p[k1] < p[k2]
    ensures forall i :: 0 <= i < |index| ==> (i in p <==> Matches(index[i], words))
  {
    if |index| == 0 then []
    else
      var n := |index| - 1;
      Positions(index[..n], words) + (if Matches(index[n], words) then [n] else [])
  }

  /** Results are a subsequence of the index: the k-th result is the comic at
      the k-th kept position, positions strictly increase (so each comic is
      kept at most once and order is preserved), and a position is kept
      exactly when its comic matches. */
  lemma {:induction false} SelectIsSubsequence(index: seq<Comic>, words: seq<string>)
    ensures |Select(index, words)| == |Positions(index, words)|
    ensures forall k :: 0 <= k < |Select(index, words)| ==>
      Select(index, words)[k] == index[Positions(index, words)[k]]
  {
    if |index| > 0 {
      var n := |index| - 1;
      SelectIsSubsequence(index[..n], words);
    }
  }

  /** A comic is a result iff it is in the index and some token matches it. */
  lemma {:induction false} SelectMembership(index: seq<Comic>, words: seq<string>)
    ensures forall c :: c in Select(index, words) <==> c in index && Matches(c, words)
  {
    if |index| > 0 {
      var n := |index| - 1;
      SelectMembership(index[..n], words);
      assert index == index[..n] + [index[n]];
    }
  }

  /** There are never more results than comics. */
  lemma {:induction false} SelectLength(index: seq<Comic>, words: seq<string>)
    ensures |Select(index, words)| <= |index|
  {
    if |index| > 0 {
      SelectLength(index[..|index| - 1], words);
    }
  }

  /** An empty or all-whitespace query has no tokens and finds nothing. */
  lemma EmptyQuery(index: seq<Comic>, query: string)
    requires forall i :: 0 <= i < |query| ==> IsWhitespace(query[i])
    ensures Search(index, query) == []
  {
    WordsEmpty(query);
    SelectNone(index, Words(query));
  }

  lemma {:induction false} SelectNone(index: seq<Comic>, words: seq<string>)
    requires words == []
    ensures Select(index, words) == []
  {
    if |index| > 0 {
      SelectNone(index[..|index| - 1], words);
    }
  }

  lemma {:induction false} SelectCongruent(index: seq<Comic>, w1: seq<string>, w2: seq<string>)
    requires forall c :: Matches(c, w1) == Matches(c, w2)
    ensures Select(index, w1) == Select(index, w2)
  {
    if |index| > 0 {
      SelectCongruent(index[..|index| - 1], w1, w2);
    }
  }

  /** Whether a comic matches depends only on the case-folded tokens. */
  lemma MatchesFoldedTokens(c: Comic, w1: seq<string>, w2: seq<string>)
    requires LowerAll(w1) == LowerAll(w2)
    ensures Matches(c, w1) == Matches(c, w2)
  {
    assert forall k :: 0 <= k < |w1| ==> Lower(w1[k]) == LowerAll(w2)[k] == Lower(w2[k]);
  }

  /** Searching is case-insensitive in the query: two queries that differ
      only in the case of ASCII letters give the same results. */
  lemma QueryCaseInsensitive(index: seq<Comic>, q1: string, q2: string)
    requires Lower(q1) == Lower(q2)
    ensures Search(index, q1) == Search(index, q2)
  {
    WordsLower(q1);
    WordsLower(q2);
    forall c
      ensures Matches(c, Words(q1)) == Matches(c, Words(q2))
    {
      MatchesFoldedTokens(c, Words(q1), Words(q2));
    }
    SelectCongruent(index, Words(q1), Words(q2));
  }

  /** Lower-casing the query first changes nothing. */
  lemma LowerQueryUnchanged(index: seq<Comic>, query: string)
    ensures Search(index, Lower(query)) == Search(index, query)
  {
    LowerIdempotent(query);
    QueryCaseInsensitive(index, Lower(query), query);
  }

  /** Searching is case-insensitive in the comic: changing the case of ASCII
      letters in the title, alt text or transcript does not change whether it
      matches. */
  lemma ComicCaseInsensitive(c1: Comic, c2: Comic, words: seq<string>)
    requires Lower(c1.title) == Lower(c2.title)
    requires Lower(c1.alt) == Lower(c2.alt)
    requires Lower(c1.transcript) == Lower(c2.transcript)
    ensures Matches(c1, words) == Matches(c2, words)
  {
    LowerAppend(c1.title, c1.alt);
    LowerAppend(c1.title + c1.alt, c1.transcript);
    LowerAppend(c2.title, c2.alt);
    LowerAppend(c2.title + c2.alt, c2.transcript);
  }

  /** A character absent from the haystack rules out every needle that
      contains it. */
  lemma AbsentChar(hay: string, needle: string, k: nat)
    requires k < |needle|
    requires forall i :: 0 <= i < |hay| ==> hay[i] != needle[k]
    ensures !Contains(hay, needle)
  {
    forall j: nat
      ensures !OccursAt(hay, needle, j)
    {
      if j + |needle| <= |hay| {
        assert hay[j..j + |needle|][k] == hay[j + k];
      }
    }
  }

  const LoopComic := Comic(1, "Loop", "", "", "infinite loop")
  const CatComic := Comic(2, "Cat", "", "", "a cat sleeps")

  lemma ExampleBlobs()
    ensures Lower(Blob(LoopComic)) == "loopinfinite loop"
    ensures Lower(Blob(CatComic)) == "cata cat sleeps"
  {
  }

  lemma SelectPair(a: Comic, b: Comic, words: seq<string>)
    ensures Select([a, b], words) ==
      (if Matches(a, words) then [a] else []) + (if Matches(b, words) then [b] else [])
  {
    assert [a, b][..1] == [a];
    assert [a][..0] == [];
    assert Select([a], words) == Select([], words) + (if Matches(a, words) then [a] else []);
  }

  lemma ExampleLoopQuery()
    ensures Words("loop") == ["loop"]
    ensures Matches(LoopComic, ["loop"]) && !Matches(CatComic, ["loop"])
  {
    ExampleBlobs();
    WordsRun("loop");
    assert Lower(["loop"][0]) == "loop";
    assert OccursAt(Lower(Blob(LoopComic)), "loop", 0);
    AbsentChar(Lower(Blob(CatComic)), "loop", 1);
  }

  lemma TwoWords(a: string, b: string)
    requires |a| > 0 && NoWhitespace(a) && |b| > 0 && NoWhitespace(b)
    ensures Words(a + [' '] + b) == [a, b]
  {
    WordsSplit(a, ' ', b);
    WordsRun(a);
    WordsRun(b);
  }

  lemma ExampleEitherQuery()
    ensures Matches(LoopComic, ["cat", "infinite"]) && Matches(CatComic, ["cat", "infinite"])
  {
    ExampleBlobs();
    var words := ["cat", "infinite"];
    assert Lower(words[0]) == "cat" && Lower(words[1]) == "infinite";
    assert OccursAt(Lower(Blob(LoopComic)), Lower(words[1]), 4);
    assert OccursAt(Lower(Blob(CatComic)), Lower(words[0]), 0);
  }

  lemma ExampleDogQuery()
    ensures Words("dog") == ["dog"]
    ensures !Matches(LoopComic, ["dog"]) && !Matches(CatComic, ["dog"])
  {
    ExampleBlobs();
    WordsRun("dog");
    assert Lower(["dog"][0]) == "dog";
    AbsentChar(Lower(Blob(LoopComic)), "dog", 0);
    AbsentChar(Lower(Blob(CatComic)), "dog", 0);
  }

  lemma ExampleUpperQuery()
    ensures Words("CAT") == ["CAT"]
    ensures !Matches(LoopComic, ["CAT"]) && Matches(CatComic, ["CAT"])
  {
    ExampleBlobs();
    WordsRun("CAT");
    assert Lower(["CAT"][0]) == "cat";
    AbsentChar(Lower(Blob(LoopComic)), "cat", 0);
    assert OccursAt(Lower(Blob(CatComic)), "cat", 0);
  }

  // Four example searches over two comics:

  /** "loop" finds the first comic only. */
  lemma SearchExampleLoop()
    ensures Search([LoopComic, CatComic], "loop") == [LoopComic]
  {
    ExampleLoopQuery();
    SelectPair(LoopComic, CatComic, ["loop"]);
  }

  /** "cat infinite" finds both comics: one matching token suffices. */
  lemma SearchExampleEither()
    ensures Search([LoopComic, CatComic], "cat" + [' '] + "infinite") == [LoopComic, CatComic]
  {
    TwoWords("cat", "infinite");
    ExampleEitherQuery();
    SelectPair(LoopComic, CatComic, ["cat", "infinite"]);
  }

  /** "dog" finds nothing. */
  lemma SearchExampleDog()
    ensures Search([LoopComic, CatComic], "dog") == []
  {
    ExampleDogQuery();
    SelectPair(LoopComic, CatComic, ["dog"]);
  }

  /** "CAT" finds the comic titled "Cat": matching ignores case. */
  lemma SearchExampleUpper()
    ensures Search([LoopComic, CatComic], "CAT") == [CatComic]
  {
    ExampleUpperQuery();
    SelectPair(LoopComic, CatComic, ["CAT"]);
  }
}
