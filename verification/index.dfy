/** The comic index: the `Comic` record, fetching one comic (id guard,
    metadata fields, transcript scraping) and appending the latest comic to
    the index. Network requests, JSON decoding and HTML parsing are passed in
    as functions, so every outcome of those calls is an input of the model. */
module Index {
  import opened Results
  import opened Text
  import Decimal

  /** Rust's `u64`. */
  type U64 = x: int | 0 <= x < 0x1_0000_0000_0000_0000

  datatype Comic = Comic(id: U64, title: string, alt: string, img: string, transcript: string)

  /** `Comic::new`. */
  function NewComic(id: U64, title: string, alt: string, img: string, transcript: string): (c: Comic)
    ensures c.id == id && c.title == title && c.alt == alt
    ensures c.img == img && c.transcript == transcript
  {
    Comic(id, title, alt, img, transcript)
  }

  /** The fields of a decoded `info.0.json` response. `num` is present when the
      field holds an integer; the others when the field holds a string. */
  datatype Metadata = Metadata(num: Option<int>, img: Option<string>, title: Option<string>, alt: Option<string>)

  /** Every point where fetching a comic panics in the original. */
  datatype Error =
    | InvalidId(id: U64)
    | RequestFailed(url: string)
    | MissingField(field: string)
    | TranscriptNotFound
    | DlNotFound
    | SpanNotFound
    | SliceOutOfOrder(start: nat, end: nat)

  const XkcdBase := "https://xkcd.com/"
  const InfoSuffix := "/info.0.json"
  const ExplainBase := "https://www.explainxkcd.com/wiki/index.php/"

  const TranscriptMarker := "Transcript"
  const DlMarker := "<dl>"
  const DiscussionMarker := "<span id=\"Discussion\">"

  /** The metadata endpoint of comic `id`. */
  function MetadataUrl(id: nat): string {
    XkcdBase + Decimal.Render(id) + InfoSuffix
  }

  /** The companion wiki page of comic `id`. */
  function ExplainUrl(id: nat): string {
    ExplainBase + Decimal.Render(id)
  }

  /** Recovers the id from a metadata URL, if it is one. */
  function IdOfMetadataUrl(url: string): Option<nat> {
    if |url| < |XkcdBase| + |InfoSuffix| then None
    else if url[..|XkcdBase|] != XkcdBase || url[|url| - |InfoSuffix|..] != InfoSuffix then None
    else Decimal.Parse(url[|XkcdBase|..|url| - |InfoSuffix|])
  }

  /** Recovers the id from a companion page URL, if it is one. */
  function IdOfExplainUrl(url: string): Option<nat> {
    if |url| < |ExplainBase| || url[..|ExplainBase|] != ExplainBase then None
    else Decimal.Parse(url[|ExplainBase|..])
  }

  /** The metadata URL names its comic: the decimal id sits between the fixed
      prefix and suffix, so the id can be read back and no two ids share a URL. */
  lemma MetadataUrlRoundTrip(id: nat)
    ensures IdOfMetadataUrl(MetadataUrl(id)) == Some(id)
  {
    var d := Decimal.Render(id);
    var url := MetadataUrl(id);
    assert url[..|XkcdBase|] == XkcdBase;
    assert url[|url| - |InfoSuffix|..] == InfoSuffix;
    assert url[|XkcdBase|..|url| - |InfoSuffix|] == d;
    Decimal.ParseRender(id);
  }

  /** The companion URL is the wiki prefix followed by the decimal id. */
  lemma ExplainUrlRoundTrip(id: nat)
    ensures IdOfExplainUrl(ExplainUrl(id)) == Some(id)
  {
    var url := ExplainUrl(id);
    assert url[..|ExplainBase|] == ExplainBase;
    assert url[|ExplainBase|..] == Decimal.Render(id);
    Decimal.ParseRender(id);
  }

  /** `as_u64()`: an integer outside the `u64` range is rejected. */
  function AsU64(n: Option<int>): (r: Option<U64>)
    ensures r.Some? <==> n.Some? && 0 <= n.value < 0x1_0000_0000_0000_0000
    ensures r.Some? ==> r.value == n.value
  {
    match n
    case Some(v) => if 0 <= v < 0x1_0000_0000_0000_0000 then Some(v) else None
    case None => None
  }

  // ---------------------------------------------------------------------
  // Transcript snippet

  /** The marker positions the snippet is cut at: the first "Transcript" at
      `t` in the page, and, relative to `t`, the first "<dl>" at `a` and the
      first Discussion span at `b`. */
  ghost predicate SnippetBounds(body: string, t: nat, a: nat, b: nat) {
    && FirstAt(body, TranscriptMarker, t)
    && FirstAt(body[t..], DlMarker, a)
    && FirstAt(body[t..], DiscussionMarker, b)
  }

  /** An occurrence inside a slice is an occurrence in the whole string,
      shifted by the slice's start. */
  lemma OccursInSlice(hay: string, lo: nat, hi: nat, needle: string, j: nat)
    requires lo <= hi <= |hay|
    ensures OccursAt(hay[lo..hi], needle, j) <==> j + |needle| <= hi - lo && OccursAt(hay, needle, lo + j)
  {
    if j + |needle| <= hi - lo {
      var w := hay[lo..hi][j..j + |needle|];
      assert forall k :: 0 <= k < |needle| ==> w[k] == hay[lo + j + k];
      assert w == hay[lo + j..lo + j + |needle|];
    }
  }

  /** "<dl>" and the Discussion span cannot overlap: if the span does not
      come first it begins after the whole "<dl>". */
  lemma MarkersApart(s: string, a: nat, b: nat)
    requires OccursAt(s, DlMarker, a) && OccursAt(s, DiscussionMarker, b)
    requires a <= b
    ensures a + |DlMarker| <= b
  {
    assert s[a] == DlMarker[0] && s[a + 1] == DlMarker[1];
    assert s[a + 2] == DlMarker[2] && s[a + 3] == DlMarker[3];
    assert s[b] == DiscussionMarker[0] && s[b + 1] == DiscussionMarker[1];
  }

  /** The slice of the companion page that holds the transcript list: from
      the first "<dl>" after the "Transcript" heading up to, not including,
      the Discussion span. Each missing marker, and a span that precedes the
      "<dl>" (where the original's slice panics), is an error. */
  function ExtractSnippet(body: string): (r: Result<string, Error>)
    ensures r == Err(TranscriptNotFound) <==> !Contains(body, TranscriptMarker)
    ensures r == Err(DlNotFound) <==>
      exists t: nat :: FirstAt(body, TranscriptMarker, t) && !Contains(body[t..], DlMarker)
    ensures r == Err(SpanNotFound) <==>
      exists t: nat :: FirstAt(body, TranscriptMarker, t) && Contains(body[t..], DlMarker)
                       && !Contains(body[t..], DiscussionMarker)
    ensures r.Err? && r.error.SliceOutOfOrder? <==>
      exists t: nat, a: nat, b: nat :: SnippetBounds(body, t, a, b) && b < a
    ensures r.Ok? ==>
      exists t: nat, a: nat, b: nat :: SnippetBounds(body, t, a, b) && a <= b && r.value == body[t + a..t + b]
    ensures r.Ok? ==> |r.value| >= |DlMarker| && r.value[..|DlMarker|] == DlMarker
    ensures r.Ok? ==> !Contains(r.value, DiscussionMarker)
  {
    var t :- Require(Find(body, TranscriptMarker), TranscriptNotFound);
    var after := body[t..];
    var a :- Require(Find(after, DlMarker), DlNotFound);
    var b :- Require(Find(after, DiscussionMarker), SpanNotFound);
    assert SnippetBounds(body, t, a, b);
    SnippetBoundsUnique(body, t, a, b);
    if a > b then
      Err(SliceOutOfOrder(a, b))
    else
      SnippetFacts(body, t, a, b);
      Ok(after[a..b])
  }

  /** The snippet is cut exactly when all three markers are found and the
      first "<dl>" does not come after the first Discussion span. */
  lemma ExtractSnippetSucceeds(body: string)
    ensures ExtractSnippet(body).Ok? <==>
      exists t: nat, a: nat, b: nat :: SnippetBounds(body, t, a, b) && a <= b
  {
    if exists t: nat, a: nat, b: nat :: SnippetBounds(body, t, a, b) && a <= b {
      var t: nat, a: nat, b: nat :| SnippetBounds(body, t, a, b) && a <= b;
      assert OccursAt(body, TranscriptMarker, t);
      assert OccursAt(body[t..], DlMarker, a);
      assert OccursAt(body[t..], DiscussionMarker, b);
      var t' := Find(body, TranscriptMarker).value;
      FirstAtUnique(body, TranscriptMarker, t, t');
      var a' := Find(body[t..], DlMarker).value;
      var b' := Find(body[t..], DiscussionMarker).value;
      FirstAtUnique(body[t..], DlMarker, a, a');
      FirstAtUnique(body[t..], DiscussionMarker, b, b');
    }
  }

  lemma SnippetBoundsUnique(body: string, t: nat, a: nat, b: nat)
    requires SnippetBounds(body, t, a, b)
    ensures forall t': nat, a': nat, b': nat :: SnippetBounds(body, t', a', b') ==> t' == t && a' == a && b' == b
  {
    forall t': nat, a': nat, b': nat | SnippetBounds(body, t', a', b')
      ensures t' == t && a' == a && b' == b
    {
      FirstAtUnique(body, TranscriptMarker, t, t');
      FirstAtUnique(body[t..], DlMarker, a, a');
      FirstAtUnique(body[t..], DiscussionMarker, b, b');
    }
  }

  lemma SnippetFacts(body: string, t: nat, a: nat, b: nat)
    requires SnippetBounds(body, t, a, b) && a <= b
    ensures t + b <= |body|
    ensures body[t..][a..b] == body[t + a..t + b]
    ensures a + |DlMarker| <= b && body[t..][a..b][..|DlMarker|] == DlMarker
    ensures !Contains(body[t..][a..b], DiscussionMarker)
  {
    var after := body[t..];
    MarkersApart(after, a, b);
    var snippet := after[a..b];
    assert snippet[..|DlMarker|] == after[a..a + |DlMarker|];
    forall j: nat
      ensures !OccursAt(snippet, DiscussionMarker, j)
    {
      OccursInSlice(after, a, b, DiscussionMarker, j);
    }
  }

  // ---------------------------------------------------------------------
  // Transcript assembly

  /** The `<dd>` texts of all `<dl>` lists, in document order. */
  function Flatten(dls: seq<seq<string>>): seq<string> {
    if |dls| == 0 then [] else Flatten(dls[..|dls| - 1]) + dls[|dls| - 1]
  }

  /** Each text followed by one space, all concatenated. */
  function Joined(items: seq<string>): string {
    if |items| == 0 then "" else Joined(items[..|items| - 1]) + items[|items| - 1] + " "
  }

  function TotalLength(items: seq<string>): nat {
    if |items| == 0 then 0 else TotalLength(items[..|items| - 1]) + |items[|items| - 1]|
  }

  /** Every text contributes its characters plus one separator. */
  lemma {:induction false} JoinedLength(items: seq<string>)
    ensures |Joined(items)| == TotalLength(items) + |items|
    ensures Joined(items) == "" <==> |items| == 0
  {
    if |items| > 0 {
      JoinedLength(items[..|items| - 1]);
    }
  }

  /** Joining distributes over concatenation of the text lists. */
  lemma {:induction false} JoinedAppend(a: seq<string>, b: seq<string>)
    ensures Joined(a + b) == Joined(a) + Joined(b)
  {
    if |b| == 0 {
      assert a + b == a;
    } else {
      var b' := b[..|b| - 1];
      assert (a + b)[..|a + b| - 1] == a + b';
      JoinedAppend(a, b');
    }
  }

  /** A non-empty transcript is its texts each followed by a space: the last
      character is the separator after the last text. */
  lemma JoinedEndsWithSpace(items: seq<string>)
    requires |items| > 0
    ensures Joined(items)[|Joined(items)| - 1] == ' '
  {
  }

  /** The two nested loops that build the transcript string. */
  method AssembleTranscript(dls: seq<seq<string>>) returns (transcript: string)
    ensures transcript == Joined(Flatten(dls))
    ensures |transcript| == TotalLength(Flatten(dls)) + |Flatten(dls)|
    ensures transcript == "" <==> |Flatten(dls)| == 0
  {
    transcript := "";
    for i := 0 to |dls|
      invariant transcript == Joined(Flatten(dls[..i]))
    {
      var done := Flatten(dls[..i]);
      assert done + dls[i][..0] == done;
      for j := 0 to |dls[i]|
        invariant transcript == Joined(done + dls[i][..j])
      {
        assert (done + dls[i][..j + 1])[..|done| + j] == done + dls[i][..j];
        transcript := transcript + dls[i][j];
        transcript := transcript + " ";
      }
      assert dls[..i + 1][..i] == dls[..i];
      assert dls[i][..|dls[i]|] == dls[i];
    }
    assert dls[..|dls|] == dls;
    JoinedLength(Flatten(dls));
  }

  // ---------------------------------------------------------------------
  // Fetching one comic and updating the index

  /** `get_comic`: reject ids outside `1..=latest`, fetch the metadata of
      `id`, take `num`, `img`, `title` and `alt` from it, fetch the companion
      page of `num`, cut the transcript snippet out of it and join the `<dd>`
      texts that `parseDd` finds in the snippet. */
  function GetComic(
    id: U64, latest: U64,
    fetchMeta: string -> Option<Metadata>,
    fetchPage: string -> Option<string>,
    parseDd: string -> seq<seq<string>>): (r: Result<Comic, Error>)
    ensures r == Err(InvalidId(id)) <==> id == 0 || id > latest
    ensures r.Ok? ==> 1 <= id <= latest
    ensures r.Ok? ==>
      var meta := fetchMeta(MetadataUrl(id));
      && meta.Some?
      && meta.value.num == Some(r.value.id as int)
      && meta.value.img == Some(r.value.img)
      && meta.value.title == Some(r.value.title)
      && meta.value.alt == Some(r.value.alt)
    ensures r.Ok? ==>
      var page := fetchPage(ExplainUrl(r.value.id));
      && page.Some?
      && ExtractSnippet(page.value).Ok?
      && r.value.transcript == Joined(Flatten(parseDd(ExtractSnippet(page.value).value)))
  {
    if id == 0 || id > latest then
      Err(InvalidId(id))
    else
      var apiUrl := MetadataUrl(id);
      var meta :- Require(fetchMeta(apiUrl), RequestFailed(apiUrl));
      var num :- Require(AsU64(meta.num), MissingField("num"));
      var img :- Require(meta.img, MissingField("img"));
      var title :- Require(meta.title, MissingField("title"));
      var alt :- Require(meta.alt, MissingField("alt"));
      var explainUrl := ExplainUrl(num);
      var body :- Require(fetchPage(explainUrl), RequestFailed(explainUrl));
      var snippet :- ExtractSnippet(body);
      Ok(NewComic(num, title, alt, img, Joined(Flatten(parseDd(snippet)))))
  }

  /** When every step works, fetching a valid id returns the comic built
      from the metadata fields and the joined `<dd>` texts of the snippet. */
  lemma GetComicSucceeds(
    id: U64, latest: U64,
    fetchMeta: string -> Option<Metadata>,
    fetchPage: string -> Option<string>,
    parseDd: string -> seq<seq<string>>)
    requires 1 <= id <= latest
    requires fetchMeta(MetadataUrl(id)).Some?
    requires var m := fetchMeta(MetadataUrl(id)).value;
      AsU64(m.num).Some? && m.img.Some? && m.title.Some? && m.alt.Some?
    requires var page := fetchPage(ExplainUrl(fetchMeta(MetadataUrl(id)).value.num.value));
      page.Some? && ExtractSnippet(page.value).Ok?
    ensures var m := fetchMeta(MetadataUrl(id)).value;
      var snippet := ExtractSnippet(fetchPage(ExplainUrl(m.num.value)).value).value;
      GetComic(id, latest, fetchMeta, fetchPage, parseDd)
        == Ok(Comic(m.num.value, m.title.value, m.alt.value, m.img.value, Joined(Flatten(parseDd(snippet)))))
  {
  }

  /** A companion page without a "Transcript" heading makes fetching a
      comic with a valid id and complete metadata fail. */
  lemma GetComicNeedsTranscript(
    id: U64, latest: U64,
    fetchMeta: string -> Option<Metadata>,
    fetchPage: string -> Option<string>,
    parseDd: string -> seq<seq<string>>)
    requires 1 <= id <= latest
    requires fetchMeta(MetadataUrl(id)).Some?
    requires var m := fetchMeta(MetadataUrl(id)).value;
      AsU64(m.num).Some? && m.img.Some? && m.title.Some? && m.alt.Some?
    requires var page := fetchPage(ExplainUrl(fetchMeta(MetadataUrl(id)).value.num.value));
      page.Some? && !Contains(page.value, TranscriptMarker)
    ensures GetComic(id, latest, fetchMeta, fetchPage, parseDd) == Err(TranscriptNotFound)
  {
  }

  /** `update_index`: fetch the latest comic (its id is the latest id) and
      push it onto the index. The returned sequence is what gets written to
      the index file. */
  function UpdateIndex(
    comics: seq<Comic>, latest: U64,
    fetchMeta: string -> Option<Metadata>,
    fetchPage: string -> Option<string>,
    parseDd: string -> seq<seq<string>>): (r: Result<seq<Comic>, Error>)
    ensures r.Ok? ==> |r.value| == |comics| + 1 && r.value[..|comics|] == comics
    ensures latest == 0 ==> r == Err(InvalidId(0))
    ensures var fetched := GetComic(latest, latest, fetchMeta, fetchPage, parseDd);
      && (r.Ok? <==> fetched.Ok?)
      && (r.Ok? ==> r.value[|comics|] == fetched.value)
      && (r.Err? ==> r.error == fetched.error)
  {
    var latestComic :- GetComic(latest, latest, fetchMeta, fetchPage, parseDd);
    Ok(comics + [latestComic])
  }
}
