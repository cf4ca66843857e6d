# searxkcd index and search core in Dafny

This project models the two pure parts of searxkcd, a desktop xkcd search tool.

- **The comic index** (`src/index.rs`). It covers the `Comic` record and the way
  `get_comic` fetches one comic:
  - it rejects ids outside `1..=latest`;
  - it reads `num`, `img`, `title` and `alt` from the comic's `info.0.json`;
  - it fetches the comic's explainxkcd page and cuts out the transcript
    snippet, which runs from the first `<dl>` after "Transcript" up to the
    `<span id="Discussion">` marker;
  - it joins the snippet's `<dd>` texts, each followed by one space.

  It also covers `update_index`, which appends the latest comic to the index.
- **Query matching** (`src/search.rs`). `get_results` splits the query on
  whitespace. It keeps, in index order, every comic whose lower-cased text
  contains at least one lower-cased token.

Every `panic!`, `expect` and `unwrap` in `get_comic` becomes an `Err` of
`Index.Error`. The model does not run any I/O. Each HTTP request with its JSON
decoding is a function parameter: `fetchMeta` maps a URL to the decoded
metadata fields, or to `None` when the request or the decoding fails.
`fetchPage` maps a URL to the page body. `parseDd` stands for the HTML parser
and maps a snippet to the `<dd>` texts of each `<dl>`. The latest comic id is a
parameter.

Modules:
- `Results`: `Option` and `Result`.
- `Text`: `find`, `contains`, and ASCII `to_lowercase`.
- `Decimal`: how `format!` prints an id.
- `Tokens`: `split_whitespace`.
- `Index`: the code in `src/index.rs`.
- `Search`: the code in `src/search.rs`.

Notes on how the code behaves:
- **Missing transcript markers.** A missing marker makes `get_comic` panic, so
  the model returns `TranscriptNotFound`, `DlNotFound` or `SpanNotFound` rather
  than an empty transcript.
- **Snippet start.** The slice starts at the first `<dl>` after "Transcript",
  so the snippet includes the `<dl>` marker itself.
- **Token rule.** A comic is kept when any one token matches. It does not need
  to match every token.

## Model

| member | source | states |
|---|---|---|
| Text.Find | src/index.rs:122-127 | `find` returns a position exactly when the needle occurs, and that position is the first occurrence |
| Text.LowerChar | src/search.rs:14 | case folding maps `A`–`Z` to `a`–`z` and leaves every other character alone; the result is never an upper-case ASCII letter |
| Text.Lower | src/search.rs:14 | the lower-cased string has the same length as the input, and each character is folded on its own |
| Decimal.Render | src/index.rs:102 | the printed id is a non-empty run of decimal digits with no leading zero, and "0" only for zero |
| Decimal.ParseRender | src/index.rs:102 | reading the printed id back as a decimal number gives the id |
| Decimal.RenderInjective | src/index.rs:102 | two different ids never print the same |
| Index.NewComic | src/index.rs:19-27 | `Comic::new` stores each argument unchanged in its like-named field |
| Index.MetadataUrlRoundTrip | src/index.rs:102 | the metadata URL is `https://xkcd.com/` + decimal id + `/info.0.json`, and the id can be read back from it |
| Index.ExplainUrlRoundTrip | src/index.rs:113 | the companion URL is `https://www.explainxkcd.com/wiki/index.php/` + decimal id, and the id can be read back from it |
| Index.AsU64 | src/index.rs:107 | `as_u64` accepts exactly the integers in `0..2^64` and keeps their value |
| Index.MarkersApart | src/index.rs:124-128 | a Discussion span at or after the `<dl>` starts after the whole `<dl>`, so the two markers never overlap |
| Index.ExtractSnippet | src/index.rs:121-128 | each error happens exactly when its cause holds: `TranscriptNotFound` when "Transcript" is absent; `DlNotFound` or `SpanNotFound` when `<dl>` or the Discussion span is absent at or after it (both searched relative to it); `SliceOutOfOrder` when the span precedes the `<dl>` (the slice panic). A snippet it returns is the page between those first occurrences, starts with `<dl>` and does not contain the span |
| Index.ExtractSnippetSucceeds | src/index.rs:121-128 | the snippet is cut exactly when all three markers are found and the first `<dl>` does not come after the first Discussion span |
| Index.SnippetFacts | src/index.rs:123-128 | slicing the suffix after "Transcript" equals slicing the page at the shifted positions; the slice starts with `<dl>` and holds no Discussion span |
| Index.JoinedLength | src/index.rs:137-143 | the transcript's length is the sum of the `<dd>` text lengths plus one per text, and it is empty exactly when there are no texts |
| Index.JoinedAppend | src/index.rs:138-143 | the transcript of two consecutive runs of `<dd>` texts is the first run's transcript followed by the second's |
| Index.JoinedEndsWithSpace | src/index.rs:140-141 | a non-empty transcript ends with the space pushed after its last text |
| Index.AssembleTranscript | src/index.rs:135-143 | the two nested loops over `<dl>` lists and their `<dd>` items build each text followed by a space, in document order, with the stated length |
| Index.GetComic | src/index.rs:94-147 | it fails with `InvalidId` exactly when the id is 0 or above the latest id. A comic it returns has `num`, `img`, `title` and `alt` from the metadata fetched at the id's URL, and its transcript was cut from the page fetched at the URL of `num`. |
| Index.GetComicSucceeds | src/index.rs:96-146 | for a valid id whose metadata has all four fields and whose companion page yields a snippet, fetching returns exactly the comic built from those fields and the joined `<dd>` texts |
| Index.GetComicNeedsTranscript | src/index.rs:122 | for a valid id with complete metadata, a companion page without "Transcript" makes fetching the comic fail with `TranscriptNotFound` |
| Index.UpdateIndex | src/index.rs:150-154 | the index grows by exactly the latest comic at its end and every earlier entry stays unchanged and in order; when fetching that comic fails, the error propagates, and latest id 0 is rejected |
| Tokens.Pieces | src/search.rs:8 | splitting at whitespace yields at least one piece, and no piece contains whitespace |
| Tokens.Words | src/search.rs:8 | every token is non-empty and contains no whitespace |
| Tokens.WordsContent | src/search.rs:8 | the tokens, concatenated, are the query with its whitespace removed |
| Tokens.WordsEmpty | src/search.rs:8 | a query has no tokens exactly when it is empty or all whitespace |
| Tokens.WordsSplit | src/search.rs:8 | a whitespace character separates tokens: the tokens of `a w b` are those of `a` followed by those of `b` |
| Tokens.WordsRun | src/search.rs:8 | a non-empty run without whitespace is exactly one token |
| Tokens.WordsLower | src/search.rs:8 | lower-casing the query lower-cases each token and changes nothing else |
| Search.AnyTokenOccurs | src/search.rs:13-18 | the inner loop with its `break` finds a match exactly when some lower-cased token occurs in the lower-cased blob |
| Search.GetResults | src/search.rs:3-22 | the result equals the order-preserving filter of the index by "some token matches"; a comic is a result exactly when it is in the index and matches; there are never more results than comics |
| Search.Positions | src/search.rs:11-19 | the kept positions are in range and strictly increasing, and a position is kept exactly when its comic matches |
| Search.SelectIsSubsequence | src/search.rs:11-19 | the k-th result is the comic at the k-th kept position, so the results are a subsequence of the index in which each entry appears at most once |
| Search.SelectMembership | src/search.rs:12-17 | a comic is a result exactly when it is in the index and at least one token matches it |
| Search.SelectLength | src/search.rs:11-19 | there are never more results than comics in the index |
| Search.EmptyQuery | src/search.rs:8-19 | an empty or all-whitespace query finds nothing |
| Search.QueryCaseInsensitive | src/search.rs:14 | two queries that differ only in ASCII letter case give the same results |
| Search.LowerQueryUnchanged | src/search.rs:14 | searching with the lower-cased query gives the same results as searching with the query itself |
| Search.ComicCaseInsensitive | src/search.rs:14 | changing the ASCII letter case of a comic's title, alt text or transcript does not change whether it matches |
| Search.SearchExampleLoop | src/search.rs:11-19 | with comics "Loop" and "Cat", the query "loop" finds only the first |
| Search.SearchExampleEither | src/search.rs:13-16 | the query "cat infinite" finds both comics, because one matching token suffices |
| Search.SearchExampleDog | src/search.rs:11-19 | the query "dog" finds neither comic |
| Search.SearchExampleUpper | src/search.rs:14 | the query "CAT" finds the comic titled "Cat" |

## Left out

- `src/main.rs` and `src/utils.rs`: SDL2 windows, fonts, textures and the event loop are presentation only.
- `download_img`, `init_index`, `get_home` and the index-file write in `update_index`: filesystem I/O. The sequence `UpdateIndex` returns is the one the original serialises to the index file.
- `get_latest_id`: a network call. The latest id is a parameter.
- Network requests, `serde_json` decoding and `scraper` parsing are function parameters, so their failures appear only as `RequestFailed`. The JSON-decoding `unwrap` is folded into `fetchMeta` returning `None`. `MissingField` covers a field that is absent or has the wrong type.
- `tokio` async/await has no meaning in the model. Neither does the `println!` in `update_index`.
- Index.UpdateIndex: the original fetches the latest id twice, once in `update_index` and once inside `get_comic`. The model uses a single value. A newer comic published between the two requests changes nothing, because the first id is still within range. What the model leaves out is a second request returning a smaller id: the original then panics with "Invalid comic id", while the model succeeds.
- Text.Lower: folds ASCII letters only. Rust's `to_lowercase` also folds non-ASCII letters, and can change a string's length.
- Search.GetResults: takes the index as a parameter. `src/search.rs` obtains it from a zero-argument `update_index()` that the shown `src/index.rs` does not define. Likewise `Comic::blob` and `Comic::clone` are not defined there, so `Search.Blob` is an assumption: title, then alt text, then transcript, concatenated.
- Positions are character positions, while Rust's `find` and slicing use byte offsets. The cut substring and the test of which marker comes first are the same either way, because every slice bound comes from a `find` on the same string. The positions themselves differ: `SliceOutOfOrder(start, end)` carries character positions, not the byte offsets of the original.
