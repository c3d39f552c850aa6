# ekantipur scraper — verified model of the extraction logic

The scraper reads two pages of ekantipur.com through a browser driver. It keeps
the first five entertainment article cards as records: title, image URL, the
fixed category `मनोरञ्जन` and author. It also builds one "cartoon of the day"
record whose image URL is recovered from a thumbnail URL.

This project models the logic between the browser and the output file. The page is a
snapshot: the results of the CSS queries are given as values.

- `wrappers.dfy`, module `Wrappers`: `Option` (Python's `None`) and `Result`.
- `pystr.dfy`, module `PyStr`: the Python `str` operations the scraper calls. These
  are `strip`, the `in` operator and `split` with an explicit separator. `isspace`
  (the 29 code points Python counts as whitespace), `find` and `join` are there to
  define and characterise those three. `strip` is the unique trimmed infix, `split`
  round-trips through `join`, and no piece of a split holds the separator.
- `scraper.dfy`, module `Scraper`: the safe accessors, the thumbnail-to-direct-URL
  conversion, `scrape_entertainment` (a method with a loop, as in the source) and
  `scrape_cartoon`.

An `Element` says what its extractions return. `innerText` is `None` when
`inner_text()` would raise. Each attribute read has its own outcome, so reading `src`
can raise while reading `alt` succeeds:
- a name mapped to `None` raises when read;
- a name mapped to `Some(v)` reads as `v`;
- a name not in the map is a missing attribute, which reads as `None` without raising,
  as Playwright does.

A `Card` holds what a card's `h2`, `.author` and `.image img` queries found. A `Section`
holds what the cartoon wrapper's `figure.popup-image img` and `.cartoon-author` queries
found. A `CartoonPage` holds whether the waited-for cartoon image appeared within the
30-second wait, and what the `section.cartoon-wrapper` query found.

The URL conversion follows the code `thumbnail_url.split("src=")[1].split("&")[0]`,
which is a substring cut, not a parse of the `src` query parameter:
- `src=` is matched as a raw substring, so `imgsrc=` matches too.
- The value also stops at a second `src=`, because `split` cuts there.
- A percent-encoded `&` is not decoded.

`DirectUrlAfterFirstMarker` states this exact behaviour.

## Model

| member | source | states |
|---|---|---|
| `PyStr.Strip` | scraper.py:16 | `str.strip()`: the result is an infix of the text with only whitespace before and after it, and it neither starts nor ends with whitespace |
| `PyStr.StripUnique` | scraper.py:16 | any infix with only whitespace outside it and none at its ends is the stripped text, so `Strip` is exactly Python's `strip` |
| `PyStr.StripKeepsTrimmed` | scraper.py:16 | text with no surrounding whitespace is unchanged by `strip` |
| `PyStr.StripIdempotent` | scraper.py:16 | stripping twice is the same as stripping once |
| `PyStr.SkipSpace` | scraper.py:16 | the scan for the first non-whitespace code point stops at one, or at the end, having passed only whitespace |
| `PyStr.SkipSpaceBack` | scraper.py:16 | the backward scan drops exactly the trailing whitespace |
| `PyStr.IsSpace` | scraper.py:16 | the whitespace test holds exactly for the 29 code points Python's `str.isspace` accepts, listed one by one |
| `PyStr.Contains` | scraper.py:77 | the `in` test: the empty pattern is in every string, and no pattern longer than the string is |
| `PyStr.FindFrom` | scraper.py:77 | the leftmost occurrence of the pattern at or after a position, or none at all from there on |
| `PyStr.ContainsIffFound` | scraper.py:77 | the `in` test holds exactly when the leftmost-occurrence search succeeds |
| `PyStr.SplitFrom` | scraper.py:78 | `split` always yields at least one piece |
| `PyStr.Split` | scraper.py:78 | `s.split(sep)` yields at least one piece; joining the pieces with `sep` gives `s` back, and no piece contains `sep` |
| `PyStr.SplitFromJoin` | scraper.py:78 | the pieces of the split from a position, joined with `sep`, give the text from that position back |
| `PyStr.SplitFromPiecesFree` | scraper.py:78 | no piece of the split from a position contains `sep` |
| `PyStr.SplitFirstPieces` | scraper.py:78 | piece 0 is the text before the first separator, or the whole text if there is none; piece 1 exists exactly when the separator occurs and runs from just after it to the next separator or the end |
| `Scraper.SafeText` | scraper.py:12-19 | absent exactly when the element is absent or reading its text fails; otherwise the stripped text, which has no surrounding whitespace |
| `Scraper.SafeTextOfTrimmed` | scraper.py:12-19 | an element whose text is already trimmed yields that text unchanged |
| `Scraper.SafeAttr` | scraper.py:22-29 | absent exactly when the element is absent, the attribute is missing, or reading that attribute fails; otherwise the raw attribute value, unchanged |
| `Scraper.DirectImageUrl` | scraper.py:76-78 | the conversion: absent exactly when the thumbnail is absent; never longer than the thumbnail; when it differs from the thumbnail, it holds no `&` and no `src=` |
| `Scraper.DirectUrlWithoutMarker` | scraper.py:76-78 | an absent thumbnail, or one without `src=`, is kept unchanged as the image URL |
| `Scraper.AfterFirstMarker` | scraper.py:78 | `t.split("src=")[1]` starts right after the first `src=` and ends at the next `src=` or at the end, with no `src=` starting inside it |
| `Scraper.CutAtAmpersand` | scraper.py:78 | `piece.split("&")[0]` is the longest prefix of the piece without `&` |
| `Scraper.DirectUrlAfterFirstMarker` | scraper.py:76-78 | with `src=` first at `i`, the image URL is the infix of the thumbnail starting right after that `src=`, with no `&` and no `src=` in it, and cut at an `&`, at a further `src=` or at the end |
| `Scraper.DirectUrlAt` | scraper.py:76-78 | when the first `src=` is followed by a `url` without `&` or `src=`, which ends at an `&` or at the end, the conversion gives exactly `url` |
| `Scraper.DirectUrlOfParts` | scraper.py:76-78 | round trip: a thumbnail `prefix + "src=" + url + rest` converts back to `url` when the prefix has no `src=`, the url has no `&` and no `src=`, and the rest is empty or starts with `&` |
| `Scraper.DirectUrlExampleEmbedded` | scraper.py:76-78 | `https://img.example/thumb.php?src=https://cdn.example/full.jpg&w=200` converts to `https://cdn.example/full.jpg` |
| `Scraper.DirectUrlExampleDirect` | scraper.py:76-78 | `https://cdn.example/direct.jpg`, which has no marker, is kept as it is |
| `Scraper.ArticleOf` | scraper.py:40-53 | the record for one card: fixed category; title and author absent exactly when the element is missing or its text read fails, and otherwise the stripped text of that element; image URL absent exactly when the image is missing, or its `src` is missing or its read fails, and otherwise the raw `src` value |
| `Scraper.ScrapeEntertainment` | scraper.py:32-55 | returns `min(#cards, 5)` records, at most `ARTICLE_LIMIT`; record `i` is built from card `i` alone, in document order, with no card dropped; every category is the literal `मनोरञ्जन` |
| `Scraper.EmptyCardRecord` | scraper.py:38-53 | a card whose title, author and image queries all found nothing still yields a record with absent fields and the fixed category |
| `Scraper.ScrapeCartoon` | scraper.py:58-87 | fails exactly when the image wait times out; otherwise returns no record exactly when the wrapper section is absent; otherwise a record with the image's `alt` as title, the converted `src` as image URL, and the stripped `.cartoon-author` text as author |

## Left out

- Browser session handling (`sync_playwright`, `chromium.launch`, `new_page`, and `browser.close` in the `finally` block): foreign-library resource management.
- `page.goto` and its failures: network I/O. A navigation failure propagates as an exception in the source and is not represented here.
- The 30-second `wait_for_selector`: timing. It is reduced to the `imageRendered` flag of the page snapshot, independent of `wrapper`. In the source the wait is for an image inside `section.cartoon-wrapper`, so a page that never has the section times out and aborts the run. "Wrapper absent after a successful wait", kept here as a separate outcome as the source codes it, happens only if the page changes between the wait and the wrapper query.
- CSS selector matching (`query_selector`, `query_selector_all`): replaced by the `Card` and `Section` values that hold each query's result. A query that raises, which aborts the run in the source because the calls are outside any `try`, is not represented.
- `main`: JSON serialisation, writing `output.json` and the console summary line are I/O, and the `headless` option only affects display.
- What Playwright's `inner_text()` does to the text before `strip`: outside the model. Only Python's `strip` is modelled.
- Python versions: the repository does not pin one. The whitespace set is the 29 code points of current Unicode data.
