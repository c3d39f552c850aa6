/**
 * The extraction logic of the ekantipur scraper, over an in-memory snapshot of
 * the page instead of a live browser: the results of the CSS queries are given
 * as `Card` and `Section` values, and every element says what its text and
 * attribute extractions would return.
 */
module Scraper {
  import opened Wrappers
  import opened PyStr

  /** How many entertainment cards are kept. */
  const ARTICLE_LIMIT: nat := 5

  /** The fixed category label of every entertainment record ("entertainment" in Nepali). */
  const ENTERTAINMENT_CATEGORY: string := "\U{092E}\U{0928}\U{094B}\U{0930}\U{091E}\U{094D}\U{091C}\U{0928}"

  /** The marker after which a cartoon thumbnail URL embeds the direct image URL. */
  const SRC_MARKER: string := "src="

  /**
   * A page element as the scraper sees it. `innerText` is `None` when reading the
   * text raises. Each attribute read has its own outcome: a name mapped to `None`
   * raises when read, a name mapped to `Some(v)` reads as `v`, and a name not in
   * the map is a missing attribute, which reads as `None` without raising.
   */
  datatype Element = Element(innerText: Option<string>, attributes: map<string, Option<string>>)

  /** One entertainment listing card: what its `h2`, `.author` and `.image img` queries found. */
  datatype Card = Card(title: Option<Element>, author: Option<Element>, image: Option<Element>)

  /** The cartoon wrapper section: what its `figure.popup-image img` and `.cartoon-author` queries found. */
  datatype Section = Section(image: Option<Element>, author: Option<Element>)

  /**
   * The cartoon page: whether the cartoon image rendered within the 30-second
   * wait, and what the `section.cartoon-wrapper` query found afterwards.
   */
  datatype CartoonPage = CartoonPage(imageRendered: bool, wrapper: Option<Section>)

  datatype ArticleRecord = ArticleRecord(
    title: Option<string>, imageUrl: Option<string>, category: string, author: Option<string>)

  datatype CartoonRecord = CartoonRecord(title: Option<string>, imageUrl: Option<string>, author: Option<string>)

  /** The one failure of cartoon extraction: the image did not appear in time. */
  datatype ScrapeError = WaitTimeout

  function Min(a: nat, b: nat): nat
  {
    if a <= b then a else b
  }

  /**
   * `safe_text`: absent when there is no element or reading its text fails;
   * otherwise the text with surrounding whitespace removed.
   */
  function SafeText(element: Option<Element>): (r: Option<string>)
    ensures r.None? <==> element.None? || element.value.innerText.None?
    ensures r.Some? ==> r.value == Strip(element.value.innerText.value) && NoSurroundingSpace(r.value)
  {
    match element
    case None => None
    case Some(e) =>
      match e.innerText
      case None => None
      case Some(text) => Some(Strip(text))
  }

  /** Reading an element whose text is already trimmed gives that text unchanged. */
  lemma SafeTextOfTrimmed(e: Element)
    requires e.innerText.Some? && NoSurroundingSpace(e.innerText.value)
    ensures SafeText(Some(e)) == e.innerText
  {
    StripKeepsTrimmed(e.innerText.value);
  }

  /**
   * `safe_attr`: absent when there is no element, reading the attribute fails or
   * the attribute is missing; otherwise the attribute's value, unchanged.
   */
  function SafeAttr(element: Option<Element>, name: string): (r: Option<string>)
    ensures r.None? <==>
              element.None? || name !in element.value.attributes || element.value.attributes[name].None?
    ensures r.Some? ==> r.value == element.value.attributes[name].value
  {
    match element
    case None => None
    case Some(e) =>
      if name !in e.attributes then None
      else
        match e.attributes[name]
        case None => None
        case Some(value) => Some(value)
  }

  /**
   * The thumbnail-to-direct-URL conversion of the cartoon extractor: when the
   * thumbnail URL is present, non-empty and contains `src=`, the text after the
   * first `src=` up to the next `&` (or the next `src=`, or the end), exactly as
   * `thumbnail.split("src=")[1].split("&")[0]`; otherwise the thumbnail URL itself.
   */
  function DirectImageUrl(thumbnail: Option<string>): (r: Option<string>)
    ensures r.None? <==> thumbnail.None?
    ensures r.Some? ==> |r.value| <= |thumbnail.value|
    ensures r.Some? && r != thumbnail ==> '&' !in r.value && !Contains(r.value, SRC_MARKER)
  {
    match thumbnail
    case None => None
    case Some(t) =>
      if t != [] && Find(t, SRC_MARKER).Some? then
        SplitFirstPieces(t, SRC_MARKER);
        var piece := Split(t, SRC_MARKER)[1];
        CutAtAmpersand(piece);
        NoneInside(piece, SRC_MARKER, 0, |Split(piece, "&")[0]|);
        assert piece[0..|Split(piece, "&")[0]|] == Split(piece, "&")[0];
        Some(Split(piece, "&")[0])
      else thumbnail
  }

  /** Without a thumbnail, or without `src=` in it, the URL is kept as it is. */
  lemma DirectUrlWithoutMarker(thumbnail: Option<string>)
    requires thumbnail.None? || !Contains(thumbnail.value, SRC_MARKER)
    ensures DirectImageUrl(thumbnail) == thumbnail
  {
    if thumbnail.Some? {
      ContainsIffFound(thumbnail.value, SRC_MARKER);
    }
  }

  /**
   * The second split of the conversion: `piece.split("&")[0]` is the longest
   * prefix of `piece` without `&`.
   */
  lemma CutAtAmpersand(piece: string)
    ensures var u := Split(piece, "&")[0];
      |u| <= |piece| && u == piece[..|u|] && '&' !in u && (|u| == |piece| || piece[|u|] == '&')
  {
    SplitFirstPieces(piece, "&");
    var amp := Find(piece, "&");
    var k := if amp.Some? then amp.value else |piece|;
    assert piece[..|piece|] == piece;
    assert Split(piece, "&")[0] == piece[..k];
    forall m | 0 <= m < k ensures piece[..k][m] != '&' {
      OccursAtChar(piece, '&', m);
    }
    if amp.Some? {
      OccursAtChar(piece, '&', k);
    }
  }

  /**
   * The first split of the conversion: with `src=` first at `i`,
   * `t.split("src=")[1]` starts right after it and ends at the next `src=` or
   * the end, and no `src=` starts inside it.
   */
  lemma AfterFirstMarker(t: string, i: nat)
    requires OccursAt(t, SRC_MARKER, i)
    requires forall j: nat :: j < i ==> !OccursAt(t, SRC_MARKER, j)
    ensures Find(t, SRC_MARKER) == Some(i) && |Split(t, SRC_MARKER)| >= 2
    ensures var start := i + |SRC_MARKER|;
      var piece := Split(t, SRC_MARKER)[1];
      start + |piece| <= |t| && piece == t[start..start + |piece|] &&
      (start + |piece| == |t| || OccursAt(t, SRC_MARKER, start + |piece|)) &&
      forall j: nat :: start <= j < start + |piece| ==> !OccursAt(t, SRC_MARKER, j)
  {
    SplitFirstPieces(t, SRC_MARKER);
  }

  /**
   * With `src=` first occurring at `i`, the direct URL is the text that starts
   * right after it and runs up to, not including, the next `&`, the next `src=`
   * or the end of the thumbnail, whichever comes first: it holds no `&` and no
   * `src=`, and the cut is at an `&`, at a `src=` or at the end.
   */
  lemma DirectUrlAfterFirstMarker(t: string, i: nat)
    requires OccursAt(t, SRC_MARKER, i)
    requires forall j: nat :: j < i ==> !OccursAt(t, SRC_MARKER, j)
    ensures DirectImageUrl(Some(t)).Some?
    ensures var u := DirectImageUrl(Some(t)).value;
      var start := i + |SRC_MARKER|;
      var end := start + |u|;
      end <= |t| && u == t[start..end] &&
      '&' !in u && !Contains(u, SRC_MARKER) &&
      (end == |t| || t[end] == '&' || OccursAt(t, SRC_MARKER, end))
  {
    var start := i + |SRC_MARKER|;
    AfterFirstMarker(t, i);
    var piece := Split(t, SRC_MARKER)[1];
    CutAtAmpersand(piece);
    var u := Split(piece, "&")[0];
    assert DirectImageUrl(Some(t)) == Some(u);
    assert u == t[start..start + |u|];
    NoneInside(t, SRC_MARKER, start, start + |u|);
    assert |u| < |piece| ==> t[start + |u|] == piece[|u|];
  }

  /** A URL without `=` cannot contain the `src=` marker. */
  lemma NoEqualsNoMarker(t: string)
    requires '=' !in t
    ensures !Contains(t, SRC_MARKER)
  {
    forall j: nat | j + 4 <= |t| ensures !OccursAt(t, SRC_MARKER, j) {
      assert t[j..j + 4][3] == t[j + 3];
    }
  }

  /** What an occurrence of `src=` at `e` says about the code points from `e` on. */
  lemma MarkerChars(t: string, e: nat)
    ensures OccursAt(t, SRC_MARKER, e) ==>
              t[e] == 's' && t[e + 1] == 'r' && t[e + 2] == 'c' && t[e + 3] == '='
  {
    if OccursAt(t, SRC_MARKER, e) {
      assert t[e..e + 4] == SRC_MARKER;
      assert t[e..e + 4][3] == t[e + 3];
    }
  }

  /**
   * In `prefix + "src=" + tail` with no `src=` in `prefix`, the first `src=` is
   * the one after `prefix`: an earlier one would lie in `prefix` or overlap the
   * marker, and `src=` cannot overlap itself.
   */
  lemma FirstMarkerAfterPrefix(prefix: string, tail: string)
    requires !Contains(prefix, SRC_MARKER)
    ensures OccursAt(prefix + SRC_MARKER + tail, SRC_MARKER, |prefix|)
    ensures forall j: nat :: j < |prefix| ==> !OccursAt(prefix + SRC_MARKER + tail, SRC_MARKER, j)
  {
    var t := prefix + SRC_MARKER + tail;
    var i := |prefix|;
    assert t[i..i + |SRC_MARKER|] == SRC_MARKER;
    assert t[0..i] == prefix;
    forall j: nat | j < i ensures !OccursAt(t, SRC_MARKER, j) {
      MarkerChars(t, j);
      OccursInSlice(t, SRC_MARKER, 0, i, j);
    }
  }

  /**
   * Two cuts of `t` at `start` that both hold no `&` and no `src=` are the same
   * when one ends at an `&`, a `src=` or the end of `t`, and the other at an `&`
   * or the end of `t`.
   */
  lemma CutUnique(t: string, start: nat, u: string, url: string)
    requires start + |u| <= |t| && u == t[start..start + |u|] && '&' !in u
    requires start + |u| == |t| || t[start + |u|] == '&' || OccursAt(t, SRC_MARKER, start + |u|)
    requires start + |url| <= |t| && url == t[start..start + |url|]
    requires '&' !in url && !Contains(url, SRC_MARKER)
    requires start + |url| == |t| || t[start + |url|] == '&'
    ensures u == url
  {
    MarkerChars(t, start + |u|);
    OccursInSlice(t, SRC_MARKER, start, start + |url|, start + |u|);
    assert forall k :: 0 <= k < |url| ==> t[start + k] == url[k];
    assert forall k :: 0 <= k < |u| ==> t[start + k] == u[k];
  }

  /**
   * Round trip: a thumbnail built as a prefix without `src=`, the marker `src=`,
   * an embedded URL without `&` or `src=`, and then nothing or a further `&`
   * parameter, converts back to exactly the embedded URL.
   */
  lemma DirectUrlOfParts(prefix: string, url: string, rest: string)
    requires !Contains(prefix, SRC_MARKER)
    requires '&' !in url && !Contains(url, SRC_MARKER)
    requires rest == [] || rest[0] == '&'
    ensures DirectImageUrl(Some(prefix + SRC_MARKER + url + rest)) == Some(url)
  {
    PartsLayout(prefix, url, rest);
    FirstMarkerAfterPrefix(prefix, url + rest);
    DirectUrlAt(prefix + SRC_MARKER + url + rest, |prefix|, url);
  }

  /**
   * With `src=` first at `i` and followed by `url`, which holds no `&` or `src=`
   * and is followed by an `&` or the end, the direct URL is `url`.
   */
  lemma DirectUrlAt(t: string, i: nat, url: string)
    requires OccursAt(t, SRC_MARKER, i)
    requires forall j: nat :: j < i ==> !OccursAt(t, SRC_MARKER, j)
    requires var start := i + |SRC_MARKER|;
      start + |url| <= |t| && t[start..start + |url|] == url &&
      (start + |url| == |t| || t[start + |url|] == '&')
    requires '&' !in url && !Contains(url, SRC_MARKER)
    ensures DirectImageUrl(Some(t)) == Some(url)
  {
    DirectUrlAfterFirstMarker(t, i);
    CutUnique(t, i + |SRC_MARKER|, DirectImageUrl(Some(t)).value, url);
  }

  /** Where the parts of `prefix + "src=" + url + rest` lie. */
  lemma PartsLayout(prefix: string, url: string, rest: string)
    ensures var t := prefix + SRC_MARKER + url + rest;
      var start := |prefix| + |SRC_MARKER|;
      t == prefix + SRC_MARKER + (url + rest) &&
      start + |url| <= |t| && t[start..start + |url|] == url &&
      (rest != [] ==> t[start + |url|] == rest[0])
  {
    var t := prefix + SRC_MARKER + url + rest;
    var start := |prefix| + |SRC_MARKER|;
    assert t[start..start + |url|] == url;
  }

  /** The parts of the embedded example around its marker: neither holds `src=`, and the URL holds no `&`. */
  lemma ExampleEmbeddedParts()
    ensures !Contains("https://img.example/thumb.php?", SRC_MARKER)
    ensures '&' !in "https://cdn.example/full.jpg" && !Contains("https://cdn.example/full.jpg", SRC_MARKER)
  {
    NoEqualsNoMarker("https://img.example/thumb.php?");
    NoEqualsNoMarker("https://cdn.example/full.jpg");
  }

  /** The embedded example taken apart around its marker. */
  lemma ExampleEmbeddedText()
    ensures "https://img.example/thumb.php?" + SRC_MARKER + "https://cdn.example/full.jpg" + "&w=200"
            == "https://img.example/thumb.php?src=https://cdn.example/full.jpg&w=200"
  {
  }

  /** A thumbnail that embeds the direct URL after `src=`, followed by a further parameter. */
  lemma DirectUrlExampleEmbedded()
    ensures DirectImageUrl(Some("https://img.example/thumb.php?src=https://cdn.example/full.jpg&w=200"))
            == Some("https://cdn.example/full.jpg")
  {
    ExampleEmbeddedParts();
    ExampleEmbeddedText();
    DirectUrlOfParts("https://img.example/thumb.php?", "https://cdn.example/full.jpg", "&w=200");
  }

  /** A thumbnail that is already a direct URL. */
  lemma DirectUrlExampleDirect()
    ensures DirectImageUrl(Some("https://cdn.example/direct.jpg")) == Some("https://cdn.example/direct.jpg")
  {
    NoEqualsNoMarker("https://cdn.example/direct.jpg");
    DirectUrlWithoutMarker(Some("https://cdn.example/direct.jpg"));
  }

  /**
   * The record `scrape_entertainment` builds from one card: the title and author
   * are the trimmed texts of the card's title and author elements, the image URL
   * is its image's raw `src`, and the category is the fixed label.
   */
  function ArticleOf(card: Card): (r: ArticleRecord)
    ensures r.category == ENTERTAINMENT_CATEGORY
    ensures r.title.None? <==> card.title.None? || card.title.value.innerText.None?
    ensures r.author.None? <==> card.author.None? || card.author.value.innerText.None?
    ensures r.imageUrl.None? <==>
              card.image.None? || "src" !in card.image.value.attributes || card.image.value.attributes["src"].None?
    ensures r.title.Some? ==> r.title.value == Strip(card.title.value.innerText.value)
    ensures r.author.Some? ==> r.author.value == Strip(card.author.value.innerText.value)
    ensures r.imageUrl.Some? ==> r.imageUrl.value == card.image.value.attributes["src"].value
    ensures r.title.Some? ==> NoSurroundingSpace(r.title.value)
    ensures r.author.Some? ==> NoSurroundingSpace(r.author.value)
  {
    ArticleRecord(SafeText(card.title), SafeAttr(card.image, "src"), ENTERTAINMENT_CATEGORY, SafeText(card.author))
  }

  /**
   * `scrape_entertainment` after navigation: the first `ARTICLE_LIMIT` cards in
   * document order, each mapped to its own record; no card is dropped.
   */
  method ScrapeEntertainment(cards: seq<Card>) returns (records: seq<ArticleRecord>)
    ensures |records| == Min(|cards|, ARTICLE_LIMIT) <= ARTICLE_LIMIT
    ensures forall i :: 0 <= i < |records| ==> records[i] == ArticleOf(cards[i])
    ensures forall i :: 0 <= i < |records| ==> records[i].category == ENTERTAINMENT_CATEGORY
  {
    var articles := cards[..Min(|cards|, ARTICLE_LIMIT)];
    records := [];
    for n := 0 to |articles|
      invariant |records| == n
      invariant forall i :: 0 <= i < n ==> records[i] == ArticleOf(articles[i])
    {
      var article := articles[n];
      var title := SafeText(article.title);
      var author := SafeText(article.author);
      var imageUrl := SafeAttr(article.image, "src");
      records := records + [ArticleRecord(title, imageUrl, ENTERTAINMENT_CATEGORY, author)];
    }
  }

  /** A card whose every query found nothing still yields a record, with absent fields. */
  lemma EmptyCardRecord()
    ensures ArticleOf(Card(None, None, None)) == ArticleRecord(None, None, ENTERTAINMENT_CATEGORY, None)
  {
  }

  /**
   * `scrape_cartoon` after navigation: a timeout of the image wait is an error;
   * otherwise no record when the wrapper section is absent, and else a record
   * whose title is the image's `alt`, whose URL is the converted `src` and whose
   * author is the trimmed `.cartoon-author` text.
   */
  function ScrapeCartoon(page: CartoonPage): (r: Result<Option<CartoonRecord>, ScrapeError>)
    ensures r.Failure? <==> !page.imageRendered
    ensures r.Success? ==> (r.value.None? <==> page.wrapper.None?)
    ensures r.Success? && r.value.Some? ==>
              var section := page.wrapper.value;
              r.value.value == CartoonRecord(
                SafeAttr(section.image, "alt"), DirectImageUrl(SafeAttr(section.image, "src")), SafeText(section.author))
  {
    if !page.imageRendered then Failure(WaitTimeout)
    else
      match page.wrapper
      case None => Success(None)
      case Some(wrapper) =>
        var thumbnailUrl := SafeAttr(wrapper.image, "src");
        var title := SafeAttr(wrapper.image, "alt");
        var imageUrl := DirectImageUrl(thumbnailUrl);
        var author := SafeText(wrapper.author);
        Success(Some(CartoonRecord(title, imageUrl, author)))
  }
}
