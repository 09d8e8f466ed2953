/** The extraction loop: one article record per title div that holds an
    anchor, in document order. The parsed page is given abstractly, as the
    answers of the lookups the scraper makes: for each title div its first
    anchor and the first intro, thumbnail and posting-time div inside its
    parent, and the document-wide lists of intro texts, thumbnails and
    posting-time texts. */
module Extractor {
  import opened Wrappers
  import opened Text
  import opened Calendar
  import opened Links
  import opened DateNormalizer

  /** The content of an article when no intro div is found anywhere. */
  const NoContent: string := "No content found"

  /** The first `<a>` in a title div: its text, and its `href` if it has one. */
  datatype Anchor = Anchor(text: string, href: Option<string>)

  /** A thumbnail div, with its `data-origin` attribute if it has one. */
  datatype Thumbnail = Thumbnail(dataOrigin: Option<string>)

  /** The parent of a title div, as far as the scraper looks into it: the
      text of its first `intro mb5` div, its first `thumbnail` div and the
      text of its first `waktu-posting` div. */
  datatype Container = Container(intro: Option<string>, thumbnail: Option<Thumbnail>, posting: Option<string>)

  /** A `judul` div: its first anchor, and its parent element. */
  datatype TitleDiv = TitleDiv(anchor: Option<Anchor>, parent: Option<Container>)

  /** The page: every title div, and the texts of every intro div, every
      thumbnail and the texts of every posting-time div, each in document
      order. */
  datatype Page = Page(titleDivs: seq<TitleDiv>, intros: seq<string>, thumbnails: seq<Thumbnail>, postings: seq<string>)

  /** An article record; `published` is None when no date was found. */
  datatype Article = Article(title: string, link: string, content: string, image: Option<string>, published: Option<DateTime>)

  /** The lookup with its fallback by position: the element found in the
      parent, else element `i` of the document-wide list when the list is
      long enough, else nothing. */
  function FallBackByIndex<T>(local: Option<T>, all: seq<T>, i: nat): (r: Option<T>)
    ensures r.Some? <==> local.Some? || i < |all|
    ensures r.Some? ==> r == local || (local.None? && r == Some(all[i]))
  {
    if local.Some? then local else if i < |all| then Some(all[i]) else None
  }

  function LocalIntro(div: TitleDiv): Option<string> {
    if div.parent.Some? then div.parent.value.intro else None
  }

  function LocalThumbnail(div: TitleDiv): Option<Thumbnail> {
    if div.parent.Some? then div.parent.value.thumbnail else None
  }

  function LocalPosting(div: TitleDiv): Option<string> {
    if div.parent.Some? then div.parent.value.posting else None
  }

  /** The content: the stripped text of the parent's intro, else of the
      first intro in the document, else the placeholder. */
  function ContentOf(page: Page, div: TitleDiv): string {
    var intro := if LocalIntro(div).Some? then LocalIntro(div)
                 else if |page.intros| > 0 then Some(page.intros[0]) else None;
    if intro.Some? then Strip(intro.value) else NoContent
  }

  /** The image of the thumbnail chosen for title div `i`. */
  function ImageOf(page: Page, i: nat): Option<string>
    requires i < |page.titleDivs|
  {
    var thumbnail := FallBackByIndex(LocalThumbnail(page.titleDivs[i]), page.thumbnails, i);
    if thumbnail.Some? then WebpImage(thumbnail.value.dataOrigin) else None
  }

  /** The date of the posting-time div chosen for title div `i`. */
  function PublishedOf(page: Page, i: nat): Option<DateTime>
    requires i < |page.titleDivs|
  {
    var posting := FallBackByIndex(LocalPosting(page.titleDivs[i]), page.postings, i);
    if posting.Some? then NormalizeDate(posting.value) else None
  }

  /** The record built for title div `i`, which holds an anchor. */
  function BuildArticle(page: Page, i: nat): Article
    requires i < |page.titleDivs| && page.titleDivs[i].anchor.Some?
  {
    var div := page.titleDivs[i];
    Article(Strip(div.anchor.value.text), AbsoluteLink(div.anchor.value.href),
            ContentOf(page, div), ImageOf(page, i), PublishedOf(page, i))
  }

  /** A record's title is the anchor text stripped, its link the `href`
      made absolute, its image (if any) a WebP file, and its date (if any)
      a valid date at UTC+7. */
  lemma BuildArticleFields(page: Page, i: nat)
    requires i < |page.titleDivs| && page.titleDivs[i].anchor.Some?
    ensures var a := BuildArticle(page, i);
      && a.title == Strip(page.titleDivs[i].anchor.value.text)
      && a.link == AbsoluteLink(page.titleDivs[i].anchor.value.href)
      && (a.image.Some? ==> EndsWith(a.image.value, WebpSuffix))
      && (a.published.Some? ==> Valid(a.published.value) && a.published.value.utcOffsetHours == Some(JakartaOffsetHours))
  {
    var posting := FallBackByIndex(LocalPosting(page.titleDivs[i]), page.postings, i);
    if posting.Some? {
      NormalizedDateIsJakarta(posting.value);
    }
  }

  /** The records the loop has built after visiting the first `n` title
      divs. */
  function Extracted(page: Page, n: nat): seq<Article>
    requires n <= |page.titleDivs|
  {
    if n == 0 then []
    else if page.titleDivs[n - 1].anchor.None? then Extracted(page, n - 1)
    else Extracted(page, n - 1) + [BuildArticle(page, n - 1)]
  }

  /** The positions, in increasing order, of the title divs among the
      first `n` that hold an anchor. */
  function AnchoredIndices(page: Page, n: nat): (idx: seq<nat>)
    requires n <= |page.titleDivs|
    ensures forall k :: 0 <= k < |idx| ==> idx[k] < n && page.titleDivs[idx[k]].anchor.Some?
    ensures forall k, m :: 0 <= k < m < |idx| ==> idx[k] < idx[m]
  {
    if n == 0 then []
    else if page.titleDivs[n - 1].anchor.None? then AnchoredIndices(page, n - 1)
    else AnchoredIndices(page, n - 1) + [n - 1]
  }

  /** No title div with an anchor is missed. */
  lemma {:induction false} AnchoredIndicesComplete(page: Page, n: nat, i: nat)
    requires n <= |page.titleDivs|
    requires i < n && page.titleDivs[i].anchor.Some?
    ensures i in AnchoredIndices(page, n)
  {
    if i < n - 1 {
      AnchoredIndicesComplete(page, n - 1, i);
    } else {
      assert AnchoredIndices(page, n)[|AnchoredIndices(page, n)| - 1] == i;
    }
  }

  /** One record per title div with an anchor, in document order, and no
      other: the k-th record is the one built for the k-th anchored div. */
  lemma {:induction false} ExtractedFollowsAnchors(page: Page, n: nat)
    requires n <= |page.titleDivs|
    ensures |Extracted(page, n)| == |AnchoredIndices(page, n)|
    ensures forall k :: 0 <= k < |Extracted(page, n)| ==>
      Extracted(page, n)[k] == BuildArticle(page, AnchoredIndices(page, n)[k])
  {
    if n > 0 {
      ExtractedFollowsAnchors(page, n - 1);
      if page.titleDivs[n - 1].anchor.Some? {
        var articles, idx := Extracted(page, n - 1), AnchoredIndices(page, n - 1);
        var last := BuildArticle(page, n - 1);
        assert Extracted(page, n) == articles + [last];
        assert AnchoredIndices(page, n) == idx + [n - 1];
        forall k | 0 <= k < |articles| + 1
          ensures (articles + [last])[k] == BuildArticle(page, (idx + [n - 1])[k])
        {
          if k < |articles| {
            assert (articles + [last])[k] == articles[k] && (idx + [n - 1])[k] == idx[k];
          }
        }
      }
    }
  }

  /** Every date the loop records is a valid date at UTC+7. */
  lemma {:induction false} ExtractedDatesAreJakarta(page: Page, n: nat)
    requires n <= |page.titleDivs|
    ensures forall k :: 0 <= k < |Extracted(page, n)| && Extracted(page, n)[k].published.Some? ==>
      Valid(Extracted(page, n)[k].published.value) &&
      Extracted(page, n)[k].published.value.utcOffsetHours == Some(JakartaOffsetHours)
  {
    if n > 0 {
      ExtractedDatesAreJakarta(page, n - 1);
      if page.titleDivs[n - 1].anchor.Some? {
        BuildArticleFields(page, n - 1);
      }
    }
  }

  /** The fallback position counts every title div, the skipped ones too:
      after a div without an anchor, the next div's thumbnail falls back to
      the second thumbnail of the page, not the first. */
  lemma SkippedDivsKeepTheirIndex()
    ensures var page := Page(
        [TitleDiv(None, None), TitleDiv(Some(Anchor("Umrah", None)), Some(Container(None, None, None)))],
        [], [Thumbnail(Some("a.webp")), Thumbnail(Some("b.webp"))], []);
      Extracted(page, 2) == [Article("Umrah", BlogUrl, NoContent, Some("b.webp"), None)]
  {
    assert Strip("Umrah") == "Umrah" by {
      StripIsTrimmedPiece("Umrah", 0, 5);
    }
    assert EndsWith("b.webp", WebpSuffix) by {
      assert "b.webp"[1..] == WebpSuffix;
    }
  }

  /** The two-tier lookups as the scraper states them, in terms of the
      page: content from the parent's intro, else the first intro in the
      document, else the placeholder; image and date from the parent's
      element, else from element `i` of the document-wide list only when
      `i` is within it, else none. */
  lemma FallbackRules(page: Page, i: nat)
    requires i < |page.titleDivs| && page.titleDivs[i].anchor.Some?
    ensures var a, div := BuildArticle(page, i), page.titleDivs[i];
      && (div.parent.Some? && div.parent.value.intro.Some? ==> a.content == Strip(div.parent.value.intro.value))
      && (LocalIntro(div).None? && |page.intros| > 0 ==> a.content == Strip(page.intros[0]))
      && (LocalIntro(div).None? && page.intros == [] ==> a.content == NoContent)
      && (div.parent.Some? && div.parent.value.thumbnail.Some? ==>
            a.image == WebpImage(div.parent.value.thumbnail.value.dataOrigin))
      && (LocalThumbnail(div).None? && i < |page.thumbnails| ==> a.image == WebpImage(page.thumbnails[i].dataOrigin))
      && (LocalThumbnail(div).None? && i >= |page.thumbnails| ==> a.image.None?)
      && (div.parent.Some? && div.parent.value.posting.Some? ==>
            a.published == NormalizeDate(div.parent.value.posting.value))
      && (LocalPosting(div).None? && i < |page.postings| ==> a.published == NormalizeDate(page.postings[i]))
      && (LocalPosting(div).None? && i >= |page.postings| ==> a.published.None?)
  {
  }

  /** The loop of the scraper: visit the title divs in order, skip those
      without an anchor, and append the record built for each other one. */
  method ExtractArticles(page: Page) returns (articles: seq<Article>)
    ensures articles == Extracted(page, |page.titleDivs|)
  {
    articles := [];
    for i := 0 to |page.titleDivs|
      invariant articles == Extracted(page, i)
    {
      var div := page.titleDivs[i];
      if div.anchor.None? {
        continue;
      }
      var title := Strip(div.anchor.value.text);
      var link := AbsoluteLink(div.anchor.value.href);
      var contentElem := LocalIntro(div);
      if contentElem.None? && |page.intros| > 0 {
        contentElem := Some(page.intros[0]);
      }
      var content := if contentElem.Some? then Strip(contentElem.value) else NoContent;
      var thumbnail := LocalThumbnail(div);
      if thumbnail.None? && i < |page.thumbnails| {
        thumbnail := Some(page.thumbnails[i]);
      }
      var image := if thumbnail.Some? then WebpImage(thumbnail.value.dataOrigin) else None;
      var posting := LocalPosting(div);
      if posting.None? && i < |page.postings| {
        posting := Some(page.postings[i]);
      }
      var published := if posting.Some? then NormalizeDate(posting.value) else None;
      articles := articles + [Article(title, link, content, image, published)];
    }
  }
}
