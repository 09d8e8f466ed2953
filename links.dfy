/** The two attribute rules of an article record: the link taken from the
    title anchor's `href`, made absolute against the site, and the image
    taken from the thumbnail's `data-origin`, kept only for WebP files. */
module Links {
  import opened Wrappers
  import opened Text

  /** The blog page the scraper reads; a title anchor without `href`
      links here. */
  const BlogUrl: string := "https://himpuh.or.id/blog"

  /** The scheme and host put in front of a root-relative path. */
  const SiteOrigin: string := "https://himpuh.or.id"

  const WebpSuffix: string := ".webp"

  /** The link of an article from the anchor's `href` attribute, None when
      the anchor has none: the blog URL when it is missing, the site
      origin followed by the path when it starts with "/", and the value
      unchanged otherwise. */
  function AbsoluteLink(href: Option<string>): (link: string)
    ensures href.None? ==> link == BlogUrl
    ensures href.Some? && StartsWith(href.value, "/") ==> link == SiteOrigin + href.value
    ensures href.Some? && !StartsWith(href.value, "/") ==> link == href.value
  {
    match href
    case None => BlogUrl
    case Some(h) => if StartsWith(h, "/") then SiteOrigin + h else h
  }

  /** No link the scraper emits starts with "/": a root-relative path is
      always completed, whatever follows the slash. */
  lemma LinkNeverRootRelative(href: Option<string>)
    ensures !StartsWith(AbsoluteLink(href), "/")
  {
    var link := AbsoluteLink(href);
    if href.Some? && StartsWith(href.value, "/") {
      assert link[0] == SiteOrigin[0];
    } else if href.None? {
      assert link[0] == 'h';
    }
  }

  /** Making a link absolute twice changes nothing more. */
  lemma AbsoluteLinkIdempotent(href: Option<string>)
    ensures AbsoluteLink(Some(AbsoluteLink(href))) == AbsoluteLink(href)
  {
    LinkNeverRootRelative(href);
  }

  /** A root-relative link keeps its path: it is the site origin followed
      by exactly the `href`. */
  lemma RootRelativeLinkKeepsPath(href: string)
    requires StartsWith(href, "/")
    ensures StartsWith(AbsoluteLink(Some(href)), SiteOrigin)
    ensures AbsoluteLink(Some(href))[|SiteOrigin|..] == href
  {
    var link := AbsoluteLink(Some(href));
    assert link[..|SiteOrigin|] == SiteOrigin;
  }

  /** A protocol-relative `href` such as "//cdn.example/a.jpg" also starts
      with "/", so it too gets the origin in front. */
  lemma ProtocolRelativeLinkIsPrefixed()
    ensures AbsoluteLink(Some("//cdn.example/a.jpg")) == SiteOrigin + "//cdn.example/a.jpg"
  {
    assert StartsWith("//cdn.example/a.jpg", "/");
  }

  /** The image of an article from the chosen thumbnail's `data-origin`
      attribute, None when the attribute is absent: kept exactly when it
      ends in ".webp", and then unchanged. */
  function WebpImage(dataOrigin: Option<string>): (image: Option<string>)
    ensures image.Some? <==> dataOrigin.Some? && EndsWith(dataOrigin.value, WebpSuffix)
    ensures image.Some? ==> image == dataOrigin
  {
    match dataOrigin
    case None => None
    case Some(url) => if EndsWith(url, WebpSuffix) then Some(url) else None
  }

  /** Filtering an image already filtered keeps it: every kept image ends
      in ".webp" and is at least that long. */
  lemma WebpImageIdempotent(dataOrigin: Option<string>)
    ensures WebpImage(WebpImage(dataOrigin)) == WebpImage(dataOrigin)
    ensures WebpImage(dataOrigin).Some? ==> |WebpImage(dataOrigin).value| >= 5
  {
  }

  /** Only the suffix decides: ".WEBP" in upper case, or ".webp" followed
      by a query string, is dropped. */
  lemma WebpSuffixIsExact()
    ensures WebpImage(Some("a.WEBP")).None?
    ensures WebpImage(Some("a.webp?w=300")).None?
    ensures WebpImage(Some("a.webp")) == Some("a.webp")
  {
    assert "a.WEBP"[1..] != WebpSuffix by { assert "a.WEBP"[1..][1] == 'W'; }
    assert "a.webp?w=300"[7..] != WebpSuffix by { assert "a.webp?w=300"[7..][0] == 'w'; }
    assert "a.webp"[1..] == WebpSuffix;
  }
}
