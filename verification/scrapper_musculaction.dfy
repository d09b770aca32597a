/**
 * The musculaction.com scraper (tools/scrapper/scrapper_musculaction.py):
 * the exercise links of the index page and the article record of an
 * exercise page. The fetched page text is a parameter.
 */
module ScrapperMusculaction {
  import opened Wrappers
  import opened Strings
  import opened ParserManager
  import opened Scraping

  const Site: string := "https://www.musculaction.com/"
  const LinkStart: string := "<li><a href=\"https://www.musculaction.com/"
  const LinkEnd: string := "\">"
  const H1Start: string := "<h1 class=\"h1grand\">"
  const H1End: string := "</h1>"
  const TitleStart: string := "<title>"
  const TitleEnd: string := "</title>"
  const ParagraphStart: string := "<p>"
  const ParagraphEnd: string := "</p>"
  const ImageStart: string := "src=\"images/"
  const ImageEnd: string := ".jpg\""
  const ImagesBase: string := "https://www.musculaction.com/images/"

  /**
   * `scrap_link` on the index page: one URL per link match, the site
   * address followed by the match, in page order.
   */
  method ScrapLink(page: string) returns (urls: seq<string>)
    ensures urls == Wrapped(Between(page, LinkStart, LinkEnd, None), Site, "")
  {
    urls := GetBetween(page, LinkStart, LinkEnd, None);
    urls := WrapInPlace(urls, Site, "");
  }

  /** Each link is the site address followed by the matched path. */
  lemma ScrapLinkSpec(page: string, i: nat)
    requires i < |Between(page, LinkStart, LinkEnd, None)|
    ensures var links := Wrapped(Between(page, LinkStart, LinkEnd, None), Site, "");
      && |links| == |Between(page, LinkStart, LinkEnd, None)|
      && links[i] == Site + Between(page, LinkStart, LinkEnd, None)[i]
  {
    var m := Between(page, LinkStart, LinkEnd, None)[i];
    assert m + "" == m;
  }

  /** The title matches: the `h1grand` headings, or the `<title>` ones when there is none. */
  function TitleParts(page: string): seq<string> {
    var h1 := Between(page, H1Start, H1End, None);
    if h1 != [] then h1 else Between(page, TitleStart, TitleEnd, None)
  }

  /** `[p.strip() for p in parts]`. */
  function StripAll(parts: seq<string>): (r: seq<string>)
    ensures |r| == |parts|
    ensures forall i | 0 <= i < |parts| :: r[i] == Strip(parts[i])
  {
    if parts == [] then [] else [Strip(parts[0])] + StripAll(parts[1..])
  }

  /**
   * `scrap_article` on an exercise page: the stripped first title match,
   * the stripped paragraphs joined by newlines, and a one-element picture
   * list. `None` stands for the index error raised when the page has no
   * title match at all.
   */
  function ScrapArticle(page: string): (r: Option<Article>)
    ensures r.None? <==> TitleParts(page) == []
    ensures r.Some? ==> r.value.title == Strip(TitleParts(page)[0])
  {
    var titleParts := TitleParts(page);
    if titleParts == [] then None
    else
      var title := Strip(titleParts[0]);
      var contentParts := Between(page, ParagraphStart, ParagraphEnd, None);
      var content := Join(StripAll(contentParts), "\n");
      var pictureParts := Between(page, ImageStart, ImageEnd, None);
      var pictureUrl :=
        if |pictureParts| >= 2 then ImagesBase + pictureParts[1] + ".jpg" else "";
      Some(Article(title, content, [pictureUrl]))
  }

  /**
   * The title falls back to `<title>` only when there is no `h1grand`
   * heading, and a page without either fails.
   */
  lemma TitleFallback(page: string)
    ensures Between(page, H1Start, H1End, None) != [] ==> TitleParts(page)[0] == Between(page, H1Start, H1End, None)[0]
    ensures Between(page, H1Start, H1End, None) == [] ==> TitleParts(page) == Between(page, TitleStart, TitleEnd, None)
    ensures ScrapArticle(page).None? <==> Between(page, H1Start, H1End, None) == [] && Between(page, TitleStart, TitleEnd, None) == []
  {
  }

  /**
   * The article's title has no surrounding whitespace and no heading end
   * marker; each paragraph, stripped, appears in the content.
   */
  lemma ScrapArticleText(page: string, i: nat)
    ensures ScrapArticle(page).Some? ==>
      var t := ScrapArticle(page).value.title;
      t == [] || (!IsSpace(t[0]) && !IsSpace(t[|t| - 1]))
    ensures ScrapArticle(page).Some? && i < |Between(page, ParagraphStart, ParagraphEnd, None)| ==>
      Contains(ScrapArticle(page).value.content, Strip(Between(page, ParagraphStart, ParagraphEnd, None)[i]))
  {
    if ScrapArticle(page).Some? {
      StripEnds(TitleParts(page)[0]);
      if i < |Between(page, ParagraphStart, ParagraphEnd, None)| {
        JoinContainsPart(StripAll(Between(page, ParagraphStart, ParagraphEnd, None)), "\n", i);
      }
    }
  }

  /**
   * There is always exactly one picture URL; it is empty unless the page
   * has at least two image matches, and then it names the second one.
   */
  lemma ScrapArticlePicture(page: string)
    ensures ScrapArticle(page).Some? ==>
      var pics := ScrapArticle(page).value.picturesUrls;
      && |pics| == 1
      && (pics[0] != "" <==> |Between(page, ImageStart, ImageEnd, None)| >= 2)
      && (|Between(page, ImageStart, ImageEnd, None)| >= 2 ==>
            pics[0] == ImagesBase + Between(page, ImageStart, ImageEnd, None)[1] + ".jpg")
  {
    var parts := Between(page, ImageStart, ImageEnd, None);
    if ScrapArticle(page).Some? && |parts| >= 2 {
      assert |ImagesBase + parts[1] + ".jpg"| > 0;
    }
  }
}
