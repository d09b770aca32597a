/**
 * The sport-passion.fr scraper (tools/scrapper/scrapper_sport_passion.py):
 * the advice links of the category page and the article record of an
 * advice page. The fetched page text is a parameter, and so is
 * `ParserManager.strip_tags`, which src/commons/parser_manager.py does not
 * define: the model assumes nothing about it.
 */
module ScrapperSportPassion {
  import opened Wrappers
  import opened Strings
  import opened ParserManager
  import opened Scraping

  const LinkStart: string := "/conseils/"
  const LinkEnd: string := ".php"
  const LinkBase: string := "https://www.sport-passion.fr/conseils/"
  const TitleStart: string := "<title>"
  const TitleEnd: string := "</title>"
  const ParagraphStart: string := "<p>"
  const ParagraphEnd: string := "</p>"
  const PictureStart: string := "pictures/"
  const PictureEnd: string := "\""
  const PictureFilter: string := "/"
  const PictureBase: string := "https://www.sport-passion.fr/pictures/"

  /**
   * `scrap_link` on the category page: each match `m` becomes the address
   * of the advice page `m.php`, in page order.
   */
  method ScrapLink(page: string) returns (urls: seq<string>)
    ensures urls == Wrapped(Between(page, LinkStart, LinkEnd, None), LinkBase, ".php")
  {
    urls := GetBetween(page, LinkStart, LinkEnd, None);
    urls := WrapInPlace(urls, LinkBase, ".php");
  }

  /** `[f(x) for x in xs]`. */
  function MapStrings(f: string -> string, xs: seq<string>): (r: seq<string>)
    ensures |r| == |xs|
    ensures forall i | 0 <= i < |xs| :: r[i] == f(xs[i])
  {
    if xs == [] then [] else [f(xs[0])] + MapStrings(f, xs[1..])
  }

  /** The paragraph loop: `content_parts[i] = strip_tags(content_parts[i])` for every `i`. */
  method StripTagsInPlace(parts: seq<string>, stripTags: string -> string) returns (out: seq<string>)
    ensures out == MapStrings(stripTags, parts)
  {
    out := parts;
    for i := 0 to |out|
      invariant |out| == |parts|
      invariant forall j | 0 <= j < i :: out[j] == stripTags(parts[j])
      invariant out[i..] == parts[i..]
    {
      assert out[i] == parts[i];
      out := out[i := stripTags(out[i])];
    }
  }

  /**
   * `scrap_article` on an advice page: the first `<title>` match as is, one
   * content line per paragraph after `strip_tags`, and one picture address
   * per picture match that has no `/` in it. `None` stands for the index
   * error raised when the page has no title.
   */
  method ScrapArticle(page: string, stripTags: string -> string) returns (r: Option<Article>)
    ensures r.None? <==> Between(page, TitleStart, TitleEnd, None) == []
    ensures r.Some? ==>
      && r.value.title == Between(page, TitleStart, TitleEnd, None)[0]
      && r.value.content == Join(MapStrings(stripTags, Between(page, ParagraphStart, ParagraphEnd, None)), "\n")
      && r.value.picturesUrls == Wrapped(Between(page, PictureStart, PictureEnd, Some(PictureFilter)), PictureBase, "")
  {
    var titles := GetBetween(page, TitleStart, TitleEnd, None);
    if titles == [] {
      return None;
    }
    var title := titles[0];
    var contentParts := GetBetween(page, ParagraphStart, ParagraphEnd, None);
    contentParts := StripTagsInPlace(contentParts, stripTags);
    var content := Join(contentParts, "\n");
    var picturesUrls := GetBetween(page, PictureStart, PictureEnd, Some(PictureFilter));
    picturesUrls := WrapInPlace(picturesUrls, PictureBase, "");
    r := Some(Article(title, content, picturesUrls));
  }

  /**
   * Every picture address names a picture match without a `/`, and every
   * such match of the page gets an address: the picture list is the
   * filtered matches, prefixed, in page order.
   */
  lemma PicturesSpec(page: string)
    ensures var kept := Between(page, PictureStart, PictureEnd, Some(PictureFilter));
      var all := Between(page, PictureStart, PictureEnd, None);
      && |kept| <= |all|
      && (forall x | x in kept :: x in all && !Contains(x, PictureFilter))
      && (forall x | x in all && !Contains(x, PictureFilter) :: x in kept)
  {
    var all := Between(page, PictureStart, PictureEnd, None);
    WithoutSpec(all, PictureFilter);
  }

  /** Each paragraph, after `strip_tags`, appears in the content. */
  lemma ContentHasParagraphs(page: string, stripTags: string -> string, i: nat)
    requires i < |Between(page, ParagraphStart, ParagraphEnd, None)|
    ensures Contains(Join(MapStrings(stripTags, Between(page, ParagraphStart, ParagraphEnd, None)), "\n"),
                     stripTags(Between(page, ParagraphStart, ParagraphEnd, None)[i]))
  {
    JoinContainsPart(MapStrings(stripTags, Between(page, ParagraphStart, ParagraphEnd, None)), "\n", i);
  }
}
