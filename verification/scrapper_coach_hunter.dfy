/**
 * The coach-hunter.com scraper (tools/scrapper/scrapper_coach_hunter.py):
 * one exercise record per `exo2` block of the exercise page. The fetched
 * page is a parameter (`None` when the request gave nothing), and so is
 * `ParserManager.strip_tags`, which src/commons/parser_manager.py does not
 * define: the model assumes nothing about it.
 */
module ScrapperCoachHunter {
  import opened Wrappers
  import opened Strings
  import opened ParserManager
  import opened Scraping

  const BlockStart: string := "<div class=\"exo2\">"
  const BlockEnd: string := "</div>"
  const HeadingStart: string := "<h4>"
  const HeadingEnd: string := "</h4>"
  const CaptionStart: string := "<figcaption class=\"descEx\">"
  const CaptionEnd: string := "</figcaption>"
  const SourceStart: string := "src=\""
  const SourceEnd: string := "\""

  /** The first match of a list after `strip_tags`, or `""` when there is none. */
  function FirstStripped(matches: seq<string>, stripTags: string -> string): string {
    if matches != [] then stripTags(matches[0]) else ""
  }

  /**
   * The record of one block: title and content from its first heading and
   * first caption, its first image source as the only picture; `None` when
   * all three are empty.
   */
  function BlockArticle(b: string, stripTags: string -> string): (r: Option<Article>)
    ensures r.Some? ==> |r.value.picturesUrls| == 1
    ensures r.None? <==>
      && FirstStripped(Between(b, HeadingStart, HeadingEnd, None), stripTags) == ""
      && FirstStripped(Between(b, CaptionStart, CaptionEnd, None), stripTags) == ""
      && (Between(b, SourceStart, SourceEnd, None) == [] || Between(b, SourceStart, SourceEnd, None)[0] == "")
  {
    var title := FirstStripped(Between(b, HeadingStart, HeadingEnd, None), stripTags);
    var content := FirstStripped(Between(b, CaptionStart, CaptionEnd, None), stripTags);
    var images := Between(b, SourceStart, SourceEnd, None);
    var image := if images != [] then images[0] else "";
    if title != "" || content != "" || image != "" then Some(Article(title, content, [image])) else None
  }

  /** The records of a list of blocks, in block order, skipping the empty ones. */
  function Articles(blocks: seq<string>, stripTags: string -> string): seq<Article> {
    if blocks == [] then []
    else
      var front := Articles(blocks[..|blocks| - 1], stripTags);
      match BlockArticle(blocks[|blocks| - 1], stripTags)
      case Some(a) => front + [a]
      case None => front
  }

  /** The page text the source works on: an absent or empty page counts as `""`. */
  function PageText(page: Option<string>): string {
    if page.Some? && page.value != "" then page.value else ""
  }

  /**
   * `scrap_article`: splits the page into blocks and appends the record of
   * every block that has a title, a content or an image.
   */
  method ScrapArticle(page: Option<string>, stripTags: string -> string) returns (articles: seq<Article>)
    ensures articles == Articles(Between(PageText(page), BlockStart, BlockEnd, None), stripTags)
  {
    articles := [];
    var data := if page.Some? && page.value != "" then page.value else "";
    var blocks := GetBetween(data, BlockStart, BlockEnd, None);
    for k := 0 to |blocks|
      invariant articles == Articles(blocks[..k], stripTags)
    {
      var article := ScrapBlock(blocks[k], stripTags);
      ArticlesStep(blocks, k, stripTags);
      if article.Some? {
        articles := articles + [article.value];
      }
    }
    assert blocks[..|blocks|] == blocks;
  }

  /** One more block adds its record, if it has one, at the end. */
  lemma ArticlesStep(blocks: seq<string>, k: nat, stripTags: string -> string)
    requires k < |blocks|
    ensures Articles(blocks[..k + 1], stripTags)
      == Articles(blocks[..k], stripTags) + match BlockArticle(blocks[k], stripTags) case Some(a) => [a] case None => []
  {
    assert blocks[..k + 1][..k] == blocks[..k];
    if BlockArticle(blocks[k], stripTags).None? {
      assert Articles(blocks[..k], stripTags) + [] == Articles(blocks[..k], stripTags);
    }
  }

  /** The body of the block loop: the record of one block, if it has anything. */
  method ScrapBlock(b: string, stripTags: string -> string) returns (article: Option<Article>)
    ensures article == BlockArticle(b, stripTags)
  {
    var rawTitle := "";
    var titleBlocks := GetBetween(b, HeadingStart, HeadingEnd, None);
    if titleBlocks != [] {
      rawTitle := stripTags(titleBlocks[0]);
    }
    var content := "";
    var contentBlocks := GetBetween(b, CaptionStart, CaptionEnd, None);
    if contentBlocks != [] {
      content := stripTags(contentBlocks[0]);
    }
    var images := GetBetween(b, SourceStart, SourceEnd, None);
    var image := if images != [] then images[0] else "";
    article := None;
    if rawTitle != "" || content != "" || image != "" {
      article := Some(Article(rawTitle, content, [image]));
    }
  }

  /**
   * There is at most one record per block, and each record is the record
   * of some block, with exactly one picture entry.
   */
  lemma {:induction false} ArticlesSpec(blocks: seq<string>, stripTags: string -> string)
    ensures |Articles(blocks, stripTags)| <= |blocks|
    ensures forall a | a in Articles(blocks, stripTags) ::
      |a.picturesUrls| == 1 && exists k | 0 <= k < |blocks| :: BlockArticle(blocks[k], stripTags) == Some(a)
  {
    if blocks != [] {
      var front := blocks[..|blocks| - 1];
      ArticlesSpec(front, stripTags);
      assert forall k | 0 <= k < |front| :: front[k] == blocks[k];
    }
  }

  /** Records of later blocks come after those of earlier blocks. */
  lemma {:induction false} ArticlesAppend(a: seq<string>, b: seq<string>, stripTags: string -> string)
    ensures Articles(a + b, stripTags) == Articles(a, stripTags) + Articles(b, stripTags)
    decreases |b|
  {
    if b == [] {
      assert a + b == a;
    } else {
      var b' := b[..|b| - 1];
      assert (a + b)[..|a + b| - 1] == a + b';
      assert (a + b)[|a + b| - 1] == b[|b| - 1];
      ArticlesAppend(a, b', stripTags);
      match BlockArticle(b[|b| - 1], stripTags)
      case Some(x) =>
        AppendAssoc(Articles(a, stripTags), Articles(b', stripTags), [x]);
      case None =>
    }
  }

  /** An absent or empty page yields no record. */
  lemma EmptyPage(page: Option<string>, stripTags: string -> string)
    requires page.None? || page.value == ""
    ensures Articles(Between(PageText(page), BlockStart, BlockEnd, None), stripTags) == []
  {
    assert !OccursAt("", BlockStart, 0);
    NoStartNoMatches("", BlockStart, BlockEnd, None);
  }
}
