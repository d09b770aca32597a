/**
 * What the three scrapers under tools/scrapper have in common: the article
 * record they write to the dataset, and the rewriting of every match into a
 * full URL.
 */
module Scraping {

  /** One dataset record, as written by every scraper. */
  datatype Article = Article(title: string, content: string, picturesUrls: seq<string>)

  /** Every item put between `before` and `after`, in order. */
  function Wrapped(items: seq<string>, before: string, after: string): (r: seq<string>)
    ensures |r| == |items|
    ensures forall i | 0 <= i < |items| :: r[i] == before + items[i] + after
  {
    if items == [] then [] else Wrapped(items[..|items| - 1], before, after) + [before + items[|items| - 1] + after]
  }

  /** Each wrapped item can be read back by cutting the prefix and the suffix off. */
  lemma WrappedRecover(items: seq<string>, before: string, after: string, i: nat)
    requires i < |items|
    ensures var w := Wrapped(items, before, after)[i];
      && |w| == |before| + |items[i]| + |after|
      && w[..|before|] == before
      && w[|before|..|w| - |after|] == items[i]
      && w[|w| - |after|..] == after
  {
    var w := Wrapped(items, before, after)[i];
    assert w == before + items[i] + after;
  }

  /**
   * The loop the scrapers run over a list of matches:
   * `for i in range(len(xs)): xs[i] = before + xs[i] + after`.
   */
  method WrapInPlace(xs: seq<string>, before: string, after: string) returns (ys: seq<string>)
    ensures ys == Wrapped(xs, before, after)
  {
    ys := xs;
    for i := 0 to |ys|
      invariant |ys| == |xs|
      invariant forall j | 0 <= j < i :: ys[j] == before + xs[j] + after
      invariant ys[i..] == xs[i..]
    {
      assert ys[i] == xs[i];
      ys := ys[i := before + ys[i] + after];
    }
  }
}
