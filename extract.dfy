/** crawl_article, as a function: which element gives the title, which
    region gives the content, and when no article comes back. */
module Extract {
  import opened Strings
  import opened Types
  import Markdown

  /** Tried in this order for the title. */
  const TitleSelectors: seq<string> := ["h1", ".post-title", ".entry-title", "title"]

  /** Tried in this order for the content region. */
  const ContentSelectors: seq<string> :=
    [".post-content", ".entry-content", ".content", "article", ".post", "main"]

  /** The first selector of sels that finds an element on the page, by its
      position, with the element it finds. */
  function FirstHit(page: Page, sels: seq<string>): (r: Option<(nat, Element)>)
    ensures r.None? <==> forall k :: 0 <= k < |sels| ==> SelectOne(page, sels[k]).None?
    ensures r.Some? ==> r.value.0 < |sels| && SelectOne(page, sels[r.value.0]) == Some(r.value.1)
    ensures r.Some? ==> forall k :: 0 <= k < r.value.0 ==> SelectOne(page, sels[k]).None?
    decreases |sels|
  {
    if sels == [] then None
    else match SelectOne(page, sels[0])
      case Some(e) => Some((0, e))
      case None =>
        match FirstHit(page, sels[1..])
        case None => None
        case Some(hit) => Some((hit.0 + 1, hit.1))
  }

  /** url.split('/')[-1] */
  function LastSegment(url: string): string {
    var parts := SplitOn(url, "/");
    parts[|parts| - 1]
  }

  /** The title used when the page gives none. */
  function FallbackTitle(url: string): string {
    "文章 - " + LastSegment(url)
  }

  /** The title crawl_article settles on: the stripped text of the first
      element the title selectors find, or the fallback when that text is
      empty or nothing is found. */
  function TitleOf(page: Page, url: string): string {
    var found := FirstHit(page, TitleSelectors);
    var title := if found.Some? then Strip(found.value.1.text) else "";
    if title == "" then FallbackTitle(url) else title
  }

  /** The region whose markdown becomes the content: the first element the
      content selectors find, else the body. */
  function RegionOf(page: Page): Option<Element> {
    match FirstHit(page, ContentSelectors)
    case Some(hit) => Some(hit.1)
    case None => SelectOne(page, "body")
  }

  /** What crawl_article returns for url, given the day's date as text. */
  function Crawled(svc: Services, url: string, date: string): Option<Article> {
    match svc.fetch(url)
    case None => None
    case Some(page) =>
      match RegionOf(page)
      case None => None
      case Some(region) =>
        Some(Article(TitleOf(page, url), url,
                     Markdown.CleanMarkdown(svc.regionMarkdown(region)), date))
  }

  // ============================================================== lemmas

  /** The last segment is what follows the last '/' of the URL, or the whole
      URL when it holds no '/'. */
  lemma LastSegmentShape(url: string)
    ensures var seg := LastSegment(url);
            && '/' !in seg && |seg| <= |url| && url[|url| - |seg|..] == seg
            && ('/' !in url ==> seg == url)
            && ('/' in url ==> |seg| < |url| && url[|url| - |seg| - 1] == '/')
  {
    SplitOnLastPart(url, '/');
  }

  /** The first selector that finds an element is the hit, whatever later
      selectors would find. */
  lemma FirstHitIsFirst(page: Page, sels: seq<string>, k: nat, e: Element)
    requires k < |sels| && SelectOne(page, sels[k]) == Some(e)
    requires forall j :: 0 <= j < k ==> SelectOne(page, sels[j]).None?
    ensures FirstHit(page, sels) == Some((k, e))
  {
    var found := FirstHit(page, sels);
    var i := found.value.0;
    if i < k {
    } else if k < i {
    }
  }

  /** The title is decided by the first title selector that finds an
      element: its stripped text when that is not empty, the fallback
      otherwise, whatever later selectors would find. */
  lemma TitleFromFirstFound(page: Page, url: string, k: nat, e: Element)
    requires k < |TitleSelectors| && SelectOne(page, TitleSelectors[k]) == Some(e)
    requires forall j :: 0 <= j < k ==> SelectOne(page, TitleSelectors[j]).None?
    ensures TitleOf(page, url) == if Strip(e.text) == "" then FallbackTitle(url) else Strip(e.text)
  {
    FirstHitIsFirst(page, TitleSelectors, k, e);
  }

  /** With no title element at all, the fallback title is used. */
  lemma TitleWithoutElements(page: Page, url: string)
    requires forall k :: 0 <= k < |TitleSelectors| ==> SelectOne(page, TitleSelectors[k]).None?
    ensures TitleOf(page, url) == FallbackTitle(url)
  {
  }

  /** The title is never empty, and it is either the stripped text of an
      element some title selector finds or the fallback. */
  lemma TitleNonEmpty(page: Page, url: string)
    ensures TitleOf(page, url) != ""
    ensures TitleOf(page, url) == FallbackTitle(url)
            || exists k :: 0 <= k < |TitleSelectors| && SelectOne(page, TitleSelectors[k]).Some?
                           && TitleOf(page, url) == Strip(SelectOne(page, TitleSelectors[k]).value.text)
  {
    var found := FirstHit(page, TitleSelectors);
    if found.Some? && Strip(found.value.1.text) != "" {
      var k := found.value.0;
      assert SelectOne(page, TitleSelectors[k]).value == found.value.1;
    }
  }

  /** The region is the element of the first content selector that finds
      one; the body is used only when none of them does. */
  lemma RegionFromFirstFound(page: Page, k: nat, e: Element)
    requires k < |ContentSelectors| && SelectOne(page, ContentSelectors[k]) == Some(e)
    requires forall j :: 0 <= j < k ==> SelectOne(page, ContentSelectors[j]).None?
    ensures RegionOf(page) == Some(e)
  {
    FirstHitIsFirst(page, ContentSelectors, k, e);
  }

  /** When no content selector finds an element, the body is the region;
      there is no region only when the body is missing too. */
  lemma RegionFallsBackToBody(page: Page)
    ensures (forall k :: 0 <= k < |ContentSelectors| ==> SelectOne(page, ContentSelectors[k]).None?)
            ==> RegionOf(page) == SelectOne(page, "body")
    ensures RegionOf(page).None? <==>
            (forall k :: 0 <= k < |ContentSelectors| ==> SelectOne(page, ContentSelectors[k]).None?)
            && SelectOne(page, "body").None?
  {
  }

  /** An article comes back exactly when the page is fetched and parsed and
      a region is found; it carries the URL it was fetched from, the
      resolved title, the cleaned markdown of the region and the date. */
  lemma CrawledCases(svc: Services, url: string, date: string)
    ensures Crawled(svc, url, date).Some? <==>
            svc.fetch(url).Some? && RegionOf(svc.fetch(url).value).Some?
    ensures Crawled(svc, url, date).Some? ==>
            var a := Crawled(svc, url, date).value;
            var page := svc.fetch(url).value;
            a.url == url && a.date == date && a.title == TitleOf(page, url) && a.title != ""
            && a.content == Markdown.CleanMarkdown(svc.regionMarkdown(RegionOf(page).value))
  {
    if svc.fetch(url).Some? {
      TitleNonEmpty(svc.fetch(url).value, url);
    }
  }

  /** An article carries the URL it was crawled from. */
  lemma CrawledKeepsUrl(svc: Services, url: string, date: string)
    ensures Crawled(svc, url, date).Some? ==> Crawled(svc, url, date).value.url == url
  {
  }

  /** The content of an article is cleaned markdown: stripped lines, never
      three newlines in a row, and a fixed point of cleaning. */
  lemma CrawledContentIsClean(svc: Services, url: string, date: string)
    requires Crawled(svc, url, date).Some?
    ensures var c := Crawled(svc, url, date).value.content;
            !Contains(c, "\n\n\n")
            && (forall line <- SplitOn(c, "\n") ::
                  line == [] || (!IsSpace(line[0]) && !IsSpace(line[|line| - 1])))
            && Markdown.CleanMarkdown(c) == c
  {
    var page := svc.fetch(url).value;
    var raw := svc.regionMarkdown(RegionOf(page).value);
    Markdown.CleanBoundsBlankLines(raw);
    Markdown.CleanLinesAreStripped(raw);
    Markdown.CleanIdempotent(raw);
  }
}
