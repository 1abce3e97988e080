/** The values the crawler passes around, and the collaborators it calls
    but whose internals are not modelled (network, HTML parsing, html2text,
    urljoin), given as functions. */
module Types {
  import opened Strings

  datatype Option<T> = None | Some(value: T)

  /** A calendar date, as datetime.now() would report it. */
  datatype Date = Date(year: nat, month: nat, day: nat)

  /** strftime('%Y-%m-%d') */
  function IsoDate(d: Date): string {
    ZeroPad(d.year, 4) + "-" + ZeroPad(d.month, 2) + "-" + ZeroPad(d.day, 2)
  }

  /** strftime('%Y年%m月%d日') */
  function ChineseDate(d: Date): string {
    ZeroPad(d.year, 4) + "年" + ZeroPad(d.month, 2) + "月" + ZeroPad(d.day, 2) + "日"
  }

  /** strftime('%Y%m%d') */
  function CompactDate(d: Date): string {
    ZeroPad(d.year, 4) + ZeroPad(d.month, 2) + ZeroPad(d.day, 2)
  }

  /** An element of a parsed page: its serialised markup, what get_text()
      returns, and the value of its href attribute, if it has one. */
  datatype Element = Element(markup: string, text: string, href: Option<string>)

  /** A parsed page, seen through soup.select(selector): the matching
      elements in document order. */
  datatype Page = Page(select: string -> seq<Element>)

  /** soup.select_one(selector): the first match, if any. */
  function SelectOne(page: Page, selector: string): Option<Element> {
    var hits := page.select(selector);
    if |hits| == 0 then None else Some(hits[0])
  }

  /** What the crawler gets from outside:
      - fetch: GET the URL, raise_for_status and parse; None when any of
        that raises;
      - regionMarkdown: drop script, style, nav, footer, header and
        .comment elements inside a region, then html2text of what is left;
      - urlJoin: urllib.parse.urljoin(base, href). */
  datatype Services = Services(
    fetch: string -> Option<Page>,
    regionMarkdown: Element -> string,
    urlJoin: (string, string) -> string)

  /** The dictionary crawl_article returns. */
  datatype Article = Article(title: string, url: string, content: string, date: string)

  /** The site the crawler starts from. */
  const BaseUrl: string := "https://chentianyuzhou.com"
}
