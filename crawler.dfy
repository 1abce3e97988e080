/** ChentianYuZhouCrawler: the object that collects articles and the
    methods that find links, crawl pages, and lay out the files and the
    book. */
module Crawler {
  import opened Strings
  import opened Types
  import Markdown
  import Extract
  import Links
  import Files
  import Epub
  import Html

  /** run crawls at most this many links. */
  const MaxArticles: nat := 20

  /** crawl_article on the given day, as a function of the URL. */
  function CrawlOn(svc: Services, date: string): string -> Option<Article> {
    url => Extract.Crawled(svc, url, date)
  }

  /** The articles crawling urls one after the other adds, in the order of
      the URLs, leaving out those for which crawl gives nothing. */
  function Accepted(crawl: string -> Option<Article>, urls: seq<string>): seq<Article>
    decreases |urls|
  {
    if urls == [] then []
    else Accepted(crawl, urls[..|urls| - 1]) + Listed(crawl(urls[|urls| - 1]))
  }

  /** The article, if there is one, as a list. */
  function Listed(article: Option<Article>): seq<Article> {
    match article
    case Some(a) => [a]
    case None => []
  }

  lemma AcceptedNext(crawl: string -> Option<Article>, urls: seq<string>, k: nat)
    requires k < |urls|
    ensures Accepted(crawl, urls[..k + 1]) == Accepted(crawl, urls[..k]) + Listed(crawl(urls[k]))
  {
    assert urls[..k + 1][..k] == urls[..k];
  }

  /** Appending what one crawl gives to a list that already ends with the
      earlier crawls' articles. */
  lemma ListedAppend(before: seq<Article>, earlier: seq<Article>, article: Option<Article>, now: seq<Article>)
    requires now == earlier + Listed(article)
    ensures before + now == if article.Some? then (before + earlier) + [article.value] else before + earlier
  {
  }

  /** The positions in urls of the URLs that gave an article. */
  function AcceptedPositions(crawl: string -> Option<Article>, urls: seq<string>): seq<int>
    decreases |urls|
  {
    if urls == [] then []
    else
      AcceptedPositions(crawl, urls[..|urls| - 1])
      + if crawl(urls[|urls| - 1]).Some? then [|urls| - 1] else []
  }

  /** What run emits when it gets that far: the markdown files, the book
      and the book's file name. */
  datatype Output = Output(files: seq<(string, string)>, book: Epub.Book, epubName: string)

  /** The chapter loop of create_epub: after the introduction, each
      article's chapter (built by make from the article and its number,
      counting from 1) is added as an item, to the table of contents and to
      the spine, in article order. */
  method AddChapters(articles: seq<Article>, intro: Epub.Chapter, make: (nat, Article) -> Epub.Chapter)
    returns (items: seq<Epub.Item>, tocItems: seq<Epub.Chapter>, spine: seq<Epub.SpineEntry>)
    ensures tocItems == [intro] + Epub.Numbered(articles, make)
    ensures spine == [Epub.NavEntry] + Epub.ChapterEntries(tocItems)
    ensures items == Epub.HtmlItems(tocItems)
  {
    items := [Epub.HtmlItem(intro)];
    tocItems := [intro];
    spine := [Epub.NavEntry, Epub.ChapterEntry(intro)];
    Epub.EntriesNext([], intro);
    for i := 0 to |articles|
      invariant tocItems == [intro] + Epub.Numbered(articles[..i], make)
      invariant spine == [Epub.NavEntry] + Epub.ChapterEntries(tocItems)
      invariant items == Epub.HtmlItems(tocItems)
    {
      assert articles[..i + 1][..i] == articles[..i];
      var chapter := make(i + 1, articles[i]);
      Epub.EntriesNext(tocItems, chapter);
      items := items + [Epub.HtmlItem(chapter)];
      tocItems := tocItems + [chapter];
      spine := spine + [Epub.ChapterEntry(chapter)];
    }
    assert articles[..|articles|] == articles;
  }

  class Crawler {
    /** self.articles */
    var articles: seq<Article>

    constructor()
      ensures articles == []
    {
      articles := [];
    }

    /** The article links found on the front page, each once; none when the
        page cannot be fetched. */
    method GetArticleLinks(svc: Services) returns (links: seq<string>)
      ensures svc.fetch(BaseUrl).None? ==> links == []
      ensures svc.fetch(BaseUrl).Some? ==>
                forall u :: u in links <==> u in Links.DiscoveredLinks(svc, svc.fetch(BaseUrl).value)
      ensures forall i, j :: 0 <= i < j < |links| ==> links[i] != links[j]
    {
      var fetched := svc.fetch(BaseUrl);
      if fetched.None? {
        return [];
      }
      var page := fetched.value;
      var found: set<string> := {};
      for k := 0 to |Links.LinkSelectors|
        invariant found == Links.SelectorTargets(svc, page, Links.LinkSelectors[..k])
      {
        var elems := page.select(Links.LinkSelectors[k]);
        for j := 0 to |elems|
          invariant found == Links.SelectorTargets(svc, page, Links.LinkSelectors[..k])
                             + Links.HrefTargets(svc, elems[..j])
        {
          var href := elems[j].href;
          if href.Some? && href.value != "" {
            found := found + {svc.urlJoin(BaseUrl, href.value)};
          }
          assert elems[..j + 1][..j] == elems[..j];
        }
        assert elems[..|elems|] == elems;
        assert Links.LinkSelectors[..k + 1][..k] == Links.LinkSelectors[..k];
      }
      assert Links.LinkSelectors[..|Links.LinkSelectors|] == Links.LinkSelectors;
      if found == {} {
        var anchors := page.select(Links.AnchorSelector);
        for j := 0 to |anchors|
          invariant found == Links.AnchorTargets(svc, anchors[..j])
        {
          var link := anchors[j];
          if link.href.Some? {
            var href := link.href.value;
            if StartsWith(href, "/") || Contains(href, BaseUrl) {
              var fullUrl := svc.urlJoin(BaseUrl, href);
              if !Links.IsBlocked(fullUrl) {
                found := found + {fullUrl};
              }
            }
          }
          assert anchors[..j + 1][..j] == anchors[..j];
        }
        assert anchors[..|anchors|] == anchors;
      }
      links := Links.ListOfSet(found);
    }

    /** One article, or nothing when the page cannot be fetched or has no
        region to take the content from. */
    method CrawlArticle(svc: Services, url: string, today: Date) returns (article: Option<Article>)
      ensures article == Extract.Crawled(svc, url, IsoDate(today))
    {
      var fetched := svc.fetch(url);
      if fetched.None? {
        return None;
      }
      var page := fetched.value;

      var title: Option<string> := None;
      for k := 0 to |Extract.TitleSelectors|
        invariant title.None?
        invariant forall j :: 0 <= j < k ==> SelectOne(page, Extract.TitleSelectors[j]).None?
      {
        var titleElem := SelectOne(page, Extract.TitleSelectors[k]);
        if titleElem.Some? {
          assert Extract.FirstHit(page, Extract.TitleSelectors) == Some((k, titleElem.value));
          title := Some(Strip(titleElem.value.text));
          break;
        }
      }
      var resolved: string;
      if title.None? || title.value == "" {
        resolved := "文章 - " + Extract.LastSegment(url);
      } else {
        resolved := title.value;
      }
      assert resolved == Extract.TitleOf(page, url);

      var content: Option<Element> := None;
      for k := 0 to |Extract.ContentSelectors|
        invariant content.None?
        invariant forall j :: 0 <= j < k ==> SelectOne(page, Extract.ContentSelectors[j]).None?
      {
        var contentElem := SelectOne(page, Extract.ContentSelectors[k]);
        if contentElem.Some? {
          assert Extract.FirstHit(page, Extract.ContentSelectors) == Some((k, contentElem.value));
          content := contentElem;
          break;
        }
      }
      if content.None? {
        content := SelectOne(page, "body");
      }
      assert content == Extract.RegionOf(page);

      if content.Some? {
        var markdown := svc.regionMarkdown(content.value);
        markdown := Markdown.CleanMarkdown(markdown);
        return Some(Article(resolved, url, markdown, IsoDate(today)));
      }
      return None;
    }

    /** The name and text of each file, numbered from 1 in article order. */
    method SaveMarkdownFiles() returns (files: seq<(string, string)>)
      ensures files == Files.MarkdownFiles(articles)
    {
      files := [];
      for i := 0 to |articles|
        invariant files == Files.MarkdownFiles(articles)[..i]
      {
        var article := articles[i];
        var fileName := Files.FileName(i + 1, article.title);
        files := files + [(fileName, Files.FileBody(article))];
      }
    }

    /** The book for the collected articles, and the name it is written
        under. */
    method CreateEpub(today: Date) returns (book: Epub.Book, epubFileName: string)
      ensures book == Epub.EpubBook(articles, today)
      ensures epubFileName == Epub.EpubFileName(today)
    {
      var intro := Epub.IntroChapter(|articles|, today);
      var items, tocItems, spine := AddChapters(articles, intro, Epub.ArticleChapter);
      items := items + [Epub.NcxItem, Epub.NavItem];
      book := Epub.Book(Epub.BookIdentifier, Epub.BookTitle, Epub.BookLanguage, [Epub.BookAuthor],
                        items, tocItems, spine);
      epubFileName := Epub.EpubFileName(today);
    }

    /** The loop of run over the links it crawls: each article that comes
        back is appended, in link order. */
    method CrawlEach(svc: Services, batch: seq<string>, today: Date)
      modifies this
      ensures articles == old(articles) + Accepted(CrawlOn(svc, IsoDate(today)), batch)
    {
      ghost var crawl := CrawlOn(svc, IsoDate(today));
      assert batch[..0] == [];
      for k := 0 to |batch|
        invariant articles == old(articles) + Accepted(crawl, batch[..k])
      {
        AcceptedNext(crawl, batch, k);
        var article := CrawlArticle(svc, batch[k], today);
        assert crawl(batch[k]) == article;
        ListedAppend(old(articles), Accepted(crawl, batch[..k]), article, Accepted(crawl, batch[..k + 1]));
        if article.Some? {
          articles := articles + [article.value];
        }
      }
      assert batch[..|batch|] == batch;
    }

    /** Find the links, crawl at most the first 20 of them, appending each
        article that comes back, and emit the files and the book only when
        there are articles. `links` is the list the links were taken from. */
    method Run(svc: Services, today: Date) returns (output: Option<Output>, ghost links: seq<string>)
      modifies this
      ensures svc.fetch(BaseUrl).None? ==> links == []
      ensures svc.fetch(BaseUrl).Some? ==>
                forall u :: u in links <==> u in Links.DiscoveredLinks(svc, svc.fetch(BaseUrl).value)
      ensures forall i, j :: 0 <= i < j < |links| ==> links[i] != links[j]
      ensures links == [] ==> articles == old(articles) && output.None?
      ensures links != [] ==>
                articles == old(articles) + Accepted(CrawlOn(svc, IsoDate(today)), links[..Cap(|links|)])
      ensures output.Some? <==> links != [] && articles != []
      ensures output.Some? ==>
                output.value == Output(Files.MarkdownFiles(articles), Epub.EpubBook(articles, today),
                                       Epub.EpubFileName(today))
    {
      var articleLinks := GetArticleLinks(svc);
      links := articleLinks;
      if articleLinks == [] {
        return None, links;
      }
      CrawlEach(svc, articleLinks[..Cap(|articleLinks|)], today);
      if articles == [] {
        return None, links;
      }
      var files := SaveMarkdownFiles();
      var book, epubFileName := CreateEpub(today);
      output := Some(Output(files, book, epubFileName));
    }
  }

  /** How many of n links run crawls: article_links[:20]. */
  function Cap(n: nat): (r: nat)
    ensures r <= n && r <= MaxArticles
    ensures r == n || r == MaxArticles
  {
    if n < MaxArticles then n else MaxArticles
  }

  // ============================================================== lemmas

  /** The accepted articles are exactly the articles of the URLs that gave
      one, in URL order: the positions are increasing, each position's URL
      gives that article, and a URL's position is listed exactly when it
      gives an article. */
  lemma {:induction false} AcceptedAreTheCrawled(crawl: string -> Option<Article>, urls: seq<string>)
    ensures var acc := Accepted(crawl, urls);
            var pos := AcceptedPositions(crawl, urls);
            && |pos| == |acc| <= |urls|
            && (forall k :: 0 <= k < |pos| ==> 0 <= pos[k] < |urls| && crawl(urls[pos[k]]) == Some(acc[k]))
            && (forall k, l :: 0 <= k < l < |pos| ==> pos[k] < pos[l])
            && (forall i :: 0 <= i < |urls| ==> (crawl(urls[i]).Some? <==> i in pos))
    decreases |urls|
  {
    if urls != [] {
      var init := urls[..|urls| - 1];
      var last := |urls| - 1;
      AcceptedAreTheCrawled(crawl, init);
      var pos0 := AcceptedPositions(crawl, init);
      forall i | 0 <= i < last ensures urls[i] == init[i] { }
      forall k | 0 <= k < |pos0| ensures pos0[k] < last { }
    }
  }

  /** Each accepted article carries the URL it was crawled from. */
  lemma AcceptedUrls(svc: Services, urls: seq<string>, date: string)
    ensures var acc := Accepted(CrawlOn(svc, date), urls);
            var pos := AcceptedPositions(CrawlOn(svc, date), urls);
            forall k :: 0 <= k < |pos| ==> 0 <= pos[k] < |urls| && k < |acc| && acc[k].url == urls[pos[k]]
  {
    var crawl := CrawlOn(svc, date);
    AcceptedAreTheCrawled(crawl, urls);
    var acc := Accepted(crawl, urls);
    var pos := AcceptedPositions(crawl, urls);
    forall k | 0 <= k < |pos| ensures acc[k].url == urls[pos[k]] {
      Extract.CrawledKeepsUrl(svc, urls[pos[k]], date);
    }
  }

  /** Each run adds at most min(20, number of links) articles. */
  lemma RunAddsAtMostCap(crawl: string -> Option<Article>, links: seq<string>)
    ensures |Accepted(crawl, links[..Cap(|links|)])| <= Cap(|links|) <= MaxArticles
  {
    AcceptedAreTheCrawled(crawl, links[..Cap(|links|)]);
  }

  /** Only the first 20 links matter: what lies beyond them never reaches
      the articles. */
  lemma LinksBeyondCapIgnored(crawl: string -> Option<Article>, links: seq<string>, more: seq<string>)
    requires |links| >= MaxArticles
    ensures Accepted(crawl, (links + more)[..Cap(|links + more|)]) == Accepted(crawl, links[..Cap(|links|)])
  {
    assert (links + more)[..MaxArticles] == links[..MaxArticles];
  }
}
