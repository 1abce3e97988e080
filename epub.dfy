/** create_epub: the chapters, table of contents, spine and items handed to
    the EPUB library, and the file name of the book. */
module Epub {
  import opened Strings
  import opened Types
  import Html

  const BookIdentifier: string := "chentianyuzhou-collection"
  const BookTitle: string := "陈天宇宙 - 文章集合"
  const BookLanguage: string := "zh-CN"
  const BookAuthor: string := "陈天宇宙"

  /** An EpubHtml document. */
  datatype Chapter = Chapter(title: string, fileName: string, lang: string, content: string)

  /** An entry of the spine: the navigation document or a chapter. */
  datatype SpineEntry = NavEntry | ChapterEntry(chapter: Chapter)

  /** An item added to the book, in the order of the add_item calls. */
  datatype Item = HtmlItem(chapter: Chapter) | NcxItem | NavItem

  datatype Book = Book(
    identifier: string, title: string, language: string, authors: seq<string>,
    items: seq<Item>, toc: seq<Chapter>, spine: seq<SpineEntry>)

  /** The opening page: the collection's title, the site, the date and the
      number of articles. */
  function IntroChapter(count: nat, today: Date): Chapter {
    var content :=
      "\n        <h1>陈天宇宙 - 文章集合</h1>\n"
      + "        <p>本电子书包含了陈天宇宙网站的文章集合。</p>\n"
      + "        <p>原网站地址: <a href=\"https://chentianyuzhou.com\">https://chentianyuzhou.com</a></p>\n"
      + "        <p>生成时间: " + ChineseDate(today) + "</p>\n"
      + "        <p>共收录文章: " + Decimal(count) + " 篇</p>\n"
      + "        ";
    Chapter("前言", "intro.xhtml", BookLanguage, content)
  }

  /** chapter_{i:03d}.xhtml */
  function ChapterFileName(i: nat): string {
    "chapter_" + ZeroPad(i, 3) + ".xhtml"
  }

  /** The heading block put above each article's body. */
  function ChapterHeader(a: Article): string {
    "\n            <h1>" + a.title + "</h1>\n"
    + "            <p><strong>原文链接:</strong> <a href=\"" + a.url + "\">" + a.url + "</a></p>\n"
    + "            <p><strong>爬取日期:</strong> " + a.date + "</p>\n"
    + "            <hr/>\n"
    + "            "
  }

  /** The chapter for the i-th article (counting from 1). */
  function ArticleChapter(i: nat, a: Article): Chapter {
    Chapter(a.title, ChapterFileName(i), BookLanguage, ChapterHeader(a) + Html.MarkdownToHtml(a.content))
  }

  /** make(1, xs[0]), make(2, xs[1]), …: each article with its position,
      counting from 1. */
  function Numbered(xs: seq<Article>, make: (nat, Article) -> Chapter): (r: seq<Chapter>)
    ensures |r| == |xs|
    ensures forall i :: 0 <= i < |xs| ==> r[i] == make(i + 1, xs[i])
    decreases |xs|
  {
    if xs == [] then []
    else Numbered(xs[..|xs| - 1], make) + [make(|xs|, xs[|xs| - 1])]
  }

  /** The chapters of the articles, in order, numbered from 1. */
  function Chapters(articles: seq<Article>): seq<Chapter> {
    Numbered(articles, ArticleChapter)
  }

  /** Chapter i of the list is the chapter of article i, numbered i + 1. */
  lemma ChaptersAt(articles: seq<Article>, i: nat)
    requires i < |articles|
    ensures Chapters(articles)[i] == ArticleChapter(i + 1, articles[i])
  {
  }

  /** The spine entries of the chapters, in order. */
  function ChapterEntries(chapters: seq<Chapter>): (r: seq<SpineEntry>)
    ensures |r| == |chapters|
    ensures forall i :: 0 <= i < |chapters| ==> r[i] == ChapterEntry(chapters[i])
    decreases |chapters|
  {
    if chapters == [] then []
    else ChapterEntries(chapters[..|chapters| - 1]) + [ChapterEntry(chapters[|chapters| - 1])]
  }

  /** The items of the chapters, in order. */
  function HtmlItems(chapters: seq<Chapter>): (r: seq<Item>)
    ensures |r| == |chapters|
    ensures forall i :: 0 <= i < |chapters| ==> r[i] == HtmlItem(chapters[i])
    decreases |chapters|
  {
    if chapters == [] then []
    else HtmlItems(chapters[..|chapters| - 1]) + [HtmlItem(chapters[|chapters| - 1])]
  }

  /** The book create_epub writes for these articles on this day. */
  function EpubBook(articles: seq<Article>, today: Date): Book {
    var toc := [IntroChapter(|articles|, today)] + Chapters(articles);
    Book(BookIdentifier, BookTitle, BookLanguage, [BookAuthor],
         HtmlItems(toc) + [NcxItem, NavItem], toc, [NavEntry] + ChapterEntries(toc))
  }

  /** One more chapter adds one spine entry and one item at the end. */
  lemma EntriesNext(chapters: seq<Chapter>, c: Chapter)
    ensures ChapterEntries(chapters + [c]) == ChapterEntries(chapters) + [ChapterEntry(c)]
    ensures HtmlItems(chapters + [c]) == HtmlItems(chapters) + [HtmlItem(c)]
  {
    assert (chapters + [c])[..|chapters|] == chapters;
  }

  /** 陈天宇宙-文章集合-{%Y%m%d}.epub */
  function EpubFileName(today: Date): string {
    "陈天宇宙-文章集合-" + CompactDate(today) + ".epub"
  }

  // ============================================================== lemmas

  lemma ChapterNumberReadBack(i: nat)
    ensures var f := ChapterFileName(i);
            |f| >= 14 && f[8..|f| - 6] == ZeroPad(i, 3)
  {
    var f := ChapterFileName(i);
    assert f == "chapter_" + (ZeroPad(i, 3) + ".xhtml");
  }

  /** Different chapters get different file names, none of them the
      introduction's. */
  lemma ChapterFileNamesDistinct(i: nat, j: nat)
    ensures ChapterFileName(i) == ChapterFileName(j) ==> i == j
    ensures ChapterFileName(i) != "intro.xhtml"
  {
    ChapterNumberReadBack(i);
    ChapterNumberReadBack(j);
    if ChapterFileName(i) == ChapterFileName(j) {
      ZeroPadInjective(i, j, 3);
    }
    assert ChapterFileName(i)[0] == 'c';
  }

  /** For N articles the table of contents is the introduction and then
      one chapter per article (N + 1 entries); the spine is the navigation
      document and then the same documents in the same order (N + 2
      entries); the items are those documents, then the NCX and the
      navigation document (N + 3 entries). */
  lemma EpubBookShape(articles: seq<Article>, today: Date)
    ensures var book := EpubBook(articles, today);
            var n := |articles|;
            && |book.toc| == n + 1 && |book.spine| == n + 2 && |book.items| == n + 3
            && book.toc[0] == IntroChapter(n, today)
            && book.toc[0].fileName == "intro.xhtml" && book.toc[0].title == "前言"
            && book.toc[1..] == Chapters(articles)
            && book.spine[0] == NavEntry
            && book.items[n + 1] == NcxItem && book.items[n + 2] == NavItem
            && (forall i :: 0 <= i < |book.toc| ==>
                  book.spine[i + 1] == ChapterEntry(book.toc[i]) && book.items[i] == HtmlItem(book.toc[i]))
  {
    var book := EpubBook(articles, today);
    BookLayoutAt(book, 0);
    forall i | 0 <= i < |book.toc|
      ensures book.spine[i + 1] == ChapterEntry(book.toc[i]) && book.items[i] == HtmlItem(book.toc[i])
    {
      BookLayoutAt(book, i);
    }
  }

  /** No two documents of the table of contents share a file name. */
  lemma EpubBookNamesDistinct(articles: seq<Article>, today: Date)
    ensures var toc := EpubBook(articles, today).toc;
            forall i, j :: 0 <= i < j < |toc| ==> toc[i].fileName != toc[j].fileName
  {
    ChapterNames(articles);
    TocNamesDistinct(IntroChapter(|articles|, today), Chapters(articles));
  }

  /** Entry i of the table of contents is entry i + 1 of the spine (after
      the navigation document) and item i (before the NCX and the
      navigation document). */
  lemma BookLayoutAt(book: Book, i: nat)
    requires book.spine == [NavEntry] + ChapterEntries(book.toc)
    requires book.items == HtmlItems(book.toc) + [NcxItem, NavItem]
    requires i < |book.toc|
    ensures |book.spine| == |book.toc| + 1 && |book.items| == |book.toc| + 2
    ensures book.spine[0] == NavEntry
    ensures book.items[|book.toc|] == NcxItem && book.items[|book.toc| + 1] == NavItem
    ensures book.spine[i + 1] == ChapterEntry(book.toc[i])
    ensures book.items[i] == HtmlItem(book.toc[i])
  {
  }

  /** Chapter i of the list carries the title of article i and the file
      name of number i + 1. */
  lemma ChapterOfArticle(articles: seq<Article>, i: nat)
    requires i < |articles|
    ensures i < |Chapters(articles)|
    ensures Chapters(articles)[i].title == articles[i].title
    ensures Chapters(articles)[i].fileName == ChapterFileName(i + 1)
  {
    ChaptersAt(articles, i);
  }

  /** The chapters are named chapter_001.xhtml, chapter_002.xhtml, … */
  lemma ChapterNames(articles: seq<Article>)
    ensures forall i :: 0 <= i < |Chapters(articles)| ==> Chapters(articles)[i].fileName == ChapterFileName(i + 1)
  {
    forall i | 0 <= i < |Chapters(articles)| ensures Chapters(articles)[i].fileName == ChapterFileName(i + 1) {
      ChapterOfArticle(articles, i);
    }
  }

  /** The introduction, named intro.xhtml, followed by chapters named
      chapter_{i:03d}.xhtml for i from 1: no two of them share a name. */
  lemma TocNamesDistinct(intro: Chapter, chapters: seq<Chapter>)
    requires intro.fileName == "intro.xhtml"
    requires forall i :: 0 <= i < |chapters| ==> chapters[i].fileName == ChapterFileName(i + 1)
    ensures var toc := [intro] + chapters;
            forall i, j :: 0 <= i < j < |toc| ==> toc[i].fileName != toc[j].fileName
  {
    var toc := [intro] + chapters;
    forall i, j | 0 <= i < j < |toc| ensures toc[i].fileName != toc[j].fileName {
      assert toc[j] == chapters[j - 1];
      ChapterFileNamesDistinct(j, j);
      if i > 0 {
        assert toc[i] == chapters[i - 1];
        ChapterFileNamesDistinct(i, j);
      }
    }
  }
}
