# chentianyuzhou crawler, modelled in Dafny

This project models `crawler.py`, the crawler for chentianyuzhou.com. The crawler has five steps:

- **Find article links.** It finds article links on the site's front page (`get_article_links`).
- **Crawl articles.** It crawls at most twenty of them (`run`). For each one it extracts a title and a content region, turns the region into markdown and cleans it (`crawl_article`, `clean_markdown`).
- **Save markdown.** It saves one numbered markdown file per article (`save_markdown_files`).
- **Build the book.** It builds an EPUB book with an introduction and one chapter per article (`create_epub`).
- **Convert chapters.** Each chapter's markdown is converted to HTML by a paragraph wrap and three lazy heading rewrites.

The project is organised by concern:

| file | module | what it holds |
|---|---|---|
| `strings.dfy` | `Strings` | The Python string operations the crawler relies on. These are `strip`, `split`, `join`, `replace`, the `in` substring test, `lower`, `\s`/`\w` character classes and `{i:03d}` formatting. |
| `types.dfy` | `Types` | The values passed around: articles, dates, parsed pages and elements. It also holds `Services`, the collaborators given as functions: the HTTP fetch and parse, the removal of unwanted elements plus html2text, and `urljoin`. |
| `links.dfy` | `Links` | `get_article_links` as sets: the structural selectors, the anchor scan and its block list. |
| `extract.dfy` | `Extract` | `crawl_article` as a function: the title and content selector chains and the failure cases. |
| `markdown.dfy` | `Markdown` | `clean_markdown`. |
| `files.dfy` | `Files` | The file names and file contents of `save_markdown_files`. |
| `html.dfy` | `Html` | The markdown-to-HTML step of `create_epub`. |
| `epub.dfy` | `Epub` | The book `create_epub` assembles: metadata, items, table of contents and spine. |
| `crawler.dfy` | `Crawler` | The crawler object. `class Crawler` holds the `articles` list that the methods append to and read. Each loop of the source is a method proved against the functions above. |

Some details of how the source is modelled:

- **Truthiness.** A BeautifulSoup tag is always true, so `if title_elem:` and `if content:` test only that something was found. `if href:` tests that the attribute is present and not empty.
- **Set order.** `list(article_links)` returns the set's members in an order the set does not fix. `Links.ListOfSet` picks them in an arbitrary order and promises only membership and no repeats.
- **Blank-line collapse.** The collapse `\n\s*\n\s*\n` uses greedy quantifiers, so each match runs to the last newline of its whitespace run. `Markdown.BlankRunMatch` computes that longest match. `Markdown.BlankRunMatchIsLongest` proves the match against a reading of the pattern itself.
- **Heading rewrites.** The rewrites run in the order `# `, `## `, `### `. Each is `(.*?)</p>`: lazy, and unable to cross a newline. So a `## ` paragraph is caught by the first rewrite at its second `#`, and the chapter holds `<p>#<h1>…</h1>`. The model keeps this behaviour (`Html.LevelTwoHeadingBecomesH1`).
- **What the code does not do.** The model follows the code, which does none of the following:
  - escape `<`, `>` or `&` when it puts body text into the chapter HTML (`Html.PlainTextVerbatim`);
  - demand a minimum content length before it keeps an article;
  - demand a minimum link-text length before it keeps a link;
  - make a placeholder article when no article is crawled: `run` returns without writing anything (`Crawler.Crawler.Run`);
  - shorten long runs of `*`, `-` or `=` in the markdown: `clean_markdown` only collapses blank lines and strips lines;
  - remove `script`, `style`, `nav`, `footer`, `header` or `.comment` elements from the whole page: it removes them only inside the chosen content region, after the region is chosen (crawler.py:118-119);
  - carry a title from the front page's link to the article: the title comes only from the article page's own selectors, or from the URL.

## Model

| member | source | states |
|---|---|---|
| Crawler.Crawler.constructor | crawler.py:12-18 | A new crawler has no articles. |
| Crawler.Crawler.GetArticleLinks | crawler.py:23-72 | When the front page cannot be fetched, the result is empty. Otherwise it holds exactly the discovered links of that page, and each one once. |
| Links.DiscoveredLinks | crawler.py:37-65 | Definition; see the lemma rows below it. |
| Links.StructuralMembers | crawler.py:37-54 | A URL is a structural link exactly when some match of one of the eight link selectors has a non-empty `href` that `urljoin` resolves to it. |
| Links.FallbackMembers | crawler.py:57-65 | A URL comes from the anchor scan exactly when some anchor's `href` starts with `/` or contains the site URL, resolves to it, and the lower-cased URL contains none of the eight blocked fragments. |
| Links.DiscoveredSources | crawler.py:48-65 | When the structural selectors found anything, the result is exactly the structural links. When they found nothing, the result is exactly the anchor-scan links. |
| Links.JsonIsBlocked | crawler.py:64 | The block test is a substring test, so a URL containing `.json` in any letter case is also blocked (it contains `.js`). |
| Links.BlockIgnoresCase | crawler.py:64 | The block list applies after lower-casing: two URLs that differ only in the case of ASCII letters are either both blocked or both kept. |
| Links.UpperCssIsBlocked | crawler.py:64 | A URL containing `.CSS` anywhere is blocked. |
| Links.ListOfSet | crawler.py:68 | The list has the same members as the set, the same size, and no repeats. |
| Crawler.Crawler.CrawlArticle | crawler.py:74-138 | The selector loops give exactly `Extract.Crawled`. That is the first title hit or the fallback title, the first content hit or the body, and nothing when the fetch fails or no region exists. |
| Extract.RegionOf | crawler.py:96-116 | Definition; see the lemma rows below it. |
| Extract.TitleOf | crawler.py:84-93 | Definition; see the lemma rows below it. |
| Extract.Crawled | crawler.py:74-138 | Definition; see the lemma rows below it. |
| Extract.FirstHit | crawler.py:86-90 | The result is the first selector, in list order, that finds an element, together with that element. All earlier selectors find nothing. The result is None exactly when no selector finds anything. |
| Extract.TitleFromFirstFound | crawler.py:84-93 | The first title selector that finds an element decides the title, whatever later selectors would find. The title is that element's stripped text, or the fallback title when the text strips to empty. |
| Extract.TitleWithoutElements | crawler.py:92-93 | With no title element, the title is `文章 - ` followed by the last `/`-segment of the URL. |
| Extract.TitleNonEmpty | crawler.py:84-93 | The title is never empty. It is the fallback title or the stripped text of an element that some title selector finds. |
| Extract.LastSegmentShape | crawler.py:93 | `url.split('/')[-1]` holds no `/` and is a suffix of the URL. It is the whole URL when the URL holds no `/`; otherwise it is exactly what follows the last `/`. |
| Extract.RegionFromFirstFound | crawler.py:96-110 | The first content selector that finds an element gives the region. |
| Extract.RegionFallsBackToBody | crawler.py:112-116 | When no content selector finds an element, the region is the page's body. There is no region exactly when no content selector finds an element and the page has no body. |
| Extract.CrawledCases | crawler.py:76-138 | An article comes back exactly when the page is fetched and a region is found. The article carries the URL it was fetched from, the date, a non-empty resolved title, and the cleaned markdown of the region. |
| Extract.CrawledKeepsUrl | crawler.py:127-132 | An article's `url` is the URL it was crawled from. |
| Extract.CrawledContentIsClean | crawler.py:122-125 | An article's content never holds three newlines in a row. Every line is stripped, and cleaning the content again changes nothing. |
| Markdown.CleanMarkdown | crawler.py:140-146 | Definition; see the lemma rows below it. |
| Markdown.CollapseBlankRuns | crawler.py:143 | Definition; see the lemma rows below it. |
| Markdown.BlankRunMatchIsLongest | crawler.py:143 | The match found at a position is the longest prefix there that the pattern `\n\s*\n\s*\n` matches. That is the match greedy backtracking finds. When nothing is found, no prefix matches. |
| Markdown.CollapseBounds | crawler.py:143 | After the substitution, no whitespace run holds more than two newlines. A leading run with three or more newlines is left with exactly two. |
| Markdown.CollapseKeepsNonSpace | crawler.py:143 | The substitution keeps every non-whitespace character, in order. |
| Markdown.CollapseFixesBounded | crawler.py:143 | Text in which no whitespace run holds three newlines is left unchanged by the substitution. |
| Markdown.CollapseSplitsAfterWord | crawler.py:143 | The substitution never reaches back past a non-whitespace character: text that ends in one can be collapsed separately from what follows. |
| Markdown.CollapseInteriorRun | crawler.py:143 | For a whitespace run between two pieces of text, from its first newline to its last: if it holds three or more newlines it becomes exactly `\n\n`; if it holds two or fewer it is kept unchanged. The spaces before its first newline and after its last are kept, and the text on both sides is collapsed on its own. |
| Markdown.StripLinesErases | crawler.py:145-146 | Stripping every line and joining the lines with `\n` only deletes whitespace characters. |
| Markdown.CleanLines | crawler.py:145-146 | The lines of the cleaned text are the stripped lines of the collapsed text, one for one. |
| Markdown.CleanLinesAreStripped | crawler.py:140-146 | No line of the cleaned text starts or ends with whitespace. |
| Markdown.CleanBoundsBlankLines | crawler.py:140-146 | No whitespace run of the cleaned text holds more than two newlines. So `\n\n\n` never occurs in it. |
| Markdown.CleanKeepsNonSpace | crawler.py:140-146 | Cleaning keeps every non-whitespace character, in order. |
| Markdown.CleanIdempotent | crawler.py:140-146 | Cleaning a cleaned text changes nothing. |
| Strings.Strip | crawler.py:145 | `strip()` returns a slice of the input with only whitespace cut away on each side. The slice neither starts nor ends with whitespace. |
| Strings.StripIdempotent | crawler.py:145 | Stripping twice is the same as stripping once. |
| Strings.JoinSplitOn | crawler.py:145-146 | Joining the parts of a split with the same separator gives back the text. |
| Strings.SplitOnLastPart | crawler.py:93 | The last part of a split on one character does not contain that character and is a suffix of the text. It is the whole text when the character does not occur; otherwise it is preceded by that character, so it is what follows the last occurrence. |
| Strings.SplitOnConcat | crawler.py:161-166 | Splitting `x + c + y` on `c` gives the parts of `x` followed by the parts of `y`. |
| Strings.ReplaceIsJoinOfSplit | crawler.py:223 | `replace` is a split on the target followed by a join with the replacement. |
| Strings.ToLowerNoUpper | crawler.py:64 | `lower()` keeps the length, leaves no ASCII capital letter and keeps every character that is not an ASCII capital. |
| Strings.ToLowerIdempotent | crawler.py:64 | Lower-casing twice is the same as lower-casing once. |
| Strings.ZeroPadValue | crawler.py:157 | The zero-padded numeral of `n` denotes `n`. |
| Strings.ZeroPadInjective | crawler.py:208 | Different numbers never pad to the same numeral. |
| Crawler.Crawler.SaveMarkdownFiles | crawler.py:148-168 | The files written are `Files.MarkdownFiles` of the articles, in order and numbered from 1. |
| Files.FileBody | crawler.py:161-166 | Definition; see the lemma rows below it. |
| Files.FileName | crawler.py:157 | Definition; see the lemma rows below it. |
| Files.Slug | crawler.py:155-157 | Definition; see the lemma rows below it. |
| Files.DropUnsafeKeepsWords | crawler.py:155 | After `[^\w\s-]` is removed, only word characters, whitespace and hyphens remain, and every word character of the title is kept in order. |
| Files.DropUnsafeKeepsSafe | crawler.py:155 | Word characters, whitespace and hyphens all survive the `[^\w\s-]` pass: a text made only of them is left unchanged. |
| Files.DropUnsafeConcat | crawler.py:155 | The pass works character by character: on each part of a text it does exactly what it does to that part alone. |
| Files.DropUnsafeDeletes | crawler.py:155 | A character outside `[\w\s-]` is deleted wherever it stands, and the text on its two sides closes up. |
| Files.DropUnsafeDeletesAll | crawler.py:155 | A text made only of characters outside `[\w\s-]` becomes empty. |
| Files.RunBecomesHyphen | crawler.py:156 | A maximal run of hyphens and whitespace becomes exactly one `-`, and the text on either side is collapsed on its own. |
| Files.CollapseSplitsAtWord | crawler.py:156 | The substitution never reaches back past a character that is not a hyphen or whitespace. |
| Files.CollapseSeparatorsShape | crawler.py:156 | After `[-\s]+` becomes `-`, the text holds only word characters and single hyphens, and the word characters are unchanged. |
| Files.SlugShape | crawler.py:155-157 | The title part of the file name has at most 50 characters and holds only word characters and single hyphens. Its word characters are a prefix of the title's word characters, and all of them when the collapsed title fits in 50 characters. |
| Files.FileNamePrefix | crawler.py:157 | Below 1000, a file name is three digits denoting the article's number, then `-`, and it ends in `.md`. |
| Files.FileNameDeterminesIndex | crawler.py:157 | Equal file names imply equal article numbers. |
| Files.MarkdownFileNamesDistinct | crawler.py:153-159 | No two files of one save share a name, so none overwrites another. |
| Files.FileBodyLines | crawler.py:161-166 | The file's lines are, in order: the lines of `# title`, a blank line, the lines of `原文链接: url`, the lines of `爬取日期: date`, a blank line, `---`, a blank line, and then the lines of the content. When the title, URL and date hold no newline, the header is exactly those seven lines. |
| Crawler.Crawler.CreateEpub | crawler.py:170-249 | The book assembled is `Epub.EpubBook` of the articles and the date. The file name is `陈天宇宙-文章集合-YYYYMMDD.epub`. |
| Crawler.AddChapters | crawler.py:197-234 | After the introduction, the table of contents holds each article's chapter, numbered from 1. The spine is `nav` followed by the same documents, and the items are the same documents, all in article order. |
| Epub.EpubBook | crawler.py:175-242 | Definition; see the lemma rows below it. |
| Epub.EpubBookShape | crawler.py:175-242 | For N articles the table of contents has N + 1 entries, starting with the `前言` introduction in `intro.xhtml` and then the article chapters. The spine has N + 2 entries: `nav`, then the table of contents in order. The items are N + 3: the table of contents in order, then the NCX at position N + 1 and the navigation document at position N + 2. |
| Epub.EpubBookNamesDistinct | crawler.py:184-210 | No two documents in the table of contents share a file name. |
| Epub.ChapterOfArticle | crawler.py:204-210 | Chapter i carries article i's title and the file name `chapter_{i+1:03d}.xhtml`. |
| Epub.ChapterNumberReadBack | crawler.py:208 | The chapter number can be read back from the chapter's file name. |
| Epub.ChapterFileNamesDistinct | crawler.py:208 | Different chapter numbers give different file names, and none of them is `intro.xhtml`. |
| Html.MarkdownToHtml | crawler.py:221-227 | Definition; see the lemma rows below it. |
| Html.SubHeading | crawler.py:225-227 | Definition; see the lemma rows below it. |
| Html.WrapIsParagraphs | crawler.py:223-224 | Before the heading rewrites, the body is each piece of `split('\n\n')` of the markdown wrapped as a paragraph, in order. |
| Html.LazyCloseIsFirst | crawler.py:225-227 | The lazy group stops at the first `</p>` it can reach without crossing a newline. With no such `</p>`, there is no match at that position. |
| Html.HashFreeUnchanged | crawler.py:225-227 | Text without `#` is left unchanged by a heading rewrite. |
| Html.PlainTextVerbatim | crawler.py:221-227 | Markdown without `#` and without blank lines becomes one paragraph holding the text verbatim: nothing is escaped. |
| Html.LevelOneHeading | crawler.py:223-225 | For `t` holding no `#`, newline or `<`: a `# t` paragraph becomes `<p><h1>t</h1>`: the match consumes the `</p>`. |
| Html.LevelTwoHeadingBecomesH1 | crawler.py:225-227 | For `t` holding no `#`, newline or `<`: a `## t` paragraph becomes `<p>#<h1>t</h1>`, never an h2, because the level-one rewrite runs first. |
| Html.LaterLevelsFindNothing | crawler.py:226-227 | After the level-one rewrite of a `## ` paragraph, the h2 and h3 rewrites change nothing. |
| Crawler.Crawler.CrawlEach | crawler.py:263-267 | After the loop, the articles are the earlier articles followed by `Accepted`: each crawled URL's article, in URL order, skipping the URLs that gave none. |
| Crawler.Crawler.Run | crawler.py:251-281 | Covers all three endings of a run. No links means no articles are added and nothing is written. Otherwise the first `Cap` links are crawled and their articles appended. Files and book are produced exactly when some article exists, and they are the files and book of those articles. The links hold no repeats, so no URL is crawled twice in one run. |
| Crawler.Cap | crawler.py:263 | `article_links[:20]` keeps min(n, 20) links. |
| Crawler.Accepted | crawler.py:263-266 | Definition; see the lemma rows below it. |
| Crawler.AcceptedAreTheCrawled | crawler.py:263-266 | The appended articles correspond one to one, in order, to the positions of the URLs whose crawl gave an article. A URL's position is listed exactly when its crawl gave one. |
| Crawler.AcceptedUrls | crawler.py:263-266 | Each appended article carries the URL at its position in the link list. |
| Crawler.RunAddsAtMostCap | crawler.py:263 | One run adds at most min(number of links, 20) articles. |
| Crawler.LinksBeyondCapIgnored | crawler.py:263 | Links after the twentieth never affect the articles. |

## Left out

- The network is not modelled: `requests.Session`, its User-Agent header, timeouts and `raise_for_status`. A fetch is a function from URL to an optional parsed page, and any exception it raises becomes None.
- BeautifulSoup parsing and CSS selector matching are not modelled. A page is given by what `select` returns for each selector.
- The `decompose` of `script, style, nav, footer, header, .comment` and the html2text conversion are not modelled. Together they are one given function from a region to markdown text.
- `urljoin` is a given function.
- The one `HTML2Text` object the crawler keeps and reuses for every article (crawler.py:19-21, 122) is a pure function of the region in the model: it assumes the converter keeps no state from one call to the next.
- `print` and `time.sleep(1)` do not affect any result.
- The clock is read once: `run` takes today's date as a parameter. The source calls `datetime.now()` once per article and twice in `create_epub`, so a run that crosses midnight can mix dates there, and the model does not capture that.
- Writing files is not modelled: `os.makedirs`, `open`/`write` and `epub.write_epub`. The model produces each file's name and text and the book's structure.
- `EpubNcx` and `EpubNav` are items without content in the model.
- Exceptions raised by html2text or by `urljoin` are not modelled.
- Strings.IsWordChar: approximates Python's `\w` with ASCII letters, digits and `_`, the Latin-1 letters and numbers (ª ² ³ µ ¹ º ¼ ½ ¾ and À to ÿ except × and ÷), CJK ideographs and full-width letters and digits. Letters and digits outside these ranges are not included, for instance Latin Extended letters such as ő, and CJK ideographs outside U+3400 to U+4DBF and U+4E00 to U+9FFF.
- Strings.ToLower: lower-cases ASCII letters only. The only non-ASCII characters Python lower-cases to ASCII are U+0130 and U+212A, and neither can complete a blocked fragment.
- Links.ListOfSet: does not fix the order of the list, because the set's iteration order is not part of the source's behaviour.
- Crawler.Crawler.Run: returns the links it crawled from as a ghost value, so that its contract can name them.
