/** The markdown-to-HTML step of create_epub: paragraph wrapping, then the
    three heading rewrites, h1 first. */
module Html {
  import opened Strings
  import opened Types

  /** Replace every blank-line break with `</p><p>` and wrap the whole in
      one paragraph. */
  function WrapParagraphs(md: string): string {
    "<p>" + Replace(md, "\n\n", "</p><p>") + "</p>"
  }

  /** Each piece between blank-line breaks, as its own paragraph. */
  function Paragraphs(parts: seq<string>): string
    decreases |parts|
  {
    if parts == [] then "" else "<p>" + parts[0] + "</p>" + Paragraphs(parts[1..])
  }

  /** Where the lazy `(.*?)</p>` stops in t: the first `</p>` with no
      newline before it. */
  function LazyClose(t: string): (r: Option<nat>)
    ensures r.Some? ==> r.value + 4 <= |t| && t[r.value..r.value + 4] == "</p>" && '\n' !in t[..r.value]
    decreases |t|
  {
    if StartsWith(t, "</p>") then
      assert t[0..4] == t[..4];
      Some(0)
    else if t == [] || t[0] == '\n' then None
    else match LazyClose(t[1..])
      case None => None
      case Some(j) =>
        CloseFurther(t, j);
        Some(j + 1)
  }

  /** A `</p>` found at j after the first character, with no newline before
      it, is at j + 1 in the whole text, still with no newline before it. */
  lemma CloseFurther(t: string, j: nat)
    requires t != [] && t[0] != '\n'
    requires j + 4 <= |t| - 1 && t[1..][j..j + 4] == "</p>" && '\n' !in t[1..][..j]
    ensures j + 5 <= |t| && t[j + 1..j + 5] == "</p>" && '\n' !in t[..j + 1]
  {
    assert t[1..][j..j + 4] == t[j + 1..j + 5];
    assert t[..j + 1] == [t[0]] + t[1..][..j];
  }

  /** re.sub(marker + '(.*?)</p>', '<tag>\1</tag>', s): scanning left to
      right, each match becomes a tag around the captured text and the scan
      resumes after the `</p>`. */
  function SubHeading(s: string, marker: string, tag: string): string
    decreases |s|
  {
    if s == [] then []
    else if StartsWith(s, marker) && LazyClose(s[|marker|..]).Some? then
      var t := s[|marker|..];
      var j := LazyClose(t).value;
      "<" + tag + ">" + t[..j] + "</" + tag + ">" + SubHeading(t[j + 4..], marker, tag)
    else [s[0]] + SubHeading(s[1..], marker, tag)
  }

  /** The chapter body built from an article's markdown. */
  function MarkdownToHtml(md: string): string {
    var html := WrapParagraphs(md);
    var h1 := SubHeading(html, "# ", "h1");
    var h2 := SubHeading(h1, "## ", "h2");
    SubHeading(h2, "### ", "h3")
  }

  // ============================================================== lemmas

  /** LazyClose finds the match the lazy group stops at: no earlier `</p>`,
      and when it finds none, no `</p>` is reachable before a newline. */
  lemma {:induction false} LazyCloseIsFirst(t: string)
    ensures LazyClose(t).Some? ==>
            forall j :: 0 <= j < LazyClose(t).value ==> !StartsWith(t[j..], "</p>")
    ensures LazyClose(t).None? ==>
            forall j :: 0 <= j <= |t| && '\n' !in t[..j] ==> !StartsWith(t[j..], "</p>")
    decreases |t|
  {
    if !StartsWith(t, "</p>") && t != [] && t[0] != '\n' {
      LazyCloseIsFirst(t[1..]);
      forall j | 1 <= j <= |t| ensures t[j..] == t[1..][j - 1..] && t[..j] == [t[0]] + t[1..][..j - 1] {
      }
    }
  }

  lemma {:induction false} ParagraphsOfJoin(parts: seq<string>)
    requires parts != []
    ensures "<p>" + Join(parts, "</p><p>") + "</p>" == Paragraphs(parts)
    decreases |parts|
  {
    if |parts| > 1 {
      ParagraphsOfJoin(parts[1..]);
      var rest := Join(parts[1..], "</p><p>");
      calc {
        "<p>" + Join(parts, "</p><p>") + "</p>";
        "<p>" + (parts[0] + "</p><p>" + rest) + "</p>";
        "<p>" + parts[0] + "</p>" + ("<p>" + rest + "</p>");
      }
    } else {
      assert Paragraphs(parts[1..]) == "";
    }
  }

  /** Before the heading rewrites, the body is every blank-line-separated
      piece of the markdown wrapped as a paragraph, in order, the pieces
      being what split('\n\n') gives. */
  lemma WrapIsParagraphs(md: string)
    ensures WrapParagraphs(md) == Paragraphs(SplitOn(md, "\n\n"))
  {
    ReplaceIsJoinOfSplit(md, "\n\n", "</p><p>");
    ParagraphsOfJoin(SplitOn(md, "\n\n"));
  }

  /** Text whose character at i differs from the marker's first character,
      or whose next character differs from the marker's second, does not
      hold the marker at i. */
  lemma NotAt(w: string, i: nat, marker: string)
    requires i < |w| && marker != []
    requires w[i] != marker[0] || (|marker| > 1 && i + 1 < |w| && w[i + 1] != marker[1])
    ensures !StartsWith(w[i..], marker)
  {
    if |marker| <= |w| - i {
      assert w[i..][..|marker|][0] == w[i];
      if |marker| > 1 {
        assert w[i..][..|marker|][1] == w[i + 1];
      }
    }
  }

  lemma {:induction false} HashFreeUnchanged(s: string, marker: string, tag: string)
    requires marker != [] && marker[0] == '#' && '#' !in s
    ensures SubHeading(s, marker, tag) == s
    decreases |s|
  {
    if s != [] {
      NotAt(s, 0, marker);
      assert s[0..] == s;
      HashFreeUnchanged(s[1..], marker, tag);
      assert [s[0]] + s[1..] == s;
    }
  }

  lemma {:induction false} NotContainsChar(s: string, sub: string)
    requires sub != [] && sub[0] !in s
    ensures !Contains(s, sub)
    decreases |s|
  {
    if s != [] {
      NotAt(s, 0, sub);
      assert s[0..] == s;
      NotContainsChar(s[1..], sub);
    }
  }

  /** Markdown without newlines is wrapped in one paragraph as it is. */
  lemma WrapPlain(md: string)
    requires '\n' !in md
    ensures WrapParagraphs(md) == "<p>" + md + "</p>"
  {
    NotContainsChar(md, "\n\n");
    ReplaceAbsent(md, "\n\n", "</p><p>");
  }

  /** A markdown text without `#` and without blank-line breaks is inserted
      verbatim in a single paragraph: `<`, `>` and `&` are not escaped. */
  lemma PlainTextVerbatim(md: string)
    requires '#' !in md && !Contains(md, "\n\n")
    ensures MarkdownToHtml(md) == "<p>" + md + "</p>"
  {
    ReplaceAbsent(md, "\n\n", "</p><p>");
    var html := "<p>" + md + "</p>";
    assert '#' !in html;
    HashFreeUnchanged(html, "# ", "h1");
    HashFreeUnchanged(html, "## ", "h2");
    HashFreeUnchanged(html, "### ", "h3");
  }

  lemma {:induction false} CloseAfter(t: string, rest: string)
    requires '\n' !in t && '<' !in t
    ensures LazyClose(t + "</p>" + rest) == Some(|t|)
    decreases |t|
  {
    var s := t + "</p>" + rest;
    if t == [] {
      assert s[..4] == "</p>";
    } else {
      assert s[0] == t[0] && t[0] in t;
      NotAt(s, 0, "</p>");
      assert s[0..] == s;
      assert s[1..] == t[1..] + "</p>" + rest;
      CloseAfter(t[1..], rest);
    }
  }

  /** One heading paragraph, on its own, becomes the tag around its text. */
  lemma HeadingMatch(t: string, marker: string, tag: string)
    requires '\n' !in t && '<' !in t
    ensures SubHeading(marker + t + "</p>", marker, tag) == "<" + tag + ">" + t + "</" + tag + ">"
  {
    var s := marker + t + "</p>";
    assert s[|marker|..] == t + "</p>" + "";
    CloseAfter(t, "");
    assert StartsWith(s, marker) by { assert s[..|marker|] == marker; }
    assert (t + "</p>")[..|t|] == t;
    assert (t + "</p>")[|t| + 4..] == [];
  }

  lemma {:induction false} SubHeadingSkips(p: string, s: string, marker: string, tag: string)
    requires forall i :: 0 <= i < |p| ==> !StartsWith((p + s)[i..], marker)
    ensures SubHeading(p + s, marker, tag) == p + SubHeading(s, marker, tag)
    decreases |p|
  {
    if p != [] {
      var w := p + s;
      assert w[0..] == w;
      assert w[0] == p[0] && w[1..] == p[1..] + s;
      forall i | 0 <= i < |p[1..]| ensures !StartsWith((p[1..] + s)[i..], marker) {
        assert (p[1..] + s)[i..] == w[i + 1..];
      }
      assert !StartsWith(w, marker);
      assert SubHeading(w, marker, tag) == [w[0]] + SubHeading(w[1..], marker, tag);
      SubHeadingSkips(p[1..], s, marker, tag);
      assert [p[0]] + p[1..] == p;
      assert p + SubHeading(s, marker, tag) == [p[0]] + (p[1..] + SubHeading(s, marker, tag));
    } else {
      assert p + s == s;
    }
  }

  /** A heading paragraph after text where the marker does not start is
      rewritten, and the text before it is kept. */
  lemma HeadingAfter(p: string, t: string, marker: string, tag: string)
    requires '\n' !in t && '<' !in t
    requires forall i :: 0 <= i < |p| ==> !StartsWith((p + (marker + t + "</p>"))[i..], marker)
    ensures SubHeading(p + (marker + t + "</p>"), marker, tag) == p + ("<" + tag + ">" + t + "</" + tag + ">")
  {
    SubHeadingSkips(p, marker + t + "</p>", marker, tag);
    HeadingMatch(t, marker, tag);
  }

  /** The h1 rewrite of a wrapped `# ` paragraph. */
  lemma LevelOneRewrite(t: string)
    requires '\n' !in t && '<' !in t
    ensures SubHeading("<p>" + ("# " + t + "</p>"), "# ", "h1") == "<p>" + ("<h1>" + t + "</h1>")
  {
    var body := "# " + t + "</p>";
    var w := "<p>" + body;
    assert w[0] == '<' && w[1] == 'p' && w[2] == '>';
    NotAt(w, 0, "# ");
    NotAt(w, 1, "# ");
    NotAt(w, 2, "# ");
    assert forall i :: 0 <= i < 3 ==> !StartsWith(w[i..], "# ");
    HeadingAfter("<p>", t, "# ", "h1");
  }

  /** A level-one heading paragraph becomes an h1 inside the opening `<p>`:
      the `</p>` is consumed by the match. */
  lemma LevelOneHeading(t: string)
    requires '#' !in t && '\n' !in t && '<' !in t
    ensures MarkdownToHtml("# " + t) == "<p>" + ("<h1>" + t + "</h1>")
  {
    WrapPlain("# " + t);
    assert "<p>" + ("# " + t) + "</p>" == "<p>" + ("# " + t + "</p>");
    LevelOneRewrite(t);
    var h1 := "<p>" + ("<h1>" + t + "</h1>");
    HashFreeUnchanged(h1, "## ", "h2");
    HashFreeUnchanged(h1, "### ", "h3");
  }

  /** The h1 rewrite of a wrapped `## ` paragraph matches at the second
      `#`. */
  lemma LevelTwoRewrite(t: string)
    requires '\n' !in t && '<' !in t
    ensures SubHeading("<p>#" + ("# " + t + "</p>"), "# ", "h1") == "<p>#" + ("<h1>" + t + "</h1>")
  {
    var body := "# " + t + "</p>";
    var w := "<p>#" + body;
    assert w[0] == '<' && w[1] == 'p' && w[2] == '>' && w[3] == '#' && w[4] == '#';
    NotAt(w, 0, "# ");
    NotAt(w, 1, "# ");
    NotAt(w, 2, "# ");
    NotAt(w, 3, "# ");
    assert forall i :: 0 <= i < 4 ==> !StartsWith(w[i..], "# ");
    HeadingAfter("<p>#", t, "# ", "h1");
  }

  /** Because the h1 rewrite runs first, a `## ` paragraph is caught by it
      at its second `#`: it ends up as `<p>#<h1>…</h1>`, never as an h2. */
  lemma LevelTwoHeadingBecomesH1(t: string)
    requires '#' !in t && '\n' !in t && '<' !in t
    ensures MarkdownToHtml("## " + t) == "<p>#" + ("<h1>" + t + "</h1>")
  {
    WrapPlain("## " + t);
    assert "<p>" + ("## " + t) + "</p>" == "<p>#" + ("# " + t + "</p>");
    LevelTwoRewrite(t);
    LaterLevelsFindNothing("<h1>" + t + "</h1>");
  }

  /** After the h1 rewrite of a `## ` paragraph, the lone `#` left in front
      is followed by `<`, so the h2 and h3 rewrites find nothing. */
  lemma LaterLevelsFindNothing(rest: string)
    requires '#' !in rest && rest != [] && rest[0] == '<'
    ensures SubHeading(SubHeading("<p>#" + rest, "## ", "h2"), "### ", "h3") == "<p>#" + rest
  {
    var h1 := "<p>#" + rest;
    assert h1[0] == '<' && h1[1] == 'p' && h1[2] == '>' && h1[3] == '#' && h1[4] == '<';
    NotAt(h1, 0, "## ");
    NotAt(h1, 1, "## ");
    NotAt(h1, 2, "## ");
    NotAt(h1, 3, "## ");
    NotAt(h1, 0, "### ");
    NotAt(h1, 1, "### ");
    NotAt(h1, 2, "### ");
    NotAt(h1, 3, "### ");
    assert forall i :: 0 <= i < 4 ==> !StartsWith(h1[i..], "## ") && !StartsWith(h1[i..], "### ");
    SubHeadingSkips("<p>#", rest, "## ", "h2");
    HashFreeUnchanged(rest, "## ", "h2");
    SubHeadingSkips("<p>#", rest, "### ", "h3");
    HashFreeUnchanged(rest, "### ", "h3");
  }
}
