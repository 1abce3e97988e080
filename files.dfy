/** save_markdown_files: the name and the text of the file written for each
    article. */
module Files {
  import opened Strings
  import opened Types

  /** A character of the class `[-\s]`. */
  predicate IsSeparator(c: char) { c == '-' || IsSpace(c) }

  /** A character of the class `[\w\s-]`. */
  predicate IsSafe(c: char) { IsWordChar(c) || IsSeparator(c) }

  lemma WordCharsAreNotSeparators(c: char)
    ensures IsWordChar(c) ==> !IsSeparator(c)
  {
  }

  /** The word characters of s, in order. */
  function WordChars(s: string): string
    decreases |s|
  {
    if s == [] then [] else (if IsWordChar(s[0]) then [s[0]] else []) + WordChars(s[1..])
  }

  predicate NoDoubleHyphen(s: string) {
    forall i :: 0 <= i < |s| - 1 ==> !(s[i] == '-' && s[i + 1] == '-')
  }

  /** re.sub(r'[^\w\s-]', '', title): drop every character outside the class. */
  function DropUnsafe(s: string): string
    decreases |s|
  {
    if s == [] then [] else (if IsSafe(s[0]) then [s[0]] else []) + DropUnsafe(s[1..])
  }

  /** The length of the run of separators at the start of s. */
  function SeparatorRun(s: string): (n: nat)
    ensures n <= |s| && (n < |s| ==> !IsSeparator(s[n]))
    ensures forall i :: 0 <= i < n ==> IsSeparator(s[i])
    ensures s != [] && IsSeparator(s[0]) ==> n > 0
    decreases |s|
  {
    if s != [] && IsSeparator(s[0]) then 1 + SeparatorRun(s[1..]) else 0
  }

  /** re.sub(r'[-\s]+', '-', s): every maximal run of separators becomes a
      single hyphen. */
  function CollapseSeparators(s: string): string
    decreases |s|
  {
    if s == [] then []
    else if IsSeparator(s[0]) then "-" + CollapseSeparators(s[SeparatorRun(s)..])
    else [s[0]] + CollapseSeparators(s[1..])
  }

  /** The title part of the file name: safe_title[:50]. */
  function Slug(title: string): string {
    var t := CollapseSeparators(DropUnsafe(title));
    if |t| <= 50 then t else t[..50]
  }

  /** f"{i:03d}-{safe_title[:50]}.md" */
  function FileName(index: nat, title: string): string {
    ZeroPad(index, 3) + "-" + Slug(title) + ".md"
  }

  /** The text written to the file of one article, one piece per f.write. */
  function FileBody(a: Article): string {
    var heading := "# " + a.title + "\n\n";
    var source := "原文链接: " + a.url + "\n";
    var date := "爬取日期: " + a.date + "\n\n";
    heading + source + date + "---\n\n" + a.content
  }

  /** The name and text of every file save_markdown_files writes, in the
      order of the articles, numbered from 1. */
  function MarkdownFiles(articles: seq<Article>): seq<(string, string)> {
    seq(|articles|, i requires 0 <= i < |articles| => (FileName(i + 1, articles[i].title), FileBody(articles[i])))
  }

  // ================================================================ slug

  lemma {:induction false} DropUnsafeKeepsWords(s: string)
    ensures forall i :: 0 <= i < |DropUnsafe(s)| ==> IsSafe(DropUnsafe(s)[i])
    ensures WordChars(DropUnsafe(s)) == WordChars(s)
    decreases |s|
  {
    if s != [] {
      DropUnsafeKeepsWords(s[1..]);
      var rest := DropUnsafe(s[1..]);
      if IsSafe(s[0]) {
        assert DropUnsafe(s) == [s[0]] + rest;
        assert ([s[0]] + rest)[1..] == rest;
      } else {
        assert DropUnsafe(s) == rest;
        WordCharsAreNotSeparators(s[0]);
      }
    }
  }

  lemma {:induction false} WordCharsSkipSeparators(s: string, n: nat)
    requires n <= |s| && forall i :: 0 <= i < n ==> IsSeparator(s[i])
    ensures WordChars(s) == WordChars(s[n..])
    decreases n
  {
    if n > 0 {
      WordCharsAreNotSeparators(s[0]);
      WordCharsSkipSeparators(s[1..], n - 1);
      assert s[1..][n - 1..] == s[n..];
    }
  }

  /** Collapsing turns a text of safe characters into word characters and
      single hyphens, keeps the word characters in order, and starts with a
      hyphen only where the text starts with a separator. */
  lemma {:induction false} CollapseSeparatorsShape(s: string)
    requires forall i :: 0 <= i < |s| ==> IsSafe(s[i])
    ensures var r := CollapseSeparators(s);
            && (forall i :: 0 <= i < |r| ==> IsWordChar(r[i]) || r[i] == '-')
            && NoDoubleHyphen(r)
            && WordChars(r) == WordChars(s)
            && (r != [] && r[0] == '-' ==> IsSeparator(s[0]))
    decreases |s|, 1
  {
    if s != [] {
      if IsSeparator(s[0]) {
        ShapeAfterRun(s);
      } else {
        ShapeAfterWord(s);
      }
    }
  }

  lemma {:induction false} ShapeAfterRun(s: string)
    requires s != [] && IsSeparator(s[0])
    requires forall i :: 0 <= i < |s| ==> IsSafe(s[i])
    ensures var r := CollapseSeparators(s);
            && (forall i :: 0 <= i < |r| ==> IsWordChar(r[i]) || r[i] == '-')
            && NoDoubleHyphen(r)
            && WordChars(r) == WordChars(s)
    decreases |s|, 0
  {
    var n := SeparatorRun(s);
    CollapseSeparatorsShape(s[n..]);
    WordCharsSkipSeparators(s, n);
    var x := CollapseSeparators(s[n..]);
    assert ("-" + x)[1..] == x;
    assert x != [] ==> x[0] != '-';
  }

  lemma {:induction false} ShapeAfterWord(s: string)
    requires s != [] && !IsSeparator(s[0])
    requires forall i :: 0 <= i < |s| ==> IsSafe(s[i])
    ensures var r := CollapseSeparators(s);
            && (forall i :: 0 <= i < |r| ==> IsWordChar(r[i]) || r[i] == '-')
            && NoDoubleHyphen(r)
            && WordChars(r) == WordChars(s)
            && r != [] && r[0] != '-'
    decreases |s|, 0
  {
    CollapseSeparatorsShape(s[1..]);
    var x := CollapseSeparators(s[1..]);
    assert ([s[0]] + x)[1..] == x;
    assert IsWordChar(s[0]);
  }

  /** The `[^\w\s-]` pass leaves a text of safe characters alone: word
      characters, whitespace and hyphens all survive it. */
  lemma {:induction false} DropUnsafeKeepsSafe(s: string)
    ensures (forall i :: 0 <= i < |s| ==> IsSafe(s[i])) ==> DropUnsafe(s) == s
    decreases |s|
  {
    if s != [] && forall i :: 0 <= i < |s| ==> IsSafe(s[i]) {
      assert forall i :: 0 <= i < |s[1..]| ==> IsSafe(s[1..][i]);
      DropUnsafeKeepsSafe(s[1..]);
      assert s == [s[0]] + s[1..];
    }
  }

  /** The pass works character by character: it deletes in each part of a
      text exactly what it deletes in that part alone. */
  lemma {:induction false} DropUnsafeConcat(x: string, y: string)
    ensures DropUnsafe(x + y) == DropUnsafe(x) + DropUnsafe(y)
    decreases |x|
  {
    if x == [] {
      assert x + y == y;
    } else {
      assert (x + y)[1..] == x[1..] + y;
      DropUnsafeConcat(x[1..], y);
      var head := if IsSafe(x[0]) then [x[0]] else [];
      assert DropUnsafe(x + y) == head + (DropUnsafe(x[1..]) + DropUnsafe(y));
    }
  }

  /** Every character outside `[\w\s-]` is deleted, wherever it stands, and
      the text around it closes up. */
  lemma DropUnsafeDeletes(x: string, c: char, y: string)
    requires !IsSafe(c)
    ensures DropUnsafe(x + [c] + y) == DropUnsafe(x) + DropUnsafe(y)
  {
    DropUnsafeConcat(x + [c], y);
    DropUnsafeConcat(x, [c]);
    assert DropUnsafe([c]) == [];
    assert DropUnsafe(x) + [] == DropUnsafe(x);
  }

  /** A text made only of characters outside the class vanishes. */
  lemma {:induction false} DropUnsafeDeletesAll(s: string)
    ensures (forall i :: 0 <= i < |s| ==> !IsSafe(s[i])) ==> DropUnsafe(s) == []
    decreases |s|
  {
    if s != [] {
      DropUnsafeDeletesAll(s[1..]);
    }
  }

  /** A run of separators followed by a non-separator is counted to its end. */
  lemma {:induction false} SeparatorRunOf(p: string, y: string)
    requires forall i :: 0 <= i < |p| ==> IsSeparator(p[i])
    requires y == [] || !IsSeparator(y[0])
    ensures SeparatorRun(p + y) == |p|
    decreases |p|
  {
    if p != [] {
      assert (p + y)[1..] == p[1..] + y;
      SeparatorRunOf(p[1..], y);
    } else {
      assert p + y == y;
    }
  }

  /** A run that starts inside x stops before x's last, non-separator, character. */
  lemma {:induction false} SeparatorRunWithin(x: string, z: string)
    requires x != [] && !IsSeparator(x[|x| - 1])
    ensures SeparatorRun(x + z) == SeparatorRun(x) < |x|
    decreases |x|
  {
    if IsSeparator(x[0]) {
      assert |x| > 1;
      assert (x + z)[1..] == x[1..] + z;
      SeparatorRunWithin(x[1..], z);
    }
  }

  /** The substitution never reaches back past a non-separator: a text that
      ends in one is collapsed apart from what follows it. */
  lemma {:induction false} CollapseSplitsAtWord(x: string, z: string)
    requires x != [] && !IsSeparator(x[|x| - 1])
    ensures CollapseSeparators(x + z) == CollapseSeparators(x) + CollapseSeparators(z)
    decreases |x|
  {
    if IsSeparator(x[0]) {
      var n := SeparatorRun(x);
      SeparatorRunWithin(x, z);
      assert (x + z)[n..] == x[n..] + z;
      CollapseSplitsAtWord(x[n..], z);
    } else if |x| == 1 {
      assert (x + z)[1..] == z;
      assert CollapseSeparators(x) == [x[0]];
    } else {
      assert (x + z)[1..] == x[1..] + z;
      CollapseSplitsAtWord(x[1..], z);
    }
  }

  /** A run of separators that reaches a non-separator, or the end, becomes one hyphen. */
  lemma CollapseRun(p: string, y: string)
    requires p != [] && forall i :: 0 <= i < |p| ==> IsSeparator(p[i])
    requires y == [] || !IsSeparator(y[0])
    ensures CollapseSeparators(p + y) == "-" + CollapseSeparators(y)
  {
    SeparatorRunOf(p, y);
    assert IsSeparator((p + y)[0]);
    assert (p + y)[|p|..] == y;
  }

  /** `[-\s]+` turns each maximal run of hyphens and whitespace into exactly
      one hyphen, and the text on either side is collapsed on its own. */
  lemma RunBecomesHyphen(x: string, p: string, y: string)
    requires x == [] || !IsSeparator(x[|x| - 1])
    requires p != [] && forall i :: 0 <= i < |p| ==> IsSeparator(p[i])
    requires y == [] || !IsSeparator(y[0])
    ensures CollapseSeparators(x + p + y) == CollapseSeparators(x) + "-" + CollapseSeparators(y)
  {
    if x == [] {
      RunAtStart(x, p, y);
    } else {
      RunAfterWord(x, p, y);
    }
  }

  lemma RunAtStart(x: string, p: string, y: string)
    requires x == []
    requires p != [] && forall i :: 0 <= i < |p| ==> IsSeparator(p[i])
    requires y == [] || !IsSeparator(y[0])
    ensures CollapseSeparators(x + p + y) == CollapseSeparators(x) + "-" + CollapseSeparators(y)
  {
    assert x + p + y == p + y;
    CollapseRun(p, y);
  }

  lemma RunAfterWord(x: string, p: string, y: string)
    requires x != [] && !IsSeparator(x[|x| - 1])
    requires p != [] && forall i :: 0 <= i < |p| ==> IsSeparator(p[i])
    requires y == [] || !IsSeparator(y[0])
    ensures CollapseSeparators(x + p + y) == CollapseSeparators(x) + "-" + CollapseSeparators(y)
  {
    calc {
      CollapseSeparators(x + p + y);
      { assert x + p + y == x + (p + y); }
      CollapseSeparators(x + (p + y));
      { CollapseSplitsAtWord(x, p + y); }
      CollapseSeparators(x) + CollapseSeparators(p + y);
      { CollapseRun(p, y); }
      CollapseSeparators(x) + ("-" + CollapseSeparators(y));
      { Regroup(CollapseSeparators(x), "-", CollapseSeparators(y)); }
      CollapseSeparators(x) + "-" + CollapseSeparators(y);
    }
  }

  lemma Regroup(a: string, b: string, c: string)
    ensures a + (b + c) == a + b + c
  {
  }

  lemma {:induction false} WordCharsOfPrefix(s: string, k: nat)
    requires k <= |s|
    ensures |WordChars(s[..k])| <= |WordChars(s)|
    ensures WordChars(s[..k]) == WordChars(s)[..|WordChars(s[..k])|]
    decreases k
  {
    if k > 0 {
      assert s[..k][1..] == s[1..][..k - 1];
      WordCharsOfPrefix(s[1..], k - 1);
    }
  }

  /** The slug holds only word characters and single hyphens, is at most 50
      characters long, and its word characters are the first word
      characters of the title, in order (all of them when the collapsed
      title fits in 50 characters). */
  lemma SlugShape(title: string)
    ensures var slug := Slug(title);
            && |slug| <= 50
            && (forall i :: 0 <= i < |slug| ==> IsWordChar(slug[i]) || slug[i] == '-')
            && NoDoubleHyphen(slug)
            && |WordChars(slug)| <= |WordChars(title)|
            && WordChars(slug) == WordChars(title)[..|WordChars(slug)|]
            && (|CollapseSeparators(DropUnsafe(title))| <= 50 ==> WordChars(slug) == WordChars(title))
  {
    var t := CollapseSeparators(DropUnsafe(title));
    DropUnsafeKeepsWords(title);
    CollapseSeparatorsShape(DropUnsafe(title));
    if |t| > 50 {
      WordCharsOfPrefix(t, 50);
    }
  }

  // =========================================================== file name

  /** The length of the run of digits at the start of s. */
  function DigitPrefix(s: string): nat
    decreases |s|
  {
    if s == [] || !IsDigit(s[0]) then 0 else 1 + DigitPrefix(s[1..])
  }

  lemma {:induction false} DigitPrefixBeforeHyphen(p: string, x: string)
    requires AllDigits(p) && x != [] && x[0] == '-'
    ensures DigitPrefix(p + x) == |p|
    decreases |p|
  {
    if p != [] {
      assert (p + x)[1..] == p[1..] + x;
      DigitPrefixBeforeHyphen(p[1..], x);
    }
  }

  /** In a name built from digits p and a slug, the digits end just before
      the first hyphen. */
  lemma NameStartsWithDigits(p: string, slug: string)
    requires AllDigits(p)
    ensures var f := p + "-" + slug + ".md";
            DigitPrefix(f) == |p| && f[..DigitPrefix(f)] == p
  {
    var x := "-" + slug + ".md";
    assert p + "-" + slug + ".md" == p + x;
    DigitPrefixBeforeHyphen(p, x);
  }

  /** The index can be read back from a file name, so files of different
      articles never share a name. */
  lemma FileNameDeterminesIndex(i: nat, j: nat, t1: string, t2: string)
    requires FileName(i, t1) == FileName(j, t2)
    ensures i == j
  {
    NameStartsWithDigits(ZeroPad(i, 3), Slug(t1));
    NameStartsWithDigits(ZeroPad(j, 3), Slug(t2));
    ZeroPadInjective(i, j, 3);
  }

  /** No two files of one save share a name, so none overwrites another. */
  lemma MarkdownFileNamesDistinct(articles: seq<Article>)
    ensures var files := MarkdownFiles(articles);
            forall i, j :: 0 <= i < j < |files| ==> files[i].0 != files[j].0
  {
    var files := MarkdownFiles(articles);
    forall i, j | 0 <= i < j < |files| ensures files[i].0 != files[j].0 {
      assert files[i].0 == FileName(i + 1, articles[i].title);
      assert files[j].0 == FileName(j + 1, articles[j].title);
      NamesDiffer(i + 1, j + 1, articles[i].title, articles[j].title);
    }
  }

  lemma NamesDiffer(i: nat, j: nat, t1: string, t2: string)
    requires i != j
    ensures FileName(i, t1) != FileName(j, t2)
  {
    if FileName(i, t1) == FileName(j, t2) {
      FileNameDeterminesIndex(i, j, t1, t2);
    }
  }

  /** Below 1000 the name starts with exactly three digits and a hyphen. */
  lemma FileNamePrefix(i: nat, title: string)
    requires i < 1000
    ensures var f := FileName(i, title);
            |f| >= 7 && AllDigits(f[..3]) && f[3] == '-' && f[|f| - 3..] == ".md"
            && ValueOf(f[..3]) == i
  {
    ZeroPadThree(i);
    ZeroPadValue(i, 3);
    var f := FileName(i, title);
    assert f[..3] == ZeroPad(i, 3);
  }

  // =========================================================== file text

  /** A newline splits a text into the lines before it and the lines after
      it. */
  lemma LineSplit(line: string, rest: string)
    ensures SplitOn(line + "\n" + rest, "\n") == SplitOn(line, "\n") + SplitOn(rest, "\n")
  {
    assert line + "\n" + rest == line + ['\n'] + rest;
    SplitOnConcat(line, '\n', rest);
  }

  /** The file's lines are the lines of the heading, a blank line, the lines
      of the source line and of the date line, a blank line, the rule and a
      blank line, then the lines of the article's markdown. When title, URL
      and date hold no newline, the seven header lines are fixed. */
  lemma FileBodyLines(a: Article)
    ensures SplitOn(FileBody(a), "\n")
            == SplitOn("# " + a.title, "\n") + [""] + SplitOn("原文链接: " + a.url, "\n")
               + SplitOn("爬取日期: " + a.date, "\n") + ["", "---", ""] + SplitOn(a.content, "\n")
    ensures '\n' !in a.title && '\n' !in a.url && '\n' !in a.date ==>
            SplitOn(FileBody(a), "\n")
            == ["# " + a.title, "", "原文链接: " + a.url, "爬取日期: " + a.date, "", "---", ""]
               + SplitOn(a.content, "\n")
  {
    FileBodySplit(a);
    if '\n' !in a.title && '\n' !in a.url && '\n' !in a.date {
      var l0, l2, l3 := "# " + a.title, "原文链接: " + a.url, "爬取日期: " + a.date;
      SplitOnWithout(l0, '\n');
      SplitOnWithout(l2, '\n');
      SplitOnWithout(l3, '\n');
      HeaderLines(l0, l2, l3, SplitOn(a.content, "\n"));
    }
  }

  lemma FileBodySplit(a: Article)
    ensures SplitOn(FileBody(a), "\n")
            == SplitOn("# " + a.title, "\n") + [""] + SplitOn("原文链接: " + a.url, "\n")
               + SplitOn("爬取日期: " + a.date, "\n") + ["", "---", ""] + SplitOn(a.content, "\n")
  {
    var c := a.content;
    var l0, l2, l3 := "# " + a.title, "原文链接: " + a.url, "爬取日期: " + a.date;
    var r5 := "" + "\n" + c;
    var r4 := "---" + "\n" + r5;
    var r3 := "" + "\n" + r4;
    var r2 := l3 + "\n" + r3;
    var r1 := l2 + "\n" + r2;
    var r0 := "" + "\n" + r1;
    SplitOnWithout("---", '\n');
    LineSplit("", c);
    LineSplit("---", r5);
    LineSplit("", r4);
    LineSplit(l3, r3);
    LineSplit(l2, r2);
    LineSplit("", r1);
    LineSplit(l0, r0);
    BodyPieces(l0, l2, l3, c);
    assert FileBody(a) == l0 + "\n" + r0;
    var s0, s2, s3 := SplitOn(l0, "\n"), SplitOn(l2, "\n"), SplitOn(l3, "\n");
    var tail := SplitOn(c, "\n");
    assert SplitOn(FileBody(a), "\n") == s0 + ([""] + (s2 + (s3 + ([""] + (["---"] + ([""] + tail))))));
    BodyLines(s0, s2, s3, tail);
  }

  lemma HeaderLines(l0: string, l2: string, l3: string, tail: seq<string>)
    ensures [l0] + [""] + [l2] + [l3] + ["", "---", ""] + tail
            == [l0, "", l2, l3, "", "---", ""] + tail
  {
  }

  lemma BodyLines(s0: seq<string>, s2: seq<string>, s3: seq<string>, tail: seq<string>)
    ensures s0 + ([""] + (s2 + (s3 + ([""] + (["---"] + ([""] + tail))))))
            == s0 + [""] + s2 + s3 + ["", "---", ""] + tail
  {
  }

  lemma BodyPieces(l0: string, l2: string, l3: string, c: string)
    ensures (l0 + "\n\n") + (l2 + "\n") + (l3 + "\n\n") + "---\n\n" + c
            == l0 + "\n" + ("" + "\n" + (l2 + "\n" + (l3 + "\n" + ("" + "\n" + ("---" + "\n" + ("" + "\n" + c))))))
  {
  }
}
