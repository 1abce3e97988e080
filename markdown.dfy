/** clean_markdown: collapse whitespace runs that hold three or more
    newlines to a single blank line, then strip every line. */
module Markdown {
  import opened Strings
  import opened Types

  // ------------------------------------------------------------- counting

  /** The number of newlines in the maximal whitespace prefix of t. */
  function LeadingNewlines(t: string): nat
    decreases |t|
  {
    if t == [] || !IsSpace(t[0]) then 0
    else (if t[0] == '\n' then 1 else 0) + LeadingNewlines(t[1..])
  }

  /** Every run of whitespace in t holds at most two newlines, that is, at
      most one blank line separates two pieces of text. */
  predicate BlankRunsBounded(t: string)
    decreases |t|
  {
    t == [] || (LeadingNewlines(t) <= 2 && BlankRunsBounded(t[1..]))
  }

  /** The characters of t that are not whitespace, in order. */
  function NonSpace(t: string): string
    decreases |t|
  {
    if t == [] then [] else (if IsSpace(t[0]) then [] else [t[0]]) + NonSpace(t[1..])
  }

  // ------------------------------------------- re.sub(r'\n\s*\n\s*\n', ...)

  /** The end of the last newline inside the maximal whitespace prefix of t,
      or 0 when that prefix holds no newline. */
  function LastRunNewlineEnd(t: string): (e: nat)
    ensures e <= |t| && AllSpace(t[..e])
    ensures e > 0 ==> t[e - 1] == '\n'
    ensures LeadingNewlines(t[e..]) == 0
    decreases |t|
  {
    if t == [] || !IsSpace(t[0]) then 0
    else
      var e := LastRunNewlineEnd(t[1..]);
      if e > 0 then e + 1 else if t[0] == '\n' then 1 else 0
  }

  /** The length of the match of `\n\s*\n\s*\n` at the start of t, if any.
      Both `\s*` are greedy, so the match runs to the last newline of the
      whitespace run (see BlankRunMatchIsLongest). */
  function BlankRunMatch(t: string): Option<nat> {
    if t != [] && t[0] == '\n' && LeadingNewlines(t) >= 3 then Some(LastRunNewlineEnd(t)) else None
  }

  /** re.sub(r'\n\s*\n\s*\n', '\n\n', s): scan left to right; at a match,
      emit a blank line and resume after the match. */
  function CollapseBlankRuns(s: string): string
    decreases |s|
  {
    if s == [] then []
    else match BlankRunMatch(s)
      case Some(n) => "\n\n" + CollapseBlankRuns(s[n..])
      case None => [s[0]] + CollapseBlankRuns(s[1..])
  }

  // ------------------------------------------------------- strip each line

  /** line.strip() for each line. */
  function StripEach(lines: seq<string>): seq<string> {
    seq(|lines|, i requires 0 <= i < |lines| => Strip(lines[i]))
  }

  lemma StripEachAt(lines: seq<string>)
    ensures |StripEach(lines)| == |lines|
    ensures forall i :: 0 <= i < |lines| ==> StripEach(lines)[i] == Strip(lines[i])
  {
  }

  /** '\n'.join(line.strip() for line in t.split('\n')) */
  function StripLines(t: string): string {
    Join(StripEach(SplitOn(t, "\n")), "\n")
  }

  /** clean_markdown(content) */
  function CleanMarkdown(s: string): string {
    StripLines(CollapseBlankRuns(s))
  }

  // ============================================== the regular expression

  /** The strings `\n\s*\n\s*\n` matches, read off the pattern. */
  ghost predicate MatchesBlankRunPattern(m: string) {
    && |m| >= 3 && m[0] == '\n' && m[|m| - 1] == '\n' && AllSpace(m)
    && exists k :: 0 < k < |m| - 1 && m[k] == '\n'
  }

  lemma {:induction false} LeadingNewlinesAppend(p: string, q: string)
    requires AllSpace(p)
    ensures LeadingNewlines(p + q) == LeadingNewlines(p) + LeadingNewlines(q)
    decreases |p|
  {
    if p != [] {
      assert (p + q)[1..] == p[1..] + q;
      LeadingNewlinesAppend(p[1..], q);
    } else {
      assert p + q == q;
    }
  }

  lemma {:induction false} LeadingNewlinesPrefix(t: string, n: nat)
    requires n <= |t|
    ensures LeadingNewlines(t[..n]) <= LeadingNewlines(t)
    decreases |t|
  {
    if n > 0 && IsSpace(t[0]) {
      assert t[..n][1..] == t[1..][..n - 1];
      LeadingNewlinesPrefix(t[1..], n - 1);
    }
  }

  /** An all-space string whose only newline is its last character. */
  lemma {:induction false} OnlyFinalNewline(p: string)
    requires |p| >= 1 && AllSpace(p) && p[|p| - 1] == '\n'
    requires forall k :: 0 <= k < |p| - 1 ==> p[k] != '\n'
    ensures LeadingNewlines(p) == 1
    decreases |p|
  {
    if |p| > 1 {
      OnlyFinalNewline(p[1..]);
    } else {
      assert LeadingNewlines(p[1..]) == 0;
    }
  }

  /** An all-space string with newlines only at its two ends. */
  lemma OnlyEndNewlines(p: string)
    requires |p| >= 2 && AllSpace(p) && p[0] == '\n' && p[|p| - 1] == '\n'
    requires forall k :: 0 < k < |p| - 1 ==> p[k] != '\n'
    ensures LeadingNewlines(p) == 2
  {
    OnlyFinalNewline(p[1..]);
  }

  /** Three newlines in an all-space string. */
  lemma ThreeNewlines(p: string, k: nat)
    requires |p| >= 3 && AllSpace(p) && 0 < k < |p| - 1
    requires p[0] == '\n' && p[k] == '\n' && p[|p| - 1] == '\n'
    ensures LeadingNewlines(p) >= 3
  {
    var a := p[..k];
    var b := p[k..];
    assert p == a + b;
    assert AllSpace(a) by {
      forall i | 0 <= i < |a| ensures IsSpace(a[i]) {
        assert a[i] == p[i];
      }
    }
    LeadingNewlinesAppend(a, b);
    assert a[0] == '\n';
    assert LeadingNewlines(a) >= 1;
    var q := p[k + 1..];
    assert b[0] == '\n' && b[1..] == q;
    EndsInNewline(q);
  }

  /** Whitespace ending in a newline starts with at least one newline. */
  lemma EndsInNewline(q: string)
    requires q != [] && AllSpace(q) && q[|q| - 1] == '\n'
    ensures LeadingNewlines(q) >= 1
  {
    var init := q[..|q| - 1];
    assert q == init + ['\n'];
    assert AllSpace(init) by {
      forall i | 0 <= i < |init| ensures IsSpace(init[i]) {
        assert init[i] == q[i];
      }
    }
    LeadingNewlinesAppend(init, ['\n']);
  }

  /** BlankRunMatch returns the longest prefix of t the pattern matches,
      which is the match Python's backtracking finds first, and nothing when
      no prefix matches. */
  lemma BlankRunMatchIsLongest(t: string)
    ensures BlankRunMatch(t).None? ==> forall n :: 0 <= n <= |t| ==> !MatchesBlankRunPattern(t[..n])
    ensures BlankRunMatch(t).Some? ==>
              var e := BlankRunMatch(t).value;
              e <= |t| && MatchesBlankRunPattern(t[..e]) &&
              forall n :: e < n <= |t| ==> !MatchesBlankRunPattern(t[..n])
  {
    forall n | 0 <= n <= |t| && MatchesBlankRunPattern(t[..n])
      ensures BlankRunMatch(t).Some? && n <= BlankRunMatch(t).value
    {
      MatchWithinRun(t, n);
    }
    if BlankRunMatch(t).Some? {
      RunMatches(t);
    }
  }

  /** Every prefix of t the pattern matches ends within the run BlankRunMatch
      finds. */
  lemma MatchWithinRun(t: string, n: nat)
    requires n <= |t| && MatchesBlankRunPattern(t[..n])
    ensures BlankRunMatch(t).Some? && n <= BlankRunMatch(t).value
  {
    var p := t[..n];
    var k :| 0 < k < |p| - 1 && p[k] == '\n';
    ThreeNewlines(p, k);
    LeadingNewlinesPrefix(t, n);
    var e := LastRunNewlineEnd(t);
    if e < n {
      assert t == t[..e] + t[e..];
      assert t[e..][..n - e] == t[e..n];
      assert AllSpace(t[e..n]) by {
        forall i | 0 <= i < n - e ensures IsSpace(t[e..n][i]) {
          assert t[e..n][i] == p[e + i];
        }
      }
      assert t[e..n][n - e - 1] == p[n - 1];
      EndsInNewline(t[e..n]);
      LeadingNewlinesPrefix(t[e..], n - e);
    }
  }

  /** The run BlankRunMatch finds is matched by the pattern. */
  lemma RunMatches(t: string)
    requires BlankRunMatch(t).Some?
    ensures BlankRunMatch(t).value <= |t| && MatchesBlankRunPattern(t[..BlankRunMatch(t).value])
  {
    var e := LastRunNewlineEnd(t);
    var p := t[..e];
    assert t == p + t[e..];
    LeadingNewlinesAppend(p, t[e..]);
    assert LeadingNewlines(p) >= 3;
    assert e >= 2;
    if forall k :: 0 < k < |p| - 1 ==> p[k] != '\n' {
      OnlyEndNewlines(p);
    }
    assert MatchesBlankRunPattern(p);
  }


  // ======================================= what the collapsing pass keeps

  /** After the regular expression pass no whitespace run holds more than two
      newlines; a leading run keeps its newlines unless it had three or more,
      in which case it is left with two. */
  lemma {:induction false} CollapseBounds(s: string)
    ensures LeadingNewlines(CollapseBlankRuns(s))
            == if LeadingNewlines(s) >= 3 then 2 else LeadingNewlines(s)
    ensures BlankRunsBounded(CollapseBlankRuns(s))
    decreases |s|
  {
    if s != [] {
      match BlankRunMatch(s)
      case Some(n) =>
        CollapseBounds(s[n..]);
        var x := CollapseBlankRuns(s[n..]);
        assert ("\n\n" + x)[1..] == "\n" + x;
        assert ("\n" + x)[1..] == x;
      case None =>
        CollapseBounds(s[1..]);
        var x := CollapseBlankRuns(s[1..]);
        assert ([s[0]] + x)[1..] == x;
    }
  }

  lemma {:induction false} NonSpaceSkipsSpaces(t: string, n: nat)
    requires n <= |t| && AllSpace(t[..n])
    ensures NonSpace(t) == NonSpace(t[n..])
    decreases n
  {
    if n > 0 {
      assert t[1..][..n - 1] == t[..n][1..];
      NonSpaceSkipsSpaces(t[1..], n - 1);
      assert t[1..][n - 1..] == t[n..];
    }
  }

  /** The regular expression pass keeps the non-whitespace characters. */
  lemma {:induction false} CollapseKeepsNonSpace(s: string)
    ensures NonSpace(CollapseBlankRuns(s)) == NonSpace(s)
    decreases |s|
  {
    if s != [] {
      match BlankRunMatch(s)
      case Some(n) =>
        CollapseKeepsNonSpace(s[n..]);
        NonSpaceSkipsSpaces(s, n);
        var x := CollapseBlankRuns(s[n..]);
        assert ("\n\n" + x)[1..] == "\n" + x;
        assert ("\n" + x)[1..] == x;
      case None =>
        CollapseKeepsNonSpace(s[1..]);
        var x := CollapseBlankRuns(s[1..]);
        assert ([s[0]] + x)[1..] == x;
    }
  }

  /** Where every run is already bounded, the pass changes nothing. */
  lemma {:induction false} CollapseFixesBounded(t: string)
    requires BlankRunsBounded(t)
    ensures CollapseBlankRuns(t) == t
    decreases |t|
  {
    if t != [] {
      CollapseFixesBounded(t[1..]);
      assert [t[0]] + t[1..] == t;
    }
  }

  // ------------------------------------------- runs between pieces of text

  /** The maximal whitespace prefix of a text ending in a non-space
      character lies inside that text, whatever follows it. */
  lemma {:induction false} RunWithin(x: string, y: string)
    requires x != [] && !IsSpace(x[|x| - 1])
    ensures LeadingNewlines(x + y) == LeadingNewlines(x)
    ensures LastRunNewlineEnd(x + y) == LastRunNewlineEnd(x) < |x|
    decreases |x|
  {
    assert (x + y)[0] == x[0];
    if IsSpace(x[0]) {
      assert (x + y)[1..] == x[1..] + y;
      RunWithin(x[1..], y);
    }
  }

  /** The pass works on a text ending in a non-space character and on what
      follows it separately: no match crosses that character. */
  lemma {:induction false} CollapseSplitsAfterWord(x: string, y: string)
    requires x != [] && !IsSpace(x[|x| - 1])
    ensures CollapseBlankRuns(x + y) == CollapseBlankRuns(x) + CollapseBlankRuns(y)
    decreases |x|, 1
  {
    if BlankRunMatch(x).Some? {
      SplitAtMatch(x, y);
    } else {
      SplitAtChar(x, y);
    }
  }

  lemma {:induction false} SplitAtMatch(x: string, y: string)
    requires x != [] && !IsSpace(x[|x| - 1]) && BlankRunMatch(x).Some?
    ensures CollapseBlankRuns(x + y) == CollapseBlankRuns(x) + CollapseBlankRuns(y)
    decreases |x|, 0
  {
    var n := BlankRunMatch(x).value;
    assert 0 < n < |x| && CollapseBlankRuns(x + y) == "\n\n" + CollapseBlankRuns(x[n..] + y) by {
      var s := x + y;
      RunWithin(x, y);
      assert s[0] == x[0];
      assert BlankRunMatch(s) == Some(n);
      assert s[n..] == x[n..] + y;
    }
    assert x[n..][|x[n..]| - 1] == x[|x| - 1];
    CollapseSplitsAfterWord(x[n..], y);
    Regroup3("\n\n", CollapseBlankRuns(x[n..]), CollapseBlankRuns(y));
  }

  lemma {:induction false} SplitAtChar(x: string, y: string)
    requires x != [] && !IsSpace(x[|x| - 1]) && BlankRunMatch(x).None?
    ensures CollapseBlankRuns(x + y) == CollapseBlankRuns(x) + CollapseBlankRuns(y)
    decreases |x|, 0
  {
    calc {
      CollapseBlankRuns(x + y);
    == { var s := x + y;
         RunWithin(x, y);
         assert s[0] == x[0];
         assert BlankRunMatch(s).None?;
         assert s[1..] == x[1..] + y; }
      [x[0]] + CollapseBlankRuns(x[1..] + y);
    == { if |x| > 1 {
           assert x[1..][|x[1..]| - 1] == x[|x| - 1];
           CollapseSplitsAfterWord(x[1..], y);
         } else {
           assert x[1..] == [] && x[1..] + y == y;
         } }
      [x[0]] + (CollapseBlankRuns(x[1..]) + CollapseBlankRuns(y));
    == { Regroup3([x[0]], CollapseBlankRuns(x[1..]), CollapseBlankRuns(y)); }
      ([x[0]] + CollapseBlankRuns(x[1..])) + CollapseBlankRuns(y);
    }
  }

  lemma Regroup3(a: string, b: string, c: string)
    ensures a + (b + c) == (a + b) + c
  {
  }

  /** Whitespace without a newline passes through unchanged. */
  lemma {:induction false} NoNewlineRun(u: string, t: string)
    requires '\n' !in u
    ensures CollapseBlankRuns(u + t) == u + CollapseBlankRuns(t)
    decreases |u|
  {
    if u == [] {
      assert u + t == t;
    } else {
      var s := u + t;
      assert s[0] == u[0] && s[0] != '\n';
      assert s[1..] == u[1..] + t;
      assert CollapseBlankRuns(s) == [s[0]] + CollapseBlankRuns(s[1..]);
      NoNewlineRun(u[1..], t);
      assert [u[0]] + (u[1..] + CollapseBlankRuns(t)) == u + CollapseBlankRuns(t);
    }
  }

  /** A whitespace run holding at most two newlines passes through
      unchanged. */
  lemma {:induction false} KeepRun(w: string, t: string)
    requires AllSpace(w) && LeadingNewlines(w + t) <= 2
    ensures CollapseBlankRuns(w + t) == w + CollapseBlankRuns(t)
    decreases |w|
  {
    if w == [] {
      assert w + t == t;
    } else {
      var s := w + t;
      assert s[0] == w[0] && IsSpace(s[0]);
      assert s[1..] == w[1..] + t;
      assert LeadingNewlines(s) == (if s[0] == '\n' then 1 else 0) + LeadingNewlines(s[1..]);
      assert BlankRunMatch(s).None?;
      assert CollapseBlankRuns(s) == [s[0]] + CollapseBlankRuns(s[1..]);
      assert AllSpace(w[1..]) by {
        forall i | 0 <= i < |w[1..]| ensures IsSpace(w[1..][i]) {
          assert w[1..][i] == w[i + 1];
        }
      }
      KeepRun(w[1..], t);
      assert [w[0]] + (w[1..] + CollapseBlankRuns(t)) == w + CollapseBlankRuns(t);
    }
  }

  lemma {:induction false} NoNewlineCount(v: string)
    requires '\n' !in v
    ensures LeadingNewlines(v) == 0
    decreases |v|
  {
    if v != [] {
      NoNewlineCount(v[1..]);
    }
  }

  lemma {:induction false} NoRunEnd(t: string)
    requires LeadingNewlines(t) == 0
    ensures LastRunNewlineEnd(t) == 0
    decreases |t|
  {
    if t != [] && IsSpace(t[0]) {
      NoRunEnd(t[1..]);
    }
  }

  /** A whitespace run that ends in a newline, followed by text whose
      whitespace prefix holds no newline, ends the match there. */
  lemma {:induction false} RunEnd(w: string, t: string)
    requires w != [] && AllSpace(w) && w[|w| - 1] == '\n' && LeadingNewlines(t) == 0
    ensures LastRunNewlineEnd(w + t) == |w|
    decreases |w|
  {
    var s := w + t;
    assert s[0] == w[0];
    assert s[1..] == w[1..] + t;
    if |w| == 1 {
      assert s[1..] == t;
      NoRunEnd(t);
    } else {
      RunEnd(w[1..], t);
    }
  }

  /** A run from a newline to a newline holding three or more newlines,
      followed by spaces and then text, is matched whole and becomes one
      blank line. */
  lemma CollapseLongRun(m: string, v: string, y: string)
    requires AllSpace(m) && m != [] && m[0] == '\n' && m[|m| - 1] == '\n' && LeadingNewlines(m) >= 3
    requires '\n' !in v && (y == [] || !IsSpace(y[0]))
    ensures CollapseBlankRuns(m + (v + y)) == "\n\n" + (v + CollapseBlankRuns(y))
  {
    var r := m + (v + y);
    NoNewlineCount(v);
    assert LeadingNewlines(y) == 0;
    ZeroWithoutNewline(v, y);
    LeadingNewlinesAppend(m, v + y);
    RunEnd(m, v + y);
    assert r[0] == '\n';
    assert BlankRunMatch(r) == Some(|m|);
    assert r[|m|..] == v + y;
    NoNewlineRun(v, y);
  }

  /** Text whose whitespace prefix holds no newline keeps that property
      behind characters that are not newlines. */
  lemma {:induction false} ZeroWithoutNewline(v: string, y: string)
    requires '\n' !in v && LeadingNewlines(y) == 0
    ensures LeadingNewlines(v + y) == 0
    decreases |v|
  {
    if v == [] {
      assert v + y == y;
    } else {
      assert (v + y)[0] == v[0];
      assert (v + y)[1..] == v[1..] + y;
      ZeroWithoutNewline(v[1..], y);
    }
  }

  /** A run holding at most two newlines, followed by text, is kept. */
  lemma CollapseShortRun(m: string, v: string, y: string)
    requires AllSpace(m) && LeadingNewlines(m) <= 2
    requires '\n' !in v && (y == [] || !IsSpace(y[0]))
    ensures CollapseBlankRuns(m + (v + y)) == m + (v + CollapseBlankRuns(y))
  {
    assert LeadingNewlines(y) == 0;
    ZeroWithoutNewline(v, y);
    LeadingNewlinesAppend(m, v + y);
    KeepRun(m, v + y);
    NoNewlineRun(v, y);
  }

  /** A whitespace run between two pieces of text: spaces u, then m from its
      first newline to its last, then spaces v. With three or more newlines
      it becomes u, one blank line, then v; with at most two it is kept as
      it is. Text on either side is collapsed on its own. */
  lemma CollapseInteriorRun(x: string, u: string, m: string, v: string, y: string)
    requires x == [] || !IsSpace(x[|x| - 1])
    requires AllSpace(u) && AllSpace(m) && AllSpace(v) && '\n' !in u && '\n' !in v
    requires m != [] && m[0] == '\n' && m[|m| - 1] == '\n'
    requires y == [] || !IsSpace(y[0])
    ensures LeadingNewlines(m) >= 3 ==>
              CollapseBlankRuns(x + u + m + v + y)
              == CollapseBlankRuns(x) + u + "\n\n" + v + CollapseBlankRuns(y)
    ensures LeadingNewlines(m) <= 2 ==>
              CollapseBlankRuns(x + u + m + v + y)
              == CollapseBlankRuns(x) + u + m + v + CollapseBlankRuns(y)
  {
    var cx, cy := CollapseBlankRuns(x), CollapseBlankRuns(y);
    Regroup(x, u, m, v, y);
    BeforeRun(x, u, m + (v + y));
    if LeadingNewlines(m) >= 3 {
      CollapseLongRun(m, v, y);
      Regroup(cx, u, "\n\n", v, cy);
    } else {
      CollapseShortRun(m, v, y);
      Regroup(cx, u, m, v, cy);
    }
  }

  /** The text before a run and the spaces opening it pass through on their
      own. */
  lemma BeforeRun(x: string, u: string, r: string)
    requires x == [] || !IsSpace(x[|x| - 1])
    requires '\n' !in u
    ensures CollapseBlankRuns(x + (u + r)) == CollapseBlankRuns(x) + (u + CollapseBlankRuns(r))
  {
    if x != [] {
      CollapseSplitsAfterWord(x, u + r);
    } else {
      assert x + (u + r) == u + r;
    }
    NoNewlineRun(u, r);
  }

  lemma Regroup(a: string, b: string, c: string, d: string, e: string)
    ensures a + b + c + d + e == a + (b + (c + (d + e)))
  {
  }

  // =============================================== deleting whitespace

  /** o is what is left of c after deleting some of its whitespace
      characters. */
  ghost predicate SpaceErasure(c: string, o: string)
    decreases |c|
  {
    if c == [] then o == []
    else (o != [] && o[0] == c[0] && SpaceErasure(c[1..], o[1..]))
         || (IsSpace(c[0]) && SpaceErasure(c[1..], o))
  }

  lemma {:induction false} ErasureNothing(c: string)
    ensures SpaceErasure(c, c)
    decreases |c|
  {
    if c != [] {
      ErasureNothing(c[1..]);
    }
  }

  lemma {:induction false} ErasureAll(c: string)
    requires AllSpace(c)
    ensures SpaceErasure(c, [])
    decreases |c|
  {
    if c != [] {
      ErasureAll(c[1..]);
    }
  }

  lemma {:induction false} ErasureAppend(a: string, a': string, b: string, b': string)
    requires SpaceErasure(a, a') && SpaceErasure(b, b')
    ensures SpaceErasure(a + b, a' + b')
    decreases |a|
  {
    if a == [] {
      assert a + b == b && a' + b' == b';
    } else {
      assert (a + b)[1..] == a[1..] + b;
      if a' != [] && a'[0] == a[0] && SpaceErasure(a[1..], a'[1..]) {
        ErasureAppend(a[1..], a'[1..], b, b');
        assert (a' + b')[1..] == a'[1..] + b';
      } else {
        ErasureAppend(a[1..], a', b, b');
      }
    }
  }

  lemma ErasureStrip(line: string)
    ensures SpaceErasure(line, Strip(line))
  {
    var i, j :| 0 <= i <= j <= |line| && Strip(line) == line[i..j]
                && AllSpace(line[..i]) && AllSpace(line[j..]);
    ErasureAll(line[..i]);
    ErasureNothing(line[i..j]);
    ErasureAll(line[j..]);
    ErasureAppend(line[..i], [], line[i..j], line[i..j]);
    assert [] + line[i..j] == line[i..j] && line[i..j] + [] == line[i..j];
    assert line[..i] + line[i..j] == line[..j];
    ErasureAppend(line[..j], line[i..j], line[j..], []);
    assert line[..j] + line[j..] == line;
  }

  lemma {:induction false} ErasureStripEach(lines: seq<string>)
    ensures SpaceErasure(Join(lines, "\n"), Join(StripEach(lines), "\n"))
    decreases |lines|
  {
    if lines == [] {
      ErasureNothing("");
    } else if |lines| == 1 {
      StripEachAt(lines);
      ErasureStrip(lines[0]);
    } else {
      ErasureStripEach(lines[1..]);
      StripEachAt(lines);
      StripEachAt(lines[1..]);
      assert StripEach(lines)[1..] == StripEach(lines[1..]);
      ErasureStrip(lines[0]);
      ErasureNothing("\n");
      ErasureAppend(lines[0], Strip(lines[0]), "\n", "\n");
      ErasureAppend(lines[0] + "\n", Strip(lines[0]) + "\n",
                    Join(lines[1..], "\n"), Join(StripEach(lines[1..]), "\n"));
    }
  }

  /** Stripping the lines only deletes whitespace. */
  lemma StripLinesErases(t: string)
    ensures SpaceErasure(t, StripLines(t))
  {
    JoinSplitOn(t, "\n");
    ErasureStripEach(SplitOn(t, "\n"));
  }

  lemma {:induction false} ErasureLeadingNewlines(c: string, o: string)
    requires SpaceErasure(c, o)
    ensures LeadingNewlines(o) <= LeadingNewlines(c)
    decreases |c|
  {
    if c != [] {
      if o != [] && o[0] == c[0] && SpaceErasure(c[1..], o[1..]) {
        ErasureLeadingNewlines(c[1..], o[1..]);
      } else {
        ErasureLeadingNewlines(c[1..], o);
      }
    }
  }

  /** Deleting whitespace never puts more newlines into one run. */
  lemma {:induction false} ErasureKeepsBounded(c: string, o: string)
    requires SpaceErasure(c, o) && BlankRunsBounded(c)
    ensures BlankRunsBounded(o)
    decreases |c|
  {
    if c != [] {
      if o != [] && o[0] == c[0] && SpaceErasure(c[1..], o[1..]) {
        ErasureLeadingNewlines(c, o);
        ErasureKeepsBounded(c[1..], o[1..]);
      } else {
        ErasureKeepsBounded(c[1..], o);
      }
    }
  }

  /** Deleting whitespace keeps the other characters. */
  lemma {:induction false} ErasureKeepsNonSpace(c: string, o: string)
    requires SpaceErasure(c, o)
    ensures NonSpace(o) == NonSpace(c)
    decreases |c|
  {
    if c != [] {
      if o != [] && o[0] == c[0] && SpaceErasure(c[1..], o[1..]) {
        ErasureKeepsNonSpace(c[1..], o[1..]);
      } else {
        ErasureKeepsNonSpace(c[1..], o);
      }
    }
  }

  // =============================================== clean_markdown's output

  lemma StripKeepsOut(line: string, c: char)
    requires c !in line
    ensures c !in Strip(line)
  {
    var i, j :| 0 <= i <= j <= |line| && Strip(line) == line[i..j];
  }

  /** The lines of a cleaned text are the stripped lines of the collapsed
      text. */
  lemma CleanLines(s: string)
    ensures SplitOn(CleanMarkdown(s), "\n") == StripEach(SplitOn(CollapseBlankRuns(s), "\n"))
  {
    var lines := SplitOn(CollapseBlankRuns(s), "\n");
    SplitOnPartsFree(CollapseBlankRuns(s), '\n');
    StripEachAt(lines);
    forall i | 0 <= i < |lines| ensures '\n' !in StripEach(lines)[i] {
      StripKeepsOut(lines[i], '\n');
    }
    SplitOnJoin(StripEach(lines), '\n');
  }

  /** No line of the output starts or ends with whitespace. */
  lemma CleanLinesAreStripped(s: string)
    ensures forall line <- SplitOn(CleanMarkdown(s), "\n") ::
              line == [] || (!IsSpace(line[0]) && !IsSpace(line[|line| - 1]))
  {
    CleanLines(s);
    var lines := SplitOn(CollapseBlankRuns(s), "\n");
    var clean := SplitOn(CleanMarkdown(s), "\n");
    StripEachAt(lines);
    forall line | line in clean ensures line == [] || (!IsSpace(line[0]) && !IsSpace(line[|line| - 1])) {
      var i :| 0 <= i < |clean| && clean[i] == line;
      assert line == Strip(lines[i]);
    }
  }

  /** No whitespace run of the output holds more than two newlines, so the
      output never contains three newlines in a row. */
  lemma CleanBoundsBlankLines(s: string)
    ensures BlankRunsBounded(CleanMarkdown(s))
    ensures !Contains(CleanMarkdown(s), "\n\n\n")
  {
    CollapseBounds(s);
    StripLinesErases(CollapseBlankRuns(s));
    ErasureKeepsBounded(CollapseBlankRuns(s), CleanMarkdown(s));
    BoundedHasNoTripleNewline(CleanMarkdown(s));
  }

  lemma {:induction false} BoundedHasNoTripleNewline(t: string)
    requires BlankRunsBounded(t)
    ensures !Contains(t, "\n\n\n")
    decreases |t|
  {
    if t != [] {
      BoundedHasNoTripleNewline(t[1..]);
      TripleNewlineRun(t);
    }
  }

  lemma TripleNewlineRun(t: string)
    ensures StartsWith(t, "\n\n\n") ==> LeadingNewlines(t) >= 3
  {
    if StartsWith(t, "\n\n\n") {
      assert t[..3] == "\n\n\n";
      var t1, t2 := t[1..], t[2..];
      assert t1[0] == '\n' && t1[1..] == t2 && t2[0] == '\n';
      assert LeadingNewlines(t2) >= 1;
      assert LeadingNewlines(t1) == 1 + LeadingNewlines(t2);
      assert LeadingNewlines(t) == 1 + LeadingNewlines(t1);
    }
  }

  /** Cleaning keeps every character that is not whitespace, in order. */
  lemma CleanKeepsNonSpace(s: string)
    ensures NonSpace(CleanMarkdown(s)) == NonSpace(s)
  {
    CollapseKeepsNonSpace(s);
    StripLinesErases(CollapseBlankRuns(s));
    ErasureKeepsNonSpace(CollapseBlankRuns(s), CleanMarkdown(s));
  }

  /** Cleaning a cleaned text changes nothing. */
  lemma CleanIdempotent(s: string)
    ensures CleanMarkdown(CleanMarkdown(s)) == CleanMarkdown(s)
  {
    var o := CleanMarkdown(s);
    CleanBoundsBlankLines(s);
    CollapseFixesBounded(o);
    CleanLines(s);
    var lines := StripEach(SplitOn(CollapseBlankRuns(s), "\n"));
    StripEachAt(SplitOn(CollapseBlankRuns(s), "\n"));
    StripEachAt(lines);
    forall i | 0 <= i < |lines| ensures Strip(lines[i]) == lines[i] {
      StripIdempotent(SplitOn(CollapseBlankRuns(s), "\n")[i]);
    }
    assert StripEach(lines) == lines;
  }
}
