/** Python string operations the crawler relies on: character classes,
    strip, split/join, replace, substring tests, lower-casing and
    zero-padded decimal formatting. */
module Strings {

  /** Python's str.isspace(); a str pattern's `\s` matches exactly these. */
  predicate IsSpace(c: char) {
    c == ' ' || '\t' <= c <= '\r' || '\U{1c}' <= c <= '\U{1f}'
    || c == '\U{85}' || c == '\U{a0}' || c == '\U{1680}'
    || '\U{2000}' <= c <= '\U{200a}' || c == '\U{2028}' || c == '\U{2029}'
    || c == '\U{202f}' || c == '\U{205f}' || c == '\U{3000}'
  }

  /** A word character (`\w`): ASCII letters, digits and `_`, the Latin-1
      letters and numbers (ª ² ³ µ ¹ º ¼ ½ ¾ and À to ÿ except × and ÷), CJK
      ideographs and full-width letters and digits. */
  predicate IsWordChar(c: char) {
    'a' <= c <= 'z' || 'A' <= c <= 'Z' || '0' <= c <= '9' || c == '_'
    || c == '\U{aa}' || c == '\U{b2}' || c == '\U{b3}' || c == '\U{b5}' || c == '\U{b9}'
    || c == '\U{ba}' || '\U{bc}' <= c <= '\U{be}'
    || ('\U{c0}' <= c <= '\U{ff}' && c != '\U{d7}' && c != '\U{f7}')
    || '\U{3400}' <= c <= '\U{4dbf}' || '\U{4e00}' <= c <= '\U{9fff}'
    || '\U{ff10}' <= c <= '\U{ff19}' || '\U{ff21}' <= c <= '\U{ff3a}'
    || '\U{ff41}' <= c <= '\U{ff5a}'
  }

  predicate IsDigit(c: char) { '0' <= c <= '9' }

  predicate AllSpace(s: string) {
    forall i :: 0 <= i < |s| ==> IsSpace(s[i])
  }

  predicate AllDigits(s: string) {
    forall i :: 0 <= i < |s| ==> IsDigit(s[i])
  }

  predicate StartsWith(s: string, prefix: string) {
    |prefix| <= |s| && s[..|prefix|] == prefix
  }

  /** Python's `sub in s`. */
  predicate Contains(s: string, sub: string)
    decreases |s|
  {
    StartsWith(s, sub) || (s != [] && Contains(s[1..], sub))
  }

  // ---------------------------------------------------------------- strip

  function TrimStart(s: string): (r: string)
    ensures |r| <= |s| && r == s[|s| - |r|..]
    ensures AllSpace(s[..|s| - |r|])
    ensures r == [] || !IsSpace(r[0])
    decreases |s|
  {
    if s != [] && IsSpace(s[0]) then TrimStart(s[1..]) else s
  }

  function TrimEnd(s: string): (r: string)
    ensures |r| <= |s| && r == s[..|r|]
    ensures AllSpace(s[|r|..])
    ensures r == [] || !IsSpace(r[|r| - 1])
    decreases |s|
  {
    if s != [] && IsSpace(s[|s| - 1]) then TrimEnd(s[..|s| - 1]) else s
  }

  /** Python's str.strip(): the slice left after removing leading and
      trailing whitespace. */
  function Strip(s: string): (r: string)
    ensures exists i, j :: 0 <= i <= j <= |s| && r == s[i..j] && AllSpace(s[..i]) && AllSpace(s[j..])
    ensures r == [] || (!IsSpace(r[0]) && !IsSpace(r[|r| - 1]))
  {
    var t := TrimStart(s);
    var r := TrimEnd(t);
    var i := |s| - |t|;
    assert r == s[i..i + |r|];
    assert AllSpace(s[i + |r|..]) by {
      assert s[i + |r|..] == t[|r|..];
    }
    r
  }

  /** Stripping twice is stripping once. */
  lemma StripIdempotent(s: string)
    ensures Strip(Strip(s)) == Strip(s)
  {
    var r := Strip(s);
    assert TrimStart(r) == r;
    if r != [] {
      assert TrimEnd(r) == r;
    }
  }

  // ----------------------------------------------------------- split, join

  /** Python's s.split(sep) for a non-empty separator: occurrences are found
      left to right without overlap, and there is always at least one part. */
  function SplitOn(s: string, sep: string): (r: seq<string>)
    requires sep != []
    ensures |r| >= 1
    decreases |s|
  {
    if |s| < |sep| then [s]
    else if s[..|sep|] == sep then [""] + SplitOn(s[|sep|..], sep)
    else
      var rest := SplitOn(s[1..], sep);
      [[s[0]] + rest[0]] + rest[1..]
  }

  /** Python's sep.join(parts). */
  function Join(parts: seq<string>, sep: string): string
    decreases |parts|
  {
    if parts == [] then ""
    else if |parts| == 1 then parts[0]
    else parts[0] + sep + Join(parts[1..], sep)
  }

  lemma JoinConsChar(c: char, parts: seq<string>, sep: string)
    requires parts != []
    ensures Join([[c] + parts[0]] + parts[1..], sep) == [c] + Join(parts, sep)
  {
    var ps := [[c] + parts[0]] + parts[1..];
    if |parts| > 1 {
      assert ps[1..] == parts[1..];
    }
  }

  /** Joining the parts of a split with the same separator gives back the text. */
  lemma {:induction false} JoinSplitOn(s: string, sep: string)
    requires sep != []
    ensures Join(SplitOn(s, sep), sep) == s
    decreases |s|
  {
    if |s| < |sep| {
    } else if s[..|sep|] == sep {
      JoinSplitOn(s[|sep|..], sep);
      var rest := SplitOn(s[|sep|..], sep);
      assert ([""] + rest)[1..] == rest;
      assert s == sep + s[|sep|..];
    } else {
      JoinSplitOn(s[1..], sep);
      JoinConsChar(s[0], SplitOn(s[1..], sep), sep);
      assert s == [s[0]] + s[1..];
    }
  }

  /** A text free of the separator character is one part. */
  lemma {:induction false} SplitOnWithout(s: string, c: char)
    requires c !in s
    ensures SplitOn(s, [c]) == [s]
    decreases |s|
  {
    if |s| >= 1 {
      assert s[..1] != [c] by { assert s[0] != c; }
      SplitOnWithout(s[1..], c);
      assert [s[0]] + s[1..] == s;
    }
  }

  /** A separator character ends the first part. */
  lemma {:induction false} SplitOnAfter(p: string, c: char, rest: string)
    requires c !in p
    ensures SplitOn(p + [c] + rest, [c]) == [p] + SplitOn(rest, [c])
    decreases |p|
  {
    var s := p + [c] + rest;
    if p == [] {
      assert s[..1] == [c];
      assert s[1..] == rest;
    } else {
      assert s[..1] != [c] by { assert s[0] == p[0] != c; }
      assert s[1..] == p[1..] + [c] + rest;
      SplitOnAfter(p[1..], c, rest);
      assert [p[0]] + p[1..] == p;
    }
  }

  /** Splitting at one occurrence of the separator character splits the
      parts: those of the text before it, then those of the text after it. */
  lemma {:induction false} SplitOnConcat(x: string, c: char, y: string)
    ensures SplitOn(x + [c] + y, [c]) == SplitOn(x, [c]) + SplitOn(y, [c])
    decreases |x|
  {
    var s := x + [c] + y;
    if x == [] {
      assert s[..1] == [c];
      assert s[1..] == y;
    } else {
      assert s[..1] == x[..1];
      assert s[1..] == x[1..] + [c] + y;
      SplitOnConcat(x[1..], c, y);
      var p := SplitOn(x[1..], [c]);
      var q := SplitOn(y, [c]);
      if x[..1] == [c] {
        assert SplitOn(s, [c]) == [""] + (p + q);
      } else {
        assert (p + q)[0] == p[0];
        assert (p + q)[1..] == p[1..] + q;
      }
    }
  }

  /** Splitting a join on a one-character separator that no part contains
      gives back the parts. */
  lemma {:induction false} SplitOnJoin(parts: seq<string>, c: char)
    requires parts != []
    requires forall i :: 0 <= i < |parts| ==> c !in parts[i]
    ensures SplitOn(Join(parts, [c]), [c]) == parts
    decreases |parts|
  {
    if |parts| == 1 {
      SplitOnWithout(parts[0], c);
    } else {
      SplitOnJoin(parts[1..], c);
      SplitOnAfter(parts[0], c, Join(parts[1..], [c]));
      assert [parts[0]] + parts[1..] == parts;
    }
  }

  /** No part of a split on one character contains that character. */
  lemma {:induction false} SplitOnPartsFree(s: string, c: char)
    ensures forall i :: 0 <= i < |SplitOn(s, [c])| ==> c !in SplitOn(s, [c])[i]
    decreases |s|
  {
    if |s| >= 1 {
      SplitOnPartsFree(s[1..], c);
      var rest := SplitOn(s[1..], [c]);
      if s[..1] == [c] {
        assert SplitOn(s, [c]) == [""] + rest;
      } else {
        assert s[0] != c by { assert s[..1] == [s[0]]; }
        assert SplitOn(s, [c]) == [[s[0]] + rest[0]] + rest[1..];
      }
    }
  }

  /** The last part of a split on one character: free of it, and the suffix
      after the last occurrence of the character; the whole text when the
      character does not occur. */
  lemma SplitOnLastPart(s: string, c: char)
    ensures var parts := SplitOn(s, [c]);
            var last := parts[|parts| - 1];
            && c !in last && |last| <= |s| && s[|s| - |last|..] == last
            && (c !in s ==> last == s)
            && (c in s ==> |last| < |s| && s[|s| - |last| - 1] == c)
  {
    SplitOnPartsFree(s, c);
    SplitOnLastPrecededBy(s, c);
    var parts := SplitOn(s, [c]);
    var last := parts[|parts| - 1];
    if |parts| > 1 {
      assert s[|s| - |last|..] == last;
    }
  }

  /** The last part is the whole text when the split has one part, and
      follows an occurrence of the character otherwise. */
  lemma {:induction false} SplitOnLastPrecededBy(s: string, c: char)
    ensures var parts := SplitOn(s, [c]);
            var last := parts[|parts| - 1];
            && (|parts| == 1 ==> last == s)
            && (|parts| > 1 ==> |last| < |s| && s[|s| - |last|..] == last && s[|s| - |last| - 1] == c)
    decreases |s|
  {
    if |s| >= 1 {
      SplitOnLastPrecededBy(s[1..], c);
      var rest := SplitOn(s[1..], [c]);
      var last := rest[|rest| - 1];
      var parts := SplitOn(s, [c]);
      if s[..1] == [c] {
        assert parts == [""] + rest;
        assert parts[|parts| - 1] == last;
        assert s[0] == c;
        if |rest| > 1 {
          assert s[|s| - |last| - 1] == s[1..][|s| - 1 - |last| - 1];
          assert s[|s| - |last|..] == s[1..][|s| - 1 - |last|..];
        } else {
          assert s[1..] == s[|s| - |last|..];
        }
      } else {
        assert parts == [[s[0]] + rest[0]] + rest[1..];
        if |rest| > 1 {
          assert parts[|parts| - 1] == last;
          assert s[|s| - |last| - 1] == s[1..][|s| - 1 - |last| - 1];
          assert s[|s| - |last|..] == s[1..][|s| - 1 - |last|..];
        } else {
          assert [s[0]] + s[1..] == s;
        }
      }
    }
  }

  // --------------------------------------------------------------- replace

  /** Python's s.replace(target, replacement): occurrences are replaced left
      to right, without overlap. */
  function Replace(s: string, target: string, replacement: string): string
    requires target != []
    decreases |s|
  {
    if |s| < |target| then s
    else if s[..|target|] == target then replacement + Replace(s[|target|..], target, replacement)
    else [s[0]] + Replace(s[1..], target, replacement)
  }

  /** Replacing is splitting on the target and joining with the replacement. */
  lemma {:induction false} ReplaceIsJoinOfSplit(s: string, target: string, replacement: string)
    requires target != []
    ensures Replace(s, target, replacement) == Join(SplitOn(s, target), replacement)
    decreases |s|
  {
    if |s| < |target| {
    } else if s[..|target|] == target {
      ReplaceIsJoinOfSplit(s[|target|..], target, replacement);
      var rest := SplitOn(s[|target|..], target);
      assert ([""] + rest)[1..] == rest;
    } else {
      ReplaceIsJoinOfSplit(s[1..], target, replacement);
      JoinConsChar(s[0], SplitOn(s[1..], target), replacement);
    }
  }

  /** Replacing text that does not occur changes nothing. */
  lemma {:induction false} ReplaceAbsent(s: string, target: string, replacement: string)
    requires target != [] && !Contains(s, target)
    ensures Replace(s, target, replacement) == s
    decreases |s|
  {
    if |s| >= |target| {
      ReplaceAbsent(s[1..], target, replacement);
      assert [s[0]] + s[1..] == s;
    }
  }

  // ----------------------------------------------------------- lower case

  function LowerChar(c: char): char {
    if 'A' <= c <= 'Z' then (c as int + 32) as char else c
  }

  /** str.lower() restricted to ASCII letters. */
  function ToLower(s: string): string {
    seq(|s|, i requires 0 <= i < |s| => LowerChar(s[i]))
  }

  /** Lower-casing leaves no upper-case ASCII letter, and changes no other
      character. */
  lemma ToLowerNoUpper(s: string)
    ensures |ToLower(s)| == |s|
    ensures forall i :: 0 <= i < |s| ==> !('A' <= ToLower(s)[i] <= 'Z')
    ensures forall i :: 0 <= i < |s| && !('A' <= s[i] <= 'Z') ==> ToLower(s)[i] == s[i]
  {
  }

  /** Lower-casing a lower-cased text changes nothing. */
  lemma ToLowerIdempotent(s: string)
    ensures ToLower(ToLower(s)) == ToLower(s)
  {
    ToLowerNoUpper(s);
    ToLowerNoUpper(ToLower(s));
  }

  // ------------------------------------------------------ decimal numbers

  function DigitChar(d: nat): char
    requires d < 10
  {
    ('0' as int + d) as char
  }

  function DigitValue(c: char): nat
    requires IsDigit(c)
  {
    c as int - '0' as int
  }

  /** The decimal representation of n, without leading zeros ("0" for zero). */
  function Decimal(n: nat): (r: string)
    ensures |r| >= 1 && AllDigits(r)
    decreases n
  {
    if n < 10 then [DigitChar(n)] else Decimal(n / 10) + [DigitChar(n % 10)]
  }

  /** The number a string of decimal digits denotes. */
  function ValueOf(s: string): nat
    requires AllDigits(s)
    decreases |s|
  {
    if s == [] then 0 else ValueOf(s[..|s| - 1]) * 10 + DigitValue(s[|s| - 1])
  }

  lemma {:induction false} ValueOfDecimal(n: nat)
    ensures ValueOf(Decimal(n)) == n
    decreases n
  {
    if n >= 10 {
      ValueOfDecimal(n / 10);
      var s := Decimal(n);
      assert s[..|s| - 1] == Decimal(n / 10);
    }
  }

  function Zeros(k: nat): (r: string)
    ensures |r| == k && AllDigits(r)
    ensures forall i :: 0 <= i < k ==> r[i] == '0'
  {
    seq(k, _ => '0')
  }

  lemma {:induction false} ValueOfLeadingZeros(k: nat, s: string)
    requires AllDigits(s)
    ensures ValueOf(Zeros(k) + s) == ValueOf(s)
    decreases |s|
  {
    if s == [] {
      ValueOfZeros(k);
      assert Zeros(k) + s == Zeros(k);
    } else {
      var t := Zeros(k) + s;
      assert t[..|t| - 1] == Zeros(k) + s[..|s| - 1];
      ValueOfLeadingZeros(k, s[..|s| - 1]);
    }
  }

  lemma {:induction false} ValueOfZeros(k: nat)
    ensures ValueOf(Zeros(k)) == 0
    decreases k
  {
    if k > 0 {
      assert Zeros(k)[..k - 1] == Zeros(k - 1);
      ValueOfZeros(k - 1);
    }
  }

  /** Python's f"{n:0{width}d}": the decimal of n, left-padded with zeros to
      at least `width` characters. */
  function ZeroPad(n: nat, width: nat): (r: string)
    ensures AllDigits(r)
    ensures |r| == if |Decimal(n)| < width then width else |Decimal(n)|
  {
    var d := Decimal(n);
    if |d| < width then Zeros(width - |d|) + d else d
  }

  /** The padded text still denotes n, so padding is injective. */
  lemma ZeroPadValue(n: nat, width: nat)
    ensures ValueOf(ZeroPad(n, width)) == n
  {
    ValueOfDecimal(n);
    var d := Decimal(n);
    if |d| < width {
      ValueOfLeadingZeros(width - |d|, d);
    }
  }

  lemma ZeroPadInjective(m: nat, n: nat, width: nat)
    requires ZeroPad(m, width) == ZeroPad(n, width)
    ensures m == n
  {
    ZeroPadValue(m, width);
    ZeroPadValue(n, width);
  }

  /** Numbers below 1000 pad to exactly three digits. */
  lemma ZeroPadThree(n: nat)
    requires n < 1000
    ensures |ZeroPad(n, 3)| == 3
  {
    if n >= 10 {
      if n >= 100 {
        assert Decimal(n) == Decimal(n / 10) + [DigitChar(n % 10)];
        assert Decimal(n / 10) == Decimal(n / 100) + [DigitChar(n / 10 % 10)];
      } else {
        assert Decimal(n) == Decimal(n / 10) + [DigitChar(n % 10)];
      }
    }
  }
}
