/** get_article_links, as sets: the links the structural selectors give,
    the links the anchor scan gives, and which of the two is used. */
module Links {
  import opened Strings
  import opened Types

  /** Selectors whose matches are taken as article links. */
  const LinkSelectors: seq<string> := [
    "a[href*=\"/posts/\"]", "a[href*=\"/post/\"]", "a[href*=\"/articles/\"]",
    "a[href*=\"/blog/\"]", ".post-title a", ".entry-title a", "h2 a", "h3 a"]

  /** find_all('a', href=True): every anchor that has an href attribute. */
  const AnchorSelector: string := "a[href]"

  /** A link whose lower-cased URL contains one of these is not an article. */
  const BlockedFragments: seq<string> :=
    ["#", "javascript:", "mailto:", ".css", ".js", ".jpg", ".png", ".gif"]

  /** `if href:` — the attribute is there and is not empty. */
  predicate HasHref(e: Element) { e.href.Some? && e.href.value != "" }

  /** urljoin(base_url, href) */
  function Resolve(svc: Services, href: string): string { svc.urlJoin(BaseUrl, href) }

  /** The links one selector's matches contribute. */
  function HrefTargets(svc: Services, els: seq<Element>): set<string>
    decreases |els|
  {
    if els == [] then {}
    else
      var e := els[|els| - 1];
      HrefTargets(svc, els[..|els| - 1]) + (if HasHref(e) then {Resolve(svc, e.href.value)} else {})
  }

  /** The links a list of selectors contributes. */
  function SelectorTargets(svc: Services, page: Page, sels: seq<string>): set<string>
    decreases |sels|
  {
    if sels == [] then {}
    else SelectorTargets(svc, page, sels[..|sels| - 1]) + HrefTargets(svc, page.select(sels[|sels| - 1]))
  }

  function StructuralLinks(svc: Services, page: Page): set<string> {
    SelectorTargets(svc, page, LinkSelectors)
  }

  /** The href points into the site: it is a path, or it names the site. */
  predicate IsInternal(href: string) { StartsWith(href, "/") || Contains(href, BaseUrl) }

  /** The lower-cased URL contains a blocked fragment. */
  predicate IsBlocked(url: string) {
    exists k :: 0 <= k < |BlockedFragments| && Contains(ToLower(url), BlockedFragments[k])
  }

  /** The anchor scan keeps this anchor's URL. */
  predicate Admits(svc: Services, e: Element) {
    e.href.Some? && IsInternal(e.href.value) && !IsBlocked(Resolve(svc, e.href.value))
  }

  /** The links the anchor scan keeps from a list of anchors. */
  function AnchorTargets(svc: Services, els: seq<Element>): set<string>
    decreases |els|
  {
    if els == [] then {}
    else
      var e := els[|els| - 1];
      AnchorTargets(svc, els[..|els| - 1]) + (if Admits(svc, e) then {Resolve(svc, e.href.value)} else {})
  }

  function FallbackLinks(svc: Services, page: Page): set<string> {
    AnchorTargets(svc, page.select(AnchorSelector))
  }

  /** The set get_article_links ends with for a fetched page: the anchor
      scan is used only when the structural selectors found nothing. */
  function DiscoveredLinks(svc: Services, page: Page): set<string> {
    var found := StructuralLinks(svc, page);
    if found != {} then found else FallbackLinks(svc, page)
  }

  // ============================================================== lemmas

  lemma {:induction false} HrefTargetsMembers(svc: Services, els: seq<Element>, u: string)
    ensures u in HrefTargets(svc, els) <==>
            exists i :: 0 <= i < |els| && HasHref(els[i]) && u == Resolve(svc, els[i].href.value)
    decreases |els|
  {
    if els != [] {
      var init := els[..|els| - 1];
      HrefTargetsMembers(svc, init, u);
      if u in HrefTargets(svc, els) {
        if u in HrefTargets(svc, init) {
          var i :| 0 <= i < |init| && HasHref(init[i]) && u == Resolve(svc, init[i].href.value);
          assert els[i] == init[i];
        } else {
          assert HasHref(els[|els| - 1]);
        }
      } else {
        forall i | 0 <= i < |els| && HasHref(els[i])
          ensures u != Resolve(svc, els[i].href.value)
        {
          if i < |els| - 1 {
            assert els[i] == init[i];
          }
        }
      }
    }
  }

  lemma {:induction false} SelectorTargetsMembers(svc: Services, page: Page, sels: seq<string>, u: string)
    ensures u in SelectorTargets(svc, page, sels) <==>
            exists k, i :: 0 <= k < |sels| && 0 <= i < |page.select(sels[k])|
                           && HasHref(page.select(sels[k])[i])
                           && u == Resolve(svc, page.select(sels[k])[i].href.value)
    decreases |sels|
  {
    if sels != [] {
      var init := sels[..|sels| - 1];
      var last := |sels| - 1;
      SelectorTargetsMembers(svc, page, init, u);
      HrefTargetsMembers(svc, page.select(sels[last]), u);
      if u in SelectorTargets(svc, page, sels) {
        if u in SelectorTargets(svc, page, init) {
          var k, i :| 0 <= k < |init| && 0 <= i < |page.select(init[k])|
                      && HasHref(page.select(init[k])[i])
                      && u == Resolve(svc, page.select(init[k])[i].href.value);
          assert sels[k] == init[k];
        } else {
          var i :| 0 <= i < |page.select(sels[last])| && HasHref(page.select(sels[last])[i])
                   && u == Resolve(svc, page.select(sels[last])[i].href.value);
        }
      } else {
        forall k, i | 0 <= k < |sels| && 0 <= i < |page.select(sels[k])| && HasHref(page.select(sels[k])[i])
          ensures u != Resolve(svc, page.select(sels[k])[i].href.value)
        {
          if k < last {
            assert sels[k] == init[k];
          }
        }
      }
    }
  }

  /** A URL is a structural link exactly when some match of some link
      selector has a non-empty href resolving to it. */
  lemma StructuralMembers(svc: Services, page: Page, u: string)
    ensures u in StructuralLinks(svc, page) <==>
            exists k, i :: 0 <= k < |LinkSelectors| && 0 <= i < |page.select(LinkSelectors[k])|
                           && HasHref(page.select(LinkSelectors[k])[i])
                           && u == Resolve(svc, page.select(LinkSelectors[k])[i].href.value)
  {
    SelectorTargetsMembers(svc, page, LinkSelectors, u);
  }

  lemma {:induction false} AnchorTargetsMembers(svc: Services, els: seq<Element>, u: string)
    ensures u in AnchorTargets(svc, els) <==>
            exists i :: 0 <= i < |els| && Admits(svc, els[i]) && u == Resolve(svc, els[i].href.value)
    decreases |els|
  {
    if els != [] {
      var init := els[..|els| - 1];
      AnchorTargetsMembers(svc, init, u);
      if u in AnchorTargets(svc, els) {
        if u in AnchorTargets(svc, init) {
          var i :| 0 <= i < |init| && Admits(svc, init[i]) && u == Resolve(svc, init[i].href.value);
          assert els[i] == init[i];
        } else {
          assert Admits(svc, els[|els| - 1]);
        }
      } else {
        forall i | 0 <= i < |els| && Admits(svc, els[i])
          ensures u != Resolve(svc, els[i].href.value)
        {
          if i < |els| - 1 {
            assert els[i] == init[i];
          }
        }
      }
    }
  }

  /** Every URL the anchor scan keeps resolves an internal href of some
      anchor and contains no blocked fragment in any letter case; every such
      URL is kept. */
  lemma FallbackMembers(svc: Services, page: Page, u: string)
    ensures u in FallbackLinks(svc, page) <==>
            exists i :: 0 <= i < |page.select(AnchorSelector)|
                        && page.select(AnchorSelector)[i].href.Some?
                        && IsInternal(page.select(AnchorSelector)[i].href.value)
                        && u == Resolve(svc, page.select(AnchorSelector)[i].href.value)
                        && forall k :: 0 <= k < |BlockedFragments| ==> !Contains(ToLower(u), BlockedFragments[k])
  {
    AnchorTargetsMembers(svc, page.select(AnchorSelector), u);
  }

  /** The anchor scan contributes only when the structural selectors found
      nothing; otherwise the discovered links are exactly the structural
      ones. */
  lemma DiscoveredSources(svc: Services, page: Page, u: string)
    ensures StructuralLinks(svc, page) != {} ==> DiscoveredLinks(svc, page) == StructuralLinks(svc, page)
    ensures StructuralLinks(svc, page) == {} ==> DiscoveredLinks(svc, page) == FallbackLinks(svc, page)
    ensures u in DiscoveredLinks(svc, page) ==>
            u in StructuralLinks(svc, page)
            || (StructuralLinks(svc, page) == {} && u in FallbackLinks(svc, page))
  {
  }

  // ------------------------------------------------------ the block list

  lemma {:induction false} ContainsLonger(s: string, sub: string, longer: string)
    requires StartsWith(longer, sub) && Contains(s, longer)
    ensures Contains(s, sub)
    decreases |s|
  {
    if StartsWith(s, longer) {
      assert s[..|sub|] == longer[..|sub|];
    } else {
      ContainsLonger(s[1..], sub, longer);
    }
  }

  /** The tests are substring tests, so a `.json` URL is blocked too, in any
      letter case. */
  lemma JsonIsBlocked(url: string)
    requires Contains(ToLower(url), ".json")
    ensures IsBlocked(url)
  {
    ContainsLonger(ToLower(url), ".js", ".json");
    assert BlockedFragments[4] == ".js";
  }

  /** Letter case never decides whether a URL is blocked: two URLs that
      differ only in the case of ASCII letters are both blocked or both
      kept. */
  lemma BlockIgnoresCase(url: string, other: string)
    requires |url| == |other|
    requires forall i :: 0 <= i < |url| ==> LowerChar(url[i]) == LowerChar(other[i])
    ensures IsBlocked(url) <==> IsBlocked(other)
  {
    assert ToLower(url) == ToLower(other);
  }

  /** Upper-case letters do not escape the block list: a URL with `.CSS` is
      blocked. */
  lemma UpperCssIsBlocked(url: string, i: nat)
    requires i + 4 <= |url| && url[i..i + 4] == ".CSS"
    ensures IsBlocked(url)
  {
    var low := ToLower(url);
    assert url[i] == '.' && url[i + 1] == 'C' && url[i + 2] == 'S' && url[i + 3] == 'S';
    assert LowerChar('C') == 'c' && LowerChar('S') == 's';
    assert low[i..i + 4] == [low[i], low[i + 1], low[i + 2], low[i + 3]];
    ContainsAt(low, ".css", i);
    assert BlockedFragments[3] == ".css";
  }

  lemma {:induction false} ContainsAt(s: string, sub: string, i: nat)
    requires i + |sub| <= |s| && s[i..i + |sub|] == sub
    ensures Contains(s, sub)
    decreases i
  {
    if i > 0 {
      assert s[1..][i - 1..i - 1 + |sub|] == sub;
      ContainsAt(s[1..], sub, i - 1);
    }
  }

  // ------------------------------------------------------ list(set)

  /** list(article_links): the members of the set, each once, in an order
      the set does not fix. */
  method ListOfSet(s: set<string>) returns (xs: seq<string>)
    ensures forall u :: u in xs <==> u in s
    ensures |xs| == |s|
    ensures forall i, j :: 0 <= i < j < |xs| ==> xs[i] != xs[j]
  {
    xs := [];
    var rest := s;
    while rest != {}
      invariant rest <= s
      invariant forall u :: u in xs <==> u in s && u !in rest
      invariant |xs| + |rest| == |s|
      invariant forall i, j :: 0 <= i < j < |xs| ==> xs[i] != xs[j]
      decreases |rest|
    {
      var u :| u in rest;
      xs := xs + [u];
      rest := rest - {u};
    }
  }
}
