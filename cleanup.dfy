/**
 * The text patterns shared by the scripts that remove references to the
 * old hosting domains and restore the forum links: URL runs after a domain,
 * the `<!-- REMOVED: url -->` comments that wrap a removed reference, the
 * non-greedy comment stripping used by every verification, and `<area ...>`
 * tags up to their first '>'.
 */
module Cleanup {
  import opened Strings
  import opened Rewriting
  import opened Attributes
  import opened Site

  // ---------------------------------------------------------------------
  // URLs.

  /** The length of the leading run without '"' and white space: the regex `[^"\s]*`. */
  function UrlRun(s: string): (n: nat)
    ensures n <= |s|
    ensures forall i :: 0 <= i < n ==> s[i] != '"' && !IsSpace(s[i])
    ensures n < |s| ==> s[n] == '"' || IsSpace(s[n])
    decreases |s|
  {
    if |s| == 0 || s[0] == '"' || IsSpace(s[0]) then 0
    else
      var n := UrlRun(s[1..]);
      assert forall i :: 1 <= i < n + 1 ==> s[i] == s[1..][i - 1];
      1 + n
  }

  /** The pattern `P[^"\s]*` for the literal `P`. */
  function UrlAt(p: string): Matcher {
    (t: string) => if |p| > 0 && StartsWith(t, p) then |p| + UrlRun(t[|p|..]) else 0
  }

  /** The length of the match of `https?://D[^"\s]*` at the front of `t`, 0 when there is none. */
  function SchemeUrlLen(t: string, domain: string): (n: nat)
    ensures n <= |t|
  {
    var https, http := "https://" + domain, "http://" + domain;
    if StartsWith(t, https) then |https| + UrlRun(t[|https|..])
    else if StartsWith(t, http) then |http| + UrlRun(t[|http|..])
    else 0
  }

  function SchemeUrl(domain: string): Matcher {
    (t: string) => SchemeUrlLen(t, domain)
  }

  /** The run is pinned down by where its first quote or white space is. */
  lemma UrlRunIs(s: string, n: nat)
    requires n <= |s|
    requires forall i :: 0 <= i < n ==> s[i] != '"' && !IsSpace(s[i])
    requires n < |s| ==> s[n] == '"' || IsSpace(s[n])
    ensures UrlRun(s) == n
  {
  }

  /** Every match of `P[^"\s]*` starts with the first two characters of `P`. */
  lemma UrlAtStarts(p: string)
    requires |p| >= 2
    ensures forall t :: MatchesAt(UrlAt(p), t) ==> |t| >= 2 && t[0] == p[0] && t[1] == p[1]
  {
    forall t | MatchesAt(UrlAt(p), t)
      ensures |t| >= 2 && t[0] == p[0] && t[1] == p[1]
    {
      assert t[..|p|] == p;
      assert t[0] == t[..|p|][0] && t[1] == t[..|p|][1];
    }
  }

  /** Every match of `https?://D[^"\s]*` starts with `ht`. */
  lemma SchemeUrlStarts(domain: string)
    ensures forall t :: MatchesAt(SchemeUrl(domain), t) ==> |t| >= 2 && t[0] == 'h' && t[1] == 't'
  {
    forall t | MatchesAt(SchemeUrl(domain), t)
      ensures |t| >= 2 && t[0] == 'h' && t[1] == 't'
    {
      var h := if StartsWith(t, "https://" + domain) then "https://" + domain else "http://" + domain;
      assert t[..|h|] == h;
      assert t[0] == t[..|h|][0] && t[1] == t[..|h|][1];
    }
  }

  /** `P[^"\s]*` finds something exactly where `P` occurs. */
  lemma {:induction false} UrlAtFound(s: string, p: string)
    requires |p| > 0
    ensures MatchCount(s, UrlAt(p)) > 0 <==> Contains(s, p)
    decreases |s|
  {
    if |s| > 0 && !StartsWith(s, p) {
      UrlAtFound(s[1..], p);
    }
  }

  /** The URL matched at the front of `s` starts with `P` and has no quote. */
  lemma UrlAtShape(s: string, p: string)
    requires |p| > 0 && '"' !in p && MatchesAt(UrlAt(p), s)
    ensures StartsWith(s[..UrlAt(p)(s)], p) && '"' !in s[..UrlAt(p)(s)]
  {
    var x := s[..UrlAt(p)(s)];
    var n := UrlRun(s[|p|..]);
    assert |x| == |p| + n;
    assert x[..|p|] == p;
    forall i | 0 <= i < |x|
      ensures x[i] != '"'
    {
      if i < |p| {
        assert x[i] == p[i];
      } else {
        assert x[i] == s[|p|..][i - |p|];
      }
    }
  }

  /** Every URL found starts with `P` and continues up to a quote, white space or the end. */
  lemma {:induction false} UrlAtMatches(s: string, p: string)
    requires |p| > 0 && '"' !in p
    ensures forall x :: x in FindAll(s, UrlAt(p)) ==> StartsWith(x, p) && '"' !in x
    decreases |s|
  {
    if |s| > 0 {
      var m := UrlAt(p);
      if MatchesAt(m, s) {
        UrlAtMatches(s[m(s)..], p);
        UrlAtShape(s, p);
      } else {
        UrlAtMatches(s[1..], p);
      }
    }
  }

  // ---------------------------------------------------------------------
  // Commenting a reference out, and stripping comments.

  const RemovedOpen: string := "<!-- REMOVED: "
  const RemovedClose: string := " -->"

  /** The comment `<!-- REMOVED: u -->` that replaces a removed reference. */
  function WrapText(u: string): (w: string)
    ensures |w| == |u| + 18 && w[..14] == RemovedOpen && w[14..14 + |u|] == u
  {
    RemovedOpen + u + RemovedClose
  }

  /** The length of the comment at the front of `t`: `<!--.*?-->` with DOTALL, up to the first `-->`. */
  function CommentLen(t: string): (n: nat)
    ensures n == 0 || 7 <= n <= |t|
  {
    if StartsWith(t, "<!--") then
      match IndexOf(t[4..], "-->")
      case Some(j) => j + 7
      case None => 0
    else 0
  }

  function CommentMatcher(): Matcher {
    (t: string) => CommentLen(t)
  }

  /** `re.sub(r'<!--.*?-->', '', content, flags=re.DOTALL)`. */
  function StripComments(s: string): string {
    Rewrite(s, CommentMatcher(), "")
  }

  /** Stripping never lengthens a text, and changes it exactly when a complete comment occurs. */
  lemma StripShortens(s: string)
    ensures |StripComments(s)| <= |s|
    ensures StripComments(s) == s <==> MatchCount(s, CommentMatcher()) == 0
  {
    DeleteShortens(s, CommentMatcher());
    if MatchCount(s, CommentMatcher()) == 0 {
      RewriteNoMatch(s, CommentMatcher(), "");
    }
  }

  /** A text without `<!--` has nothing to strip. */
  lemma {:induction false} StripNoComment(s: string)
    requires !Contains(s, "<!--")
    ensures MatchCount(s, CommentMatcher()) == 0
    ensures StripComments(s) == s
    decreases |s|
  {
    if |s| > 0 {
      StripNoComment(s[1..]);
    }
    RewriteNoMatch(s, CommentMatcher(), "");
  }

  /** The text after `<!--` in a wrap followed by `rest`. */
  lemma WrapTail(u: string, rest: string)
    ensures (WrapText(u) + rest)[4..] == (" REMOVED: " + u + " --") + ">" + rest
  {
    var w := WrapText(u) + rest;
    assert w == RemovedOpen + (u + RemovedClose + rest);
    assert RemovedOpen[4..] == " REMOVED: ";
    assert w[4..] == " REMOVED: " + (u + RemovedClose + rest);
    assert RemovedClose == " --" + ">";
  }

  /** In `y + ">" + rest`, with no '>' in `y` and `y` ending in `--`, the first `-->` closes `y`. */
  lemma FirstClose(y: string, rest: string)
    requires '>' !in y && EndsWith(y, "--")
    ensures IndexOf(y + ">" + rest, "-->") == Some(|y| - 2)
  {
    var x := y + ">" + rest;
    var k := |y| - 2;
    assert x[k..k + 3] == "-->";
    assert StartsWith(x[k..], "-->");
    ContainsAt(x, "-->", k);
    var v := IndexOf(x, "-->").value;
    assert x[v..v + 3][2] == x[v + 2];
    GtAfter(y, rest, v + 2);
  }

  /** The only '>' of `y + ">" + rest` up to the end of `y` is the one after it. */
  lemma GtAfter(y: string, rest: string, j: nat)
    requires '>' !in y && j < |y| + 1 + |rest|
    ensures (y + ">" + rest)[j] == '>' ==> j >= |y|
  {
    if j < |y| {
      assert (y + ">" + rest)[j] == y[j];
    }
  }

  /** The first `-->` after the opening of a wrap is the wrap's own closing one. */
  lemma WrapCloses(u: string, rest: string)
    requires '>' !in u
    ensures IndexOf((WrapText(u) + rest)[4..], "-->") == Some(|u| + 11)
  {
    WrapTail(u, rest);
    var y := " REMOVED: " + u + " --";
    assert y[|y| - 2..] == "--";
    FirstClose(y, rest);
  }

  /** A wrapped reference, with no '>' of its own, vanishes completely when comments are stripped. */
  lemma StripWrapped(u: string, rest: string)
    requires '>' !in u
    ensures StripComments(WrapText(u) + rest) == StripComments(rest)
  {
    var t := WrapText(u) + rest;
    WrapCloses(u, rest);
    assert StartsWith(t, "<!--");
    assert CommentLen(t) == |WrapText(u)|;
    assert t[|WrapText(u)|..] == rest;
  }

  // ---------------------------------------------------------------------
  // Finding `<!-- REMOVED: url -->` comments again.

  /** The index of the first '>' in `s`, or |s| when there is none. */
  function GtFree(s: string): (n: nat)
    ensures n <= |s|
    ensures forall i :: 0 <= i < n ==> s[i] != '>'
    ensures n < |s| ==> s[n] == '>'
    decreases |s|
  {
    if |s| == 0 || s[0] == '>' then 0
    else
      var n := GtFree(s[1..]);
      assert forall i :: 1 <= i < n + 1 ==> s[i] == s[1..][i - 1];
      1 + n
  }

  /** The first '>' is where the characters before it say it is. */
  lemma GtFreeIs(s: string, n: nat)
    requires n <= |s|
    requires forall i :: 0 <= i < n ==> s[i] != '>'
    requires n < |s| ==> s[n] == '>'
    ensures GtFree(s) == n
  {
  }

  /** The length of `https?://D` at the front of `t`, 0 when neither form is there. */
  function SchemeLen(t: string, domain: string): (n: nat)
    ensures n > 0 <==> StartsWith(t, "https://" + domain) || StartsWith(t, "http://" + domain)
    ensures n <= |t|
  {
    if StartsWith(t, "https://" + domain) then 8 + |domain|
    else if StartsWith(t, "http://" + domain) then 7 + |domain|
    else 0
  }

  /**
   * The length of the match of `<!-- REMOVED: (https?://D[^>]*) -->` at the
   * front of `t`: the group runs up to the three characters before the
   * first '>', which must be " --".
   */
  function RemovedLen(t: string, domain: string): (n: nat)
    ensures n == 0 || 18 < n <= |t|
  {
    if StartsWith(t, RemovedOpen) then
      var rest := t[14..];
      var k, g := SchemeLen(rest, domain), GtFree(rest);
      if k > 0 && g < |rest| && g >= k + 3 && rest[g - 3..g] == " --" then 14 + g + 1 else 0
    else 0
  }

  function RemovedMatcher(domain: string): Matcher {
    (t: string) => RemovedLen(t, domain)
  }

  /** The group of that match: the URL that was commented out. */
  function RemovedUrl(t: string, domain: string): (u: string)
    requires RemovedLen(t, domain) > 0
    ensures WrapText(u) == t[..RemovedLen(t, domain)]
    ensures '>' !in u && (StartsWith(u, "https://" + domain) || StartsWith(u, "http://" + domain))
  {
    var rest := t[14..];
    var g := GtFree(rest);
    var u := rest[..g - 3];
    assert forall i :: 0 <= i < |u| ==> u[i] == rest[i];
    assert t[..14 + g + 1] == RemovedOpen + u + RemovedClose by {
      assert t[..14] == RemovedOpen;
      assert t[14..14 + g - 3] == u;
      assert t[14 + g - 3..14 + g] == " --";
      assert t[14 + g] == '>';
    }
    assert StartsWith(u, "https://" + domain) || StartsWith(u, "http://" + domain) by {
      if StartsWith(rest, "https://" + domain) {
        assert u[..8 + |domain|] == rest[..8 + |domain|];
      } else {
        assert u[..7 + |domain|] == rest[..7 + |domain|];
      }
    }
    u
  }

  /**
   * Unwrapping exactly undoes one wrap: the comment around a URL on the
   * domain with no '>' of its own is matched whole, and its group is that URL.
   */
  lemma UnwrapWrapped(u: string, rest: string, domain: string)
    requires StartsWith(u, "https://" + domain) || StartsWith(u, "http://" + domain)
    requires '>' !in u
    ensures RemovedLen(WrapText(u) + rest, domain) == |WrapText(u)|
    ensures RemovedUrl(WrapText(u) + rest, domain) == u
  {
    UnwrapLen(u, rest, domain);
    var t := WrapText(u) + rest;
    assert t[..|WrapText(u)|] == WrapText(u);
    WrapInjective(RemovedUrl(t, domain), u);
  }

  /** The match at a wrapped URL ends at the wrap's closing `-->`. */
  lemma UnwrapLen(u: string, rest: string, domain: string)
    requires StartsWith(u, "https://" + domain) || StartsWith(u, "http://" + domain)
    requires '>' !in u
    ensures RemovedLen(WrapText(u) + rest, domain) == |WrapText(u)|
  {
    var t := WrapText(u) + rest;
    var x := t[14..];
    assert x == u + RemovedClose + rest;
    SchemeOfWrapped(u, RemovedClose + rest, domain);
    GtOfWrapped(u, rest);
    var g := GtFree(x);
    assert x[g - 3..g] == " --";
    assert t[..14] == RemovedOpen;
    assert g < |x| && g >= SchemeLen(x, domain) + 3;
  }

  /** Different URLs give different comments. */
  lemma WrapInjective(a: string, b: string)
    requires WrapText(a) == WrapText(b)
    ensures a == b
  {
    assert a == WrapText(a)[14..14 + |a|];
  }

  /** The scheme and domain at the front of `u` are matched inside `u`. */
  lemma SchemeOfWrapped(u: string, tail: string, domain: string)
    requires StartsWith(u, "https://" + domain) || StartsWith(u, "http://" + domain)
    ensures 0 < SchemeLen(u + tail, domain) <= |u|
  {
    var x := u + tail;
    assert x[..|u|] == u;
    if StartsWith(u, "https://" + domain) {
      assert x[..8 + |domain|] == u[..8 + |domain|];
    } else {
      assert u[4] == "http://"[4] == ':';
      assert x[4] == ':';
      assert "https://"[4] == 's';
      assert x[..7 + |domain|] == u[..7 + |domain|];
    }
  }

  /** The first '>' after a URL without one is the one closing the wrap. */
  lemma GtOfWrapped(u: string, rest: string)
    requires '>' !in u
    ensures GtFree(u + RemovedClose + rest) == |u| + 3
  {
    var x := u + RemovedClose + rest;
    forall i | 0 <= i < |u| + 3
      ensures x[i] != '>'
    {
      if i < |u| {
        assert x[i] == u[i];
      } else {
        assert x[i] == RemovedClose[i - |u|];
      }
    }
    assert x[|u| + 3] == '>';
  }

  // ---------------------------------------------------------------------
  // `<area ...>` tags.

  /**
   * The length of the `<area ...>` tag at the front of `t` whose text between
   * `<area` and the first '>' satisfies `inner`: the regexes
   * `<area[^>]*X[^>]*>` for a fragment `X` without '>', and `<area([^>]*)\s*>`.
   */
  function AreaLen(t: string, inner: string -> bool): (n: nat)
    ensures n == 0 || 6 <= n <= |t|
  {
    if StartsWith(t, "<area") then
      var g := GtFree(t[5..]);
      if g < |t| - 5 && inner(t[5..5 + g]) then 5 + g + 1 else 0
    else 0
  }

  function AreaTag(inner: string -> bool): Matcher {
    (t: string) => AreaLen(t, inner)
  }

  /** The attributes of a tag `<area ATTRS>`. */
  function AreaAttrs(tag: string): string
    requires |tag| >= 6
  {
    tag[5..|tag| - 1]
  }

  /** The tag matched at the front of `s` has that shape. */
  lemma AreaTagShape(s: string, inner: string -> bool)
    requires MatchesAt(AreaTag(inner), s)
    ensures var x := s[..AreaLen(s, inner)];
      |x| >= 6 && x == "<area" + AreaAttrs(x) + ">" && '>' !in AreaAttrs(x) && inner(AreaAttrs(x))
  {
    var n := AreaLen(s, inner);
    var x := s[..n];
    var g := GtFree(s[5..]);
    assert n == g + 6;
    assert AreaAttrs(x) == s[5..5 + g];
    assert x == x[..5] + AreaAttrs(x) + [x[|x| - 1]];
    assert x[..5] == s[..5];
    assert forall i :: 0 <= i < g ==> AreaAttrs(x)[i] == s[5..][i];
  }

  /** Every tag found is `<area` + attributes without '>' that satisfy `inner` + `>`. */
  lemma {:induction false} AreaTagsFound(s: string, inner: string -> bool)
    ensures forall x :: x in FindAll(s, AreaTag(inner)) ==>
      |x| >= 6 && x == "<area" + AreaAttrs(x) + ">" && '>' !in AreaAttrs(x) && inner(AreaAttrs(x))
    decreases |s|
  {
    if |s| > 0 {
      var m := AreaTag(inner);
      if MatchesAt(m, s) {
        AreaTagsFound(s[m(s)..], inner);
        AreaTagShape(s, inner);
      } else {
        AreaTagsFound(s[1..], inner);
      }
    }
  }

  /** Every value is accepted: `href="[^"]*"`. */
  predicate AnyValue(v: string) {
    true
  }

  /** `re.sub(r'href="[^"]*"', '', area)`: an area tag with its `href` attributes deleted. */
  function Disable(area: string): string {
    Sub(area, HrefKey, false, AnyValue, "")
  }

  /** Disabling changes a tag exactly when it has an `href="..."` attribute, and never lengthens it. */
  lemma DisableSpec(area: string)
    ensures |Disable(area)| <= |area|
    ensures Disable(area) == area <==> Values(area, HrefKey, false, AnyValue) == []
  {
    DeleteShortens(area, UnitMatcher(HrefKey, false, AnyValue));
    ValuesCount(area, HrefKey, false, AnyValue);
    if Values(area, HrefKey, false, AnyValue) == [] {
      NoValuesNoChange(area, HrefKey, false, AnyValue, "");
    }
  }

  /** The area loop: each tag found is replaced everywhere by its disabled form. */
  function DisableAll(content: string, areas: seq<string>): string
    decreases |areas|
  {
    if |areas| == 0 then content
    else
      var last := areas[|areas| - 1];
      ReplaceAll(DisableAll(content, areas[..|areas| - 1]), last, Disable(last))
  }

  /** An `href="..."` attribute in a tag is removed, so disabling shortens the tag. */
  lemma DisableShortens(p: string, v: string, rest: string)
    requires '"' !in v
    ensures |Disable(p + HrefKey + v + "\"" + rest)| < |p + HrefKey + v + "\"" + rest|
  {
    var t := p + HrefKey + v + "\"" + rest;
    var u := t[|p|..];
    assert u == HrefKey + v + "\"" + rest;
    assert u[|HrefKey|..] == v + "\"" + rest;
    QuoteFreeIs(u[|HrefKey|..], |v|);
    assert UnitLen(u, HrefKey, false, AnyValue) > 0;
    ValuesEmptyIff(t, HrefKey, false, AnyValue);
    ValuesCount(t, HrefKey, false, AnyValue);
    DeleteShortens(t, UnitMatcher(HrefKey, false, AnyValue));
  }

  /**
   * Replacing every tag by its disabled form never lengthens the page, and
   * shortens it when the first tag occurs in it and is itself shortened.
   */
  lemma {:induction false} DisableAllShortens(content: string, areas: seq<string>)
    requires forall x :: x in areas ==> |x| > 0
    ensures |DisableAll(content, areas)| <= |content|
    ensures |areas| > 0 && Contains(content, areas[0]) && |Disable(areas[0])| < |areas[0]| ==>
      |DisableAll(content, areas)| < |content|
    decreases |areas|
  {
    if |areas| > 0 {
      var init, last := areas[..|areas| - 1], areas[|areas| - 1];
      assert last in areas;
      assert forall x :: x in init ==> x in areas;
      DisableAllShortens(content, init);
      var c := DisableAll(content, init);
      DisableSpec(last);
      ReplaceAllShorter(c, last, Disable(last));
      if |areas| > 1 {
        assert init[0] == areas[0];
      }
    }
  }

  /** Disabling a single tag everywhere it occurs. */
  lemma DisableAllOne(content: string, area: string)
    ensures DisableAll(content, [area]) == ReplaceAll(content, area, Disable(area))
  {
    assert [area][..0] == [];
  }
}
