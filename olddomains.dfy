/**
 * The comprehensive cleanup of every old domain: for each domain in turn,
 * every working page has each reference to the domain commented out (three
 * patterns, each searched on the page as it stands) and then its area links
 * to the domain disabled. The area pattern is matched exactly, backtracking
 * included: after the wraps an area's href value holds the comments' '>',
 * and the pattern's `[^"]*` runs across it. The verification then checks
 * every page, comments stripped, for each domain.
 */
module OldDomains {
  import opened Strings
  import opened Rewriting
  import opened Attributes
  import opened Site
  import opened Cleanup

  const OldDomains: seq<string> := [
    "0002n8y.wcomhost.com", "web.bethere.co.uk", "bethere.co.uk",
    "chiswickalbion.proboards.com", "chiswickalbion.proboards20.com"]

  /** A value that is a URL on the domain: the `https?://D[^"]*` of an `href="..."`. */
  function OnDomain(domain: string): string -> bool {
    (v: string) => StartsWith(v, "https://" + domain) || StartsWith(v, "http://" + domain)
  }

  /** The three patterns, in order: a URL on the domain, an `href` to one, and the bare domain. */
  function Patterns(domain: string): seq<Matcher> {
    [SchemeUrl(domain), UnitMatcher(HrefKey, false, OnDomain(domain)), UrlAt(domain)]
  }

  /** The match loop: each match still in the text is wrapped everywhere and counted. */
  function WrapFound(content: string, matches: seq<string>): (string, nat)
    decreases |matches|
  {
    if |matches| == 0 then (content, 0)
    else
      var (c, n) := WrapFound(content, matches[..|matches| - 1]);
      var m := matches[|matches| - 1];
      if Contains(c, m) then (ReplaceAll(c, m, WrapText(m)), n + 1) else (c, n)
  }

  /** Each counted wrap lengthens the text; with nothing counted it is unchanged. */
  lemma {:induction false} WrapFoundGrows(content: string, matches: seq<string>)
    requires forall m :: m in matches ==> |m| > 0
    ensures WrapFound(content, matches).1 <= |matches|
    ensures |WrapFound(content, matches).0| >= |content| + WrapFound(content, matches).1
    ensures WrapFound(content, matches).1 == 0 ==> WrapFound(content, matches).0 == content
    decreases |matches|
  {
    if |matches| > 0 {
      var init, m := matches[..|matches| - 1], matches[|matches| - 1];
      assert m in matches;
      WrapFoundGrows(content, init);
      var c := WrapFound(content, init).0;
      if Contains(c, m) {
        ReplaceAllLonger(c, m, WrapText(m));
      }
    }
  }

  /** The pattern loop: each pattern's matches are found on the text as it stands after the previous patterns. */
  function WrapPatterns(content: string, patterns: seq<Matcher>): (string, nat)
    decreases |patterns|
  {
    if |patterns| == 0 then (content, 0)
    else
      var (c, n) := WrapPatterns(content, patterns[..|patterns| - 1]);
      var (c', k) := WrapFound(c, FindAll(c, patterns[|patterns| - 1]));
      (c', n + k)
  }

  /** The patterns only lengthen the text, one character at least per counted wrap. */
  lemma {:induction false} WrapPatternsGrows(content: string, patterns: seq<Matcher>)
    ensures |WrapPatterns(content, patterns).0| >= |content| + WrapPatterns(content, patterns).1
    ensures WrapPatterns(content, patterns).1 == 0 ==> WrapPatterns(content, patterns).0 == content
    decreases |patterns|
  {
    if |patterns| > 0 {
      var init := patterns[..|patterns| - 1];
      WrapPatternsGrows(content, init);
      var c := WrapPatterns(content, init).0;
      WrapFoundGrows(c, FindAll(c, patterns[|patterns| - 1]));
    }
  }

  /**
   * Wrapping is not idempotent: a comment just inserted around a URL that
   * names the domain is found again by the bare-domain pattern, and the
   * match loop wraps it a second time.
   */
  lemma BareDomainRewraps(u: string, domain: string)
    requires |domain| > 0 && Contains(u, domain)
    ensures var w := WrapText(u);
      WrapFound(w, FindAll(w, UrlAt(domain))).1 > 0 && |WrapFound(w, FindAll(w, UrlAt(domain))).0| > |w|
  {
    var w := WrapText(u);
    assert w[14..14 + |u|] == u;
    ContainsAt(w, u, 14);
    ContainsTrans(w, u, domain);
    UrlAtFound(w, domain);
    var found := FindAll(w, UrlAt(domain));
    WrapFoundGrows(w, found);
    WrapFoundFirst(w, found);
  }

  /** The first match found occurs in the text, so the loop counts at least one wrap. */
  lemma {:induction false} WrapFoundFirst(content: string, matches: seq<string>)
    requires |matches| > 0 && Contains(content, matches[0])
    ensures WrapFound(content, matches).1 > 0
    decreases |matches|
  {
    if |matches| > 1 {
      var init := matches[..|matches| - 1];
      assert init[0] == matches[0];
      WrapFoundFirst(content, init);
    }
  }

  /** The pattern loop, one pattern at a time. */
  lemma WrapPatternsStep(content: string, patterns: seq<Matcher>)
    requires |patterns| > 0
    ensures var r := WrapPatterns(content, patterns[..|patterns| - 1]);
      WrapPatterns(content, patterns).0 == WrapFound(r.0, FindAll(r.0, patterns[|patterns| - 1])).0
    ensures var r := WrapPatterns(content, patterns[..|patterns| - 1]);
      WrapPatterns(content, patterns).1 == r.1 + WrapFound(r.0, FindAll(r.0, patterns[|patterns| - 1])).1
  {
  }

  lemma WrapPatternsNone(content: string)
    ensures WrapPatterns(content, []) == (content, 0)
  {
  }

  /** The match loop over one match. */
  lemma WrapFoundOne(content: string, m: string)
    ensures WrapFound(content, [m]) ==
      if Contains(content, m) then (ReplaceAll(content, m, WrapText(m)), 1) else (content, 0)
  {
    assert [m][..0] == [];
  }

  lemma WrapFoundNone(content: string)
    ensures WrapFound(content, []) == (content, 0)
  {
  }

  /** A page's cleanup from what its patterns and its area step produce. */
  lemma CleanPageIs(content: string, domain: string, w: string, n: nat, areas: seq<string>)
    requires WrapDomain(content, domain) == (w, n) && DomainAreas(w, domain) == areas
    ensures CleanPage(content, domain).0 == DisableAll(w, areas)
    ensures CleanPage(content, domain).1 == (n > 0 || |areas| > 0)
    ensures CleanPage(content, domain).2 == n + |areas|
  {
  }

  /** One page and one domain: the new text, `changes_made` and the references removed. */
  function CleanPage(content: string, domain: string): (string, bool, nat) {
    var w := WrapDomain(content, domain);
    var areas := DomainAreas(w.0, domain);
    (DisableAll(w.0, areas), w.1 > 0 || |areas| > 0, w.1 + |areas|)
  }

  /** The three patterns applied to a page. */
  function WrapDomain(content: string, domain: string): (string, nat) {
    WrapPatterns(content, Patterns(domain))
  }

  /** A change is made exactly when a reference is counted, and a page without one is left as it was. */
  lemma CleanPageSpec(content: string, domain: string)
    ensures CleanPage(content, domain).1 <==> CleanPage(content, domain).2 > 0
    ensures !CleanPage(content, domain).1 ==> CleanPage(content, domain).0 == content
  {
    WrapPatternsGrows(content, Patterns(domain));
  }

  // ---------------------------------------------------------------------
  // Area links to the domain: `<area[^>]*href="[^"]*D[^"]*"[^>]*>`.

  /**
   * The pattern after its `href="`: the value up to the next '"', which must
   * name the domain (`[^"]*D[^"]*"`), then everything up to and including the
   * next '>' (`[^>]*>`). The length of that match, 0 when there is none.
   */
  function HrefTailLen(v: string, domain: string): (n: nat)
    ensures n == 0 || 2 <= n <= |v|
  {
    var q := QuoteFree(v);
    if q < |v| && Contains(v[..q], domain) then
      var g := GtFree(v[q + 1..]);
      if g < |v| - q - 1 then q + g + 2 else 0
    else 0
  }

  /** The rest of the pattern matches when its `href="` starts at index `k` of the text after `<area`. */
  predicate HrefHere(x: string, k: nat, domain: string) {
    k <= |x| && StartsWith(x[k..], HrefKey) && HrefTailLen(x[k + |HrefKey|..], domain) > 0
  }

  /** The largest `k` up to `bound` that satisfies `p`, if any: a backtracking search from the longest run down. */
  function LastWhere(p: nat -> bool, bound: nat): (r: Option<nat>)
    ensures r.Some? ==> r.value <= bound && p(r.value)
    decreases bound
  {
    if p(bound) then Some(bound)
    else if bound == 0 then None
    else LastWhere(p, bound - 1)
  }

  /** The value found is the largest up to the bound, and none is found only when none satisfies `p`. */
  lemma {:induction false} LastWhereSpec(p: nat -> bool, bound: nat)
    ensures var r := LastWhere(p, bound);
      r.Some? ==> forall k :: r.value < k <= bound ==> !p(k)
    ensures LastWhere(p, bound).None? <==> forall k :: 0 <= k <= bound ==> !p(k)
    decreases bound
  {
    if !p(bound) && bound > 0 {
      LastWhereSpec(p, bound - 1);
    }
  }

  /** The only `k` past a given one up to the bound that satisfies `p` is the one found. */
  lemma {:induction false} LastWhereIs(p: nat -> bool, k: nat, bound: nat)
    requires k <= bound && p(k)
    requires forall j :: k < j <= bound ==> !p(j)
    ensures LastWhere(p, bound) == Some(k)
    decreases bound
  {
    if bound > k {
      LastWhereIs(p, k, bound - 1);
    }
  }

  /** A `k` up to the bound that satisfies `p` is found, or a larger one is. */
  lemma LastWhereFinds(p: nat -> bool, k: nat, bound: nat)
    requires k <= bound && p(k)
    ensures LastWhere(p, bound).Some? && LastWhere(p, bound).value >= k
  {
    LastWhereSpec(p, bound);
  }

  /**
   * The backtracking of the leading `[^>]*`: the regex engine tries the
   * longest run first, so the start of `href="` is the largest `k` up to
   * `bound` at which the rest of the pattern matches.
   */
  function HrefStart(x: string, bound: nat, domain: string): (r: Option<nat>)
    ensures r.Some? ==> r.value <= bound && HrefHere(x, r.value, domain)
  {
    LastWhere((k: nat) => HrefHere(x, k, domain), bound)
  }

  /**
   * The length of the match at the front of `t`, 0 when there is none. The
   * leading `[^>]*` stops at the first '>' after `<area`, but the href value
   * and the run after it may cross that '>'.
   */
  function DomainAreaLen(t: string, domain: string): (n: nat)
    ensures n == 0 || 13 <= n <= |t|
  {
    if StartsWith(t, "<area") && AfterAreaLen(t[5..], domain) > 0 then 5 + AfterAreaLen(t[5..], domain) else 0
  }

  function DomainArea(domain: string): Matcher {
    (t: string) => DomainAreaLen(t, domain)
  }

  /** `re.findall(area_pattern, content)`: the area tags of a page that link to the domain. */
  function DomainAreas(content: string, domain: string): seq<string> {
    FindAll(content, DomainArea(domain))
  }

  /** What the tail matches is a value naming the domain, its closing '"', a run without '>' and the '>'. */
  lemma HrefTailShape(w: string, domain: string) returns (v: string, b: string)
    requires HrefTailLen(w, domain) > 0
    ensures w[..HrefTailLen(w, domain)] == v + "\"" + b + ">"
    ensures '"' !in v && Contains(v, domain) && '>' !in b
  {
    var q := QuoteFree(w);
    QuoteFreeSpec(w);
    var z := w[q + 1..];
    var g := GtFree(z);
    v, b := w[..q], z[..g];
    assert w[..HrefTailLen(w, domain)] == w[..q] + [w[q]] + z[..g] + [z[g]];
  }

  /** A value naming the domain, its closing '"', a run without '>' and a '>' is what the tail matches. */
  lemma HrefTailFound(v: string, b: string, rest: string, domain: string)
    requires '"' !in v && Contains(v, domain) && '>' !in b
    ensures HrefTailLen(v + "\"" + b + ">" + rest, domain) == |v| + |b| + 2
  {
    var w := v + "\"" + b + ">" + rest;
    QuoteFreeIs(w, |v|);
    assert w[..|v|] == v;
    var z := w[|v| + 1..];
    assert z == b + ">" + rest;
    GtFreeIs(z, |b|);
  }

  /** The length the pattern matches after `<area`, 0 when it does not. */
  function AfterAreaLen(x: string, domain: string): nat {
    match HrefStart(x, GtFree(x), domain)
    case None => 0
    case Some(k) => k + |HrefKey| + HrefTailLen(x[k + |HrefKey|..], domain)
  }

  /** After `<area`, the pattern matches attributes without '>', `href="` and the tail. */
  lemma AfterAreaShape(x: string, domain: string) returns (a: string, v: string, b: string)
    requires AfterAreaLen(x, domain) > 0
    ensures x[..AfterAreaLen(x, domain)] == a + HrefKey + v + "\"" + b + ">"
    ensures '>' !in a && '"' !in v && Contains(v, domain) && '>' !in b
  {
    var k := AfterAreaStart(x, domain);
    var w := x[k + |HrefKey|..];
    var tail := HrefTailLen(w, domain);
    v, b := HrefTailShape(w, domain);
    a := x[..k];
    forall i | 0 <= i < k
      ensures a[i] != '>'
    {
      assert a[i] == x[i];
    }
    PieceTogether(x, k, HrefKey, tail, v + "\"" + b + ">");
    Regroup(a, HrefKey, v, "\"", b, ">");
  }

  /** Where the `href="` of a match after `<area` starts, and what holds there. */
  lemma AfterAreaStart(x: string, domain: string) returns (k: nat)
    requires AfterAreaLen(x, domain) > 0
    ensures k + |HrefKey| <= |x| && x[k..][..|HrefKey|] == HrefKey
    ensures forall i :: 0 <= i < k ==> x[i] != '>'
    ensures HrefTailLen(x[k + |HrefKey|..], domain) > 0
    ensures AfterAreaLen(x, domain) == k + |HrefKey| + HrefTailLen(x[k + |HrefKey|..], domain)
  {
    k := HrefStart(x, GtFree(x), domain).value;
    assert HrefHere(x, k, domain);
  }

  /** A prefix of `x` made of its first `k` characters, a `key` found at `k`, and a text found after that. */
  lemma PieceTogether(x: string, k: nat, key: string, n: nat, rest: string)
    requires k + |key| + n <= |x| && x[k..][..|key|] == key && x[k + |key|..][..n] == rest
    ensures x[..k + |key| + n] == x[..k] + key + rest
  {
    var y := x[..k] + key + rest;
    assert |y| == k + |key| + n;
    forall i | 0 <= i < |y|
      ensures y[i] == x[i]
    {
      if i < k {
      } else if i < k + |key| {
        assert key[i - k] == x[k..][i - k];
      } else {
        assert rest[i - k - |key|] == x[k + |key|..][i - k - |key|];
      }
    }
  }

  /** The pieces of a tag after its first two, grouped or not. */
  lemma Regroup(a: string, k: string, v: string, q: string, b: string, g: string)
    ensures a + k + (v + q + b + g) == a + k + v + q + b + g
  {
  }

  /** After `<area`, attributes without '>', `href="` and a matching tail are matched. */
  lemma AfterAreaFound(a: string, w: string, domain: string)
    requires '>' !in a && HrefTailLen(w, domain) > 0
    ensures AfterAreaLen(a + HrefKey + w, domain) > 0
  {
    var x := a + HrefKey + w;
    assert x[|a|..] == HrefKey + w;
    assert x[|a| + 6..] == w;
    assert HrefHere(x, |a|, domain);
    forall i | 0 <= i < |a|
      ensures x[i] != '>'
    {
      assert x[i] == a[i];
    }
    LastWhereFinds((k: nat) => HrefHere(x, k, domain), |a|, GtFree(x));
  }

  /**
   * A match is `<area`, attributes `a` without '>', `href="`, a value `v`
   * without '"' that names the domain, the closing '"', a run `b` without
   * '>' and the final '>'.
   */
  lemma DomainAreaShape(t: string, domain: string) returns (a: string, v: string, b: string)
    requires DomainAreaLen(t, domain) > 0
    ensures t[..DomainAreaLen(t, domain)] == "<area" + a + HrefKey + v + "\"" + b + ">"
    ensures '>' !in a && '"' !in v && Contains(v, domain) && '>' !in b
  {
    var x := t[5..];
    a, v, b := AfterAreaShape(x, domain);
    var n := AfterAreaLen(x, domain);
    assert DomainAreaLen(t, domain) == 5 + n;
    assert t[..5] == "<area";
    SliceTwo(t, 5, n);
    Regroup7("<area", a, HrefKey, v, "\"", b, ">");
  }

  /** A prefix of `t` in two consecutive slices. */
  lemma SliceTwo(t: string, k: nat, n: nat)
    requires k + n <= |t|
    ensures t[..k + n] == t[..k] + t[k..][..n]
  {
    var y := t[..k] + t[k..][..n];
    assert |y| == k + n;
    forall i | 0 <= i < k + n
      ensures y[i] == t[i]
    {
    }
  }

  /** The pieces of a tag after its first, grouped or not. */
  lemma Regroup7(p: string, a: string, k: string, v: string, q: string, b: string, g: string)
    ensures p + (a + k + v + q + b + g) == p + a + k + v + q + b + g
  {
  }

  /**
   * Conversely, a tag `<area A href="V" B>`, with no '>' in `A` or `B` and no
   * '"' in `V`, is matched whenever `V` names the domain, even when `V`
   * itself holds '>' (as it does once a wrap has put a comment into it).
   */
  lemma DomainAreaFound(a: string, v: string, b: string, rest: string, domain: string)
    requires '>' !in a && '"' !in v && '>' !in b && Contains(v, domain)
    ensures DomainAreaLen("<area" + a + HrefKey + v + "\"" + b + ">" + rest, domain) > 0
  {
    var w := v + "\"" + b + ">" + rest;
    HrefTailFound(v, b, rest, domain);
    AfterAreaFound(a, w, domain);
    TagAssoc("<area", a, HrefKey, v, "\"", b, ">", rest);
  }

  /** The pieces of a tag, regrouped as the prefix and what follows it. */
  lemma TagAssoc(p: string, a: string, k: string, v: string, q: string, b: string, g: string, rest: string)
    ensures var t := p + a + k + v + q + b + g + rest;
      t[..|p|] == p && t[|p|..] == a + k + (v + q + b + g + rest)
  {
    var t := p + a + k + v + q + b + g + rest;
    var x := a + k + (v + q + b + g + rest);
    assert |t| == |p| + |x|;
    forall i | 0 <= i < |x|
      ensures t[|p| + i] == x[i]
    {
    }
  }

  /** Each area tag found is `<area`, attributes, an `href` whose value names the domain, and the rest of the tag. */
  lemma DomainAreaOf(content: string, domain: string, j: nat) returns (a: string, v: string, b: string)
    requires j < |DomainAreas(content, domain)|
    ensures DomainAreas(content, domain)[j] == "<area" + a + HrefKey + v + "\"" + b + ">"
    ensures '>' !in a && '"' !in v && Contains(v, domain) && '>' !in b
  {
    var i := FindAllAt(content, DomainArea(domain), j);
    a, v, b := DomainAreaShape(content[i..], domain);
  }

  /** A page holding an area tag whose `href` names the domain has an area found. */
  lemma AreaLinkFound(content: string, i: nat, a: string, v: string, b: string, domain: string)
    requires '>' !in a && '"' !in v && '>' !in b && Contains(v, domain)
    requires var tag := "<area" + a + HrefKey + v + "\"" + b + ">";
      i + |tag| <= |content| && content[i..i + |tag|] == tag
    ensures |DomainAreas(content, domain)| > 0
  {
    var tag := "<area" + a + HrefKey + v + "\"" + b + ">";
    var rest := content[i + |tag|..];
    assert content[i..] == tag + rest;
    DomainAreaFound(a, v, b, rest, domain);
    FindAllSome(content, DomainArea(domain), i);
  }

  /**
   * The area step of one page: each area tag found adds one removed
   * reference, and replacing the tags by their disabled forms shortens the
   * page whenever one is found.
   */
  lemma CleanPageAreas(content: string, domain: string)
    ensures var w := WrapDomain(content, domain);
      var areas := DomainAreas(w.0, domain);
      CleanPage(content, domain).2 == w.1 + |areas|
      && |CleanPage(content, domain).0| <= |w.0|
      && (|areas| > 0 ==> |CleanPage(content, domain).0| < |w.0|)
  {
    var w := WrapDomain(content, domain).0;
    var areas := DomainAreas(w, domain);
    if |areas| > 0 {
      var a, v, b := DomainAreaOf(w, domain, 0);
      DisableShortens("<area" + a, v, b + ">");
      Regroup5("<area", a, HrefKey, v, "\"", b, ">");
    }
    DisableAllShortens(w, areas);
  }

  /** The pieces of a tag with `href` value and closing quote, grouped two ways. */
  lemma Regroup5(p: string, a: string, k: string, v: string, q: string, b: string, g: string)
    ensures (p + a) + k + v + q + (b + g) == p + a + k + v + q + b + g
  {
  }

  datatype Totals = Totals(fs: FileSystem, filesCleaned: nat, refsRemoved: nat)

  /** The loop over the pages for one domain. */
  function CleanDomain(fs: FileSystem, names: seq<string>, domain: string): Totals
    decreases |names|
  {
    if |names| == 0 then Totals(fs, 0, 0)
    else CleanFile(CleanDomain(fs, names[..|names| - 1], domain), PagePath(names[|names| - 1]), domain)
  }

  /** One page of the loop: a missing or not-found page is skipped, and a page is written only when changed. */
  function CleanFile(t: Totals, path: string, domain: string): Totals {
    if path in t.fs && !Is404(t.fs[path]) then Record(t, path, CleanPage(t.fs[path], domain))
    else t
  }

  /** The totals after a page was cleaned to `r`: the page written back only when changed, the references counted. */
  function Record(t: Totals, path: string, r: (string, bool, nat)): Totals {
    if r.1 then Totals(t.fs[path := r.0], t.filesCleaned + 1, t.refsRemoved + r.2)
    else Totals(t.fs, t.filesCleaned, t.refsRemoved + r.2)
  }

  /** One step of the page loop: only that page can be written, and only with a counted reference. */
  lemma CleanFileSpec(t: Totals, path: string, domain: string)
    ensures var t' := CleanFile(t, path, domain);
      t'.fs.Keys == t.fs.Keys && (forall p :: p in t.fs && p != path ==> t'.fs[p] == t.fs[p])
      && t.filesCleaned <= t'.filesCleaned <= t.filesCleaned + 1
      && t'.filesCleaned - t.filesCleaned <= t'.refsRemoved - t.refsRemoved
      && (t'.refsRemoved == t.refsRemoved ==> t'.fs == t.fs)
  {
    if path in t.fs && !Is404(t.fs[path]) {
      CleanPageSpec(t.fs[path], domain);
      CleanStep(t, path, CleanPage(t.fs[path], domain));
    }
  }

  /** The bookkeeping of one cleaned page, whatever the cleaning produced. */
  lemma CleanStep(t: Totals, path: string, r: (string, bool, nat))
    requires path in t.fs && (r.1 <==> r.2 > 0) && (!r.1 ==> r.0 == t.fs[path])
    ensures var t' := Record(t, path, r);
      t'.fs.Keys == t.fs.Keys && (forall p :: p in t.fs && p != path ==> t'.fs[p] == t.fs[p])
      && t.filesCleaned <= t'.filesCleaned <= t.filesCleaned + 1
      && t'.filesCleaned - t.filesCleaned <= t'.refsRemoved - t.refsRemoved
      && (t'.refsRemoved == t.refsRemoved ==> t'.fs == t.fs)
  {
  }

  /** Each page adds at most one cleaned file, and each cleaned file at least one removed reference. */
  lemma {:induction false} CleanDomainCounts(fs: FileSystem, names: seq<string>, domain: string)
    ensures CleanDomain(fs, names, domain).filesCleaned <= |names|
    ensures CleanDomain(fs, names, domain).filesCleaned <= CleanDomain(fs, names, domain).refsRemoved
    decreases |names|
  {
    if |names| > 0 {
      CleanDomainCounts(fs, names[..|names| - 1], domain);
      CleanFileSpec(CleanDomain(fs, names[..|names| - 1], domain), PagePath(names[|names| - 1]), domain);
    }
  }

  /** No file is created, and a file that is not a listed page is never changed. */
  lemma {:induction false} CleanDomainFrame(fs: FileSystem, names: seq<string>, domain: string)
    ensures CleanDomain(fs, names, domain).fs.Keys == fs.Keys
    ensures forall p :: p in fs && (forall name :: name in names ==> p != PagePath(name)) ==>
      CleanDomain(fs, names, domain).fs[p] == fs[p]
    decreases |names|
  {
    if |names| > 0 {
      var init := names[..|names| - 1];
      CleanDomainFrame(fs, init, domain);
      CleanFileSpec(CleanDomain(fs, names[..|names| - 1], domain), PagePath(names[|names| - 1]), domain);
      forall p | p in fs && (forall name :: name in names ==> p != PagePath(name))
        ensures CleanDomain(fs, names, domain).fs[p] == fs[p]
      {
        assert names[|names| - 1] in names;
        assert forall name :: name in init ==> name in names;
      }
    }
  }

  /** No reference removed leaves every file as it was. */
  lemma {:induction false} CleanDomainNone(fs: FileSystem, names: seq<string>, domain: string)
    ensures CleanDomain(fs, names, domain).refsRemoved == 0 ==> CleanDomain(fs, names, domain).fs == fs
    decreases |names|
  {
    if |names| > 0 {
      CleanDomainNone(fs, names[..|names| - 1], domain);
      CleanFileSpec(CleanDomain(fs, names[..|names| - 1], domain), PagePath(names[|names| - 1]), domain);
    }
  }

  /** `remove_all_old_domain_references`: the domains in order, with the totals summed. */
  function CleanAll(fs: FileSystem, names: seq<string>, domains: seq<string>): Totals
    decreases |domains|
  {
    if |domains| == 0 then Totals(fs, 0, 0)
    else
      var t := CleanAll(fs, names, domains[..|domains| - 1]);
      var d := CleanDomain(t.fs, names, domains[|domains| - 1]);
      Totals(d.fs, t.filesCleaned + d.filesCleaned, t.refsRemoved + d.refsRemoved)
  }

  /**
   * The totals: no more cleaned files than one per page per domain and
   * than removed references; no file is created, and one that is not a
   * listed page is never changed; no reference removed leaves every file as it was.
   */
  lemma CleanAllSpec(fs: FileSystem, names: seq<string>, domains: seq<string>)
    ensures var t := CleanAll(fs, names, domains);
      t.fs.Keys == fs.Keys && t.filesCleaned <= |domains| * |names| && t.filesCleaned <= t.refsRemoved
      && (forall p :: p in fs && (forall name :: name in names ==> p != PagePath(name)) ==> t.fs[p] == fs[p])
      && (t.refsRemoved == 0 ==> t.fs == fs)
  {
    CleanAllCounts(fs, names, domains);
    CleanAllFrame(fs, names, domains);
  }

  /** At most one cleaned file per page per domain, and no more than the references removed. */
  lemma {:induction false} CleanAllCounts(fs: FileSystem, names: seq<string>, domains: seq<string>)
    ensures var t := CleanAll(fs, names, domains);
      t.filesCleaned <= |domains| * |names| && t.filesCleaned <= t.refsRemoved
    decreases |domains|
  {
    if |domains| > 0 {
      var init := domains[..|domains| - 1];
      CleanAllCounts(fs, names, init);
      var t := CleanAll(fs, names, init);
      CleanDomainCounts(t.fs, names, domains[|domains| - 1]);
      OneMoreRow(|init|, |names|);
    }
  }

  /** One more domain allows one more cleaned file per page. */
  lemma OneMoreRow(k: nat, n: nat)
    ensures (k + 1) * n == k * n + n
  {
  }

  /** No file is created, an unlisted file never changes, and nothing removed changes nothing. */
  lemma {:induction false} CleanAllFrame(fs: FileSystem, names: seq<string>, domains: seq<string>)
    ensures var t := CleanAll(fs, names, domains);
      t.fs.Keys == fs.Keys
      && (forall p :: p in fs && (forall name :: name in names ==> p != PagePath(name)) ==> t.fs[p] == fs[p])
      && (t.refsRemoved == 0 ==> t.fs == fs)
    decreases |domains|
  {
    if |domains| > 0 {
      var init := domains[..|domains| - 1];
      CleanAllFrame(fs, names, init);
      var t := CleanAll(fs, names, init);
      CleanDomainFrame(t.fs, names, domains[|domains| - 1]);
      CleanDomainNone(t.fs, names, domains[|domains| - 1]);
    }
  }

  // ---------------------------------------------------------------------
  // Verification.

  /** The number of readable pages naming the domain outside comments. */
  function RemainingCount(fs: FileSystem, names: seq<string>, domain: string): (n: nat)
    ensures n <= |names|
    decreases |names|
  {
    if |names| == 0 then 0
    else
      var path := PagePath(names[|names| - 1]);
      RemainingCount(fs, names[..|names| - 1], domain)
        + (if path in fs && Contains(StripComments(fs[path]), domain) then 1 else 0)
  }

  /** `remaining_issues`: the domains still referenced, with their page counts, in domain order. */
  function RemainingIssues(fs: FileSystem, names: seq<string>, domains: seq<string>): seq<(string, nat)>
    decreases |domains|
  {
    if |domains| == 0 then []
    else
      var issues := RemainingIssues(fs, names, domains[..|domains| - 1]);
      var d := domains[|domains| - 1];
      var n := RemainingCount(fs, names, d);
      if n > 0 then issues + [(d, n)] else issues
  }

  /** No readable page names the domain outside comments. */
  predicate DomainGone(fs: FileSystem, names: seq<string>, domain: string) {
    forall name :: name in names && PagePath(name) in fs ==> !Contains(StripComments(fs[PagePath(name)]), domain)
  }

  /** A domain's count is zero exactly when no readable page names it outside comments. */
  lemma {:induction false} RemainingCountZero(fs: FileSystem, names: seq<string>, domain: string)
    ensures RemainingCount(fs, names, domain) == 0 <==> DomainGone(fs, names, domain)
    decreases |names|
  {
    if |names| > 0 {
      var init := names[..|names| - 1];
      RemainingCountZero(fs, init, domain);
      assert names == init + [names[|names| - 1]];
    }
  }

  /** `verify_complete_cleanup` succeeds exactly when no readable page names any of the domains outside comments. */
  lemma {:induction false} VerifySpec(fs: FileSystem, names: seq<string>, domains: seq<string>)
    ensures RemainingIssues(fs, names, domains) == [] <==> forall d :: d in domains ==> DomainGone(fs, names, d)
    ensures forall e :: e in RemainingIssues(fs, names, domains) ==> e.0 in domains && 0 < e.1 <= |names|
    decreases |domains|
  {
    if |domains| > 0 {
      var init, d := domains[..|domains| - 1], domains[|domains| - 1];
      VerifySpec(fs, names, init);
      RemainingCountZero(fs, names, d);
      assert domains == init + [d];
      assert (forall x :: x in domains ==> DomainGone(fs, names, x)) <==>
        (forall x :: x in init ==> DomainGone(fs, names, x)) && DomainGone(fs, names, d);
    }
  }

  // ---------------------------------------------------------------------
  // The loops of the script.

  /** The loop over the pages for one domain. */
  method CleanDomainLoop(fs: FileSystem, names: seq<string>, domain: string) returns (t: Totals)
    ensures t == CleanDomain(fs, names, domain)
  {
    t := Totals(fs, 0, 0);
    var i := 0;
    while i < |names|
      invariant 0 <= i <= |names|
      invariant t == CleanDomain(fs, names[..i], domain)
    {
      assert names[..i + 1][..i] == names[..i];
      t := CleanFile(t, PagePath(names[i]), domain);
      i := i + 1;
    }
    assert names[..i] == names;
  }

  /** `remove_all_old_domain_references`. */
  method RemoveAllOldDomainReferences(fs: FileSystem, names: seq<string>) returns (t: Totals)
    ensures t == CleanAll(fs, names, OldDomains)
  {
    var domains := OldDomains;
    t := Totals(fs, 0, 0);
    var i := 0;
    while i < |domains|
      invariant 0 <= i <= |domains|
      invariant t == CleanAll(fs, names, domains[..i])
    {
      assert domains[..i + 1][..i] == domains[..i];
      var d := CleanDomainLoop(t.fs, names, domains[i]);
      t := Totals(d.fs, t.filesCleaned + d.filesCleaned, t.refsRemoved + d.refsRemoved);
      i := i + 1;
    }
    assert domains[..i] == domains;
  }

  /** The page loop of the verification for one domain. */
  method CountRemaining(fs: FileSystem, names: seq<string>, domain: string) returns (remaining: nat)
    ensures remaining == RemainingCount(fs, names, domain)
  {
    remaining := 0;
    var i := 0;
    while i < |names|
      invariant 0 <= i <= |names|
      invariant remaining == RemainingCount(fs, names[..i], domain)
    {
      assert names[..i + 1][..i] == names[..i];
      var path := PagePath(names[i]);
      if path in fs && Contains(StripComments(fs[path]), domain) {
        remaining := remaining + 1;
      }
      i := i + 1;
    }
    assert names[..i] == names;
  }

  /** `verify_complete_cleanup`. */
  method VerifyCompleteCleanup(fs: FileSystem, names: seq<string>) returns (success: bool)
    ensures success <==> forall d :: d in OldDomains ==> DomainGone(fs, names, d)
  {
    var domains := OldDomains;
    var issues: seq<(string, nat)> := [];
    var k := 0;
    while k < |domains|
      invariant 0 <= k <= |domains|
      invariant issues == RemainingIssues(fs, names, domains[..k])
    {
      assert domains[..k + 1][..k] == domains[..k];
      var remaining := CountRemaining(fs, names, domains[k]);
      if remaining > 0 {
        issues := issues + [(domains[k], remaining)];
      }
      k := k + 1;
    }
    assert domains[..k] == domains;
    VerifySpec(fs, names, domains);
    success := issues == [];
  }
}
