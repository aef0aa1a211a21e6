/**
 * The restore of the forum links: for each forum domain, every working page
 * has its commented-out URLs on that domain put back, and each area tag
 * without an `href` near such a comment gets the URL back as its `href`
 * (and the comment deleted). The verification counts the pages that name
 * the forum outside comments.
 */
module Proboards {
  import opened Strings
  import opened Rewriting
  import opened Site
  import opened Cleanup

  const ProboardsDomains: seq<string> := ["chiswickalbion.proboards.com", "chiswickalbion.proboards20.com"]

  /** How far on either side of an area tag a comment is looked for. */
  const Reach: nat := 200

  /** `re.findall` of `<!-- REMOVED: (https?://D[^>]*) -->`: the URL of each comment, left to right. */
  function CommentUrls(s: string, domain: string): (r: seq<string>)
    ensures |r| == MatchCount(s, RemovedMatcher(domain))
    ensures forall u :: u in r ==>
      Contains(s, WrapText(u)) && '>' !in u && (StartsWith(u, "https://" + domain) || StartsWith(u, "http://" + domain))
    decreases |s|
  {
    if |s| == 0 then []
    else if MatchesAt(RemovedMatcher(domain), s) then
      var n := RemovedLen(s, domain);
      var u := RemovedUrl(s, domain);
      assert StartsWith(s, WrapText(u));
      var rest := CommentUrls(s[n..], domain);
      forall w | w in rest
        ensures Contains(s, WrapText(w))
      {
        ContainsSuffix(s, WrapText(w), n);
      }
      [u] + rest
    else
      var rest := CommentUrls(s[1..], domain);
      forall w | w in rest
        ensures Contains(s, WrapText(w))
      {
        ContainsSuffix(s, WrapText(w), 1);
      }
      rest
  }

  /** The comment loop: each comment `<!-- REMOVED: u -->` is replaced everywhere by `u`, and counted. */
  function Unwrap(content: string, urls: seq<string>): string
    decreases |urls|
  {
    if |urls| == 0 then content
    else
      var u := urls[|urls| - 1];
      ReplaceAll(Unwrap(content, urls[..|urls| - 1]), WrapText(u), u)
  }

  /** Each unwrap shortens the text by the comment's markers, once per occurrence, or leaves it as it was. */
  lemma {:induction false} UnwrapShortens(content: string, urls: seq<string>)
    ensures |Unwrap(content, urls)| <= |content|
    decreases |urls|
  {
    if |urls| > 0 {
      var u := urls[|urls| - 1];
      var c := Unwrap(content, urls[..|urls| - 1]);
      UnwrapShortens(content, urls[..|urls| - 1]);
      ReplaceAllLength(c, WrapText(u), u);
      ShrinkBy(|c|, Count(c, WrapText(u)), |u| - |WrapText(u)|);
    }
  }

  /** Replacing `k` times with a shorter text does not lengthen it. */
  lemma ShrinkBy(n: nat, k: nat, delta: int)
    requires delta <= 0
    ensures n + k * delta <= n
  {
  }

  /**
   * The restore undoes the cleanup's wrapping: a comment put around a URL
   * on the domain is found, with that URL, and replaced by it.
   */
  lemma RestoreUndoesWrap(u: string, domain: string)
    requires StartsWith(u, "https://" + domain) || StartsWith(u, "http://" + domain)
    requires '>' !in u
    ensures CommentUrls(WrapText(u), domain) == [u]
    ensures Unwrap(WrapText(u), CommentUrls(WrapText(u), domain)) == u
  {
    var w := WrapText(u);
    UnwrapWrapped(u, "", domain);
    assert w + "" == w;
    assert w[|w|..] == "";
    assert CommentUrls(w, domain) == [u];
    ShortNoContains("", w);
    ReplaceAllPrefix(w, "", u);
    assert w + "" == w && u + "" == u;
  }

  /** A comment at the front of a page is the first one found, whatever follows it. */
  lemma RestoreFindsFirst(u: string, rest: string, domain: string)
    requires StartsWith(u, "https://" + domain) || StartsWith(u, "http://" + domain)
    requires '>' !in u
    ensures var urls := CommentUrls(WrapText(u) + rest, domain); |urls| > 0 && urls[0] == u
  {
    UnwrapWrapped(u, rest, domain);
  }

  /** `re.findall(r'<area([^>]*)\s*>', content)`: the attributes of each area tag, left to right. */
  function AreaGroups(s: string): (r: seq<string>)
    ensures forall a :: a in r ==> '>' !in a && Contains(s, "<area" + a + ">")
    decreases |s|
  {
    if |s| == 0 then []
    else if MatchesAt(AreaTag(AnyValue), s) then
      var n := AreaLen(s, AnyValue);
      AreaTagShape(s, AnyValue);
      var a := AreaAttrs(s[..n]);
      assert StartsWith(s, "<area" + a + ">");
      var rest := AreaGroups(s[n..]);
      forall b | b in rest
        ensures Contains(s, "<area" + b + ">")
      {
        ContainsSuffix(s, "<area" + b + ">", n);
      }
      [a] + rest
    else
      var rest := AreaGroups(s[1..]);
      forall b | b in rest
        ensures Contains(s, "<area" + b + ">")
      {
        ContainsSuffix(s, "<area" + b + ">", 1);
      }
      rest
  }

  /** The context looked at around position `pos`: `max(0, pos - 200)` to `min(len, pos + 200)`. */
  function Around(content: string, pos: nat): (r: (nat, nat))
    requires pos < |content|
    ensures r.0 <= pos < r.1 <= |content| && r.1 - r.0 <= 2 * Reach
    ensures r.0 == 0 || pos - r.0 == Reach
    ensures r.1 == |content| || r.1 - pos == Reach
  {
    (if pos >= Reach then pos - Reach else 0, if pos + Reach <= |content| then pos + Reach else |content|)
  }

  /** The text looked at around position `pos`. */
  function Window(content: string, pos: nat): string
    requires pos < |content|
  {
    var (lo, hi) := Around(content, pos);
    content[lo..hi]
  }

  /** The restored tag: the attributes, then the URL as a new `href`. */
  function RestoredArea(attrs: string, url: string): string {
    "<area" + attrs + " href=\"" + url + "\">"
  }

  /**
   * One area tag: when it has no `href=`, occurs in the text, and a comment
   * on the domain starts within the context around it, the tag gets that
   * comment's URL as its `href` and the comment is deleted; the result and
   * whether a reference was restored.
   */
  function RestoreArea(content: string, attrs: string, domain: string): (r: (string, bool))
    ensures !r.1 ==> r.0 == content
  {
    if Contains(attrs, "href=") then (content, false)
    else
      var full := "<area" + attrs + ">";
      match IndexOf(content, full)
      case None => (content, false)
      case Some(pos) =>
        var context := Window(content, pos);
        match Search(context, RemovedMatcher(domain))
        case None => (content, false)
        case Some(i) =>
          var url := RemovedUrl(context[i..], domain);
          (ReplaceAll(ReplaceAll(content, full, RestoredArea(attrs, url)), WrapText(url), ""), true)
  }

  /** A comment found in a slice of the text is a comment of the text. */
  lemma CommentInContext(content: string, lo: nat, hi: nat, i: nat, domain: string)
    requires lo <= hi <= |content| && i < hi - lo && RemovedLen(content[lo..hi][i..], domain) > 0
    ensures Contains(content, WrapText(RemovedUrl(content[lo..hi][i..], domain)))
  {
    var t := content[lo..hi][i..];
    RemovedPrefix(t, domain);
    ContextPrefixContained(content, lo, hi, i, WrapText(RemovedUrl(t, domain)));
  }

  /** A prefix of a suffix of a slice occurs in the text. */
  lemma ContextPrefixContained(content: string, lo: nat, hi: nat, i: nat, w: string)
    requires lo <= hi <= |content| && i <= hi - lo
    requires |w| <= |content[lo..hi][i..]| && w == content[lo..hi][i..][..|w|]
    ensures Contains(content, w)
  {
    assert content[lo..hi][i..] == content[lo + i..hi];
    SliceContains(content, w, lo + i, hi);
  }

  /** A comment found at the front of a text is a prefix of it. */
  lemma RemovedPrefix(t: string, domain: string)
    requires RemovedLen(t, domain) > 0
    ensures var w := WrapText(RemovedUrl(t, domain)); |w| <= |t| && w == t[..|w|]
  {
  }

  /** A prefix of a slice occurs in the text. */
  lemma SliceContains(s: string, p: string, k: nat, hi: nat)
    requires k <= hi <= |s| && |p| <= hi - k && p == s[k..hi][..|p|]
    ensures Contains(s, p)
  {
    assert s[k..k + |p|] == p;
    ContainsAt(s, p, k);
  }

  /**
   * An area is restored only when it has no `href=`, the tag occurs in the
   * text and a comment on the domain occurs in the text.
   */
  lemma RestoreAreaFound(content: string, attrs: string, domain: string)
    ensures RestoreArea(content, attrs, domain).1 ==>
      !Contains(attrs, "href=") && Contains(content, "<area" + attrs + ">")
      && exists u :: Contains(content, WrapText(u)) && (StartsWith(u, "https://" + domain) || StartsWith(u, "http://" + domain))
  {
    var full := "<area" + attrs + ">";
    if !Contains(attrs, "href=") && IndexOf(content, full).Some? {
      var pos := IndexOf(content, full).value;
      var (lo, hi) := Around(content, pos);
      var s := Search(content[lo..hi], RemovedMatcher(domain));
      if s.Some? {
        CommentInContext(content, lo, hi, s.value, domain);
      }
    }
  }

  /**
   * The effect of one restore. It happens exactly when the tag has no
   * `href=`, occurs in the text, and a comment on the domain starts in the
   * window around its first occurrence. The URL used is that of the first
   * comment in the window, which occurs in the text and is on the domain.
   * Every copy of the tag is replaced by the tag with that URL as its
   * `href`, the text then holds the restored tag, and after that every copy
   * of the comment is deleted.
   */
  lemma RestoreAreaEffect(content: string, attrs: string, domain: string)
    ensures var full := "<area" + attrs + ">";
      RestoreArea(content, attrs, domain).1 <==>
        !Contains(attrs, "href=") && IndexOf(content, full).Some?
        && Search(Window(content, IndexOf(content, full).value), RemovedMatcher(domain)).Some?
    ensures var full := "<area" + attrs + ">";
      RestoreArea(content, attrs, domain).1 ==>
        var context := Window(content, IndexOf(content, full).value);
        var i := Search(context, RemovedMatcher(domain)).value;
        var url := RemovedUrl(context[i..], domain);
        var tagged := ReplaceAll(content, full, RestoredArea(attrs, url));
        (forall j :: 0 <= j < i ==> !MatchesAt(RemovedMatcher(domain), context[j..]))
        && Contains(content, WrapText(url)) && (StartsWith(url, "https://" + domain) || StartsWith(url, "http://" + domain))
        && Contains(tagged, RestoredArea(attrs, url))
        && RestoreArea(content, attrs, domain).0 == ReplaceAll(tagged, WrapText(url), "")
  {
    var full := "<area" + attrs + ">";
    if !Contains(attrs, "href=") && IndexOf(content, full).Some? {
      var pos := IndexOf(content, full).value;
      var (lo, hi) := Around(content, pos);
      var s := Search(content[lo..hi], RemovedMatcher(domain));
      if s.Some? {
        CommentInContext(content, lo, hi, s.value, domain);
        ReplaceAllInserts(content, full, RestoredArea(attrs, RemovedUrl(content[lo..hi][s.value..], domain)));
      }
    }
  }

  /** The area loop over the attributes found. */
  function RestoreAreas(content: string, areas: seq<string>, domain: string): (string, nat)
    decreases |areas|
  {
    if |areas| == 0 then (content, 0)
    else
      var (c, n) := RestoreAreas(content, areas[..|areas| - 1], domain);
      var (c', restored) := RestoreArea(c, areas[|areas| - 1], domain);
      (c', if restored then n + 1 else n)
  }

  /** At most one reference per area tag, and none restored means the text is unchanged. */
  lemma {:induction false} RestoreAreasSpec(content: string, areas: seq<string>, domain: string)
    ensures RestoreAreas(content, areas, domain).1 <= |areas|
    ensures RestoreAreas(content, areas, domain).1 == 0 ==> RestoreAreas(content, areas, domain).0 == content
    decreases |areas|
  {
    if |areas| > 0 {
      var init := areas[..|areas| - 1];
      RestoreAreasSpec(content, init, domain);
          }
  }

  /** An area tag that has an `href=` is never touched. */
  lemma {:induction false} RestoreAreasSkipsLinked(content: string, areas: seq<string>, domain: string)
    requires forall a :: a in areas ==> Contains(a, "href=")
    ensures RestoreAreas(content, areas, domain) == (content, 0)
    decreases |areas|
  {
    if |areas| > 0 {
      assert areas[|areas| - 1] in areas;
      RestoreAreasSkipsLinked(content, areas[..|areas| - 1], domain);
    }
  }

  /** One page and one domain: the comments first, then the area tags of the text as it then stands. */
  function RestorePage(content: string, domain: string): (string, bool, nat) {
    var urls := CommentUrls(content, domain);
    var c := Unwrap(content, urls);
    var (c', n) := RestoreAreas(c, AreaGroups(c), domain);
    (c', |urls| > 0 || n > 0, |urls| + n)
  }

  /** A page is changed exactly when a reference is restored, and an unchanged page keeps its text. */
  lemma RestorePageSpec(content: string, domain: string)
    ensures RestorePage(content, domain).1 <==> RestorePage(content, domain).2 > 0
    ensures !RestorePage(content, domain).1 ==> RestorePage(content, domain).0 == content
    ensures RestorePage(content, domain).2 >= MatchCount(content, RemovedMatcher(domain))
  {
    var c := Unwrap(content, CommentUrls(content, domain));
    RestoreAreasSpec(c, AreaGroups(c), domain);
  }

  datatype Totals = Totals(fs: FileSystem, filesRestored: nat, refsRestored: nat)

  /** One page of the loop: a missing or not-found page is skipped, and a page is written only when changed. */
  function RestoreFile(t: Totals, path: string, domain: string): Totals {
    if path in t.fs && !Is404(t.fs[path]) then
      var r := RestorePage(t.fs[path], domain);
      if r.1 then Totals(t.fs[path := r.0], t.filesRestored + 1, t.refsRestored + r.2)
      else Totals(t.fs, t.filesRestored, t.refsRestored + r.2)
    else t
  }

  /** The loop over the pages for one domain. */
  function RestoreDomain(fs: FileSystem, names: seq<string>, domain: string): Totals
    decreases |names|
  {
    if |names| == 0 then Totals(fs, 0, 0)
    else RestoreFile(RestoreDomain(fs, names[..|names| - 1], domain), PagePath(names[|names| - 1]), domain)
  }

  /** One page: only that page can be written, and only with a restored reference. */
  lemma RestoreFileSpec(t: Totals, path: string, domain: string)
    ensures var t' := RestoreFile(t, path, domain);
      t'.fs.Keys == t.fs.Keys && (forall p :: p in t.fs && p != path ==> t'.fs[p] == t.fs[p])
      && t.filesRestored <= t'.filesRestored <= t.filesRestored + 1
      && t'.filesRestored - t.filesRestored <= t'.refsRestored - t.refsRestored
      && (t'.refsRestored == t.refsRestored ==> t'.fs == t.fs)
  {
    if path in t.fs {
      RestorePageSpec(t.fs[path], domain);
    }
  }

  /** Each page adds at most one updated file, and each updated file at least one restored reference. */
  lemma {:induction false} RestoreDomainCounts(fs: FileSystem, names: seq<string>, domain: string)
    ensures RestoreDomain(fs, names, domain).filesRestored <= |names|
    ensures RestoreDomain(fs, names, domain).filesRestored <= RestoreDomain(fs, names, domain).refsRestored
    decreases |names|
  {
    if |names| > 0 {
      RestoreDomainCounts(fs, names[..|names| - 1], domain);
      RestoreFileSpec(RestoreDomain(fs, names[..|names| - 1], domain), PagePath(names[|names| - 1]), domain);
    }
  }

  /** No file is created, a file that is not a listed page never changes, and nothing restored changes nothing. */
  lemma {:induction false} RestoreDomainFrame(fs: FileSystem, names: seq<string>, domain: string)
    ensures RestoreDomain(fs, names, domain).fs.Keys == fs.Keys
    ensures forall p :: p in fs && (forall name :: name in names ==> p != PagePath(name)) ==>
      RestoreDomain(fs, names, domain).fs[p] == fs[p]
    ensures RestoreDomain(fs, names, domain).refsRestored == 0 ==> RestoreDomain(fs, names, domain).fs == fs
    decreases |names|
  {
    if |names| > 0 {
      var init := names[..|names| - 1];
      RestoreDomainFrame(fs, init, domain);
      RestoreFileSpec(RestoreDomain(fs, init, domain), PagePath(names[|names| - 1]), domain);
      forall p | p in fs && (forall name :: name in names ==> p != PagePath(name))
        ensures RestoreDomain(fs, names, domain).fs[p] == fs[p]
      {
        assert names[|names| - 1] in names;
        assert forall name :: name in init ==> name in names;
      }
    }
  }

  /** The loop over the domains: the files afterwards and `total_restored`. */
  function RestoreAll(fs: FileSystem, names: seq<string>, domains: seq<string>): (FileSystem, nat)
    decreases |domains|
  {
    if |domains| == 0 then (fs, 0)
    else
      var (fs1, n) := RestoreAll(fs, names, domains[..|domains| - 1]);
      var t := RestoreDomain(fs1, names, domains[|domains| - 1]);
      (t.fs, n + t.refsRestored)
  }

  /** No file is created; when nothing is restored (the result is false) every file is as it was. */
  lemma {:induction false} RestoreAllSpec(fs: FileSystem, names: seq<string>, domains: seq<string>)
    ensures RestoreAll(fs, names, domains).0.Keys == fs.Keys
    ensures RestoreAll(fs, names, domains).1 == 0 ==> RestoreAll(fs, names, domains).0 == fs
    decreases |domains|
  {
    if |domains| > 0 {
      var init := domains[..|domains| - 1];
      RestoreAllSpec(fs, names, init);
      RestoreDomainFrame(RestoreAll(fs, names, init).0, names, domains[|domains| - 1]);
    }
  }

  // ---------------------------------------------------------------------
  // Verification.

  /** The number of readable pages that name the forum outside comments. */
  function ActiveCount(fs: FileSystem, names: seq<string>): (n: nat)
    ensures n <= |names|
    decreases |names|
  {
    if |names| == 0 then 0
    else
      var path := PagePath(names[|names| - 1]);
      ActiveCount(fs, names[..|names| - 1]) + (if path in fs && Contains(StripComments(fs[path]), "proboards") then 1 else 0)
  }

  /** The verification succeeds exactly when some readable page names the forum outside comments. */
  lemma {:induction false} ActiveCountPositive(fs: FileSystem, names: seq<string>)
    ensures ActiveCount(fs, names) > 0 <==>
      exists name :: name in names && PagePath(name) in fs && Contains(StripComments(fs[PagePath(name)]), "proboards")
    decreases |names|
  {
    if |names| > 0 {
      var init, last := names[..|names| - 1], names[|names| - 1];
      ActiveCountPositive(fs, init);
      assert names == init + [last];
    }
  }

  // ---------------------------------------------------------------------
  // The loops of the script.

  /** `restore_proboards_references`: the files afterwards, and whether anything was restored. */
  method RestoreProboardsReferences(fs: FileSystem, names: seq<string>) returns (fs': FileSystem, restored: bool)
    ensures (fs', restored) == (RestoreAll(fs, names, ProboardsDomains).0, RestoreAll(fs, names, ProboardsDomains).1 > 0)
  {
    var domains := ProboardsDomains;
    var total := 0;
    fs' := fs;
    var k := 0;
    while k < |domains|
      invariant 0 <= k <= |domains|
      invariant (fs', total) == RestoreAll(fs, names, domains[..k])
    {
      assert domains[..k + 1][..k] == domains[..k];
      var t := Totals(fs', 0, 0);
      var i := 0;
      while i < |names|
        invariant 0 <= i <= |names|
        invariant t == RestoreDomain(fs', names[..i], domains[k])
      {
        assert names[..i + 1][..i] == names[..i];
        t := RestoreFile(t, PagePath(names[i]), domains[k]);
        i := i + 1;
      }
      assert names[..i] == names;
      fs', total := t.fs, total + t.refsRestored;
      k := k + 1;
    }
    assert domains[..k] == domains;
    restored := total > 0;
  }

  /** `verify_proboards_restoration`. */
  method VerifyProboardsRestoration(fs: FileSystem, names: seq<string>) returns (verified: bool)
    ensures verified <==>
      exists name :: name in names && PagePath(name) in fs && Contains(StripComments(fs[PagePath(name)]), "proboards")
  {
    var count := 0;
    var i := 0;
    while i < |names|
      invariant 0 <= i <= |names|
      invariant count == ActiveCount(fs, names[..i])
    {
      assert names[..i + 1][..i] == names[..i];
      var path := PagePath(names[i]);
      if path in fs && Contains(StripComments(fs[path]), "proboards") {
        count := count + 1;
      }
      i := i + 1;
    }
    assert names[..i] == names;
    ActiveCountPositive(fs, names);
    verified := count > 0;
  }
}
