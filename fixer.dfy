/**
 * The comprehensive site fixer's analysis: each critical page is fetched
 * from the old host and from the new site and given one status from the two
 * responses, the pages directory is scanned for small files that hold a
 * server's redirect or error page instead of content, and the statuses are
 * tallied.
 */
module SiteFixer {
  import opened Strings
  import opened Attributes
  import opened Site

  const NewSiteBase: string := "https://chiswickalbion.github.io/chiswick-albion-website/pages/"

  /** Where a page lived on the old host. */
  function OldUrl(page: string): string {
    OriginBase + page + "/"
  }

  /** Where a page lives on the new site. */
  function NewUrl(page: string): string {
    NewSiteBase + page + ".html"
  }

  datatype Status = Good | MinorDiff | ContentMismatch | ErrorPage | NewOnly | Broken | BothBroken | Error

  /** The result record of one page; `similarity` is 0 unless both pages were served. */
  datatype PageCheck = PageCheck(
    page: string, status: Status,
    oldAccessible: bool, newAccessible: bool,
    oldSize: nat, newSize: nat,
    similarity: real, imageIssues: seq<string>)

  /** The status of a page both sites serve, from the similarity and the new page's size. */
  function Classify(similarity: real, newSize: nat): Status {
    if similarity < 0.8 then (if newSize < 500 then ErrorPage else ContentMismatch)
    else if similarity >= 0.9 then Good
    else MinorDiff
  }

  /** The extensions the fixer's image pattern accepts (no `.jpeg`). */
  predicate IsFixerImage(v: string) {
    EndsWith(v, ".gif") || EndsWith(v, ".jpg") || EndsWith(v, ".png")
  }

  /** `[img[0] for img in re.findall(r'src="([^"]*\.(gif|jpg|png))"', old_text, re.IGNORECASE)[:5]]` on the lower-cased old page, when it names an image at all. */
  function ImageIssues(oldBody: string): seq<string> {
    var text := Lower(oldBody);
    if Contains(text, ".gif") || Contains(text, ".jpg") || Contains(text, ".png") then
      var refs := Values(text, SrcKey, true, IsFixerImage);
      if |refs| <= 5 then refs else refs[..5]
    else []
  }

  /** `check_page_and_images`: an exception from either request makes the status `Error`. */
  function CheckPage(page: string, fetch: string -> Fetch): PageCheck {
    var oldFetch := fetch(OldUrl(page));
    if oldFetch.Raised? then PageCheck(page, Error, false, false, 0, 0, 0.0, [])
    else
      var oldOk, oldSize := oldFetch.status == 200, |oldFetch.body|;
      var newFetch := fetch(NewUrl(page));
      if newFetch.Raised? then PageCheck(page, Error, oldOk, false, oldSize, 0, 0.0, [])
      else
        var newOk, newSize := newFetch.status == 200, |newFetch.body|;
        if oldOk && newOk then
          var similarity := SizeRatio(oldSize, newSize);
          PageCheck(page, Classify(similarity, newSize), true, true, oldSize, newSize, similarity, ImageIssues(oldFetch.body))
        else
          var status := if !oldOk && newOk then NewOnly else if oldOk && !newOk then Broken else BothBroken;
          PageCheck(page, status, oldOk, newOk, oldSize, newSize, 0.0, [])
  }

  /**
   * With both pages served, the three bands of the similarity are integer
   * comparisons of the sizes: below 0.8 is `5 * min < 4 * max` (or both
   * empty), from 0.9 is `10 * min >= 9 * max` with a non-empty page; below
   * 0.8 the page is an error page exactly when the new one is under 500
   * characters.
   */
  lemma CheckPageBands(page: string, fetch: string -> Fetch)
    requires IsOk(fetch(OldUrl(page))) && IsOk(fetch(NewUrl(page)))
    ensures var r := CheckPage(page, fetch);
      var lo, hi := if r.oldSize <= r.newSize then r.oldSize else r.newSize, if r.oldSize <= r.newSize then r.newSize else r.oldSize;
      && r.oldAccessible && r.newAccessible
      && r.oldSize == |fetch(OldUrl(page)).body| && r.newSize == |fetch(NewUrl(page)).body|
      && ((r.status == ContentMismatch || r.status == ErrorPage) <==> hi == 0 || 5 * lo < 4 * hi)
      && (r.status == ErrorPage <==> (hi == 0 || 5 * lo < 4 * hi) && r.newSize < 500)
      && (r.status == Good <==> hi > 0 && 10 * lo >= 9 * hi)
      && (r.status == MinorDiff <==> hi > 0 && 4 * hi <= 5 * lo && 10 * lo < 9 * hi)
  {
    var r := CheckPage(page, fetch);
    assert r.status == Classify(SizeRatio(r.oldSize, r.newSize), r.newSize);
    ClassifyBands(r.oldSize, r.newSize);
  }

  /** The bands of `Classify` over two sizes, as integer comparisons. */
  lemma ClassifyBands(oldSize: nat, newSize: nat)
    ensures var status := Classify(SizeRatio(oldSize, newSize), newSize);
      var lo, hi := if oldSize <= newSize then oldSize else newSize, if oldSize <= newSize then newSize else oldSize;
      && ((status == ContentMismatch || status == ErrorPage) <==> hi == 0 || 5 * lo < 4 * hi)
      && (status == ErrorPage <==> (hi == 0 || 5 * lo < 4 * hi) && newSize < 500)
      && (status == Good <==> hi > 0 && 10 * lo >= 9 * hi)
      && (status == MinorDiff <==> hi > 0 && 4 * hi <= 5 * lo && 10 * lo < 9 * hi)
  {
    RatioBelow(oldSize, newSize, 0.8);
    RatioBelow(oldSize, newSize, 0.9);
    var lo, hi := if oldSize <= newSize then oldSize else newSize, if oldSize <= newSize then newSize else oldSize;
    RealShare(lo, hi);
  }

  /** The two shares as integer comparisons. */
  lemma RealShare(lo: nat, hi: nat)
    ensures (lo as real) < 0.8 * (hi as real) <==> 5 * lo < 4 * hi
    ensures (lo as real) < 0.9 * (hi as real) <==> 10 * lo < 9 * hi
  {
  }

  /**
   * The decision table over the two fetches: an exception gives `Error`, and
   * otherwise the 200/non-200 pair decides `NewOnly`, `Broken` and
   * `BothBroken`, the similarity bands being reserved for two 200s.
   */
  lemma CheckPageTable(page: string, fetch: string -> Fetch)
    ensures var r, oldFetch, newFetch := CheckPage(page, fetch), fetch(OldUrl(page)), fetch(NewUrl(page));
      && r.page == page
      && (r.status == Error <==> oldFetch.Raised? || newFetch.Raised?)
      && (r.status == NewOnly <==> oldFetch.Response? && newFetch.Response? && !IsOk(oldFetch) && IsOk(newFetch))
      && (r.status == Broken <==> oldFetch.Response? && newFetch.Response? && IsOk(oldFetch) && !IsOk(newFetch))
      && (r.status == BothBroken <==> oldFetch.Response? && newFetch.Response? && !IsOk(oldFetch) && !IsOk(newFetch))
      && (r.status in {Good, MinorDiff, ContentMismatch, ErrorPage} <==> IsOk(oldFetch) && IsOk(newFetch))
      && (r.similarity != 0.0 ==> IsOk(oldFetch) && IsOk(newFetch))
      && r.oldAccessible == IsOk(oldFetch)
      && r.newAccessible == (IsOk(newFetch) && oldFetch.Response?)
  {
  }

  /** An occurrence of `v` in `t` carries every suffix of `v` along. */
  lemma ContainsEnd(t: string, v: string, q: string)
    requires Contains(t, v) && EndsWith(v, q)
    ensures Contains(t, q)
  {
    var i := IndexOf(t, v).value;
    assert t[i + |v| - |q|..i + |v|] == v[|v| - |q|..];
    ContainsAt(t, q, i + |v| - |q|);
  }

  /**
   * The image issues are the first five image sources of the lower-cased old
   * page: the extension test in front of the search never hides a match.
   */
  lemma ImageIssuesSpec(oldBody: string)
    ensures var refs := Values(Lower(oldBody), SrcKey, true, IsFixerImage);
      && |ImageIssues(oldBody)| == (if |refs| <= 5 then |refs| else 5)
      && ImageIssues(oldBody) == refs[..|ImageIssues(oldBody)|]
  {
    var text := Lower(oldBody);
    var refs := Values(text, SrcKey, true, IsFixerImage);
    if |refs| > 0 {
      var v := refs[0];
      assert v in refs;
      if EndsWith(v, ".gif") {
        ContainsEnd(text, v, ".gif");
      } else if EndsWith(v, ".jpg") {
        ContainsEnd(text, v, ".jpg");
      } else {
        ContainsEnd(text, v, ".png");
      }
    }
  }

  // ---------------------------------------------------------------------
  // find_broken_redirects

  const ErrorPatterns: seq<string> := [
    "301 Moved Permanently", "403 Forbidden", "404 Not Found", "The document has moved",
    "<h1>Moved Permanently</h1>", "nginx", "openresty"]

  datatype Redirect = Redirect(file: string, size: nat, errorType: string)

  /** The first of `patterns` that occurs in `content`. */
  function FirstPattern(content: string, patterns: seq<string>): (r: Option<string>)
    ensures r.Some? <==> exists i :: 0 <= i < |patterns| && Contains(content, patterns[i])
    ensures r.Some? ==> exists i :: 0 <= i < |patterns| && patterns[i] == r.value && Contains(content, r.value)
                                    && forall j :: 0 <= j < i ==> !Contains(content, patterns[j])
    decreases |patterns|
  {
    if |patterns| == 0 then None
    else if Contains(content, patterns[0]) then Some(patterns[0])
    else
      var r := FirstPattern(content, patterns[1..]);
      assert forall i :: 1 <= i < |patterns| ==> patterns[i] == patterns[1..][i - 1];
      r
  }

  /** The flagged page, if a readable page is under 1000 characters and shows an error pattern. */
  function RedirectOf(name: string, content: string): Option<Redirect> {
    if |content| < 1000 then
      match FirstPattern(content, ErrorPatterns)
      case None => None
      case Some(p) => Some(Redirect(name, |content|, p))
    else None
  }

  /** The flagged pages of a listing, in listing order; an unreadable page is skipped. */
  function BrokenRedirects(fs: FileSystem, listing: seq<string>): seq<Redirect>
    decreases |listing|
  {
    if |listing| == 0 then []
    else
      var name := listing[|listing| - 1];
      var before := BrokenRedirects(fs, listing[..|listing| - 1]);
      match Read(fs, PagePath(name))
      case None => before
      case Some(content) =>
        match RedirectOf(name, content)
        case None => before
        case Some(r) => before + [r]
  }

  /**
   * A page is flagged, once, exactly when it is readable, under 1000
   * characters and contains one of the patterns, and the recorded type is the
   * first pattern it contains.
   */
  lemma {:induction false} BrokenRedirectsSpec(fs: FileSystem, listing: seq<string>, r: Redirect)
    ensures r in BrokenRedirects(fs, listing) <==>
      r.file in listing && PagePath(r.file) in fs && |fs[PagePath(r.file)]| < 1000
      && r.size == |fs[PagePath(r.file)]|
      && FirstPattern(fs[PagePath(r.file)], ErrorPatterns) == Some(r.errorType)
    ensures |BrokenRedirects(fs, listing)| <= |listing|
    decreases |listing|
  {
    if |listing| > 0 {
      var init := listing[..|listing| - 1];
      BrokenRedirectsSpec(fs, init, r);
      assert listing == init + [listing[|listing| - 1]];
    }
  }

  /** `for pattern in error_patterns: if pattern in content: ... break` */
  method FindPattern(content: string) returns (found: Option<string>)
    ensures found == FirstPattern(content, ErrorPatterns)
  {
    found := None;
    var j := 0;
    while j < |ErrorPatterns|
      invariant 0 <= j <= |ErrorPatterns|
      invariant FirstPattern(content, ErrorPatterns) == FirstPattern(content, ErrorPatterns[j..])
    {
      if Contains(content, ErrorPatterns[j]) {
        found := Some(ErrorPatterns[j]);
        return;
      }
      assert ErrorPatterns[j..][1..] == ErrorPatterns[j + 1..];
      j := j + 1;
    }
  }

  /** `find_broken_redirects`. */
  method FindBrokenRedirects(fs: FileSystem, listing: seq<string>) returns (broken: seq<Redirect>)
    ensures broken == BrokenRedirects(fs, listing)
  {
    broken := [];
    var i := 0;
    while i < |listing|
      invariant 0 <= i <= |listing|
      invariant broken == BrokenRedirects(fs, listing[..i])
    {
      var name := listing[i];
      assert listing[..i + 1][..i] == listing[..i];
      var path := PagePath(name);
      if path in fs {
        var content := fs[path];
        if |content| < 1000 {
          var pattern := FindPattern(content);
          if pattern.Some? {
            broken := broken + [Redirect(name, |content|, pattern.value)];
          }
        }
      }
      i := i + 1;
    }
    assert listing[..i] == listing;
  }

  // ---------------------------------------------------------------------
  // main: the critical pages and the tally

  const CriticalPages: seq<string> := [
    "honours", "records", "top25", "videos", "nextgame", "History1",
    "everyplayer_index", "squad_page2", "season2021", "season2020",
    "latest_page2", "clubhistory", "legends_index", "players2020",
    "fixtures2023", "season1920", "season1819", "season1718",
    "dopple_index", "playerawards_page2", "sundaycup_index",
    "tables2022", "cups2022", "fac202122_index"]

  /** The statuses that make a page a critical issue. */
  predicate IsIssue(s: Status) {
    s == Broken || s == ErrorPage || s == ContentMismatch
  }

  /** The result of every page, in order. */
  function Checks(pages: seq<string>, fetch: string -> Fetch): (r: seq<PageCheck>)
    ensures |r| == |pages|
    ensures forall k :: 0 <= k < |pages| ==> r[k] == CheckPage(pages[k], fetch)
    decreases |pages|
  {
    if |pages| == 0 then []
    else Checks(pages[..|pages| - 1], fetch) + [CheckPage(pages[|pages| - 1], fetch)]
  }

  /** The results whose status is a critical issue, in order. */
  function Issues(results: seq<PageCheck>): seq<PageCheck>
    decreases |results|
  {
    if |results| == 0 then []
    else
      var last := results[|results| - 1];
      Issues(results[..|results| - 1]) + (if IsIssue(last.status) then [last] else [])
  }

  /** How many results have status `s`. */
  function CountOf(results: seq<PageCheck>, s: Status): nat
    decreases |results|
  {
    if |results| == 0 then 0
    else CountOf(results[..|results| - 1], s) + (if results[|results| - 1].status == s then 1 else 0)
  }

  /** The status counts add up to the number of results. */
  lemma {:induction false} StatusCountsSum(results: seq<PageCheck>)
    ensures CountOf(results, Good) + CountOf(results, MinorDiff) + CountOf(results, ContentMismatch)
          + CountOf(results, ErrorPage) + CountOf(results, NewOnly) + CountOf(results, Broken)
          + CountOf(results, BothBroken) + CountOf(results, Error) == |results|
    decreases |results|
  {
    if |results| > 0 {
      StatusCountsSum(results[..|results| - 1]);
    }
  }

  /** The issues are the broken, error-page and mismatched results, and only those. */
  lemma {:induction false} IssuesSpec(results: seq<PageCheck>)
    ensures |Issues(results)| == CountOf(results, Broken) + CountOf(results, ErrorPage) + CountOf(results, ContentMismatch)
    ensures forall r :: r in Issues(results) <==> r in results && IsIssue(r.status)
    decreases |results|
  {
    if |results| > 0 {
      var init := results[..|results| - 1];
      IssuesSpec(init);
      assert results == init + [results[|results| - 1]];
    }
  }

  /** The `status_counts` dictionary: a status is a key exactly when some result has it. */
  ghost predicate CountsOf(counts: map<Status, nat>, results: seq<PageCheck>) {
    forall s :: (s in counts <==> CountOf(results, s) > 0) && (s in counts ==> counts[s] == CountOf(results, s))
  }

  /** `main`: the flagged redirects, the results of the critical pages, the issues and the status counts. */
  method Analyse(fs: FileSystem, listing: seq<string>, fetch: string -> Fetch)
    returns (redirects: seq<Redirect>, results: seq<PageCheck>, issues: seq<PageCheck>, counts: map<Status, nat>)
    ensures redirects == BrokenRedirects(fs, listing)
    ensures results == Checks(CriticalPages, fetch)
    ensures issues == Issues(results)
    ensures CountsOf(counts, results)
  {
    redirects := FindBrokenRedirects(fs, listing);
    results, issues := CheckAll(CriticalPages, fetch);
    counts := TallyStatuses(results);
  }

  /** The loop over the critical pages, collecting every result and the critical issues. */
  method CheckAll(pages: seq<string>, fetch: string -> Fetch) returns (results: seq<PageCheck>, issues: seq<PageCheck>)
    ensures results == Checks(pages, fetch)
    ensures issues == Issues(results)
  {
    results, issues := [], [];
    var i := 0;
    while i < |pages|
      invariant 0 <= i <= |pages|
      invariant results == Checks(pages[..i], fetch)
      invariant issues == Issues(results)
    {
      assert pages[..i + 1][..i] == pages[..i];
      var result := CheckPage(pages[i], fetch);
      results := results + [result];
      assert results[..|results| - 1] == Checks(pages[..i], fetch);
      if IsIssue(result.status) {
        issues := issues + [result];
      }
      i := i + 1;
    }
    assert pages[..i] == pages;
  }

  /** The `status_counts` loop. */
  method TallyStatuses(results: seq<PageCheck>) returns (counts: map<Status, nat>)
    ensures CountsOf(counts, results)
  {
    counts := map[];
    var k := 0;
    while k < |results|
      invariant 0 <= k <= |results|
      invariant CountsOf(counts, results[..k])
    {
      assert results[..k + 1][..k] == results[..k];
      var s := results[k].status;
      counts := counts[s := (if s in counts then counts[s] else 0) + 1];
      k := k + 1;
    }
    assert results[..k] == results;
  }
}
