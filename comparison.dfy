/**
 * The systematic comparison of the mirror against the original host: which
 * local pages take part, how a fetch is encoded and judged accessible, where
 * a page lived on the origin, the link, image and content checks over the
 * local files, and the four sub-scores with their readiness band.
 */
module SiteComparison {
  import opened Strings
  import opened Rewriting
  import opened Site
  import opened Paths

  const NewBase: string := "https://chiswickalbion.github.io/chiswick-albion-website/pages/"
  const ImagesPrefix: string := "../assets/images/"

  // ---------------------------------------------------------------------
  // Local pages
  // ---------------------------------------------------------------------

  /** A page takes part unless it is a captured 404 or a test file. */
  predicate KeepPage(name: string, text: string) {
    !Is404(text) && !StartsWith(name, "test")
  }

  /** The kept names in listing order; `None` once reading a listed file raises. */
  function LocalNames(fs: FileSystem, listing: seq<string>): Option<seq<string>>
    decreases |listing|
  {
    if |listing| == 0 then Some([])
    else
      var name := listing[|listing| - 1];
      match LocalNames(fs, listing[..|listing| - 1])
      case None => None
      case Some(names) =>
        match Read(fs, PagePath(name))
        case None => None
        case Some(text) => Some(if KeepPage(name, text) then names + [name] else names)
  }

  /** `get_all_local_pages`: the kept names, sorted. */
  function LocalPages(fs: FileSystem, listing: seq<string>): Option<seq<string>> {
    match LocalNames(fs, listing)
    case None => None
    case Some(names) => Some(Sort(names))
  }

  /** A failing read stays a failure whatever is listed after it. */
  lemma {:induction false} LocalNamesFailureSticks(fs: FileSystem, listing: seq<string>, k: nat)
    requires k <= |listing| && LocalNames(fs, listing[..k]).None?
    ensures LocalNames(fs, listing).None?
    decreases |listing|
  {
    if k < |listing| {
      var prefix := listing[..|listing| - 1];
      assert prefix[..k] == listing[..k];
      LocalNamesFailureSticks(fs, prefix, k);
    } else {
      assert listing[..k] == listing;
    }
  }

  /**
   * The listing fails exactly when some listed file cannot be read; otherwise
   * the names are exactly the kept ones, and distinct when the listing is.
   */
  lemma LocalNamesSpec(fs: FileSystem, listing: seq<string>)
    ensures LocalNames(fs, listing).None? <==> exists i :: 0 <= i < |listing| && PagePath(listing[i]) !in fs
    ensures LocalNames(fs, listing).Some? ==>
      forall x :: x in LocalNames(fs, listing).value <==> x in listing && KeepPage(x, fs[PagePath(x)])
    ensures LocalNames(fs, listing).Some? && Distinct(listing) ==> Distinct(LocalNames(fs, listing).value)
  {
    LocalNamesFails(fs, listing);
    LocalNamesMembers(fs, listing);
    LocalNamesDistinct(fs, listing);
  }

  lemma {:induction false} LocalNamesFails(fs: FileSystem, listing: seq<string>)
    ensures LocalNames(fs, listing).None? <==> exists i :: 0 <= i < |listing| && PagePath(listing[i]) !in fs
    decreases |listing|
  {
    if |listing| > 0 {
      var n := |listing| - 1;
      var prefix := listing[..n];
      LocalNamesFails(fs, prefix);
      if LocalNames(fs, prefix).None? {
        var i :| 0 <= i < n && PagePath(prefix[i]) !in fs;
        assert listing[i] == prefix[i];
      } else if LocalNames(fs, listing).Some? {
        forall i | 0 <= i < |listing|
          ensures PagePath(listing[i]) in fs
        {
          if i < n {
            assert listing[i] == prefix[i];
          }
        }
      }
    }
  }

  lemma {:induction false} LocalNamesMembers(fs: FileSystem, listing: seq<string>)
    ensures LocalNames(fs, listing).Some? ==>
      forall x :: x in LocalNames(fs, listing).value <==> x in listing && PagePath(x) in fs && KeepPage(x, fs[PagePath(x)])
    decreases |listing|
  {
    if |listing| > 0 {
      var n := |listing| - 1;
      LocalNamesMembers(fs, listing[..n]);
      InInitAll(listing);
    }
  }

  lemma {:induction false} LocalNamesDistinct(fs: FileSystem, listing: seq<string>)
    ensures LocalNames(fs, listing).Some? && Distinct(listing) ==> Distinct(LocalNames(fs, listing).value)
    decreases |listing|
  {
    if |listing| > 0 {
      var n := |listing| - 1;
      var prefix := listing[..n];
      LocalNamesDistinct(fs, prefix);
      LocalNamesMembers(fs, prefix);
      if Distinct(listing) {
        assert Distinct(prefix);
        forall k | 0 <= k < n
          ensures prefix[k] != listing[n]
        {
          assert listing[k] == prefix[k];
        }
        assert listing[n] !in prefix;
      }
    }
  }

  /** `get_all_local_pages` returns, sorted, exactly the readable pages that are neither 404s nor test files. */
  lemma LocalPagesSpec(fs: FileSystem, listing: seq<string>)
    ensures LocalPages(fs, listing).None? <==> exists i :: 0 <= i < |listing| && PagePath(listing[i]) !in fs
    ensures LocalPages(fs, listing).Some? ==> Sorted(LocalPages(fs, listing).value)
    ensures LocalPages(fs, listing).Some? ==>
      forall x :: x in LocalPages(fs, listing).value <==> x in listing && KeepPage(x, fs[PagePath(x)])
    ensures LocalPages(fs, listing).Some? && Distinct(listing) ==> Distinct(LocalPages(fs, listing).value)
  {
    LocalNamesSpec(fs, listing);
    if LocalNames(fs, listing).Some? {
      var names := LocalNames(fs, listing).value;
      assert forall x :: x in Sort(names) <==> x in multiset(Sort(names));
      assert forall x :: x in names <==> x in multiset(names);
      if Distinct(listing) {
        SortDistinct(names);
      }
    }
  }

  /** The first `n` pages (the sampling cap of the accessibility, link and image checks) of distinct pages are distinct. */
  lemma SampleDistinct(pages: seq<string>, n: nat)
    requires Distinct(pages)
    ensures Distinct(Take(pages, n))
  {
  }

  // ---------------------------------------------------------------------
  // Fetching and accessibility
  // ---------------------------------------------------------------------

  /** `fetch_page_safely`: the body of a 200, otherwise a text naming the failure. */
  function FetchText(f: Fetch): string {
    match f
    case Response(status, body) =>
      if status == 200 then body else "HTTP_ERROR_" + NatToString(status)
    case Raised(requestError, message) =>
      (if requestError then "REQUEST_ERROR: " else "ERROR: ") + message
  }

  /** A fetched text is accessible unless it starts with one of the failure prefixes. */
  predicate Accessible(text: string) {
    !StartsWith(text, "HTTP_ERROR") && !StartsWith(text, "REQUEST_ERROR") && !StartsWith(text, "ERROR")
  }

  /**
   * A fetch is accessible exactly when it is a 200 whose body does not itself
   * start with a failure prefix; every other status and every exception is not.
   */
  lemma AccessibleIff(f: Fetch)
    ensures Accessible(FetchText(f)) <==> IsOk(f) && Accessible(f.body)
    ensures Accessible(FetchText(f)) ==> FetchText(f) == f.body
  {
    match f
    case Response(status, body) =>
      if status != 200 {
        var t := "HTTP_ERROR_" + NatToString(status);
        assert t[..|"HTTP_ERROR"|] == "HTTP_ERROR";
      }
    case Raised(requestError, message) =>
      if requestError {
        var t := "REQUEST_ERROR: " + message;
        assert t[..|"REQUEST_ERROR"|] == "REQUEST_ERROR";
      } else {
        var t := "ERROR: " + message;
        assert t[..|"ERROR"|] == "ERROR";
      }
  }

  // ---------------------------------------------------------------------
  // The page's name on the origin
  // ---------------------------------------------------------------------

  /** The origin's folder name for a local page: every `.html` (or, for `x_.html`, every `_.html`) becomes `/`. */
  function OriginName(page: string): string {
    if EndsWith(page, "_.html") then ReplaceAll(page, "_.html", "/") else ReplaceAll(page, ".html", "/")
  }

  /** A flattened folder page `stem_.html` maps back to `stem/`. */
  lemma OriginNameFolder(stem: string)
    requires !Contains(stem + "_.htm", "_.html")
    ensures OriginName(stem + "_.html") == stem + "/"
  {
    var page := stem + "_.html";
    assert page[|page| - 6..] == "_.html";
    assert page[..|page| - 1] == stem + "_.htm";
    ReplaceOnlyAtEnd(stem, "_.html", "/");
  }

  lemma NotFolderName(stem: string)
    requires |stem| == 0 || stem[|stem| - 1] != '_'
    ensures !EndsWith(stem + ".html", "_.html")
  {
    var page := stem + ".html";
    if |page| >= 6 {
      assert page[|page| - 6..][0] == page[|page| - 6] == stem[|stem| - 1];
    }
  }

  /** A plain page `stem.html` maps to `stem/`. */
  lemma OriginNamePage(stem: string)
    requires |stem| == 0 || stem[|stem| - 1] != '_'
    requires !Contains(stem + ".htm", ".html")
    ensures OriginName(stem + ".html") == stem + "/"
  {
    var page := stem + ".html";
    NotFolderName(stem);
    OriginNamePlain(page);
    assert page[..|page| - 1] == stem + ".htm";
    ReplaceOnlyAtEnd(stem, ".html", "/");
  }

  /** A name that does not end in `_.html` has every `.html` replaced. */
  lemma OriginNamePlain(page: string)
    requires !EndsWith(page, "_.html")
    ensures OriginName(page) == ReplaceAll(page, ".html", "/")
  {
  }

  // ---------------------------------------------------------------------
  // compare_page_accessibility
  // ---------------------------------------------------------------------

  datatype PageComparison = PageComparison(
    newUrl: string, oldUrl: string,
    newAccessible: bool, oldAccessible: bool,
    newSize: nat, oldSize: nat)

  /** One page fetched from both sites; a size is recorded only for an accessible fetch. */
  function Compare(fetch: string -> Fetch, join: (string, string) -> string, page: string): PageComparison {
    var newUrl := join(NewBase, page);
    var newText := FetchText(fetch(newUrl));
    var oldUrl := join(OriginBase, OriginName(page));
    var oldText := FetchText(fetch(oldUrl));
    PageComparison(newUrl, oldUrl, Accessible(newText), Accessible(oldText),
      if Accessible(newText) then |newText| else 0,
      if Accessible(oldText) then |oldText| else 0)
  }

  /**
   * The new and old URLs are built from the two bases, each side is accessible
   * exactly when its fetch succeeded with an accessible body, and a size is
   * recorded only for an accessible side.
   */
  lemma CompareSpec(fetch: string -> Fetch, join: (string, string) -> string, page: string)
    ensures var c := Compare(fetch, join, page);
      && c.newUrl == join(NewBase, page) && c.oldUrl == join(OriginBase, OriginName(page))
      && (c.newAccessible <==> IsOk(fetch(c.newUrl)) && Accessible(fetch(c.newUrl).body))
      && (c.oldAccessible <==> IsOk(fetch(c.oldUrl)) && Accessible(fetch(c.oldUrl).body))
      && c.newSize == (if c.newAccessible then |fetch(c.newUrl).body| else 0)
      && c.oldSize == (if c.oldAccessible then |fetch(c.oldUrl).body| else 0)
  {
    AccessibleIff(fetch(join(NewBase, page)));
    AccessibleIff(fetch(join(OriginBase, OriginName(page))));
  }

  datatype Accessibility = Accessibility(newCount: nat, oldCount: nat, results: map<string, PageComparison>)

  /** The counters and the per-page table after comparing `pages` in order. */
  function AccessibilityOf(fetch: string -> Fetch, join: (string, string) -> string, pages: seq<string>): Accessibility
    decreases |pages|
  {
    if |pages| == 0 then Accessibility(0, 0, map[])
    else
      var page := pages[|pages| - 1];
      Record(AccessibilityOf(fetch, join, pages[..|pages| - 1]), page, Compare(fetch, join, page))
  }

  /** One page's comparison counted and entered in the table. */
  function Record(a: Accessibility, page: string, c: PageComparison): Accessibility {
    Accessibility(
      a.newCount + (if c.newAccessible then 1 else 0),
      a.oldCount + (if c.oldAccessible then 1 else 0),
      a.results[page := c])
  }

  /** Each compared page has exactly one entry, holding that page's comparison. */
  lemma AccessibilityTable(fetch: string -> Fetch, join: (string, string) -> string, pages: seq<string>)
    ensures forall p :: p in AccessibilityOf(fetch, join, pages).results <==> p in pages
    ensures forall p :: p in AccessibilityOf(fetch, join, pages).results ==>
      AccessibilityOf(fetch, join, pages).results[p] == Compare(fetch, join, p)
  {
    AccessibilityKeys(fetch, join, pages);
    AccessibilityValues(fetch, join, pages);
  }

  /** The table's keys are exactly the compared pages. */
  lemma {:induction false} AccessibilityKeys(fetch: string -> Fetch, join: (string, string) -> string, pages: seq<string>)
    ensures forall p :: p in AccessibilityOf(fetch, join, pages).results <==> p in pages
    decreases |pages|
  {
    if |pages| > 0 {
      var n := |pages| - 1;
      AccessibilityKeys(fetch, join, pages[..n]);
      assert pages == pages[..n] + [pages[n]];
    }
  }

  /** The entry of a page holds that page's comparison. */
  lemma {:induction false} AccessibilityValues(fetch: string -> Fetch, join: (string, string) -> string, pages: seq<string>)
    ensures forall p :: p in AccessibilityOf(fetch, join, pages).results ==>
      AccessibilityOf(fetch, join, pages).results[p] == Compare(fetch, join, p)
    decreases |pages|
  {
    if |pages| > 0 {
      AccessibilityValues(fetch, join, pages[..|pages| - 1]);
    }
  }

  /** Neither counter exceeds the number of pages compared. */
  lemma {:induction false} AccessibilityCounts(fetch: string -> Fetch, join: (string, string) -> string, pages: seq<string>)
    ensures AccessibilityOf(fetch, join, pages).newCount <= |pages|
    ensures AccessibilityOf(fetch, join, pages).oldCount <= |pages|
    decreases |pages|
  {
    if |pages| > 0 {
      AccessibilityCounts(fetch, join, pages[..|pages| - 1]);
    }
  }

  /** With distinct names the table has one entry per compared page, so `tested_pages` is the sample size. */
  lemma {:induction false} AccessibilityTested(fetch: string -> Fetch, join: (string, string) -> string, pages: seq<string>)
    requires Distinct(pages)
    ensures |AccessibilityOf(fetch, join, pages).results| == |pages|
    decreases |pages|
  {
    if |pages| > 0 {
      var n := |pages| - 1;
      var prefix := pages[..n];
      assert Distinct(prefix);
      AccessibilityTested(fetch, join, prefix);
      AccessibilityTable(fetch, join, prefix);
      assert pages[n] !in prefix;
    }
  }

  // ---------------------------------------------------------------------
  // validate_internal_links
  // ---------------------------------------------------------------------

  datatype LinkReport = LinkReport(total: nat, working: nat, broken: seq<string>)

  /** One extracted link: only internal ones are counted, as working when the target file exists. */
  function CheckLink(fs: FileSystem, page: string, r: LinkReport, link: string): LinkReport {
    if !IsInternal(link) then r
    else if Normalize(PathJoin(PagesDir, link)) in fs then r.(total := r.total + 1, working := r.working + 1)
    else r.(total := r.total + 1, broken := r.broken + [page + " -> " + link])
  }

  function CheckLinks(fs: FileSystem, page: string, r: LinkReport, links: seq<string>): LinkReport
    decreases |links|
  {
    if |links| == 0 then r
    else CheckLink(fs, page, CheckLinks(fs, page, r, links[..|links| - 1]), links[|links| - 1])
  }

  /** The report after the pages in order; a page that cannot be read is skipped. */
  function LinkReportOf(fs: FileSystem, pages: seq<string>): LinkReport
    decreases |pages|
  {
    if |pages| == 0 then LinkReport(0, 0, [])
    else
      var r := LinkReportOf(fs, pages[..|pages| - 1]);
      var page := pages[|pages| - 1];
      match Read(fs, PagePath(page))
      case None => r
      case Some(content) => CheckLinks(fs, page, r, HtmlLinks(content))
  }

  /** The number of internal links among `links`. */
  function InternalCount(links: seq<string>): nat
    decreases |links|
  {
    if |links| == 0 then 0
    else InternalCount(links[..|links| - 1]) + (if IsInternal(links[|links| - 1]) then 1 else 0)
  }

  /** Checking links counts every internal link once, as working or as broken. */
  lemma {:induction false} CheckLinksPartition(fs: FileSystem, page: string, r: LinkReport, links: seq<string>)
    ensures CheckLinks(fs, page, r, links).total == r.total + InternalCount(links)
    ensures CheckLinks(fs, page, r, links).working + |CheckLinks(fs, page, r, links).broken|
      == r.working + |r.broken| + InternalCount(links)
    decreases |links|
  {
    if |links| > 0 {
      CheckLinksPartition(fs, page, r, links[..|links| - 1]);
    }
  }

  /** `working_links + len(broken_links) == total_links`. */
  lemma {:induction false} LinkPartition(fs: FileSystem, pages: seq<string>)
    ensures LinkReportOf(fs, pages).working + |LinkReportOf(fs, pages).broken| == LinkReportOf(fs, pages).total
    decreases |pages|
  {
    if |pages| > 0 {
      var r := LinkReportOf(fs, pages[..|pages| - 1]);
      LinkPartition(fs, pages[..|pages| - 1]);
      var page := pages[|pages| - 1];
      if PagePath(page) in fs {
        CheckLinksPartition(fs, page, r, HtmlLinks(fs[PagePath(page)]));
      }
    }
  }

  // ---------------------------------------------------------------------
  // validate_images
  // ---------------------------------------------------------------------

  /** The places an image reference may resolve to, in the order they are tried. */
  function ImageCandidates(img: string): seq<string> {
    if StartsWith(img, ImagesPrefix) then [PathJoin(ImagesDir, ReplaceAll(img, ImagesPrefix, ""))]
    else if StartsWith(img, "../") then [img[3..]]
    else [PathJoin(PagesDir, img), PathJoin(ImagesDir, img)]
  }

  /** A reference into `../assets/images/` resolves to the same name under `assets/images`. */
  lemma AssetCandidate(rest: string)
    requires !Contains(rest, ImagesPrefix) && !StartsWith(rest, "/")
    ensures ImageCandidates(ImagesPrefix + rest) == [ImagesDir + "/" + rest]
  {
    assert (ImagesPrefix + rest)[..|ImagesPrefix|] == ImagesPrefix;
    ReplaceAllPrefix(ImagesPrefix, rest, "");
    assert "" + rest == rest;
    assert ReplaceAll(ImagesPrefix + rest, ImagesPrefix, "") == rest;
  }

  /** A bare reference is looked for beside the page first, then among the assets. */
  lemma BareCandidates(img: string)
    requires !StartsWith(img, "../") && !StartsWith(img, "/")
    ensures ImageCandidates(img) == [PagesDir + "/" + img, ImagesDir + "/" + img]
  {
    AssetRefIsRelative(img);
  }

  /** A reference into `../assets/images/` is also a `../` reference. */
  lemma AssetRefIsRelative(img: string)
    ensures StartsWith(img, ImagesPrefix) ==> StartsWith(img, "../")
  {
    if StartsWith(img, ImagesPrefix) {
      assert img[..3] == img[..|ImagesPrefix|][..3] == ImagesPrefix[..3] == "../";
    }
  }

  datatype ImageReport = ImageReport(total: nat, working: nat, missing: seq<string>)

  /** One image reference: working when some candidate exists, the first that does being the one used. */
  function CheckImage(fs: FileSystem, page: string, r: ImageReport, img: string): ImageReport {
    if FirstExisting(fs, ResolveAll(ImageCandidates(img))).Some? then r.(total := r.total + 1, working := r.working + 1)
    else r.(total := r.total + 1, missing := r.missing + [page + ": " + img])
  }

  function CheckImages(fs: FileSystem, page: string, r: ImageReport, imgs: seq<string>): ImageReport
    decreases |imgs|
  {
    if |imgs| == 0 then r
    else CheckImage(fs, page, CheckImages(fs, page, r, imgs[..|imgs| - 1]), imgs[|imgs| - 1])
  }

  function ImageReportOf(fs: FileSystem, pages: seq<string>): ImageReport
    decreases |pages|
  {
    if |pages| == 0 then ImageReport(0, 0, [])
    else
      var r := ImageReportOf(fs, pages[..|pages| - 1]);
      var page := pages[|pages| - 1];
      match Read(fs, PagePath(page))
      case None => r
      case Some(content) => CheckImages(fs, page, r, ImageRefs(content))
  }

  lemma {:induction false} CheckImagesPartition(fs: FileSystem, page: string, r: ImageReport, imgs: seq<string>)
    ensures CheckImages(fs, page, r, imgs).total == r.total + |imgs|
    ensures CheckImages(fs, page, r, imgs).working + |CheckImages(fs, page, r, imgs).missing|
      == r.working + |r.missing| + |imgs|
    decreases |imgs|
  {
    if |imgs| > 0 {
      CheckImagesPartition(fs, page, r, imgs[..|imgs| - 1]);
    }
  }

  /** `working_images + len(missing_images) == total_images`. */
  lemma {:induction false} ImagePartition(fs: FileSystem, pages: seq<string>)
    ensures ImageReportOf(fs, pages).working + |ImageReportOf(fs, pages).missing| == ImageReportOf(fs, pages).total
    decreases |pages|
  {
    if |pages| > 0 {
      var r := ImageReportOf(fs, pages[..|pages| - 1]);
      ImagePartition(fs, pages[..|pages| - 1]);
      var page := pages[|pages| - 1];
      if PagePath(page) in fs {
        CheckImagesPartition(fs, page, r, ImageRefs(fs[PagePath(page)]));
      }
    }
  }

  // ---------------------------------------------------------------------
  // check_content_integrity
  // ---------------------------------------------------------------------

  datatype Issue = VeryShort | NotFoundPage | MultipleHtml | MissingBodyClose | OldDomain(domain: string)

  const OldDomains: seq<string> := ["0002n8y.wcomhost.com", "web.bethere.co.uk"]

  /** The issues of one page, in the order they are checked. */
  function PageIssues(content: string): seq<Issue> {
    (if |content| < 500 then [VeryShort] else [])
    + (if Is404(content) then [NotFoundPage] else [])
    + (if Count(content, "<html") > 1 then [MultipleHtml] else [])
    + (if !Contains(content, "</body>") then [MissingBodyClose] else [])
    + (if Contains(content, OldDomains[0]) then [OldDomain(OldDomains[0])] else [])
    + (if Contains(content, OldDomains[1]) then [OldDomain(OldDomains[1])] else [])
  }

  /** A page is clean exactly when none of the five checks fires. */
  lemma PageCleanIff(content: string)
    ensures PageIssues(content) == [] <==>
      |content| >= 500 && !Is404(content) && Count(content, "<html") <= 1
      && Contains(content, "</body>")
      && !Contains(content, "0002n8y.wcomhost.com") && !Contains(content, "web.bethere.co.uk")
  {
  }

  datatype IssueEntry = PageProblems(page: string, issues: seq<Issue>) | ReadError(page: string)

  datatype ContentTally = ContentTally(clean: nat, issues: seq<IssueEntry>)

  function ContentTallyOf(fs: FileSystem, pages: seq<string>): ContentTally
    decreases |pages|
  {
    if |pages| == 0 then ContentTally(0, [])
    else
      var page := pages[|pages| - 1];
      TallyPage(ContentTallyOf(fs, pages[..|pages| - 1]), page, Read(fs, PagePath(page)))
  }

  /** One page's content check: clean, or an issue entry (a read error or its problems). */
  function TallyPage(t: ContentTally, page: string, content: Option<string>): ContentTally {
    match content
    case None => t.(issues := t.issues + [ReadError(page)])
    case Some(text) =>
      var found := PageIssues(text);
      if found == [] then t.(clean := t.clean + 1)
      else t.(issues := t.issues + [PageProblems(page, found)])
  }

  /**
   * `clean_pages + len(issues) == total_pages`, every recorded problem list is
   * non-empty, and a page whose file is kept among the local pages is never
   * reported as a 404.
   */
  lemma ContentPartition(fs: FileSystem, pages: seq<string>)
    ensures ContentTallyOf(fs, pages).clean + |ContentTallyOf(fs, pages).issues| == |pages|
    ensures forall e :: e in ContentTallyOf(fs, pages).issues && e.PageProblems? ==> e.issues != []
    ensures (forall p :: p in pages && PagePath(p) in fs ==> KeepPage(p, fs[PagePath(p)])) ==>
      forall e :: e in ContentTallyOf(fs, pages).issues && e.PageProblems? ==> NotFoundPage !in e.issues
  {
    ContentCounts(fs, pages);
    ContentProblemsListed(fs, pages);
    if forall p :: p in pages && PagePath(p) in fs ==> KeepPage(p, fs[PagePath(p)]) {
      ContentKeptNo404(fs, pages);
    }
  }

  /** Every page is either clean or has one issue entry. */
  lemma {:induction false} ContentCounts(fs: FileSystem, pages: seq<string>)
    ensures ContentTallyOf(fs, pages).clean + |ContentTallyOf(fs, pages).issues| == |pages|
    decreases |pages|
  {
    if |pages| > 0 {
      ContentCounts(fs, pages[..|pages| - 1]);
    }
  }

  /** A page recorded with problems has at least one. */
  lemma {:induction false} ContentProblemsListed(fs: FileSystem, pages: seq<string>)
    ensures forall e :: e in ContentTallyOf(fs, pages).issues && e.PageProblems? ==> e.issues != []
    decreases |pages|
  {
    if |pages| > 0 {
      ContentProblemsListed(fs, pages[..|pages| - 1]);
    }
  }

  /** When every readable page is kept, no recorded problem is the 404 text. */
  lemma {:induction false} ContentKeptNo404(fs: FileSystem, pages: seq<string>)
    requires forall p :: p in pages && PagePath(p) in fs ==> KeepPage(p, fs[PagePath(p)])
    ensures forall e :: e in ContentTallyOf(fs, pages).issues && e.PageProblems? ==> NotFoundPage !in e.issues
    decreases |pages|
  {
    if |pages| > 0 {
      var n := |pages| - 1;
      assert forall p :: p in pages[..n] ==> p in pages;
      ContentKeptNo404(fs, pages[..n]);
      var page := pages[n];
      if PagePath(page) in fs {
        var content := fs[PagePath(page)];
        assert !Is404(content);
        assert NotFoundPage !in PageIssues(content);
      }
    }
  }

  // ---------------------------------------------------------------------
  // generate_comprehensive_report
  // ---------------------------------------------------------------------

  /** `n / total * 100`, or `empty` when there is nothing to count. */
  function Percent(n: nat, total: nat, empty: real): (r: real)
    ensures total == 0 ==> r == empty
    ensures total > 0 && n <= total ==> 0.0 <= r <= 100.0
    ensures total > 0 ==> (r == 100.0 <==> n == total)
  {
    if total > 0 then n as real / total as real * 100.0 else empty
  }

  datatype Summary = Summary(
    overall: real, accessibility: real, links: real, images: real, content: real,
    newAccessible: nat, testedPages: nat, totalPages: nat)

  /**
   * The summary from the four checks' counters: an empty sample scores 0 for
   * accessibility and content and 100 for links and images; the overall score
   * is the mean of the four and lies in [0, 100] whenever no counter exceeds
   * its total.
   */
  function SummaryOf(
    newAccessible: nat, tested: nat, workingLinks: nat, totalLinks: nat,
    workingImages: nat, totalImages: nat, cleanPages: nat, totalPages: nat): (s: Summary)
    ensures s.accessibility == Percent(newAccessible, tested, 0.0)
    ensures s.links == Percent(workingLinks, totalLinks, 100.0)
    ensures s.images == Percent(workingImages, totalImages, 100.0)
    ensures s.content == Percent(cleanPages, totalPages, 0.0)
    ensures 4.0 * s.overall == s.accessibility + s.links + s.images + s.content
    ensures (newAccessible <= tested && workingLinks <= totalLinks && workingImages <= totalImages
      && cleanPages <= totalPages) ==>
        0.0 <= s.overall <= 100.0
        && (s.overall == 100.0 <==> s.accessibility == 100.0 && s.links == 100.0 && s.images == 100.0 && s.content == 100.0)
  {
    var a := Percent(newAccessible, tested, 0.0);
    var l := Percent(workingLinks, totalLinks, 100.0);
    var i := Percent(workingImages, totalImages, 100.0);
    var c := Percent(cleanPages, totalPages, 0.0);
    Summary((a + l + i + c) / 4.0, a, l, i, c, newAccessible, tested, totalPages)
  }

  datatype Readiness = ReadyForProduction | MostlyReady | NeedsWork

  /** The readiness band of the overall score. */
  function ReadinessOf(score: real): (r: Readiness)
    ensures r == ReadyForProduction <==> score >= 95.0
    ensures r == MostlyReady <==> 85.0 <= score < 95.0
    ensures r == NeedsWork <==> score < 85.0
  {
    if score >= 95.0 then ReadyForProduction
    else if score >= 85.0 then MostlyReady
    else NeedsWork
  }

  /** The summary the report computes from the local pages. */
  function ReportOf(fs: FileSystem, fetch: string -> Fetch, join: (string, string) -> string, pages: seq<string>): Summary {
    var a := AccessibilityOf(fetch, join, Take(pages, 10));
    var l := LinkReportOf(fs, Take(pages, 5));
    var i := ImageReportOf(fs, Take(pages, 5));
    var c := ContentTallyOf(fs, pages);
    SummaryOf(a.newCount, |a.results|, l.working, l.total, i.working, i.total, c.clean, |pages|)
  }

  /** With a directory listing of distinct names, the overall score lies in [0, 100]. */
  lemma ReportBounds(fs: FileSystem, listing: seq<string>, fetch: string -> Fetch, join: (string, string) -> string)
    requires Distinct(listing) && LocalPages(fs, listing).Some?
    ensures 0.0 <= ReportOf(fs, fetch, join, LocalPages(fs, listing).value).overall <= 100.0
  {
    var pages := LocalPages(fs, listing).value;
    LocalPagesSpec(fs, listing);
    SampleDistinct(pages, 10);
    AccessibilityCounts(fetch, join, Take(pages, 10));
    AccessibilityTested(fetch, join, Take(pages, 10));
    LinkPartition(fs, Take(pages, 5));
    ImagePartition(fs, Take(pages, 5));
    ContentPartition(fs, pages);
  }

  // ---------------------------------------------------------------------
  // The comparator
  // ---------------------------------------------------------------------

  datatype Results = Results(
    pageComparison: map<string, PageComparison>,
    linkValidation: Option<LinkReport>,
    imageValidation: Option<ImageReport>,
    contentValidation: Option<ContentTally>,
    summary: Option<Summary>)

  /** The comparison loop of `compare_page_accessibility` over the sampled pages. */
  method CompareAll(fetch: string -> Fetch, join: (string, string) -> string, pages: seq<string>) returns (acc: Accessibility)
    ensures acc == AccessibilityOf(fetch, join, pages)
  {
    acc := Accessibility(0, 0, map[]);
    var i := 0;
    while i < |pages|
      invariant 0 <= i <= |pages|
      invariant acc == AccessibilityOf(fetch, join, pages[..i])
    {
      AccessibilityStep(fetch, join, pages, i);
      acc := Record(acc, pages[i], Compare(fetch, join, pages[i]));
      i := i + 1;
    }
    assert pages[..i] == pages;
  }

  lemma AccessibilityStep(fetch: string -> Fetch, join: (string, string) -> string, pages: seq<string>, i: nat)
    requires i < |pages|
    ensures AccessibilityOf(fetch, join, pages[..i + 1]) == Record(AccessibilityOf(fetch, join, pages[..i]), pages[i], Compare(fetch, join, pages[i]))
  {
    assert pages[..i + 1][..i] == pages[..i];
  }

  /** The image loop of `validate_images` over the sampled pages. */
  method ScanImages(fs: FileSystem, pages: seq<string>) returns (report: ImageReport)
    ensures report == ImageReportOf(fs, pages)
  {
    report := ImageReport(0, 0, []);
    var i := 0;
    while i < |pages|
      invariant 0 <= i <= |pages|
      invariant report == ImageReportOf(fs, pages[..i])
    {
      var page := pages[i];
      assert pages[..i + 1][..i] == pages[..i];
      var content := Read(fs, PagePath(page));
      if content.Some? {
        report := ScanPageImages(fs, page, report, ImageRefs(content.value));
      }
      i := i + 1;
    }
    assert pages[..i] == pages;
  }

  /** The loop over the image refs of one page. */
  method ScanPageImages(fs: FileSystem, page: string, start: ImageReport, imgs: seq<string>) returns (report: ImageReport)
    ensures report == CheckImages(fs, page, start, imgs)
  {
    report := start;
    var j := 0;
    while j < |imgs|
      invariant 0 <= j <= |imgs|
      invariant report == CheckImages(fs, page, start, imgs[..j])
    {
      CheckImagesStep(fs, page, start, imgs, j);
      var img := imgs[j];
      var found := FindImage(fs, ResolveAll(ImageCandidates(img)));
      if found {
        report := report.(total := report.total + 1, working := report.working + 1);
      } else {
        report := report.(total := report.total + 1, missing := report.missing + [page + ": " + img]);
      }
      j := j + 1;
    }
    assert imgs[..j] == imgs;
  }

  lemma CheckImagesStep(fs: FileSystem, page: string, start: ImageReport, imgs: seq<string>, j: nat)
    requires j < |imgs|
    ensures CheckImages(fs, page, start, imgs[..j + 1]) == CheckImage(fs, page, CheckImages(fs, page, start, imgs[..j]), imgs[j])
  {
    assert imgs[..j + 1][..j] == imgs[..j];
  }

  /** The candidate loop: whether some candidate path exists. */
  method FindImage(fs: FileSystem, candidates: seq<string>) returns (found: bool)
    ensures found <==> FirstExisting(fs, candidates).Some?
  {
    found := false;
    var k := 0;
    while k < |candidates|
      invariant 0 <= k <= |candidates|
      invariant FirstExisting(fs, candidates) == FirstExisting(fs, candidates[k..])
    {
      assert candidates[k..][1..] == candidates[k + 1..];
      if candidates[k] in fs {
        found := true;
        break;
      }
      k := k + 1;
    }
  }

  /** The page loop of `check_content_integrity`. */
  method TallyContent(fs: FileSystem, pages: seq<string>) returns (tally: ContentTally)
    ensures tally == ContentTallyOf(fs, pages)
  {
    var clean: nat := 0;
    var issues: seq<IssueEntry> := [];
    var i := 0;
    while i < |pages|
      invariant 0 <= i <= |pages|
      invariant ContentTallyOf(fs, pages[..i]) == ContentTally(clean, issues)
    {
      var page := pages[i];
      assert pages[..i + 1][..i] == pages[..i];
      var content := Read(fs, PagePath(page));
      if content.None? {
        issues := issues + [ReadError(page)];
      } else {
        var found := PageIssues(content.value);
        if found == [] {
          clean := clean + 1;
        } else {
          issues := issues + [PageProblems(page, found)];
        }
      }
      i := i + 1;
    }
    assert pages[..i] == pages;
    tally := ContentTally(clean, issues);
  }

  /** The link loop of `validate_internal_links` over the sampled pages. */
  method ScanLinks(fs: FileSystem, pages: seq<string>) returns (report: LinkReport)
    ensures report == LinkReportOf(fs, pages)
  {
    report := LinkReport(0, 0, []);
    var i := 0;
    while i < |pages|
      invariant 0 <= i <= |pages|
      invariant report == LinkReportOf(fs, pages[..i])
    {
      var page := pages[i];
      assert pages[..i + 1][..i] == pages[..i];
      var content := Read(fs, PagePath(page));
      if content.Some? {
        report := ScanPageLinks(fs, page, report, HtmlLinks(content.value));
      }
      i := i + 1;
    }
    assert pages[..i] == pages;
  }

  /** The loop over the links of one page. */
  method ScanPageLinks(fs: FileSystem, page: string, start: LinkReport, links: seq<string>) returns (report: LinkReport)
    ensures report == CheckLinks(fs, page, start, links)
  {
    report := start;
    var j := 0;
    while j < |links|
      invariant 0 <= j <= |links|
      invariant report == CheckLinks(fs, page, start, links[..j])
    {
      assert links[..j + 1][..j] == links[..j];
      var link := links[j];
      if IsInternal(link) {
        if Normalize(PathJoin(PagesDir, link)) in fs {
          report := report.(total := report.total + 1, working := report.working + 1);
        } else {
          report := report.(total := report.total + 1, broken := report.broken + [page + " -> " + link]);
        }
      }
      j := j + 1;
    }
    assert links[..j] == links;
  }

  /**
   * `SiteComparator`: the checks over a pages directory (`listing` in glob
   * order, file texts in `fs`) and two sites reached through `fetch` at URLs
   * built by `join`. A check whose page listing raises leaves `results` as it was.
   */
  class SiteComparator {
    const fs: FileSystem
    const listing: seq<string>
    const fetch: string -> Fetch
    const join: (string, string) -> string
    var results: Results

    constructor (fs: FileSystem, listing: seq<string>, fetch: string -> Fetch, join: (string, string) -> string)
      ensures this.fs == fs && this.listing == listing && this.fetch == fetch && this.join == join
      ensures results == Results(map[], None, None, None, None)
    {
      this.fs := fs;
      this.listing := listing;
      this.fetch := fetch;
      this.join := join;
      results := Results(map[], None, None, None, None);
    }

    method GetAllLocalPages() returns (pages: Option<seq<string>>)
      ensures pages == LocalPages(fs, listing)
    {
      var names: seq<string> := [];
      var i := 0;
      while i < |listing|
        invariant 0 <= i <= |listing|
        invariant LocalNames(fs, listing[..i]) == Some(names)
      {
        var name := listing[i];
        assert listing[..i + 1][..i] == listing[..i];
        var text := Read(fs, PagePath(name));
        if text.None? {
          LocalNamesFailureSticks(fs, listing, i + 1);
          return None;
        }
        if KeepPage(name, text.value) {
          names := names + [name];
        }
        i := i + 1;
      }
      assert listing[..i] == listing;
      pages := Some(Sort(names));
    }

    /** The counters are returned with the table; `tested_pages` is the size of the table. */
    method ComparePageAccessibility() returns (r: Option<Accessibility>)
      modifies this
      ensures LocalPages(fs, listing).None? ==> r.None? && results == old(results)
      ensures LocalPages(fs, listing).Some? ==>
        var a := AccessibilityOf(fetch, join, Take(LocalPages(fs, listing).value, 10));
        r == Some(a) && results == old(results).(pageComparison := a.results)
    {
      var local := GetAllLocalPages();
      if local.None? {
        return None;
      }
      var acc := CompareAll(fetch, join, Take(local.value, 10));
      results := results.(pageComparison := acc.results);
      r := Some(acc);
    }

    method ValidateInternalLinks() returns (r: Option<(nat, nat)>)
      modifies this
      ensures LocalPages(fs, listing).None? ==> r.None? && results == old(results)
      ensures LocalPages(fs, listing).Some? ==>
        var l := LinkReportOf(fs, Take(LocalPages(fs, listing).value, 5));
        r == Some((l.working, l.total)) && results == old(results).(linkValidation := Some(l))
    {
      var local := GetAllLocalPages();
      if local.None? {
        return None;
      }
      var report := ScanLinks(fs, Take(local.value, 5));
      results := results.(linkValidation := Some(report));
      r := Some((report.working, report.total));
    }

    method ValidateImages() returns (r: Option<(nat, nat)>)
      modifies this
      ensures LocalPages(fs, listing).None? ==> r.None? && results == old(results)
      ensures LocalPages(fs, listing).Some? ==>
        var m := ImageReportOf(fs, Take(LocalPages(fs, listing).value, 5));
        r == Some((m.working, m.total)) && results == old(results).(imageValidation := Some(m))
    {
      var local := GetAllLocalPages();
      if local.None? {
        return None;
      }
      var report := ScanImages(fs, Take(local.value, 5));
      results := results.(imageValidation := Some(report));
      r := Some((report.working, report.total));
    }

    method CheckContentIntegrity() returns (r: Option<(nat, nat)>)
      modifies this
      ensures LocalPages(fs, listing).None? ==> r.None? && results == old(results)
      ensures LocalPages(fs, listing).Some? ==>
        var pages := LocalPages(fs, listing).value;
        var c := ContentTallyOf(fs, pages);
        r == Some((c.clean, |pages|)) && results == old(results).(contentValidation := Some(c))
    {
      var local := GetAllLocalPages();
      if local.None? {
        return None;
      }
      var tally := TallyContent(fs, local.value);
      results := results.(contentValidation := Some(tally));
      r := Some((tally.clean, |local.value|));
    }

    /** `generate_comprehensive_report`: `None` is the exception `main` reports as a failed comparison. */
    method GenerateComprehensiveReport() returns (score: Option<real>)
      modifies this
      ensures LocalPages(fs, listing).None? ==> score.None? && results == old(results)
      ensures LocalPages(fs, listing).Some? ==>
        var pages := LocalPages(fs, listing).value;
        var s := ReportOf(fs, fetch, join, pages);
        score == Some(s.overall)
        && results == Results(AccessibilityOf(fetch, join, Take(pages, 10)).results,
          Some(LinkReportOf(fs, Take(pages, 5))), Some(ImageReportOf(fs, Take(pages, 5))),
          Some(ContentTallyOf(fs, pages)), Some(s))
    {
      var accessibility := ComparePageAccessibility();
      if accessibility.None? {
        return None;
      }
      var links := ValidateInternalLinks();
      var images := ValidateImages();
      var content := CheckContentIntegrity();
      var newAccessible, tested := accessibility.value.newCount, |accessibility.value.results|;
      var (workingLinks, totalLinks) := links.value;
      var (workingImages, totalImages) := images.value;
      var (cleanPages, totalPages) := content.value;
      var s := SummaryOf(newAccessible, tested, workingLinks, totalLinks,
        workingImages, totalImages, cleanPages, totalPages);
      results := results.(summary := Some(s));
      score := Some(s.overall);
    }
  }
}
