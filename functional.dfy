/**
 * The functional test suite over the mirrored pages: six tests (critical
 * navigation pages, image-map areas, preserved external domains, banner
 * usage, content completeness and the file structure) and the score counting
 * how many of them passed.
 */
module FunctionalTests {
  import opened Strings
  import opened Rewriting
  import opened Attributes
  import opened Site

  // ---------------------------------------------------------------------
  // test_navigation_structure
  // ---------------------------------------------------------------------

  const CriticalPages: seq<string> :=
    ["home_.html", "honours.html", "videos.html", "season2022_.html", "nextgame.html", "details.html", "records.html"]

  /** Every critical page is on disk. */
  predicate CriticalPresent(fs: FileSystem) {
    forall p :: p in CriticalPages ==> PagePath(p) in fs
  }

  datatype Navigation = Navigation(existing: seq<string>, missing: seq<string>, links: map<string, seq<string>>)

  function NavigationOf(fs: FileSystem, pages: seq<string>): Navigation
    decreases |pages|
  {
    if |pages| == 0 then Navigation([], [], map[])
    else
      var n := NavigationOf(fs, pages[..|pages| - 1]);
      var page := pages[|pages| - 1];
      if PagePath(page) in fs then
        n.(existing := n.existing + [page], links := n.links[page := NavLinks(fs[PagePath(page)])])
      else n.(missing := n.missing + [page])
  }

  /**
   * Every page checked is found or missing, never both: `missing` lists
   * exactly the absent ones, and links are recorded for exactly the found ones.
   */
  lemma {:induction false} NavigationSpec(fs: FileSystem, pages: seq<string>)
    ensures |NavigationOf(fs, pages).existing| + |NavigationOf(fs, pages).missing| == |pages|
    ensures forall p :: p in NavigationOf(fs, pages).missing <==> p in pages && PagePath(p) !in fs
    ensures forall p :: p in NavigationOf(fs, pages).existing <==> p in pages && PagePath(p) in fs
    ensures forall p :: p in NavigationOf(fs, pages).links <==> p in pages && PagePath(p) in fs
    ensures forall p :: p in NavigationOf(fs, pages).links ==>
      NavigationOf(fs, pages).links[p] == NavLinks(fs[PagePath(p)])
    decreases |pages|
  {
    if |pages| > 0 {
      var n := |pages| - 1;
      NavigationSpec(fs, pages[..n]);
      assert pages == pages[..n] + [pages[n]];
    }
  }

  /** The navigation test passes exactly when all seven critical pages exist. */
  lemma NavigationPasses(fs: FileSystem)
    ensures |NavigationOf(fs, CriticalPages).existing| == |CriticalPages|
      <==> forall p :: p in CriticalPages ==> PagePath(p) in fs
  {
    NavigationSpec(fs, CriticalPages);
    if |NavigationOf(fs, CriticalPages).existing| == |CriticalPages| {
      assert NavigationOf(fs, CriticalPages).missing == [];
    } else {
      var m := NavigationOf(fs, CriticalPages).missing;
      assert m[0] in m;
    }
  }

  // ---------------------------------------------------------------------
  // test_image_maps_functionality
  // ---------------------------------------------------------------------

  /** `re.findall(r'<area[^>]*>', s)`: each `<area` up to the first `>` after it. */
  function AreaTags(s: string): (r: seq<string>)
    ensures forall a :: a in r ==> StartsWith(a, "<area") && EndsWith(a, ">")
    decreases |s|
  {
    if |s| == 0 then []
    else if StartsWith(s, "<area") then
      match IndexOf(s[5..], ">")
      case Some(k) =>
        var tag := s[..k + 6];
        assert tag[..5] == s[..5] && tag[|tag| - 1..] == s[5..][k..k + 1];
        [tag] + AreaTags(s[k + 6..])
      case None => AreaTags(s[1..])
    else AreaTags(s[1..])
  }

  /** An area works when it has both `coords=` and `shape=`; `href` is not required. */
  predicate AreaWorking(area: string) {
    Contains(area, "coords=") && Contains(area, "shape=")
  }

  datatype MapTally = MapTally(pagesWithMaps: nat, total: nat, working: nat, broken: seq<string>)

  function CheckAreas(page: string, t: MapTally, areas: seq<string>): MapTally
    decreases |areas|
  {
    if |areas| == 0 then t
    else
      var u := CheckAreas(page, t, areas[..|areas| - 1]);
      var area := areas[|areas| - 1];
      if AreaWorking(area) then u.(total := u.total + 1, working := u.working + 1)
      else u.(total := u.total + 1, broken := u.broken + [page + ": " + Take(area, 50) + "..."])
  }

  function CheckMaps(page: string, t: MapTally, maps: seq<string>): MapTally
    decreases |maps|
  {
    if |maps| == 0 then t
    else CheckAreas(page, CheckMaps(page, t, maps[..|maps| - 1]), AreaTags(maps[|maps| - 1]))
  }

  /**
   * The tally over the listed pages. `mapsOf(content)` is the list of map
   * bodies `re.findall(r'<map[^>]*name="([^"]*)"[^>]*>(.*?)</map>', content, re.DOTALL)`
   * yields; an unreadable page is skipped.
   */
  function MapTallyOf(fs: FileSystem, mapsOf: string -> seq<string>, pages: seq<string>): MapTally
    decreases |pages|
  {
    if |pages| == 0 then MapTally(0, 0, 0, [])
    else
      var t := MapTallyOf(fs, mapsOf, pages[..|pages| - 1]);
      var page := pages[|pages| - 1];
      match Read(fs, PagePath(page))
      case None => t
      case Some(content) =>
        var maps := mapsOf(content);
        if |maps| == 0 then t
        else CheckMaps(page, t.(pagesWithMaps := t.pagesWithMaps + 1), maps)
  }

  /** Every area is counted once, as working or as broken. */
  lemma {:induction false} CheckAreasPartition(page: string, t: MapTally, areas: seq<string>)
    requires t.working + |t.broken| == t.total
    ensures CheckAreas(page, t, areas).working + |CheckAreas(page, t, areas).broken| == CheckAreas(page, t, areas).total
    ensures CheckAreas(page, t, areas).total == t.total + |areas|
    decreases |areas|
  {
    if |areas| > 0 {
      CheckAreasPartition(page, t, areas[..|areas| - 1]);
    }
  }

  lemma {:induction false} CheckMapsPartition(page: string, t: MapTally, maps: seq<string>)
    requires t.working + |t.broken| == t.total
    ensures CheckMaps(page, t, maps).working + |CheckMaps(page, t, maps).broken| == CheckMaps(page, t, maps).total
    decreases |maps|
  {
    if |maps| > 0 {
      CheckMapsPartition(page, t, maps[..|maps| - 1]);
      CheckAreasPartition(page, CheckMaps(page, t, maps[..|maps| - 1]), AreaTags(maps[|maps| - 1]));
    }
  }

  /**
   * `working_areas + len(broken_areas) == total_areas`, so the test
   * (`working_areas == total_areas`) passes exactly when no area is broken,
   * and vacuously when there are no areas.
   */
  lemma {:induction false} MapPartition(fs: FileSystem, mapsOf: string -> seq<string>, pages: seq<string>)
    ensures MapTallyOf(fs, mapsOf, pages).working + |MapTallyOf(fs, mapsOf, pages).broken|
      == MapTallyOf(fs, mapsOf, pages).total
    ensures MapTallyOf(fs, mapsOf, pages).working == MapTallyOf(fs, mapsOf, pages).total
      <==> MapTallyOf(fs, mapsOf, pages).broken == []
    decreases |pages|
  {
    if |pages| > 0 {
      var t := MapTallyOf(fs, mapsOf, pages[..|pages| - 1]);
      MapPartition(fs, mapsOf, pages[..|pages| - 1]);
      var page := pages[|pages| - 1];
      if PagePath(page) in fs {
        var maps := mapsOf(fs[PagePath(page)]);
        if |maps| > 0 {
          CheckMapsPartition(page, t.(pagesWithMaps := t.pagesWithMaps + 1), maps);
        }
      }
    }
  }

  // ---------------------------------------------------------------------
  // test_external_links_preserved
  // ---------------------------------------------------------------------

  const ExpectedDomains: seq<string> :=
    ["youtube.com", "youtu.be", "proboards.com", "proboards20.com", "streetmap.co.uk", "twitter.com", "deliveroo.co.uk"]

  predicate IsWebUrl(v: string) {
    StartsWith(v, "http://") || StartsWith(v, "https://")
  }

  /** `re.findall(r'href="(https?://[^"]*)"', content)`. */
  function ExternalRefs(content: string): (r: seq<string>)
    ensures forall v :: v in r ==> IsWebUrl(v) && '"' !in v
  {
    Values(content, HrefKey, false, IsWebUrl)
  }

  /** The expected domains one of whose names occurs in `link`. */
  function LinkDomains(link: string): set<string> {
    set d | d in ExpectedDomains && Contains(link, d)
  }

  datatype External = External(found: set<string>, links: seq<string>)

  function CheckRefs(page: string, e: External, refs: seq<string>): External
    decreases |refs|
  {
    if |refs| == 0 then e
    else
      var f := CheckRefs(page, e, refs[..|refs| - 1]);
      var link := refs[|refs| - 1];
      External(f.found + LinkDomains(link), f.links + [page + ": " + link])
  }

  /** The external-link scan over the listed pages; an unreadable page is skipped. */
  function ExternalOf(fs: FileSystem, pages: seq<string>): External
    decreases |pages|
  {
    if |pages| == 0 then External({}, [])
    else
      var e := ExternalOf(fs, pages[..|pages| - 1]);
      var page := pages[|pages| - 1];
      match Read(fs, PagePath(page))
      case None => e
      case Some(content) => CheckRefs(page, e, ExternalRefs(content))
  }

  lemma {:induction false} CheckRefsExpected(page: string, e: External, refs: seq<string>)
    requires forall d :: d in e.found ==> d in ExpectedDomains
    ensures forall d :: d in CheckRefs(page, e, refs).found ==> d in ExpectedDomains
    decreases |refs|
  {
    if |refs| > 0 {
      CheckRefsExpected(page, e, refs[..|refs| - 1]);
    }
  }

  /** Only expected domains are ever recorded as found. */
  lemma {:induction false} FoundAreExpected(fs: FileSystem, pages: seq<string>)
    ensures forall d :: d in ExternalOf(fs, pages).found ==> d in ExpectedDomains
    decreases |pages|
  {
    if |pages| > 0 {
      FoundAreExpected(fs, pages[..|pages| - 1]);
      var page := pages[|pages| - 1];
      if PagePath(page) in fs {
        CheckRefsExpected(page, ExternalOf(fs, pages[..|pages| - 1]), ExternalRefs(fs[PagePath(page)]));
      }
    }
  }

  predicate NotIn(found: set<string>, d: string) {
    d !in found
  }

  /** `[d for d in expected if d not in found]`: the expected domains not found, in list order. */
  function MissingDomains(found: set<string>): (r: seq<string>)
    ensures forall d :: d in r <==> d in ExpectedDomains && d !in found
  {
    Filter(ExpectedDomains, d => NotIn(found, d))
  }

  /** The 80% threshold: `len(found) >= len(expected) * 0.8`. */
  predicate ExternalPasses(found: set<string>) {
    |found| as real >= |ExpectedDomains| as real * 0.8
  }

  /** Of the seven expected domains, at least six must be found. */
  lemma ExternalPassesIff(found: set<string>)
    ensures ExternalPasses(found) <==> |found| >= 6
  {
  }

  /** The found domains number at most seven. */
  lemma FoundAtMostSeven(found: set<string>)
    requires forall d :: d in found ==> d in ExpectedDomains
    ensures |found| <= 7
  {
    var all := set d | d in ExpectedDomains;
    ElemsCard(ExpectedDomains);
    assert found <= all;
    SubsetCard(found, all);
  }

  /** A list has at least as many entries as distinct elements. */
  lemma {:induction false} ElemsCard(s: seq<string>)
    ensures |set d | d in s| <= |s|
    decreases |s|
  {
    if |s| > 0 {
      var init := s[..|s| - 1];
      ElemsCard(init);
      assert s == init + [s[|s| - 1]];
      assert (set d | d in s) == (set d | d in init) + {s[|s| - 1]};
    }
  }

  lemma SubsetCard(a: set<string>, b: set<string>)
    requires a <= b
    ensures |a| <= |b|
  {
    assert b == a + (b - a);
  }

  // ---------------------------------------------------------------------
  // test_banner_consistency
  // ---------------------------------------------------------------------

  /** A `src` is taken for a banner when its lowercase form names a banner, `img0` or a header. */
  predicate IsBannerSrc(src: string) {
    var l := Lower(src);
    Contains(l, "banner") || Contains(l, "img0") || Contains(l, "header")
  }

  /** `banner_usage[src].append(page)`. */
  function AddUse(usage: map<string, seq<string>>, src: string, page: string): map<string, seq<string>> {
    usage[src := (if src in usage then usage[src] else []) + [page]]
  }

  function RecordBanners(page: string, usage: map<string, seq<string>>, srcs: seq<string>): map<string, seq<string>>
    decreases |srcs|
  {
    if |srcs| == 0 then usage
    else
      var u := RecordBanners(page, usage, srcs[..|srcs| - 1]);
      var src := srcs[|srcs| - 1];
      if IsBannerSrc(src) then AddUse(u, src, page) else u
  }

  datatype Banners = Banners(totalPages: nat, usage: map<string, seq<string>>)

  /** The banner scan over the listed pages; an unreadable page is neither counted nor scanned. */
  function BannersOf(fs: FileSystem, pages: seq<string>): Banners
    decreases |pages|
  {
    if |pages| == 0 then Banners(0, map[])
    else
      var b := BannersOf(fs, pages[..|pages| - 1]);
      var page := pages[|pages| - 1];
      match Read(fs, PagePath(page))
      case None => b
      case Some(content) => Banners(b.totalPages + 1, RecordBanners(page, b.usage, ImageRefs(content)))
  }

  /** Keys that are banner srcs with non-empty page lists. */
  ghost predicate UsageWellFormed(usage: map<string, seq<string>>) {
    forall k :: k in usage ==> IsBannerSrc(k) && |usage[k]| > 0
  }

  lemma {:induction false} RecordBannersWellFormed(page: string, usage: map<string, seq<string>>, srcs: seq<string>)
    requires UsageWellFormed(usage)
    ensures UsageWellFormed(RecordBanners(page, usage, srcs))
    decreases |srcs|
  {
    if |srcs| > 0 {
      RecordBannersWellFormed(page, usage, srcs[..|srcs| - 1]);
    }
  }

  /** Only banner srcs are recorded, each with at least one page. */
  lemma {:induction false} BannersWellFormed(fs: FileSystem, pages: seq<string>)
    ensures UsageWellFormed(BannersOf(fs, pages).usage)
    decreases |pages|
  {
    if |pages| > 0 {
      BannersWellFormed(fs, pages[..|pages| - 1]);
      var page := pages[|pages| - 1];
      if PagePath(page) in fs {
        RecordBannersWellFormed(page, BannersOf(fs, pages[..|pages| - 1]).usage, ImageRefs(fs[PagePath(page)]));
      }
    }
  }

  /** The banners used by more than one page. */
  function SharedBanners(usage: map<string, seq<string>>): set<string> {
    set k | k in usage && |usage[k]| > 1
  }

  /** The banners used by one page only. */
  function SingleBanners(usage: map<string, seq<string>>): set<string> {
    set k | k in usage && |usage[k]| <= 1
  }

  /** The shared banners among the keys in `done`. */
  function SharedAmong(usage: map<string, seq<string>>, done: set<string>): set<string> {
    set k | k in done && k in usage && |usage[k]| > 1
  }

  /** The single-use banners among the keys in `done`. */
  function SingleAmong(usage: map<string, seq<string>>, done: set<string>): set<string> {
    set k | k in done && k in usage && |usage[k]| <= 1
  }

  /** Visiting one more key adds it to exactly one of the two groups. */
  lemma VisitKey(usage: map<string, seq<string>>, done: set<string>, k: string)
    requires k in usage && k !in done
    ensures |usage[k]| > 1 ==> |SharedAmong(usage, done + {k})| == |SharedAmong(usage, done)| + 1
    ensures |usage[k]| > 1 ==> SingleAmong(usage, done + {k}) == SingleAmong(usage, done)
    ensures |usage[k]| <= 1 ==> |SingleAmong(usage, done + {k})| == |SingleAmong(usage, done)| + 1
    ensures |usage[k]| <= 1 ==> SharedAmong(usage, done + {k}) == SharedAmong(usage, done)
  {
    if |usage[k]| > 1 {
      assert SharedAmong(usage, done + {k}) == SharedAmong(usage, done) + {k};
    } else {
      assert SingleAmong(usage, done + {k}) == SingleAmong(usage, done) + {k};
    }
  }

  /** The consistency loop over `banner_usage.items()`: shared and single-use banners partition the keys. */
  method CountConsistency(usage: map<string, seq<string>>) returns (consistent: nat, inconsistent: nat)
    ensures consistent == |SharedBanners(usage)| && inconsistent == |SingleBanners(usage)|
    ensures consistent + inconsistent == |usage|
  {
    consistent, inconsistent := 0, 0;
    var remaining := usage.Keys;
    ghost var done: set<string> := {};
    while remaining != {}
      invariant remaining <= usage.Keys && done == usage.Keys - remaining
      invariant consistent == |SharedAmong(usage, done)| && inconsistent == |SingleAmong(usage, done)|
      decreases |remaining|
    {
      var k :| k in remaining;
      VisitKey(usage, done, k);
      if |usage[k]| > 1 {
        consistent := consistent + 1;
      } else {
        inconsistent := inconsistent + 1;
      }
      remaining := remaining - {k};
      done := done + {k};
    }
    assert done == usage.Keys;
    assert SharedAmong(usage, done) == SharedBanners(usage);
    assert SingleAmong(usage, done) == SingleBanners(usage);
    BannersPartition(usage);
  }

  /** Every banner is either shared or single-use, never both. */
  lemma BannersPartition(usage: map<string, seq<string>>)
    ensures |SharedBanners(usage)| + |SingleBanners(usage)| == |usage|
  {
    assert SharedBanners(usage) + SingleBanners(usage) == usage.Keys;
    assert SharedBanners(usage) * SingleBanners(usage) == {};
  }

  // ---------------------------------------------------------------------
  // test_content_completeness
  // ---------------------------------------------------------------------

  /** Both html tags, both body tags, more than 1000 characters, and not a captured 404. */
  predicate PageComplete(content: string) {
    Contains(content, "<html") && Contains(content, "</html>")
    && Contains(content, "<body") && Contains(content, "</body>")
    && |content| > 1000 && !Is404(content)
  }

  datatype CompletenessIssue = MissingHtmlTags | MissingBodyTags | TooShort(length: nat) | ErrorPage

  function CompletenessIssues(content: string): seq<CompletenessIssue> {
    (if !(Contains(content, "<html") && Contains(content, "</html>")) then [MissingHtmlTags] else [])
    + (if !(Contains(content, "<body") && Contains(content, "</body>")) then [MissingBodyTags] else [])
    + (if |content| <= 1000 then [TooShort(|content|)] else [])
    + (if Is404(content) then [ErrorPage] else [])
  }

  /** An incomplete page always names at least one reason. */
  lemma IncompleteHasIssues(content: string)
    ensures !PageComplete(content) <==> CompletenessIssues(content) != []
  {
  }

  datatype IncompleteEntry = Incomplete(page: string, issues: seq<CompletenessIssue>) | ReadFailure(page: string)

  datatype Completeness = Completeness(total: nat, complete: nat, incomplete: seq<IncompleteEntry>)

  /** The completeness scan; a page that cannot be read is listed as incomplete but not counted in the total. */
  function CompletenessOf(fs: FileSystem, pages: seq<string>): Completeness
    decreases |pages|
  {
    if |pages| == 0 then Completeness(0, 0, [])
    else
      var c := CompletenessOf(fs, pages[..|pages| - 1]);
      var page := pages[|pages| - 1];
      match Read(fs, PagePath(page))
      case None => c.(incomplete := c.incomplete + [ReadFailure(page)])
      case Some(content) =>
        if PageComplete(content) then c.(total := c.total + 1, complete := c.complete + 1)
        else c.(total := c.total + 1, incomplete := c.incomplete + [Incomplete(page, CompletenessIssues(content))])
  }

  /** Every listed page is complete or listed as incomplete; only readable pages enter the total. */
  lemma {:induction false} CompletenessPartition(fs: FileSystem, pages: seq<string>)
    ensures CompletenessOf(fs, pages).complete + |CompletenessOf(fs, pages).incomplete| == |pages|
    ensures CompletenessOf(fs, pages).complete <= CompletenessOf(fs, pages).total <= |pages|
    ensures (forall p :: p in pages ==> PagePath(p) in fs) ==> CompletenessOf(fs, pages).total == |pages|
    decreases |pages|
  {
    if |pages| > 0 {
      CompletenessPartition(fs, pages[..|pages| - 1]);
      assert forall p :: p in pages[..|pages| - 1] ==> p in pages;
    }
  }

  /** `complete / total * 100`, 0 with no readable page. */
  function CompletionRate(c: Completeness): real {
    if c.total > 0 then c.complete as real / c.total as real * 100.0 else 0.0
  }

  /** The completeness test passes exactly when at least 95% of a non-empty total is complete. */
  lemma CompletenessPassesIff(c: Completeness)
    ensures CompletionRate(c) >= 95.0 <==> c.total > 0 && 20 * c.complete >= 19 * c.total
  {
    if c.total > 0 {
      PercentAtLeast(c.complete, c.total, 95.0);
    }
  }

  // ---------------------------------------------------------------------
  // test_file_structure_integrity
  // ---------------------------------------------------------------------

  const CriticalFiles: seq<string> := ["pages/home_.html", "pages/img0.gif", "assets/images/banner.gif"]

  datatype FileStructure = FileStructure(htmlFiles: nat, imageFiles: nat, criticalFound: nat, criticalTotal: nat)

  predicate Exists(fs: FileSystem, path: string) {
    path in fs
  }

  /** The counts of the file-structure test; the critical files are reported but do not decide it. */
  function FileStructureOf(fs: FileSystem, listing: seq<string>, images: seq<string>): (f: FileStructure)
    ensures f.htmlFiles == |listing| && f.imageFiles == |images|
    ensures f.criticalFound <= f.criticalTotal == 3
  {
    FileStructure(|listing|, |images|, |Filter(CriticalFiles, p => Exists(fs, p))|, |CriticalFiles|)
  }

  /** All three critical files are reported found exactly when all three exist. */
  lemma CriticalFilesFound(fs: FileSystem, listing: seq<string>, images: seq<string>)
    ensures FileStructureOf(fs, listing, images).criticalFound == 3 <==> forall p :: p in CriticalFiles ==> p in fs
  {
    var keep := p => Exists(fs, p);
    if forall p :: p in CriticalFiles ==> p in fs {
      FilterKeepsAll(CriticalFiles, keep);
    } else {
      var p :| p in CriticalFiles && p !in fs;
      assert p !in Filter(CriticalFiles, keep);
      FilterDropped(CriticalFiles, keep);
    }
  }

  lemma {:induction false} FilterKeepsAll(s: seq<string>, keep: string -> bool)
    requires forall x :: x in s ==> keep(x)
    ensures Filter(s, keep) == s
    decreases |s|
  {
    if |s| > 0 {
      FilterKeepsAll(s[1..], keep);
    }
  }

  lemma {:induction false} FilterDropped(s: seq<string>, keep: string -> bool)
    requires Filter(s, keep) != s
    ensures |Filter(s, keep)| < |s|
    decreases |s|
  {
    if |s| > 0 && keep(s[0]) {
      FilterDropped(s[1..], keep);
    }
  }

  /** More than 1000 HTML pages and more than 100 GIF images. */
  predicate FileStructurePasses(f: FileStructure) {
    f.htmlFiles > 1000 && f.imageFiles > 100
  }

  // ---------------------------------------------------------------------
  // run_full_functional_test_suite
  // ---------------------------------------------------------------------

  /** How one test ended; a test that raised counts as not passed. */
  datatype TestOutcome = Passed | Failed | Errored

  function PassedCount(outcomes: seq<TestOutcome>): (n: nat)
    ensures n <= |outcomes|
    ensures n == |outcomes| <==> forall i :: 0 <= i < |outcomes| ==> outcomes[i] == Passed
    decreases |outcomes|
  {
    if |outcomes| == 0 then 0
    else
      var rest := PassedCount(outcomes[1..]);
      assert forall i :: 1 <= i < |outcomes| ==> outcomes[i] == outcomes[1..][i - 1];
      (if outcomes[0] == Passed then 1 else 0) + rest
  }

  /** `passed / total * 100`, 0 for an empty suite. */
  function FunctionalScore(outcomes: seq<TestOutcome>): (score: real)
    ensures 0.0 <= score <= 100.0
  {
    if |outcomes| > 0 then
      PercentBound(PassedCount(outcomes), |outcomes|);
      PassedCount(outcomes) as real / |outcomes| as real * 100.0
    else 0.0
  }

  /** A share of a positive total, as a percentage, lies between 0 and 100. */
  lemma PercentBound(n: nat, total: nat)
    requires 0 < total && n <= total
    ensures 0.0 <= n as real / total as real * 100.0 <= 100.0
  {
    assert n as real / total as real <= 1.0;
  }

  datatype SuiteStatus = Excellent | Good | NeedsWork

  function SuiteStatusOf(score: real): (s: SuiteStatus)
    ensures s == Excellent <==> score >= 90.0
    ensures s == Good <==> 75.0 <= score < 90.0
    ensures s == NeedsWork <==> score < 75.0
  {
    if score >= 90.0 then Excellent else if score >= 75.0 then Good else NeedsWork
  }

  /**
   * With six tests, the suite is excellent only when every test passes, and
   * `main` succeeds (score at least 75) exactly when at most one test did not pass.
   */
  lemma SixTestBands(outcomes: seq<TestOutcome>)
    requires |outcomes| == 6
    ensures SuiteStatusOf(FunctionalScore(outcomes)) == Excellent <==> PassedCount(outcomes) == 6
    ensures FunctionalScore(outcomes) >= 75.0 <==> PassedCount(outcomes) >= 5
  {
    var n := PassedCount(outcomes);
    assert FunctionalScore(outcomes) * 6.0 == n as real * 100.0;
  }

  // ---------------------------------------------------------------------
  // The tester
  // ---------------------------------------------------------------------

  datatype TestResults = TestResults(
    navigation: Option<Navigation>,
    imageMaps: Option<MapTally>,
    externalLinks: Option<(External, seq<string>)>,
    banners: Option<(Banners, nat)>,
    completeness: Option<Completeness>,
    fileStructure: Option<FileStructure>)

  /**
   * `FunctionalTester` over a pages directory (`listing` in glob order, texts
   * in `fs`), the GIF files under `assets/images` (`images`, empty when the
   * assets directory is absent) and the map bodies `mapsOf` finds in a page.
   */
  class FunctionalTester {
    const fs: FileSystem
    const listing: seq<string>
    const images: seq<string>
    const mapsOf: string -> seq<string>
    var testResults: TestResults

    constructor (fs: FileSystem, listing: seq<string>, images: seq<string>, mapsOf: string -> seq<string>)
      ensures this.fs == fs && this.listing == listing && this.images == images && this.mapsOf == mapsOf
      ensures testResults == TestResults(None, None, None, None, None, None)
    {
      this.fs := fs;
      this.listing := listing;
      this.images := images;
      this.mapsOf := mapsOf;
      testResults := TestResults(None, None, None, None, None, None);
    }

    method TestNavigationStructure() returns (passed: bool)
      modifies this
      ensures testResults == old(testResults).(navigation := Some(NavigationOf(fs, CriticalPages)))
      ensures passed <==> CriticalPresent(fs)
    {
      var existing: seq<string> := [];
      var missing: seq<string> := [];
      var links: map<string, seq<string>> := map[];
      var i := 0;
      while i < |CriticalPages|
        invariant 0 <= i <= |CriticalPages|
        invariant NavigationOf(fs, CriticalPages[..i]) == Navigation(existing, missing, links)
      {
        var page := CriticalPages[i];
        assert CriticalPages[..i + 1][..i] == CriticalPages[..i];
        if PagePath(page) in fs {
          existing := existing + [page];
          links := links[page := NavLinks(fs[PagePath(page)])];
        } else {
          missing := missing + [page];
        }
        i := i + 1;
      }
      assert CriticalPages[..i] == CriticalPages;
      testResults := testResults.(navigation := Some(Navigation(existing, missing, links)));
      NavigationPasses(fs);
      passed := |existing| == |CriticalPages|;
    }

    method TestImageMapsFunctionality() returns (passed: bool)
      modifies this
      ensures var t := MapTallyOf(fs, mapsOf, listing);
        testResults == old(testResults).(imageMaps := Some(t.(broken := Take(t.broken, 5))))
        && (passed <==> t.broken == [])
    {
      var t := MapTally(0, 0, 0, []);
      var i := 0;
      while i < |listing|
        invariant 0 <= i <= |listing|
        invariant t == MapTallyOf(fs, mapsOf, listing[..i])
        invariant testResults == old(testResults)
      {
        var page := listing[i];
        assert listing[..i + 1][..i] == listing[..i];
        var content := Read(fs, PagePath(page));
        if content.Some? {
          var maps := mapsOf(content.value);
          if |maps| > 0 {
            t := ScanMaps(page, t.(pagesWithMaps := t.pagesWithMaps + 1), maps);
          }
        }
        i := i + 1;
      }
      assert listing[..i] == listing;
      MapPartition(fs, mapsOf, listing);
      testResults := testResults.(imageMaps := Some(t.(broken := Take(t.broken, 5))));
      passed := t.working == t.total;
    }

    method TestExternalLinksPreserved() returns (passed: bool)
      modifies this
      ensures var e := ExternalOf(fs, listing);
        testResults == old(testResults).(externalLinks := Some((e, MissingDomains(e.found))))
        && (passed <==> |e.found| >= 6)
    {
      var e := External({}, []);
      var i := 0;
      while i < |listing|
        invariant 0 <= i <= |listing|
        invariant e == ExternalOf(fs, listing[..i])
        invariant testResults == old(testResults)
      {
        var page := listing[i];
        assert listing[..i + 1][..i] == listing[..i];
        var content := Read(fs, PagePath(page));
        if content.Some? {
          e := ScanExternal(page, e, ExternalRefs(content.value));
        }
        i := i + 1;
      }
      assert listing[..i] == listing;
      testResults := testResults.(externalLinks := Some((e, MissingDomains(e.found))));
      ExternalPassesIff(e.found);
      passed := |e.found| as real >= |ExpectedDomains| as real * 0.8;
    }

    method TestBannerConsistency() returns (passed: bool)
      modifies this
      ensures var b := BannersOf(fs, listing);
        testResults == old(testResults).(banners := Some((b, |SharedBanners(b.usage)|)))
        && (passed <==> |b.usage| > 0)
    {
      var totalPages: nat := 0;
      var usage: map<string, seq<string>> := map[];
      var i := 0;
      while i < |listing|
        invariant 0 <= i <= |listing|
        invariant BannersOf(fs, listing[..i]) == Banners(totalPages, usage)
      {
        var page := listing[i];
        assert listing[..i + 1][..i] == listing[..i];
        var content := Read(fs, PagePath(page));
        if content.Some? {
          totalPages := totalPages + 1;
          var srcs := ImageRefs(content.value);
          ghost var start := usage;
          var j := 0;
          while j < |srcs|
            invariant 0 <= j <= |srcs|
            invariant usage == RecordBanners(page, start, srcs[..j])
          {
            assert srcs[..j + 1][..j] == srcs[..j];
            var src := srcs[j];
            if IsBannerSrc(src) {
              usage := usage[src := (if src in usage then usage[src] else []) + [page]];
            }
            j := j + 1;
          }
          assert srcs[..j] == srcs;
        }
        i := i + 1;
      }
      assert listing[..i] == listing;
      var consistent, inconsistent := CountConsistency(usage);
      testResults := testResults.(banners := Some((Banners(totalPages, usage), consistent)));
      passed := |usage| > 0;
    }

    method TestContentCompleteness() returns (passed: bool)
      modifies this
      ensures var c := CompletenessOf(fs, listing);
        testResults == old(testResults).(completeness := Some(c.(incomplete := Take(c.incomplete, 5))))
        && (passed <==> c.total > 0 && 20 * c.complete >= 19 * c.total)
    {
      var c := Completeness(0, 0, []);
      var i := 0;
      while i < |listing|
        invariant 0 <= i <= |listing|
        invariant c == CompletenessOf(fs, listing[..i])
      {
        var page := listing[i];
        assert listing[..i + 1][..i] == listing[..i];
        var content := Read(fs, PagePath(page));
        if content.None? {
          c := c.(incomplete := c.incomplete + [ReadFailure(page)]);
        } else if PageComplete(content.value) {
          c := c.(total := c.total + 1, complete := c.complete + 1);
        } else {
          c := c.(total := c.total + 1, incomplete := c.incomplete + [Incomplete(page, CompletenessIssues(content.value))]);
        }
        i := i + 1;
      }
      assert listing[..i] == listing;
      testResults := testResults.(completeness := Some(c.(incomplete := Take(c.incomplete, 5))));
      CompletenessPassesIff(c);
      passed := CompletionRate(c) >= 95.0;
    }

    method TestFileStructureIntegrity() returns (passed: bool)
      modifies this
      ensures testResults == old(testResults).(fileStructure := Some(FileStructureOf(fs, listing, images)))
      ensures passed <==> |listing| > 1000 && |images| > 100
    {
      var f := FileStructureOf(fs, listing, images);
      testResults := testResults.(fileStructure := Some(f));
      passed := FileStructurePasses(f);
    }

    /** What `test_navigation_structure` records. */
    function NavigationResult(): Navigation {
      NavigationOf(fs, CriticalPages)
    }

    /** What `test_image_maps_functionality` records: the tally, with the first five broken areas. */
    function ImageMapsResult(): MapTally {
      var t := MapTallyOf(fs, mapsOf, listing);
      t.(broken := Take(t.broken, 5))
    }

    /** What `test_external_links_preserved` records: the links found and the expected domains not found. */
    function ExternalResult(): (External, seq<string>) {
      var e := ExternalOf(fs, listing);
      (e, MissingDomains(e.found))
    }

    /** What `test_banner_consistency` records: the usage and the number of banners shared by several pages. */
    function BannersResult(): (Banners, nat) {
      var b := BannersOf(fs, listing);
      (b, |SharedBanners(b.usage)|)
    }

    /** What `test_content_completeness` records: the tally, with the first five incomplete pages. */
    function CompletenessResult(): Completeness {
      var c := CompletenessOf(fs, listing);
      c.(incomplete := Take(c.incomplete, 5))
    }

    /** The first three tests of the suite, in order: navigation, image maps, external links. */
    method RunLinkTests() returns (navigation: bool, maps: bool, external: bool)
      modifies this
      ensures testResults == old(testResults).(navigation := Some(NavigationResult()),
        imageMaps := Some(ImageMapsResult()), externalLinks := Some(ExternalResult()))
      ensures navigation <==> CriticalPresent(fs)
      ensures maps <==> MapTallyOf(fs, mapsOf, listing).broken == []
      ensures external <==> |ExternalOf(fs, listing).found| >= 6
    {
      navigation := TestNavigationStructure();
      maps := TestImageMapsFunctionality();
      external := TestExternalLinksPreserved();
    }

    /** The last three tests of the suite, in order: banners, completeness, file structure. */
    method RunPageTests() returns (banners: bool, completeness: bool, structure: bool)
      modifies this
      ensures testResults == old(testResults).(banners := Some(BannersResult()),
        completeness := Some(CompletenessResult()), fileStructure := Some(FileStructureOf(fs, listing, images)))
      ensures banners <==> |BannersOf(fs, listing).usage| > 0
      ensures completeness <==>
        var c := CompletenessOf(fs, listing); c.total > 0 && 20 * c.complete >= 19 * c.total
      ensures structure <==> |listing| > 1000 && |images| > 100
    {
      banners := TestBannerConsistency();
      completeness := TestContentCompleteness();
      structure := TestFileStructureIntegrity();
    }

    /** `run_full_functional_test_suite`: the six tests in order, scored by how many passed. */
    method RunFullFunctionalTestSuite() returns (score: real, outcomes: seq<TestOutcome>)
      modifies this
      ensures testResults == TestResults(Some(NavigationResult()), Some(ImageMapsResult()), Some(ExternalResult()),
        Some(BannersResult()), Some(CompletenessResult()), Some(FileStructureOf(fs, listing, images)))
      ensures |outcomes| == 6 && score == FunctionalScore(outcomes)
      ensures outcomes[0] == Passed <==> CriticalPresent(fs)
      ensures outcomes[1] == Passed <==> MapTallyOf(fs, mapsOf, listing).broken == []
      ensures outcomes[2] == Passed <==> |ExternalOf(fs, listing).found| >= 6
      ensures outcomes[3] == Passed <==> |BannersOf(fs, listing).usage| > 0
      ensures outcomes[4] == Passed <==>
        var c := CompletenessOf(fs, listing); c.total > 0 && 20 * c.complete >= 19 * c.total
      ensures outcomes[5] == Passed <==> |listing| > 1000 && |images| > 100
    {
      var navigation, maps, external := RunLinkTests();
      var banners, completeness, structure := RunPageTests();
      outcomes := Outcomes(navigation, maps, external, banners, completeness, structure);
      score := FunctionalScore(outcomes);
    }
  }

  /** The area loop of one map body. */
  method ScanAreas(page: string, t: MapTally, areas: seq<string>) returns (u: MapTally)
    ensures u == CheckAreas(page, t, areas)
  {
    u := t;
    var k := 0;
    while k < |areas|
      invariant 0 <= k <= |areas|
      invariant u == CheckAreas(page, t, areas[..k])
    {
      assert areas[..k + 1][..k] == areas[..k];
      var area := areas[k];
      if AreaWorking(area) {
        u := u.(total := u.total + 1, working := u.working + 1);
      } else {
        u := u.(total := u.total + 1, broken := u.broken + [page + ": " + Take(area, 50) + "..."]);
      }
      k := k + 1;
    }
    assert areas[..k] == areas;
  }

  /** The map loop of one page. */
  method ScanMaps(page: string, t: MapTally, maps: seq<string>) returns (u: MapTally)
    ensures u == CheckMaps(page, t, maps)
  {
    u := t;
    var j := 0;
    while j < |maps|
      invariant 0 <= j <= |maps|
      invariant u == CheckMaps(page, t, maps[..j])
    {
      assert maps[..j + 1][..j] == maps[..j];
      u := ScanAreas(page, u, AreaTags(maps[j]));
      j := j + 1;
    }
    assert maps[..j] == maps;
  }

  /** The link loop of one page. */
  method ScanExternal(page: string, e: External, refs: seq<string>) returns (u: External)
    ensures u == CheckRefs(page, e, refs)
  {
    u := e;
    var j := 0;
    while j < |refs|
      invariant 0 <= j <= |refs|
      invariant u == CheckRefs(page, e, refs[..j])
    {
      assert refs[..j + 1][..j] == refs[..j];
      var found := MatchDomains(refs[j], u.found);
      u := External(found, u.links + [page + ": " + refs[j]]);
      j := j + 1;
    }
    assert refs[..j] == refs;
  }

  /** The domain loop of one link: every expected domain named in it is added. */
  method MatchDomains(link: string, found: set<string>) returns (f: set<string>)
    ensures f == found + LinkDomains(link)
  {
    f := found;
    var k := 0;
    while k < |ExpectedDomains|
      invariant 0 <= k <= |ExpectedDomains|
      invariant f == found + set d | d in ExpectedDomains[..k] && Contains(link, d)
    {
      var domain := ExpectedDomains[k];
      assert ExpectedDomains[..k + 1] == ExpectedDomains[..k] + [domain];
      if Contains(link, domain) {
        f := f + {domain};
      }
      k := k + 1;
    }
    assert ExpectedDomains[..k] == ExpectedDomains;
  }

  function Outcome(passed: bool): TestOutcome {
    if passed then Passed else Failed
  }

  /** The outcomes of the six tests, in suite order. */
  function Outcomes(a: bool, b: bool, c: bool, d: bool, e: bool, f: bool): (o: seq<TestOutcome>)
    ensures |o| == 6
    ensures (o[0] == Passed <==> a) && (o[1] == Passed <==> b) && (o[2] == Passed <==> c)
    ensures (o[3] == Passed <==> d) && (o[4] == Passed <==> e) && (o[5] == Passed <==> f)
  {
    [Outcome(a), Outcome(b), Outcome(c), Outcome(d), Outcome(e), Outcome(f)]
  }
}
