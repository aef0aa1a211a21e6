# Chiswick Albion site scripts, modelled in Dafny

The Chiswick Albion football club's old website was mirrored as a static
HTML site: a `pages/` directory of `.html` files and an `assets/images/`
directory of banners and pictures. A set of Python scripts cloned it,
scored how faithful the mirror is, and repaired it in place. This project
models the core of those scripts and proves properties of the model:

- scoring and classification: the master validator's score parsing, page
  statistics, recommendations and weighted readiness; the systematic
  comparison against the original host; the functional test suite; the
  comprehensive fixer's and the quick checker's page-pair statuses; the
  broken-link analysis; and the final verification counts;
- the cloner's image cache: one download per raw `src`, under a name derived
  from it, with `<img>` and `<area>` attributes rewritten on each page;
- the page-text rewriting passes: image paths, `img1`/`img0` references,
  URL-encoded legend names, and the three banner fixers;
- the filesystem repair decisions: season pages, `clubhistory` and the other
  pages restored from `_index` or `_page2` variants;
- the removal of references to the old domains (comment-wrapping, then
  disabling the area links whose href names the domain, an href that by
  then holds the inserted comments; and the verifications) and the two
  restores of the forum (proboards) links, from the wrapped comments and
  from a git diff.

One Dafny module stands for each script; where the `complete-chiswick-site/`
directory holds a byte-identical copy of a root script, one module models
both and the table below cites either path. Shared modules hold the string
operations (`Strings`), the left-to-right non-overlapping replacement
behind `str.replace` and `re.sub` with a fixed pattern (`Rewriting`), the
scanner for quoted attribute values (`Attributes`), the comment and URL
patterns of the cleanup scripts (`Cleanup`) and the vocabulary of the
site (`Site`).

Modelling choices:

- The disk is a `map` from path to text, keyed by normalised path
  (`os.path.normpath`, module `Paths`): every existence test and copy made
  with a path built from a page's own reference looks the normalised
  spelling up, so `site/pages/../assets/images/a.gif` finds
  `site/assets/images/a.gif`.
- The disk is otherwise a plain map. A directory listing (`glob`,
  `os.listdir`, `os.walk`) is a sequence given by the caller, in its order;
  a listed name that is not a key of the map exists but cannot be read.
- An HTTP fetch is a given (status, body) value; md5, `urlparse`,
  `urljoin`, the HTML parser and serialiser and `os.path.abspath` are
  functions passed in as parameters.
- The output of the `python3` and `git show` subprocesses is a given string.
- Ratios and weights are exact reals, so `min/max < 0.8` is decided
  exactly.
- Scripts that loop and update counters, lists and files are methods with
  loop invariants, each proved equal to a recursive specification function;
  the properties are proved about those functions as lemmas. The cloner,
  whose image cache is updated in place, is a class.
- The old-domain cleanup really does wrap a bare-domain reference a second
  time: the bare-domain pattern also matches the host inside a comment that
  the `https://` pattern has just inserted (`OldDomains.BareDomainRewraps`).

## Model

| member | source | states |
|---|---|---|
| MasterValidator.ScoreText | master_site_validator.py:41 | The score text of a line keeps neither a ':' nor a '%': it is the part after the last ':' with the percent signs removed. |
| MasterValidator.NoMarkerNoScore | master_site_validator.py:37-46 | Output with no line containing the marker gives the score 0. |
| MasterValidator.FirstMarkedLineWins | master_site_validator.py:37-43 | The first line containing the marker alone decides the score: its parsed number, or 0 when the text does not parse; later lines are never read. |
| MasterValidator.ExtractScore | master_site_validator.py:37-43 | The line loop with its early `break` returns the score of the first marked line. |
| MasterValidator.RunScore | master_site_validator.py:21-53 | A suite whose process fails, or whose report cannot be read, scores 0; a finished suite scores by its first marked output line. |
| MasterValidator.TallyDisjoint | master_site_validator.py:106-116 | Because of the `elif`, the 404 pages and the substantial pages are disjoint: together at most the number of pages. |
| MasterValidator.TallyContentCount | master_site_validator.py:106-116 | A page is substantial exactly when it is readable, is not a 404 page and is longer than 1000 characters. |
| MasterValidator.StatsOf | master_site_validator.py:89-125 | The statistics count all pages and images; the 404 and content counts sum to at most the page count; the content ratio lies in [0,100] and is 0 with no pages. |
| MasterValidator.Emit | master_site_validator.py:137-196 | Every recommendation emitted belongs to a rule that fires, with that rule's fixed priority, and every rule that fires is emitted. |
| MasterValidator.Recommendations | master_site_validator.py:137-196 | Each of the six recommendations is present exactly when its threshold condition holds (functional < 90, comparison < 85, content ratio < 95, more than one 404 page, fewer than 1000 pages, and SUCCESS for functional ≥ 90 with comparison ≥ 85). |
| MasterValidator.EmitOrdered | master_site_validator.py:137-196 | Rules taken in increasing rule order emit recommendations in that order. |
| MasterValidator.RecommendationsOrdered | master_site_validator.py:141-193 | The recommendations come out in the fixed rule order, each rule at most once. |
| MasterValidator.SuccessIffNoScoreAlarm | master_site_validator.py:142-193 | SUCCESS is emitted exactly when neither score-based HIGH recommendation is. |
| MasterValidator.ErrorPenalty | master_site_validator.py:210 | The error-penalty score lies in [0,100] and is 0 exactly from 20 pages with 404 errors on. |
| MasterValidator.ErrorPenaltyStep | master_site_validator.py:210 | Each further 404 page lowers the error-penalty score by 5 until it reaches 0. |
| MasterValidator.ContentScore | master_site_validator.py:209 | The content score is the smaller of the content ratio and 100. |
| MasterValidator.Overall | master_site_validator.py:202-217 | The weighted score lies in [0,100] whenever its four inputs do, and equals their common value when all four are equal. |
| MasterValidator.WeightsSumToOne | master_site_validator.py:202-207 | The weights 0.4, 0.3, 0.2 and 0.1 sum to 1. |
| MasterValidator.OverallMonotone | master_site_validator.py:212-217 | Raising any component never lowers the weighted score. |
| MasterValidator.StatusOf | master_site_validator.py:219-235 | Exactly one readiness band applies: READY from 90, MOSTLY READY from 80, NEEDS MINOR WORK from 70, NEEDS MAJOR WORK below. |
| MasterValidator.AssessmentOf | master_site_validator.py:198-251 | The assessment's components are the content score and error penalty of the statistics; its overall score lies in [0,100] for inputs in range; its status is the band of its score. |
| MasterValidator.ConclusionImpliesSuccess | master_site_validator.py:304-318 | An assessment with the positive conclusion (85 and more) also makes `main` succeed (75 and more) and is at least MOSTLY READY. |
| MasterValidator.MasterSiteValidator.constructor | master_site_validator.py:8-19 | A new validator has zero scores, no statistics, no recommendations and no assessment. |
| MasterValidator.MasterSiteValidator.AnalyzeSiteStatistics | master_site_validator.py:89-135 | Stores and returns the statistics of the listed pages; no other field changes. |
| MasterValidator.MasterSiteValidator.GenerateRecommendations | master_site_validator.py:137-196 | Stores and returns the recommendations for the scores and statistics; no other field changes. |
| MasterValidator.MasterSiteValidator.CalculateOverallReadiness | master_site_validator.py:198-251 | Stores and returns the assessment for the scores and statistics; no other field changes. |
| MasterValidator.MasterSiteValidator.RunCompleteValidation | master_site_validator.py:253-311 | Both suite scores come from their runs (0 on failure), then the statistics, the recommendations and the assessment are those of these scores. |
| SiteComparison.LocalNamesFailureSticks | systematic_site_comparison.py:28-32 | Once a listed page cannot be read, the listing as a whole fails, whatever follows it. |
| SiteComparison.LocalNamesSpec | systematic_site_comparison.py:27-32 | The scan fails exactly when some listed page cannot be read; otherwise it keeps exactly the listed pages that are neither 404 pages nor test files, with no repeats when the listing has none. |
| SiteComparison.LocalPagesSpec | systematic_site_comparison.py:25-33 | `get_all_local_pages` fails exactly when a listed page cannot be read; otherwise its result is sorted, holds exactly the kept pages and has no repeats for a listing without repeats. |
| Strings.Take | systematic_site_comparison.py:61 | The sample is the prefix of the page list of length min(n, number of pages). |
| SiteComparison.SampleDistinct | systematic_site_comparison.py:116 | A sample of distinct pages has distinct pages. |
| SiteComparison.AccessibleIff | systematic_site_comparison.py:35-49 | A fetched page counts as accessible exactly when the status is 200 and the body does not itself begin with one of the failure prefixes; an accessible fetch yields the body. |
| SiteComparison.OriginNameFolder | systematic_site_comparison.py:70 | A flattened folder page `stem_.html` maps back to the original folder `stem/`. |
| SiteComparison.NotFolderName | systematic_site_comparison.py:70 | A stem not ending in `_` never gives a name ending in `_.html`. |
| SiteComparison.OriginNamePage | systematic_site_comparison.py:70 | A plain page `stem.html` maps to the original folder `stem/`. |
| SiteComparison.CompareSpec | systematic_site_comparison.py:64-82 | One page's comparison: the new and old URLs are built from the two bases, each side is accessible exactly when its fetch is, and a size is recorded only for an accessible side. |
| SiteComparison.AccessibilityTable | systematic_site_comparison.py:59-98 | The comparison table has exactly one entry per sampled page, and that entry is the page's own comparison. |
| SiteComparison.AccessibilityCounts | systematic_site_comparison.py:84-93 | Neither accessibility counter exceeds the number of pages compared. |
| SiteComparison.AccessibilityTested | systematic_site_comparison.py:104 | For distinct page names the size of the table, `tested_pages`, equals the sample size. |
| SiteComparison.CheckLinksPartition | systematic_site_comparison.py:121-132 | One page's links add every internal link exactly once to the total and once to either the working count or the broken list. |
| SiteComparison.LinkPartition | systematic_site_comparison.py:111-152 | Over the sample, working links plus broken links equal the total links. |
| SiteComparison.AssetCandidate | systematic_site_comparison.py:177-178 | A reference under `../assets/images/` is looked for only under `assets/images` with the same rest of the path. |
| SiteComparison.BareCandidates | systematic_site_comparison.py:181-183 | A bare reference is looked for beside the page first and in `assets/images` second. |
| SiteComparison.CheckImagesPartition | systematic_site_comparison.py:169-193 | One page's images add every image once to the total and once to either the working count or the missing list. |
| SiteComparison.ImagePartition | systematic_site_comparison.py:159-213 | Over the sample, working images plus missing images equal the total images. |
| SiteComparison.PageCleanIff | systematic_site_comparison.py:228-250 | A page is clean exactly when it has at least 500 characters, is not a 404 page, has at most one `<html`, has `</body>` and names neither old domain. |
| SiteComparison.ContentPartition | systematic_site_comparison.py:220-272 | Clean pages plus issue entries equal the number of pages, every problem entry lists at least one problem, and a page kept by the local-page scan is never reported as a 404. |
| SiteComparison.Percent | systematic_site_comparison.py:286-289 | A zero total gives the fallback score; otherwise the percentage lies in [0, 100] for a count within the total, and is 100 exactly when the count equals the total. |
| SiteComparison.SummaryOf | systematic_site_comparison.py:285-302 | Each sub-score is the percentage of its counters with 0 or 100 as the empty-case fallback, the overall score is their mean, and for counters within their totals it lies in [0, 100] and is 100 exactly when all four are. |
| SiteComparison.ReadinessOf | systematic_site_comparison.py:312-321 | The three readiness bands partition the scores at 95 and 85. |
| SiteComparison.ReportBounds | systematic_site_comparison.py:274-332 | For a listing of distinct names the final score always lies in [0, 100]. |
| SiteComparison.SiteComparator.constructor | systematic_site_comparison.py:11-23 | The comparator starts with all result sections empty. |
| SiteComparison.SiteComparator.GetAllLocalPages | systematic_site_comparison.py:25-33 | The method returns the local-page scan of the pages directory. |
| SiteComparison.SiteComparator.ComparePageAccessibility | systematic_site_comparison.py:51-104 | On a readable directory the method compares the first 10 pages and stores exactly that table in `page_comparison`, leaving the other sections alone; a failed scan changes nothing. |
| SiteComparison.SiteComparator.ValidateInternalLinks | systematic_site_comparison.py:106-152 | The method checks the first 5 pages' links, returns the working and total counts and stores that report alone. |
| SiteComparison.SiteComparator.ValidateImages | systematic_site_comparison.py:154-213 | The method checks the first 5 pages' images, returns the working and total counts and stores that report alone. |
| SiteComparison.SiteComparator.CheckContentIntegrity | systematic_site_comparison.py:215-272 | The method checks every local page, returns the clean and total counts and stores that tally alone. |
| SiteComparison.SiteComparator.GenerateComprehensiveReport | systematic_site_comparison.py:274-332 | The method runs the four checks in order, stores all four sections and the summary, and returns the overall score; a failed page scan is the exception `main` reports (lines 342-357). |
| FinalCheck.FilesWith | final_verification.py:14-20 | A domain's count never exceeds the number of pages. |
| FinalCheck.DomainRefs | final_verification.py:14-21 | There is one count per old domain, in domain order. |
| FinalCheck.YoutubeRefs | final_verification.py:38-42 | The YouTube count never exceeds the number of pages. |
| FinalCheck.FilesWithZero | final_verification.py:14-20 | A domain's count is 0 exactly when no readable page's raw text contains the domain. |
| FinalCheck.SumZero | final_verification.py:20 | A total of counts is 0 exactly when every count is 0. |
| FinalCheck.OldRefsZero | final_verification.py:11-21 | `total_old_refs` is 0 exactly when no page contains either old hosting domain. |
| FinalCheck.ProboardsInPositive | final_verification.py:28-29 | A page adds to the proboards total exactly when it is not a 404 page and names proboards. |
| FinalCheck.ProboardsFilesSum | final_verification.py:24-31 | The per-file counts add up to `proboards_refs`, and every listed file is a non-404 page with a positive count. |
| FinalCheck.SumCountsAppend | final_verification.py:30 | Adding up per-file counts distributes over concatenation. |
| FinalCheck.YoutubePositive | final_verification.py:38-42 | The YouTube count is positive exactly when some non-404 page mentions YouTube in any case. |
| FinalCheck.SuccessIff | final_verification.py:47-51 | The run succeeds exactly when no page contains an old domain, there are exactly two proboards references and some page mentions YouTube. |
| FinalCheck.WrappedStillCounts | final_verification.py:17-19 | A URL wrapped in a `REMOVED` comment still counts for its domain, because the raw text is searched. |
| FinalCheck.FinalVerification | final_verification.py:5-55 | The run stops exactly when some page cannot be read; otherwise it yields the full verification record. |
| FinalCheck.CountDomains | final_verification.py:14-21 | The nested loop yields the per-domain counts and their total, or stops exactly when a page cannot be read. |
| FinalCheck.CountFilesWith | final_verification.py:15-20 | The single-domain loop yields that domain's count, or stops exactly when a page cannot be read. |
| FinalCheck.CountProboards | final_verification.py:24-31 | The loop yields the proboards total and the per-file list. |
| FinalCheck.CountYoutube | final_verification.py:38-42 | The loop yields the YouTube count. |
| FunctionalTests.NavigationSpec | functional_testing_suite.py:36-61 | Every critical page is either found or missing, never both: `missing` lists exactly the absent pages, and links are recorded for exactly the present ones, as that page's non-`http` `.html` hrefs. |
| FunctionalTests.NavigationPasses | functional_testing_suite.py:69 | The navigation test passes exactly when all seven critical pages exist. |
| FunctionalTests.AreaTags | functional_testing_suite.py:93 | Every area the scan finds starts with `<area` and ends with `>`. |
| FunctionalTests.CheckAreasPartition | functional_testing_suite.py:95-106 | Each area of a map is counted once in the total and once as working or broken, so the partition is kept. |
| FunctionalTests.CheckMapsPartition | functional_testing_suite.py:91-106 | Scanning a page's maps keeps working plus broken equal to the total. |
| FunctionalTests.MapPartition | functional_testing_suite.py:76-126 | Working areas plus broken areas equal the total, so the test passes exactly when no area is broken, and also when there are no areas at all. |
| FunctionalTests.ExternalRefs | functional_testing_suite.py:151 | Every external reference found is a quote-free `http://` or `https://` URL. |
| FunctionalTests.CheckRefsExpected | functional_testing_suite.py:153-159 | Scanning references only adds expected domains to the found set. |
| FunctionalTests.FoundAreExpected | functional_testing_suite.py:143-162 | Only expected domains are ever recorded as found. |
| FunctionalTests.MissingDomains | functional_testing_suite.py:167 | The missing domains are exactly the expected ones that were not found. |
| FunctionalTests.ExternalPassesIff | functional_testing_suite.py:178 | The 80% threshold over seven expected domains means at least six must be found. |
| FunctionalTests.FoundAtMostSeven | functional_testing_suite.py:133-143 | At most seven domains are ever found. |
| FunctionalTests.RecordBannersWellFormed | functional_testing_suite.py:196-198 | Recording one page's srcs keeps the usage map well formed: only banner srcs, each with at least one page. |
| FunctionalTests.BannersWellFormed | functional_testing_suite.py:185-201 | The banner usage map holds only srcs with `banner`, `img0` or `header` in them, each used by at least one page. |
| FunctionalTests.VisitKey | functional_testing_suite.py:207-211 | Visiting one more banner adds it to exactly one of the shared and single-use groups. |
| FunctionalTests.CountConsistency | functional_testing_suite.py:204-211 | The loop counts exactly the shared banners and the single-use banners, and the two counts add up to the number of banners. |
| FunctionalTests.IncompleteHasIssues | functional_testing_suite.py:245-263 | An incomplete page always lists at least one reason, and a complete page lists none. |
| FunctionalTests.CompletenessPartition | functional_testing_suite.py:235-266 | Every page is complete or listed as incomplete, only readable pages enter the total, and with every page readable the total is the number of pages. |
| FunctionalTests.CompletenessPassesIff | functional_testing_suite.py:274-283 | The completeness test passes exactly when the total is non-empty and at least 95% of it is complete. |
| FunctionalTests.FileStructureOf | functional_testing_suite.py:291-308 | The HTML and image counts are the sizes of the two listings, and at most the three critical files are found. |
| FunctionalTests.CriticalFilesFound | functional_testing_suite.py:295-301 | All three critical files are reported found exactly when all three exist. |
| FunctionalTests.PassedCount | functional_testing_suite.py:332-344 | The passed count never exceeds the number of tests, and equals it exactly when every test passed; a test that raised counts as not passed. |
| FunctionalTests.FunctionalScore | functional_testing_suite.py:347 | The functional score lies in [0, 100]. |
| FunctionalTests.SuiteStatusOf | functional_testing_suite.py:354-359 | The three status bands partition the scores at 90 and 75. |
| FunctionalTests.SixTestBands | functional_testing_suite.py:347-378 | With six tests the suite is excellent exactly when all six pass, and `main` succeeds exactly when at least five pass. |
| FunctionalTests.FunctionalTester.constructor | functional_testing_suite.py:8-18 | The tester starts with every result section empty. |
| FunctionalTests.FunctionalTester.TestNavigationStructure | functional_testing_suite.py:20-69 | The method stores the navigation record alone and passes exactly when every critical page exists. |
| FunctionalTests.FunctionalTester.TestImageMapsFunctionality | functional_testing_suite.py:71-126 | The method stores the map tally, keeping the first five broken areas, and passes exactly when no area is broken. |
| FunctionalTests.FunctionalTester.TestExternalLinksPreserved | functional_testing_suite.py:128-178 | The method stores the found and missing domains and passes exactly when at least six domains are found. |
| FunctionalTests.FunctionalTester.TestBannerConsistency | functional_testing_suite.py:180-228 | The method stores the banner usage with the shared count and passes exactly when some banner was found. |
| FunctionalTests.FunctionalTester.TestContentCompleteness | functional_testing_suite.py:230-283 | The method stores the tally, keeping the first five incomplete pages, and passes exactly at a completion rate of at least 95%. |
| FunctionalTests.FunctionalTester.TestFileStructureIntegrity | functional_testing_suite.py:285-314 | The method stores the structure counts and passes exactly when there are more than 1000 HTML files and more than 100 images. |
| FunctionalTests.FunctionalTester.RunFullFunctionalTestSuite | functional_testing_suite.py:316-369 | The suite runs the six tests in order, each passing exactly on its own condition, stores all six result sections as the individual tests do, and scores by the number that passed. |
| FunctionalTests.FunctionalTester.RunLinkTests | functional_testing_suite.py:323-326 | The first three tests store the navigation record, the map tally with its first five broken areas, and the found and missing domains, leave the other sections alone, and each passes on its own condition. |
| FunctionalTests.FunctionalTester.RunPageTests | functional_testing_suite.py:327-329 | The last three tests store the banner usage with its shared count, the completeness tally with its first five incomplete pages, and the structure counts, leave the other sections alone, and each passes on its own condition. |
| FunctionalTests.ScanAreas | functional_testing_suite.py:95-106 | The area loop computes exactly the area tally of one map. |
| FunctionalTests.ScanMaps | functional_testing_suite.py:91-106 | The map loop computes exactly the tally of one page's maps. |
| SiteFixer.CheckPageBands | complete-chiswick-site/comprehensive_site_fixer.py:53-73 | With both pages served, the similarity bands are exact integer conditions on the two sizes: below 0.8 (or both empty) is a mismatch, which becomes an error page exactly when the new page is under 500 characters; 0.9 and above is good; in between is a minor difference. |
| SiteFixer.CheckPageTable | complete-chiswick-site/comprehensive_site_fixer.py:14-103 | An exception in either request gives `error`; otherwise the pair of 200/non-200 answers decides `new_only`, `broken` and `both_broken`, the similarity statuses happen only for two 200s, and the accessibility flags follow the status codes. |
| SiteFixer.ContainsEnd | complete-chiswick-site/comprehensive_site_fixer.py:78 | An occurrence of a text carries every suffix of it along, so a found `src="x.gif"` means `.gif` is in the page. |
| SiteFixer.ImageIssuesSpec | complete-chiswick-site/comprehensive_site_fixer.py:76-87 | The image issues are exactly the first five image sources of the lower-cased old page; the extension test in front of the search never hides a match. |
| SiteFixer.FirstPattern | complete-chiswick-site/comprehensive_site_fixer.py:148-156 | The result is present exactly when some pattern occurs, and it is the first pattern in list order that occurs. |
| SiteFixer.BrokenRedirectsSpec | complete-chiswick-site/comprehensive_site_fixer.py:123-161 | A page is flagged exactly when it is readable, under 1000 characters and contains an error pattern; the record holds its size and the first such pattern, and there are at most as many records as pages. |
| SiteFixer.FindPattern | complete-chiswick-site/comprehensive_site_fixer.py:148-156 | The pattern loop with its `break` finds the first pattern that occurs. |
| SiteFixer.FindBrokenRedirects | complete-chiswick-site/comprehensive_site_fixer.py:123-161 | The loop over the pages yields exactly the flagged redirect records. |
| SiteFixer.Checks | complete-chiswick-site/comprehensive_site_fixer.py:187-192 | There is one result per critical page, in order, each that page's own check. |
| SiteFixer.StatusCountsSum | complete-chiswick-site/comprehensive_site_fixer.py:204-207 | The eight status counts add up to the number of results. |
| SiteFixer.IssuesSpec | complete-chiswick-site/comprehensive_site_fixer.py:194-196 | The issues are exactly the `broken`, `error_page` and `content_mismatch` results, and their number is the sum of those three counts. |
| SiteFixer.Analyse | complete-chiswick-site/comprehensive_site_fixer.py:163-234 | `main` yields the flagged redirects, the results of the 24 critical pages, their issues and the status counts of those results. |
| QuickCheck.CheckPairTable | complete-chiswick-site/quick_page_check.py:10-52 | With two 200s the pair is `size_diff` exactly when the smaller body is under half the larger (two empty bodies included) and `good` otherwise; the other status pairs give `new_only`, `broken` and `both_broken`, and an exception gives `error`. |
| QuickCheck.Results | complete-chiswick-site/quick_page_check.py:77-78 | There is one result per page. |
| QuickCheck.Tally | complete-chiswick-site/quick_page_check.py:79 | A counter never exceeds the number of results. |
| QuickCheck.TallySum | complete-chiswick-site/quick_page_check.py:75-80 | The six counters add up to the number of results. |
| QuickCheck.PriorityOf | complete-chiswick-site/quick_page_check.py:90-95 | The message is high priority exactly when a page is broken, medium exactly when none is broken and some size differs, and all-good otherwise. |
| QuickCheck.Run | complete-chiswick-site/quick_page_check.py:54-95 | `main` keeps exactly the six counters, each the tally of its result over the 11 pages; the counters add up to 11, and the closing message follows them. |
| LinkCheck.ReadableCount | check_links.py:11-17 | No more pages are read than are listed. |
| LinkCheck.FilesPartition | check_links.py:10-27 | Every readable page is in exactly one of the broken and working lists, as it holds the 404 text or not, and unreadable pages are in neither. |
| LinkCheck.LinkSetSpec | check_links.py:20-32 | A link is collected exactly when some readable non-404 page has it as a non-`http` `.html` href. |
| LinkCheck.ListedSpec | check_links.py:50 | A path counts as a listed page exactly when some listed page's own path, normalised, is that path. |
| LinkCheck.StatusTable | check_links.py:49-59 | With the link's path normalised: OK exactly when that file reads without the 404 text, or is not readable but is the normalised path of a listed page; BROKEN exactly when it reads as the 404 page; MISSING exactly when it is neither readable nor the path of any listed page. |
| LinkCheck.ListedUnreadableOk | check_links.py:50-59 | A link spelled as a listed page that cannot be read is OK: it exists, and no 404 text can be read from it. |
| LinkCheck.DotLinkSameStatus | check_links.py:50 | `./name` and `name` get the same status, since both resolve to the same file. |
| LinkCheck.DotLinkToUnreadableOk | check_links.py:50-59 | `./name`, for a listed page `name` that cannot be read, is OK. |
| LinkCheck.CheckBrokenLinks | check_links.py:6-60 | The method yields both page lists, the collected links sorted and without repeats, and one status line per link. |
| LinkCheck.FindBroken | check_links.py:10-17 | The first pass yields exactly the pages with the 404 text. |
| LinkCheck.CollectWorking | check_links.py:20-34 | The second pass yields exactly the working pages and, without repeats, exactly the collected links. |
| LinkCheck.ReportSpec | check_links.py:48-60 | The report has one line per link, in the given order, each naming the link and its status. |
| LinkCheck.ReportLinks | check_links.py:48-60 | The loop builds exactly that report. |
| LinkCheck.StatusLine | check_links.py:50-59 | The flags `exists` and `has_404` yield the link's status. |
| LinkCheck.Collect | check_links.py:30-32 | Adding a page's links to the set keeps it free of repeats and adds exactly the non-`http` links. |
| Cloner.RFind | test_clone.py:116 | The result is the last position holding the character, or none when no position holds it. |
| Cloner.SplitExt | test_clone.py:116 | The stem and extension concatenate back to the name; the extension is empty or runs from the last dot, never begins a name of only dots before it, and holds no other dot. |
| Cloner.ProcessImageGrows | test_clone.py:108-130 | The image cache only grows: old entries never change, and the only new entry is the src under its derived name, added exactly when it was not cached and its download succeeded; the answer is the entry for the src, and a failure changes nothing. |
| Cloner.SharedAcrossPages | test_clone.py:110-111 | The cache is keyed by the raw src, so a src cached from one page gets the same name on any other page without a second download. |
| Cloner.ImgPass | test_clone.py:154-158 | The image pass yields one element per element of the page. |
| Cloner.ImgPassGrows | test_clone.py:154-158 | The image pass keeps every cache entry and keeps every entry's name derived from its src. |
| Cloner.ImgPassShape | test_clone.py:154-158 | Non-image elements are kept as they are, and each image is either kept or points at `../assets/images/` plus the name its src is cached under. |
| Cloner.RewriteAreaSpec | test_clone.py:161-166 | An area in a map whose href starts with the old base becomes the path after the base; every other element is untouched. |
| Cloner.AreaPass | test_clone.py:161-166 | The area pass rewrites every element on its own. |
| Cloner.RewriteAreas | test_clone.py:161-166 | The loop over the map areas computes the area pass. |
| Cloner.ProcessPageSpec | test_clone.py:132-172 | A page is cloned exactly when it has a URL, its download succeeds and the saved bytes read back as UTF-8; without a URL or a download nothing changes; bytes that do not decode stay written as downloaded and nothing else changes; a cloned page is written; no file disappears and the cache keeps every entry. |
| Cloner.CloneAllSpec | test_clone.py:178-211 | Over all pages processed in order, every cache entry stays and stays derived, no file disappears, and every processed page with a URL whose download succeeded is on disk. |
| Cloner.CloneAllStep | test_clone.py:196-203 | One more page continues the clone of the pages before it with its own page step. |
| Cloner.UnionOfLists | test_clone.py:66-72 | The page set is exactly the union of all the lists of the dictionary. |
| Cloner.LoadPageMapping | test_clone.py:52-83 | An unusable report gives the empty mapping; otherwise the mapping has exactly the report's pages as keys, each joined to the original base. |
| Cloner.WebsiteCloner.constructor | test_clone.py:16-25 | The cloner starts with an empty image cache and the page mapping loaded from the report. |
| Cloner.WebsiteCloner.DownloadFile | test_clone.py:91-106 | The download succeeds exactly when the fetch does, writes the body to the path on success, and otherwise changes nothing. |
| Cloner.WebsiteCloner.ProcessImage | test_clone.py:108-130 | The method changes the cache and the disk exactly as the specified image step does. |
| Cloner.WebsiteCloner.ProcessPage | test_clone.py:132-172 | The method changes the cache and the disk exactly as the specified page step does, failing when the saved bytes do not read back as UTF-8. |
| Cloner.WebsiteCloner.ProcessImages | test_clone.py:154-158 | The loop over the images computes the specified image pass. |
| Cloner.WebsiteCloner.RunFullClone | test_clone.py:178-211 | Every mapped page is processed exactly once, in some order, and the cache and files afterwards are those of the page steps in that order; every cached entry stays and stays derived. |
| ImageFixer.ImageUrlOnOrigin | complete-chiswick-site/image_fixer.py:82-86 | Every image URL is on the old host and ends with the reference; a relative reference is resolved under the page's old folder. |
| ImageFixer.Candidates | complete-chiswick-site/image_fixer.py:88-93 | There are three candidate local files, the second being the page-specific file a download would write. |
| ImageFixer.RefDownloadSpec | complete-chiswick-site/image_fixer.py:73-109 | A reference needs a download exactly when its stripped form does not start with `http` and none of its three candidates exists; the download then fetches the resolved URL into the page-specific file, which does not exist yet. |
| ImageFixer.RefDownloadNeeded | complete-chiswick-site/image_fixer.py:73-105 | A reference needs a download exactly when its stripped form does not start with `http` and none of its three candidates resolves to an existing file. |
| ImageFixer.RefDownloadTarget | complete-chiswick-site/image_fixer.py:88-109 | A needed download fetches the resolved URL into the page-specific target file, which does not exist. |
| ImageFixer.Needed | complete-chiswick-site/image_fixer.py:71-115 | There are never more downloads than references. |
| ImageFixer.NeededMembers | complete-chiswick-site/image_fixer.py:71-115 | A download is listed exactly when some reference calls for it. |
| ImageFixer.PageDownloadsEmpty | complete-chiswick-site/image_fixer.py:52-67 | A page whose request raises or answers other than 200, or that has no image reference, needs no download. |
| ImageFixer.FindLocal | complete-chiswick-site/image_fixer.py:95-103 | The loop with its `break` finds the first candidate that exists. |
| ImageFixer.CheckRef | complete-chiswick-site/image_fixer.py:73-113 | One reference is skipped, found locally or turned into exactly the specified download. |
| ImageFixer.ComparePageImages | complete-chiswick-site/image_fixer.py:44-119 | The method returns exactly the specified download list of the page. |
| ImageFixer.CheckRefs | complete-chiswick-site/image_fixer.py:73-113 | The loop over the references yields the specified downloads in order. |
| ImageFixer.DownloadImage | complete-chiswick-site/image_fixer.py:22-42 | The download succeeds exactly on a 200, which writes the body to the target file; no other file changes, and a failure changes nothing. |
| ImageFixer.AbsentOk | complete-chiswick-site/image_fixer.py:143-151 | The count of entries absent at the start whose URL answers 200 never exceeds the number of entries. |
| ImageFixer.CommonFixSpec | complete-chiswick-site/image_fixer.py:143-151 | Existing files are never overwritten; a file is added exactly when some entry for it answers 200; and with distinct targets the count is the number of entries absent at the start whose download succeeds. |
| ImageFixer.FixCommonImageIssues | complete-chiswick-site/image_fixer.py:121-151 | The method yields the specified files and count; at most six downloads happen, and no existing file changes. |
| ImagePaths.BasenameAfterSlash | complete-chiswick-site/fix_image_paths.py:27 | The base name of `a/f` is `f` when `f` has no slash. |
| ImagePaths.NewPathFixed | complete-chiswick-site/fix_image_paths.py:27-35 | Normalising a ref twice gives the same ref as normalising it once, and a normalised ref is never rewritten again, so a second run changes nothing. |
| ImagePaths.ImageRefEnd | complete-chiswick-site/fix_image_paths.py:20 | A found image ref ends with the extension's last letter, and so does its base name. |
| ImagePaths.NewPathSafe | complete-chiswick-site/fix_image_paths.py:36 | The normalised form of a quote-free image ref cannot create a new `src="v"` occurrence of another ref. |
| ImagePaths.FixRefsModified | complete-chiswick-site/fix_image_paths.py:21-37 | The page is marked modified exactly when some ref is rewritten; otherwise its text is unchanged. |
| ImagePaths.NothingToRewrite | complete-chiswick-site/fix_image_paths.py:23-37 | A page whose refs are all `http(s)` refs or already normalised is left exactly as it was and not marked modified, so a second run over normalised refs changes nothing. |
| ImagePaths.FixRefsClears | complete-chiswick-site/fix_image_paths.py:23-37 | Afterwards no `src="ref"` of a rewritten ref is left, because no later replacement can bring one back. |
| ImagePaths.CopiesSpec | complete-chiswick-site/fix_image_paths.py:30-34 | Copying never removes a file, and the only files it changes or adds are the files the destinations of relative refs resolve to. |
| ImagePaths.DestNotHtml | complete-chiswick-site/fix_image_paths.py:32 | The file a copy destination resolves to is an image, never an `.html` page. |
| ImagePaths.FixFileSpec | complete-chiswick-site/fix_image_paths.py:12-43 | The page ends up with its rewritten text, no other `.html` file is touched, and no file disappears. |
| ImagePaths.FixAllPages | complete-chiswick-site/fix_image_paths.py:6-43 | When the walk runs to the end, every `.html` page exists exactly when it did before, each listed page ends with the rewritten form of its own original text, and a page the walk does not list is untouched. |
| ImagePaths.FixAllAborts | complete-chiswick-site/fix_image_paths.py:12-17 | The run aborts exactly when some walked `.html` file cannot be read, since that `open` is outside any `try`. |
| ImagePaths.FixAllAbortSticks | complete-chiswick-site/fix_image_paths.py:12-17 | Once one file has aborted the walk, no later file resumes it. |
| ImagePaths.FixPage | complete-chiswick-site/fix_image_paths.py:14-43 | The loop over one file's refs computes the specified file step. |
| ImagePaths.FixImagePaths | complete-chiswick-site/fix_image_paths.py:6-43 | The walk computes the specified whole-directory fix, stopping with no result at the first unreadable `.html` file. |
| ImagePaths.BrokenInSpec | complete-chiswick-site/fix_image_paths.py:57-65 | An entry is reported exactly for a relative ref of the page whose joined path resolves to no file, with that joined path. |
| ImagePaths.BrokenImagesSpec | complete-chiswick-site/fix_image_paths.py:45-67 | The verification aborts exactly when a walked `.html` file cannot be read; otherwise an entry is reported exactly for a relative image ref of a listed page whose joined path resolves to no file. |
| ImagePaths.BrokenImagesAbortSticks | complete-chiswick-site/fix_image_paths.py:47-52 | Once one file has aborted the verification, no later file resumes it. |
| ImagePaths.DirnameOf | complete-chiswick-site/fix_image_paths.py:59 | The folder part of `dir/name` is `dir` when the file name has no slash. |
| ImagePaths.NewPathTargetsDest | complete-chiswick-site/fix_image_paths.py:27-34 | A rewritten ref, seen from a page one folder below the site directory (relative or absolute), resolves to the very file the copy step writes for the original ref. |
| ImagePaths.CopiedNotBroken | complete-chiswick-site/fix_image_paths.py:27-65 | For any non-empty site directory, relative or absolute, a rewritten ref whose copy destination exists is not reported broken by the verification. |
| ImagePaths.CheckPageImages | complete-chiswick-site/fix_image_paths.py:57-65 | The loop over one page's refs yields the specified entries. |
| ImagePaths.VerifyImages | complete-chiswick-site/fix_image_paths.py:45-67 | The walk yields exactly the specified broken-image entries. |
| Img1Fix.Img1StepSpec | fix_img1_references.py:41-51 | After the img1 step no bare `src="img1.gif"` is left, and the text grew exactly when there was one. |
| Img1Fix.Img0StepSpec | fix_img1_references.py:54-57 | The img0 step leaves no bare img0, brings back no bare img1, and grows the text exactly when there was an img0. |
| Img1Fix.FixPageSpec | fix_img1_references.py:33-63 | Afterwards the page holds neither bare ref; it is written exactly when one of them was found, and at most two fixes are counted for it. |
| Img1Fix.FixPagesCounts | fix_img1_references.py:29-66 | Each rewritten page adds one or two fixes and every other page none, so the files fixed are at most the total fixes, which are at most twice the files fixed. |
| Img1Fix.FixPagesFrame | fix_img1_references.py:29-66 | A file that is neither a page of the glob nor one of their page-specific img1 copies is present afterwards exactly when it was before, with the same text. |
| Img1Fix.FixImg1 | fix_img1_references.py:12-70 | The loop over the glob computes the specified pass. |
| LegendFix.DecodeLength | complete-chiswick-site/fix_legend_references.py:46-62 | Every replacement deletes exactly the three characters `%3c`, so the text shrinks by three per replacement and changes exactly when something was replaced. |
| LegendFix.FixLegendsCounts | complete-chiswick-site/fix_legend_references.py:34-69 | A page is counted only when something in it was replaced, so files modified are at most the replacements and at most the pages; only listed pages are written. |
| LegendFix.DecodePage | complete-chiswick-site/fix_legend_references.py:48-62 | The two inner loops compute the specified decoding of one page. |
| LegendFix.FixLegendReferences | complete-chiswick-site/fix_legend_references.py:11-76 | The loop over the pages computes the specified pass. |
| BannerFix.FlagSpec | fix_banner_images.py:32-53 | A page is flagged exactly when it does not mention the banner and some `src` value ends in `img0.gif`; the two sized patterns only decide whether the reported `current_src` is the literal `img0.gif` or the first such value. |
| BannerFix.Analyze | fix_banner_images.py:20-58 | There are never more problems than pages. |
| BannerFix.AnalyzeSpec | fix_banner_images.py:6-58 | A problem is reported exactly for a listed, readable, non-404 page that is flagged, with its text and flagged src; a page listed once is reported at most once. |
| BannerFix.CheckPatterns | fix_banner_images.py:32-53 | The pattern loop with its `break` computes the specified flag of the page. |
| BannerFix.AnalyzeBannerIssues | fix_banner_images.py:6-58 | The loop over the pages yields exactly the specified problems, in order. |
| BannerFix.FixContentSpec | fix_banner_images.py:76-82 | The first substitution replaces each literal `src="img0.gif"`; afterwards no `src` value is `img0.gif` or ends in `/img0.gif`, so a second fix changes nothing. |
| BannerFix.FixAllCount | fix_banner_images.py:64-96 | `fixed_count` is the number of problems whose text would change: never more than the number of problems, and 0 exactly when no problem's text would change. |
| BannerFix.FixAllFiles | fix_banner_images.py:68-91 | Only the problems' pages are written, every other file is kept, and with distinct pages each changed page ends up holding its fixed text. |
| BannerFix.FixBannerImages | fix_banner_images.py:60-96 | The loop computes the specified files and count. |
| BannerFix.FirstOk | fix_banner_images.py:124-136 | The result is the first URL that answers 200, or none exactly when no URL does. |
| BannerFix.DownloadBannerSpec | fix_banner_images.py:108-139 | An existing banner is never fetched; otherwise the banner becomes the body of the first URL that answers 200; the result is true exactly when the banner existed or some URL answered 200, and no other file changes. |
| BannerFix.DownloadBannerIfMissing | fix_banner_images.py:108-139 | The download loop stops at the first 200 and computes the specified result. |
| PageBanners.AsWrittenCoversExact | fix_all_page_banners.py:66-68 | Every exact banner src is also a match of the pattern as written, with the same length. |
| PageBanners.OtherSrcPageParts | fix_all_page_banners.py:66 | The counterexample page is laid out as a `src="ab` prefix, the pattern's tail and the banner path. |
| PageBanners.OtherSrcRestNoExact | fix_all_page_banners.py:66 | Past its `src=` the counterexample page holds no exact banner src. |
| PageBanners.NotContainedFrom | fix_all_page_banners.py:66 | A text with no occurrence at its first positions and none in the rest holds none at all. |
| PageBanners.OtherSrcPageHasNoExactSrc | fix_all_page_banners.py:28-29 | The counterexample page passes the banner-path check but holds no exact banner src. |
| PageBanners.AsWrittenMatchesOtherSrc | fix_all_page_banners.py:66-68 | With `.` left unescaped, the pattern as written also rewrites a src that is not the banner src: the counterexample page holds no exact banner src and is still rewritten. |
| PageBanners.ShortNoMatch | fix_all_page_banners.py:66 | A text shorter than the pattern holds no match of it. |
| PageBanners.ExactMentionsBanner | fix_all_page_banners.py:28 | A page holding an exact banner src passes the banner-path check. |
| PageBanners.ChoiceSafe | fix_all_page_banners.py:37-54 | The chosen image of a page whose name has no quote cannot create a new banner src. |
| PageBanners.ExactReplaceClears | fix_all_page_banners.py:66-68 | Replacing every exact banner src by a safe one leaves none. |
| PageBanners.PageFixSpec | fix_all_page_banners.py:19-75 | With the pattern read as the exact src, a page is rewritten exactly when it is not a 404 page, an image to restore exists (the page-specific asset first, then the local `img0.gif`) and it holds the banner src; the new text replaces every banner src by the chosen image, and none is left. |
| PageBanners.FixAllSpec | fix_all_page_banners.py:15-79 | `fixed_count` equals the number of modified files, which are pages from the glob, and every other file keeps its contents, so the image choice never changes during the pass. |
| PageBanners.FixAllPageBannersSpec | fix_all_page_banners.py:91 | The function returns true exactly when some page was modified. |
| PageBanners.FixPage | fix_all_page_banners.py:21-75 | One page runs the checks in source order, then the substitution with the corrected pattern `ExactPattern` (the source's unescaped pattern is `PageFix` with `AsWrittenPattern`, see Findings), and yields the specified new text. |
| PageBanners.FixAllPageBannersLoop | fix_all_page_banners.py:5-91 | The loop over the glob computes the specified pass with the corrected pattern `ExactPattern`; the pass as written is `PageBanners.FixAll` with `AsWrittenPattern`. |
| PageBanners.UsageBounds | fix_all_page_banners.py:99-113 | Every page counted for `_img0.gif` is also counted for `img0.gif`, and no counter exceeds the number of pages. |
| PageBanners.VerifyBannerFixes | fix_all_page_banners.py:93-123 | The loop yields the three counters, and the result is the banner count. |
| RemainingBanners.NarrowerPatterns | fix_remaining_banners.py:13-16 | The home pattern and the encoded pattern accept only values that the general `_img0.gif` pattern also accepts (line 41). |
| RemainingBanners.FixContentSpec | fix_remaining_banners.py:34-42 | The three substitutions together do what the first does alone; afterwards no src of the form `../assets/images/<name>_img0.gif` is left, and fixing again changes nothing. |
| RemainingBanners.PageFixSpec | fix_remaining_banners.py:20-49 | A page is written exactly when it is not a 404 page, does not already use the banner, and its text changes; a written page had a src of the replaced form before and has none after. |
| RemainingBanners.FixRemainingSpec | fix_remaining_banners.py:5-54 | The fixed files are pages of the glob, no more of them than pages, and nothing but those pages changes. |
| RemainingBanners.FixRemainingOnce | fix_remaining_banners.py:48 | With distinct page names each fixed file is listed once. |
| RemainingBanners.FixRemainingBannerIssues | fix_remaining_banners.py:5-54 | The loop over the glob computes the specified pass and its `fixed_files`. |
| RemainingBanners.Repeat | fix_remaining_banners.py:96 | `n` copies of the name are exactly `n` entries, all equal to the name. |
| RemainingBanners.AddPageKeys | fix_remaining_banners.py:93-96 | A src is a key after a page exactly when it was a key before or the page matches it. |
| RemainingBanners.AddPageGet | fix_remaining_banners.py:93-96 | Each src gains the page once per match. |
| RemainingBanners.UsageSpec | fix_remaining_banners.py:75-99 | A src is a key exactly when some non-404 page matches it; its list has one entry per match, so a page showing it twice is listed twice, and every entry is a page of the glob. |
| RemainingBanners.AddPageLoop | fix_remaining_banners.py:93-96 | The inner loop computes the specified update for one page's matches. |
| RemainingBanners.AnalyzeBannerUsage | fix_remaining_banners.py:75-105 | The loop over the glob yields the specified usage table. |
| Seasons.FixSeasonPageSpec | complete-chiswick-site/fix_broken_seasons.py:11-47 | A season page is fixed exactly when both files exist, the page is under 1000 characters and the content file over 1000; it then holds the content file's text and no other file changes; otherwise nothing changes. |
| Seasons.FixClubhistorySpec | complete-chiswick-site/fix_broken_seasons.py:49-69 | `clubhistory` is copied exactly when its suffixed page exists, whatever the sizes; the copy may create the page, and no other file changes. |
| Seasons.FixSeasonsSpec | complete-chiswick-site/fix_broken_seasons.py:91-95 | Each season adds at most one fix, the set of files stays the same, a file that is no season's page keeps its text, and no fix means no change. |
| Seasons.OtherSourceSpec | complete-chiswick-site/fix_broken_seasons.py:120-144 | A page is repaired only when it exists and is short; `_page2` is used only when `_index` does not exist; the chosen source exists; and a short page goes unrepaired exactly when neither variant exists. |
| Seasons.FixOthersSpec | complete-chiswick-site/fix_broken_seasons.py:120-144 | Each page adds at most one fix, only existing pages are overwritten, and no fix means no change. |
| Seasons.MainSpec | complete-chiswick-site/fix_broken_seasons.py:71-146 | At most 18 fixes happen (ten seasons, clubhistory and seven others), and the only file that can be created is `clubhistory.html`. |
| Seasons.FixSeasonLoop | complete-chiswick-site/fix_broken_seasons.py:93-95 | The seasons loop computes the specified pass and count. |
| Seasons.FixOtherLoop | complete-chiswick-site/fix_broken_seasons.py:120-144 | The other-pages loop, with the checks in source order, computes the specified pass and count. |
| Seasons.MainLoop | complete-chiswick-site/fix_broken_seasons.py:71-146 | `main` as three steps computes the specified files and total count. |
| Cleanup.UrlRun | remove_all_old_domains.py:43 | The run `[^"\s]*` is the longest prefix without a quote or white space: nothing in it is one, and the next character, if any, is one. |
| Cleanup.SchemeUrlLen | remove_all_old_domains.py:43 | A match of `https?://D[^"\s]*` never runs past the text. |
| Cleanup.UrlAtFound | remove_all_old_domains.py:45 | The pattern `D[^"\s]*` finds something exactly where the domain occurs. |
| Cleanup.UrlAtShape | remove_all_old_domains.py:45 | The URL matched at the front of a text starts with the domain and has no quote. |
| Cleanup.UrlAtMatches | remove_all_old_domains.py:45-49 | Every URL `re.findall` finds for `D[^"\s]*` starts with the domain and has no quote. |
| Cleanup.WrapText | remove_all_old_domains.py:54 | The comment `<!-- REMOVED: u -->` is 18 characters longer than the URL and holds it right after its 14-character opening. |
| Cleanup.CommentLen | remove_all_old_domains.py:102 | A comment matched by `<!--.*?-->` is at least seven characters and never runs past the text. |
| Cleanup.StripShortens | remove_all_old_domains.py:102 | Stripping comments never lengthens a text, and changes it exactly when a complete comment occurs. |
| Cleanup.StripNoComment | remove_all_old_domains.py:102 | A text without `<!--` has no comment to strip and is left as it is. |
| Cleanup.WrapTail | remove_all_old_domains.py:54 | A wrap followed by more text continues after `<!--` with ` REMOVED: u --`, then `>` and the rest. |
| Cleanup.FirstClose | remove_all_old_domains.py:102 | With no `>` before it, the first `-->` is the one that ends the `--` run. |
| Cleanup.WrapCloses | remove_all_old_domains.py:102 | The first `-->` after a wrap's opening is the wrap's own closing one, for a URL without `>`. |
| Cleanup.StripWrapped | remove_all_old_domains.py:102-104 | A wrapped URL without `>` vanishes completely when comments are stripped, so the verification no longer sees it. |
| Cleanup.GtFree | restore_proboards_links.py:39 | The run `[^>]*` is the longest prefix without `>`. |
| Cleanup.SchemeLen | restore_proboards_links.py:39 | The scheme part `https?://D` matches exactly when the text starts with the `https://` or the `http://` form of the domain. |
| Cleanup.RemovedLen | restore_proboards_links.py:39 | A match of `<!-- REMOVED: (https?://D[^>]*) -->` is longer than 18 characters and never runs past the text. |
| Cleanup.RemovedUrl | restore_proboards_links.py:39-44 | The group of a match wraps back into exactly the matched comment, has no `>` and starts with a scheme and the domain. |
| Cleanup.UnwrapWrapped | restore_proboards_links.py:39-45 | Restoring exactly undoes one wrap: a wrapped URL on the domain without `>` is matched whole, and its group is that URL. |
| Cleanup.AreaLen | restore_proboards_from_git.py:85 | An area tag match is at least six characters (`<area>`) and never runs past the text. |
| Cleanup.AreaTagShape | restore_proboards_from_git.py:85-86 | The area tag matched at the front of a text is `<area`, attributes without `>` that satisfy the inner test, then `>`. |
| Cleanup.AreaTagsFound | remove_old_website_links.py:83-84 | Every area tag `re.findall` finds has that shape. |
| Cleanup.DisableSpec | remove_all_old_domains.py:64 | Removing the `href="…"` attributes changes a tag exactly when it has one, and never lengthens it. |
| Cleanup.DisableShortens | remove_all_old_domains.py:64 | A tag holding an `href="…"` attribute comes out strictly shorter. |
| Cleanup.DisableAllShortens | remove_all_old_domains.py:62-66 | Replacing each found tag by its disabled form never lengthens the page, and shortens it when the first tag occurs in it and is shortened. |
| OldLinks.Dedup | remove_old_website_links.py:36 | The result holds every string of the input exactly once, and nothing else. |
| OldLinks.NamesDomain | remove_old_website_links.py:30-34 | Every string found by a pattern that starts with a prefix and the old host names the old host. |
| OldLinks.FoundNamesDomain | remove_old_website_links.py:30-34 | The URLs a search finds occur in the page, name the old host and have no quote. |
| OldLinks.Searches | remove_old_website_links.py:30-36 | Every result of the three searches occurs in the page, names the old host and has no quote, and the page's references are those results without repeats. |
| OldLinks.PageMatchesFound | remove_old_website_links.py:34-38 | A page has references exactly when it names the old host. |
| OldLinks.PageMatchesShape | remove_old_website_links.py:30-41 | Each reference occurs in the page, names the old host and has no quote. |
| OldLinks.Files | remove_old_website_links.py:40 | The reported page names follow the reports, in order. |
| OldLinks.FindRefsFiles | remove_old_website_links.py:18-43 | A page is reported exactly when it is listed, readable, not a 404 page and names the old host. |
| OldLinks.FindRefsReports | remove_old_website_links.py:38-43 | Each report carries the page's text and its references, at least one, and there are at most as many reports as pages. |
| OldLinks.FindRefsDistinct | remove_old_website_links.py:18-43 | A listing without repeats gives reports for distinct pages. |
| OldLinks.ReplaceHrefSpec | remove_old_website_links.py:75-79 | Strategy 1 applies exactly when `href="match"` occurs, and then it changes the text. |
| OldLinks.CommentOutSpec | remove_old_website_links.py:82-99 | Only areas linking to the reference are disabled, and nothing changes unless something is found. |
| OldLinks.ProcessMatchUnchanged | remove_old_website_links.py:70-99 | A reference for which no change is reported leaves the text as it was. |
| OldLinks.ProcessUnchanged | remove_old_website_links.py:67-101 | A page with no change reported is exactly the page as read, so skipping its write loses nothing. |
| OldLinks.DistinctAppend | remove_old_website_links.py:105 | Adding a report for a new page keeps the page names distinct. |
| OldLinks.RemoveListed | remove_old_website_links.py:54-111 | A page is listed as fixed only if it was reported and changed, no more than the reports; with distinct reports exactly the changed ones are listed. |
| OldLinks.RemoveFiles | remove_old_website_links.py:101-105 | Only reported pages are written and every other file keeps its text; with distinct reports each changed page holds its processed text. |
| OldLinks.RemainingRefs | remove_old_website_links.py:119-130 | The remaining count never exceeds the number of pages. |
| OldLinks.VerifyCleanupSpec | remove_old_website_links.py:113-142 | The verification succeeds exactly when no readable page names the old host outside comments. |
| OldLinks.WrappedNotReferenced | remove_old_website_links.py:96-97 | A URL the cleanup wrapped in a comment no longer counts once comments are stripped (line 127). |
| OldLinks.TotalRefsAtLeast | remove_old_website_links.py:146-147 | When every report has a reference, there are at least as many references as reported files. |
| OldLinks.StatisticsOfFound | remove_old_website_links.py:144-151 | For the scan's own reports, the total references are at least the number of files. |
| OldLinks.FindOldWebsiteReferences | remove_old_website_links.py:9-52 | The scan of the pages directory yields exactly the specified reports. |
| OldLinks.ProcessReferences | remove_old_website_links.py:70-99 | The loop over one page's references computes the specified text and change flag. |
| OldLinks.RemoveOldWebsiteReferences | remove_old_website_links.py:54-111 | The loop over the reports computes the specified files and fixed list. |
| OldLinks.VerifyCleanup | remove_old_website_links.py:113-142 | The verification loop succeeds exactly when no readable page names the old host outside comments. |
| GitRestore.ForumHref | restore_proboards_from_git.py:31 | A found URL is a forum URL with no quote that occurs in the line; nothing is found exactly when the line has no forum `href`. |
| GitRestore.ScanSpec | restore_proboards_from_git.py:18-38 | Every removal comes from a removed line that mentions the forum in any case and carries a forum `href`, with the URL of its first one; its file is a non-empty name without `/` named by some `diff --git` line; there is at most one removal per line. |
| GitRestore.ScanFromLastHeader | restore_proboards_from_git.py:18-38 | The current file is the one named by the last `diff --git` line, and none before the first; the removals are exactly the records of the lines, each made with the file current at that line. |
| GitRestore.ScanCurrentLast | restore_proboards_from_git.py:18-24 | After the last `diff --git` line the current file is the one it names. |
| GitRestore.ScanCurrentNone | restore_proboards_from_git.py:18-24 | Before any `diff --git` line there is no current file. |
| GitRestore.ScanRecordLine | restore_proboards_from_git.py:26-38 | Every removal is the record of one line, made with the file current there. |
| GitRestore.ScanRecordKept | restore_proboards_from_git.py:26-38 | Every line whose record is made with the file current there is kept. |
| GitRestore.DiffHeaderNotRemoval | restore_proboards_from_git.py:21-27 | A `diff --git` line is never a removed line. |
| GitRestore.HeaderWithoutSlash | restore_proboards_from_git.py:21-24 | A `diff --git` line without `/` names no file, so no removed line after it is kept until the next header. |
| GitRestore.ScanQuiet | restore_proboards_from_git.py:27-29 | A diff in which no removed line mentions the forum yields no removals. |
| GitRestore.Coords | restore_proboards_from_git.py:77-79 | The coordinates are the first `coords="…"` value of the line, if there is one. |
| GitRestore.FindArea | restore_proboards_from_git.py:85-86 | A found tag occurs in the page, is `<area` plus attributes without `>` that hold the coordinates, then `>`; nothing is found exactly when no such tag occurs. |
| GitRestore.RestoreInPageSpec | restore_proboards_from_git.py:76-97 | A link is restored exactly when the removed line has coordinates and the first area tag with them lacks `href=`; the page then holds that tag with the URL as its `href`, and otherwise keeps its text. |
| GitRestore.RestoreOneSpec | restore_proboards_from_git.py:59-111 | One removal writes only its own page, counts at most one restore, and a removal that restores nothing changes no file. |
| GitRestore.RestoreLinksSpec | restore_proboards_from_git.py:50-117 | At most one link is restored per removal; no page is created; a page no removal names is never written; `files_modified` names only removals' files, no more of them than links restored; and when nothing is restored every file is as it was. |
| GitRestore.ActiveLinks | restore_proboards_from_git.py:127-140 | Every active link names a listed page and a forum URL. |
| GitRestore.ActiveLinksFound | restore_proboards_from_git.py:119-149 | The verification succeeds exactly when some readable page has a forum `href` outside comments. |
| GitRestore.GetProboardsChanges | restore_proboards_from_git.py:6-48 | The loop over the lines of the diff yields the specified removals. |
| GitRestore.RestoreProboardsLinks | restore_proboards_from_git.py:50-117 | The loop over the removals computes the specified files, and the result is true exactly when some link was restored. |
| GitRestore.VerifyProboardsLinks | restore_proboards_from_git.py:119-149 | The nested loop succeeds exactly when some readable page has a forum link outside comments. |
| OldDomains.WrapFoundGrows | remove_all_old_domains.py:49-56 | Each counted wrap lengthens the text, no more wraps are counted than matches, and with none counted the text is unchanged. |
| OldDomains.WrapPatternsGrows | remove_all_old_domains.py:42-56 | The three patterns only lengthen the text, by at least one character per counted wrap, and with none counted leave it unchanged. |
| OldDomains.BareDomainRewraps | remove_all_old_domains.py:45-54 | Wrapping is not idempotent: a comment just put around a URL that names the domain is found again by the bare-domain pattern, and the match loop wraps it a second time. |
| OldDomains.WrapFoundFirst | remove_all_old_domains.py:51-56 | When the first match occurs in the text, the loop counts at least one wrap. |
| OldDomains.CleanPageSpec | remove_all_old_domains.py:38-67 | A change is made exactly when a reference is counted, and a page without one keeps its text. |
| OldDomains.CleanPageAreas | remove_all_old_domains.py:58-67 | The references removed are the counted wraps plus one per area tag found; disabling the tags never lengthens the wrapped page, and shortens it when a tag is found. |
| OldDomains.LastWhereSpec | remove_all_old_domains.py:59 | The greedy leading `[^>]*` backtracks from its longest run: the `href="` position chosen is the largest one up to the first '>' at which the rest of the pattern matches, and there is none exactly when no position up to it works. |
| OldDomains.DomainAreaOf | remove_all_old_domains.py:58-60 | Every area tag the findall returns is `<area`, attributes without '>', `href="`, a value without '"' that names the domain, the closing '"', a run without '>', and '>'. |
| OldDomains.AreaLinkFound | remove_all_old_domains.py:58-60 | Conversely, a page holding such a tag anywhere, its value free to hold '>', has at least one area tag found. |
| OldDomainsExample.CleanAreaExample | remove_all_old_domains.py:38-67 | The page `<area shape="rect" coords="1,2,3,4" href="https://web.bethere.co.uk/a">` cleaned for `web.bethere.co.uk` becomes `<area shape="rect" coords="1,2,3,4" >`, changed, with three references removed: two wraps and the area, whose href by then holds the comments' '>'. |
| OldDomains.CleanFileSpec | remove_all_old_domains.py:30-74 | One page of the loop: only that page can be written, the files-cleaned count grows by at most one and only with a counted reference, and no counted reference means no change. |
| OldDomains.CleanDomainCounts | remove_all_old_domains.py:27-71 | Each page adds at most one cleaned file, and each cleaned file at least one removed reference. |
| OldDomains.CleanDomainFrame | remove_all_old_domains.py:30-71 | No file is created, and a file that is not a listed page never changes. |
| OldDomains.CleanDomainNone | remove_all_old_domains.py:30-71 | When no reference is removed every file is as it was. |
| OldDomains.CleanAllSpec | remove_all_old_domains.py:14-84 | Over the five domains there are no more cleaned files than one per page per domain and than removed references; no file is created, a file that is not a listed page never changes, and no removed reference means no change. |
| OldDomains.RemainingCount | remove_all_old_domains.py:95-108 | A domain's remaining count never exceeds the number of pages. |
| OldDomains.RemainingCountZero | remove_all_old_domains.py:97-105 | A domain's count is 0 exactly when no readable page names it outside comments. |
| OldDomains.VerifySpec | remove_all_old_domains.py:86-121 | No issue remains exactly when no readable page names any domain outside comments, and each recorded issue is a listed domain with a count between 1 and the number of pages. |
| OldDomains.CleanDomainLoop | remove_all_old_domains.py:27-71 | The page loop for one domain computes the specified totals. |
| OldDomains.RemoveAllOldDomainReferences | remove_all_old_domains.py:14-84 | The loop over the five domains computes the specified totals. |
| OldDomains.VerifyCompleteCleanup | remove_all_old_domains.py:86-121 | The verification succeeds exactly when no readable page names any old domain outside comments. |
| Proboards.CommentUrls | restore_proboards_links.py:39-40 | There is one URL per matched comment; each URL's wrap occurs in the text, has no `>` and starts with a scheme and the domain. |
| Proboards.UnwrapShortens | restore_proboards_links.py:42-47 | Unwrapping never lengthens the text. |
| Proboards.RestoreUndoesWrap | restore_proboards_links.py:39-47 | The restore undoes the cleanup's wrap: a comment around a URL on the domain is found, with that URL, and replaced by it. |
| Proboards.RestoreFindsFirst | restore_proboards_links.py:39-40 | A comment at the front of a page is the first one found, whatever follows it. |
| Proboards.AreaGroups | restore_proboards_links.py:52-53 | Each group has no `>` and rebuilds into an area tag that occurs in the text. |
| Proboards.Around | restore_proboards_links.py:63-65 | The context contains the position, fits the text, spans at most 400 characters, and each end is either clamped to the text or exactly 200 characters away. |
| Proboards.RestoreArea | restore_proboards_links.py:55-77 | An area for which nothing is restored leaves the text unchanged. |
| Proboards.CommentInContext | restore_proboards_links.py:65-67 | A comment found in the context is a comment of the whole text. |
| Proboards.SliceContains | restore_proboards_links.py:65 | A prefix of a slice occurs in the text. |
| Proboards.RestoreAreaFound | restore_proboards_links.py:55-77 | An area is restored only when it has no `href=`, its tag occurs in the text and a comment on the domain occurs in the text. |
| Proboards.RestoreAreaEffect | restore_proboards_links.py:55-77 | An area is restored exactly when it has no `href=`, its tag occurs and a comment on the domain starts in the text around the tag; the comment used is the first one there, its URL is on the domain and wrapped in the text, the tagged text holds the tag with that URL as `href`, and the result is the tagged text with every copy of the comment deleted. |
| Proboards.RestoreAreasSpec | restore_proboards_links.py:55-77 | At most one reference is restored per area tag, and none restored means the text is unchanged. |
| Proboards.RestoreAreasSkipsLinked | restore_proboards_links.py:57 | An area tag that has `href=` is never touched. |
| Proboards.RestorePageSpec | restore_proboards_links.py:35-77 | A page changes exactly when a reference is restored, an unchanged page keeps its text, and every matched comment counts. |
| Proboards.RestoreFileSpec | restore_proboards_links.py:27-85 | One page of the loop: only that page can be written, the file count grows by at most one and only with a restored reference, and none restored means no change. |
| Proboards.RestoreDomainCounts | restore_proboards_links.py:24-81 | Each page adds at most one updated file, and each updated file at least one restored reference. |
| Proboards.RestoreDomainFrame | restore_proboards_links.py:27-81 | No file is created, a file that is not a listed page never changes, and nothing restored changes nothing. |
| Proboards.RestoreAllSpec | restore_proboards_links.py:21-97 | No file is created, and when nothing is restored (the result is false) every file is as it was. |
| Proboards.ActiveCount | restore_proboards_links.py:105-120 | The active count never exceeds the number of pages. |
| Proboards.ActiveCountPositive | restore_proboards_links.py:99-131 | The verification succeeds exactly when some readable page names the forum outside comments. |
| Proboards.RestoreProboardsReferences | restore_proboards_links.py:5-97 | The loops compute the specified files, and the result is true exactly when something was restored. |
| Proboards.VerifyProboardsRestoration | restore_proboards_links.py:99-131 | The loop succeeds exactly when some readable page names the forum outside comments. |
| Paths.SplitConcat | complete-chiswick-site/fix_image_paths.py:31 | Splitting `a/b` at the separator gives the segments of `a` followed by those of `b`. |
| Paths.JoinSplit | complete-chiswick-site/fix_image_paths.py:31 | Joining the segments of a text with `/` gives the text back. |
| Paths.CollapseAppend | complete-chiswick-site/fix_image_paths.py:59-60 | The `normpath` loop over two runs of segments is the loop over the second run, continued from where the first left off. |
| Paths.ParentCancels | complete-chiswick-site/fix_image_paths.py:59-60 | A plain segment followed by `..` cancels out of the kept segments. |
| Paths.CollapsePlain | complete-chiswick-site/fix_image_paths.py:59-60 | Plain segments are all kept, in order. |
| Paths.CleanNormal | complete-chiswick-site/fix_image_paths.py:59-60 | A relative path whose segments are all plain is its own normal form. |
| Paths.CollapseParent | complete-chiswick-site/fix_image_paths.py:59-60 | A plain segment followed by `..` drops out of the normalisation wherever it stands. |
| Paths.DotNormal | check_links.py:50 | `dir/./rest` names the same file as `dir/rest` for a non-empty `dir` and a relative `rest`. |
| Paths.ParentNormal | complete-chiswick-site/fix_image_paths.py:59-60 | `dir/seg/../rest` names the same file as `dir/rest` for any non-empty `dir`, relative or absolute, a plain `seg` and a relative `rest`. |
| Paths.SameLead | complete-chiswick-site/fix_image_paths.py:59-60 | Both spellings keep the same leading slashes, so both normalise as rooted or both as relative. |
| Paths.NormalizeLast | complete-chiswick-site/fix_image_paths.py:32-33 | A path joined with a plain final segment still ends with that segment once normalised. |
| Site.HtmlLinks | check_links.py:29 | Every href found ends in `.html` and has no quote. |
| Site.NavLinks | check_links.py:29-31 | The site's own links are exactly the `.html` hrefs that do not start with `http`. |
| Site.ImageRefs | systematic_site_comparison.py:169 | Every image src found is a quote-free value ending in one of the image extensions, in any case. |
| Site.FirstExisting | systematic_site_comparison.py:185-190 | The result exists exactly when some candidate exists, and it is the first candidate in order that does. |
| Site.ResolveAll | complete-chiswick-site/image_fixer.py:97-100 | The resolved candidates are the normalised spellings of the candidates, one for one and in order. |
| Site.ResolvedNone | complete-chiswick-site/image_fixer.py:95-105 | No resolved candidate exists exactly when no candidate resolves to a file. |
| Site.PagePathInjective | check_links.py:50 | Different page names are different page files. |
| Site.SizeRatio | complete-chiswick-site/comprehensive_site_fixer.py:55-56 | The size ratio lies in [0, 1], is 1 exactly for two equal non-zero sizes, and is 0 when either size is 0. |
| Site.RatioBelow | complete-chiswick-site/quick_page_check.py:33-34 | The ratio is below a positive bound exactly when the larger size is 0 or the smaller is below that share of the larger. |
| Rewriting.CountPositive | complete-chiswick-site/fix_legend_references.py:50-51 | `s.count(p) > 0` exactly when `p` occurs in `s`. |
| Rewriting.ReplaceAllLength | complete-chiswick-site/fix_legend_references.py:50-53 | Each of the `s.count(p)` occurrences replaced trades the pattern's length for the replacement's. |
| Rewriting.Search | restore_proboards_from_git.py:86 | `re.search` finds the leftmost match position, and nothing exactly when there is no match. |
| Rewriting.FindAll | remove_all_old_domains.py:49 | `re.findall` yields one non-empty text per match, each occurring in the input. |
| Strings.Lower | final_verification.py:41 | Lower-casing keeps the length and lower-cases every character. |
| Strings.Strip | complete-chiswick-site/image_fixer.py:75 | The result is the slice of the text between its leading and its trailing white space: everything removed is white space, and neither end of the result is. |

## Left out

- Network I/O, the urllib3 retry and backoff configuration, and `download_missing_image` in `complete-chiswick-site/comprehensive_site_fixer.py`: a fetch is a given (status, body) value, and downloads listed in `fix_broken_links.py` and `download_all_missing_images.py` are not part of this model.
- Concurrency: `run_full_clone` runs its pages on a thread pool that shares the image cache; the model processes pages one after another, in an arbitrary order that stands for the `as_completed` order, and does not model interleaved cache updates. `browser_clone.py` (async Playwright) is not part of this model.
- HTML parsing and serialisation: a page is the sequence of its `img` and `area` elements as the parser would give them (`Oracles` in `Cloner`); `compare_specific_pages.py` is not part of this model.
- md5, `urlparse`, `urljoin` and `os.path.abspath` are uninterpreted parameters; only what the scripts derive from them is modelled.
- Python `re` in general: the fixed patterns the scripts use are modelled as scanners, except two that are parameters: `FunctionalTests` `mapsOf` (the `<map>`/`<area>` findall of `functional_testing_suite.py:86`) and `RemainingBanners` `imgSrcs` (the `src` findall of `fix_remaining_banners.py:91`). The properties proved about them hold for any matcher. The area pattern of `remove_all_old_domains.py` is modelled exactly (`OldDomains.DomainAreaLen`), including an href value that holds '>' as every value does once the wraps have put comments into it.
- OldLinks.CommentOutSpec: the area pattern `<area[^>]*href="M"[^>]*>` of `remove_old_website_links.py:83` is modelled on the tag up to its first '>' (`Cleanup.AreaTag`). That is exact for a reference `M` without '>'; the `[^"\s]*` run that yields `M` allows '>', and for such a reference the model finds no area where the regex finds one.
- GitRestore.FindArea: likewise, `<area([^>]*coords="C"[^>]*)>` of `restore_proboards_from_git.py:85` is modelled up to the tag's first '>', which is exact for coordinates `C` without '>'. The third area pattern, `<area([^>]*)\s*>` of `restore_proboards_links.py:52`, is modelled exactly.
- Case-insensitive matching folds ASCII letters only.
- Float parsing and rounding: `float(text)` is a parameter, `round(..., 1)` and `%` formatting are left out; `main` of the validator compares the exact score.
- Python set iteration order: the matches of a page in `remove_old_website_links.py` are processed in order of first occurrence (`OldLinks.Dedup`).
- JSON reports, `print`, `tqdm`, logging, `time.sleep`, directory creation and `validation_dashboard.py`: presentation and persistence only.
- `verify_banner_fixes` in `fix_remaining_banners.py` and `verify_banner_exists` in `fix_banner_images.py` only print; the existence test is part of `BannerFix.DownloadBannerSpec`.
- `show_statistics` in `remove_old_website_links.py`: only the total is modelled, not the printed ranking.
- `shutil.copy2` metadata and the mtime-based list printed by `restore_proboards_links.py`; a file's size is the length of its text; `errors='ignore'` decoding is not modelled, and a read that raises is a path missing from the map.
- The `git show` failure path and the early `exit(0)` of the git restore when nothing was removed; the `main` functions only print around the modelled steps.
- MasterValidator.Recommendations: the recommendation for more than one 404 page is keyed by its own rule name `ErrorPages` in the model, while the source files it under the category text "Content"; its priority, position and condition are as in the source.
- Proboards.RestoreArea: its own contract states only that nothing changes when no href is restored; what a restore requires and does is the separate lemma `Proboards.RestoreAreaEffect`. That the restored tag survives the deletion of the comment, and that no copy of the comment is left, is not proved: a URL may hold `<` or `-->`, so the deletion can splice text.
- `os.path.normpath` is modelled on the spelling alone (`Paths.Normalize`): it does not check that the directories it passes through exist, and symbolic links are not followed. `os.path.abspath` stays a parameter.
- `ImageFixer.DownloadMissing` looks up its six fixed target paths as written: they are already in normal form.
- ImagePaths.FixAll: a walked `.html` file that cannot be read ends the run (`None`); the pages the walk had already rewritten before it stay rewritten on disk, and that partial state is not part of the result.
- The cloner's re-read of a saved page (`test_clone.py:148-149`) is a `decode` parameter. A page whose bytes are not UTF-8 raises out of `process_page`, and `run_full_clone` catches that exception (lines 202-203). The model returns failure instead, which `run_full_clone` treats the same way.

## Findings

| source | as written | input that shows it | evidently intended | confidence | as-written member | corrected member |
|---|---|---|---|---|---|---|
| fix_all_page_banners.py:66 | the pattern `src="../assets/images/banner\.gif"` leaves both dots of `..` unescaped, so each matches any character | a page holding `src="ab/assets/images/banner.gif"` followed by the banner path as text: the pattern rewrites that other src | only the exact src `../assets/images/banner.gif` is replaced | not executed | PageBanners.AsWrittenMatchesOtherSrc | PageBanners.PageFixSpec |
