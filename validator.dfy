/**
 * The master site validator: reads the scores printed by the functional and
 * comparison test suites, gathers page statistics, and turns them into
 * recommendations and a weighted readiness assessment.
 */
module MasterValidator {
  import opened Strings
  import opened Rewriting
  import opened Site

  // ---------------------------------------------------------------------
  // Reading a suite's score from its standard output.

  /** How a test-suite subprocess ended: it exited non-zero, its JSON report could not be read, or it finished. */
  datatype RunOutcome = ProcessFailed | ReportUnreadable | Finished(stdout: string)

  const FunctionalMarker: string := "Final Functional Score:"
  const ComparisonMarker: string := "Final Score:"

  /** The number text of a score line: what follows its last ':', stripped, with '%' removed. */
  function ScoreText(line: string): (t: string)
    ensures ':' !in t && '%' !in t
  {
    var tail := AfterLast(line, ':');
    var stripped := Strip(tail);
    ContainsChars(tail, stripped);
    DeleteChar(stripped, '%');
    ReplaceAll(stripped, "%", "")
  }

  /** `float(text)`, with a text that does not parse giving 0 (the caught exception). */
  function ParsedOrZero(text: string, parse: string -> Option<real>): real {
    match parse(text)
    case Some(v) => v
    case None => 0.0
  }

  /** The score of the first line that contains `marker`; 0 when no line does. */
  function FirstScore(lines: seq<string>, marker: string, parse: string -> Option<real>): real
    decreases |lines|
  {
    if |lines| == 0 then 0.0
    else if Contains(lines[0], marker) then ParsedOrZero(ScoreText(lines[0]), parse)
    else FirstScore(lines[1..], marker, parse)
  }

  /** Without a marked line the score is 0. */
  lemma {:induction false} NoMarkerNoScore(lines: seq<string>, marker: string, parse: string -> Option<real>)
    requires forall j :: 0 <= j < |lines| ==> !Contains(lines[j], marker)
    ensures FirstScore(lines, marker, parse) == 0.0
    decreases |lines|
  {
    if |lines| > 0 {
      NoMarkerNoScore(lines[1..], marker, parse);
    }
  }

  /** The score comes from the first marked line only; later marked lines are never read. */
  lemma {:induction false} FirstMarkedLineWins(lines: seq<string>, marker: string, parse: string -> Option<real>, k: nat)
    requires k < |lines| && Contains(lines[k], marker)
    requires forall j :: 0 <= j < k ==> !Contains(lines[j], marker)
    ensures FirstScore(lines, marker, parse) == ParsedOrZero(ScoreText(lines[k]), parse)
    decreases k
  {
    if k > 0 {
      FirstMarkedLineWins(lines[1..], marker, parse, k - 1);
    }
  }

  /** The score-line loop of `run_functional_tests` / `run_comparison_tests`. */
  method ExtractScore(stdout: string, marker: string, parse: string -> Option<real>) returns (score: real)
    ensures score == FirstScore(Split(stdout, '\n'), marker, parse)
  {
    var lines := Split(stdout, '\n');
    score := 0.0;
    var i := 0;
    while i < |lines|
      invariant 0 <= i <= |lines|
      invariant FirstScore(lines[i..], marker, parse) == FirstScore(lines, marker, parse)
    {
      assert lines[i..][1..] == lines[i + 1..];
      if Contains(lines[i], marker) {
        score := ParsedOrZero(ScoreText(lines[i]), parse);
        return;
      }
      i := i + 1;
    }
  }

  /** A failed subprocess or an unreadable report gives 0; otherwise the first marked line decides. */
  method RunScore(run: RunOutcome, marker: string, parse: string -> Option<real>) returns (score: real)
    ensures !run.Finished? ==> score == 0.0
    ensures run.Finished? ==> score == FirstScore(Split(run.stdout, '\n'), marker, parse)
  {
    match run
    case Finished(out) =>
      score := ExtractScore(out, marker, parse);
    case _ =>
      score := 0.0;
  }

  // ---------------------------------------------------------------------
  // Page statistics.

  /** Running totals over the pages read so far. */
  datatype Tally = Tally(contentSize: nat, with404: nat, withContent: nat)

  /** Whether a page read successfully counts as a 404 page or as one with substantial content (never both: `elif`). */
  function TallyStep(t: Tally, p: Page): Tally {
    match p.text
    case None => t
    case Some(c) =>
      if Is404(c) then Tally(t.contentSize + |c|, t.with404 + 1, t.withContent)
      else if |c| > 1000 then Tally(t.contentSize + |c|, t.with404, t.withContent + 1)
      else Tally(t.contentSize + |c|, t.with404, t.withContent)
  }

  function TallyOf(pages: seq<Page>): Tally
    decreases |pages|
  {
    if |pages| == 0 then Tally(0, 0, 0)
    else TallyStep(TallyOf(pages[..|pages| - 1]), pages[|pages| - 1])
  }

  /** The 404 and substantial-content counts are disjoint: together at most the number of pages. */
  lemma {:induction false} TallyDisjoint(pages: seq<Page>)
    ensures TallyOf(pages).with404 + TallyOf(pages).withContent <= |pages|
    decreases |pages|
  {
    if |pages| > 0 {
      TallyDisjoint(pages[..|pages| - 1]);
    }
  }

  /** A page that reads, is not a 404 page, and is longer than 1000 characters. */
  predicate Substantial(p: Page) {
    p.text.Some? && !Is404(p.text.value) && |p.text.value| > 1000
  }

  /** A page counts as substantial exactly when it reads, is not a 404 page, and is longer than 1000 characters. */
  lemma {:induction false} TallyContentCount(pages: seq<Page>)
    ensures TallyOf(pages).withContent == |set i | 0 <= i < |pages| && Substantial(pages[i])|
    decreases |pages|
  {
    if |pages| > 0 {
      var n := |pages| - 1;
      TallyContentCount(pages[..n]);
      ContentStep(TallyOf(pages[..n]), pages[n]);
      SubstantialSetStep(pages[..n], pages[n]);
      assert pages[..n] + [pages[n]] == pages;
    }
  }

  /** One page adds one to the substantial count exactly when it is substantial. */
  lemma ContentStep(t: Tally, p: Page)
    ensures TallyStep(t, p).withContent == t.withContent + (if Substantial(p) then 1 else 0)
  {
  }

  /** Adding a page to `init` adds its index to the substantial indices exactly when that page is substantial. */
  lemma SubstantialSetStep(init: seq<Page>, p: Page)
    ensures |set i | 0 <= i < |init + [p]| && Substantial((init + [p])[i])|
         == |set i | 0 <= i < |init| && Substantial(init[i])| + (if Substantial(p) then 1 else 0)
  {
    var n := |init|;
    var pages := init + [p];
    var S := set i | 0 <= i < |pages| && Substantial(pages[i]);
    var S' := set i | 0 <= i < n && Substantial(init[i]);
    assert S' == S - {n};
    if Substantial(p) {
      assert S == S' + {n};
    } else {
      assert S == S';
    }
  }

  datatype Stats = Stats(totalHtmlFiles: nat, totalImageFiles: nat, totalContentSize: nat,
                         pagesWith404: nat, pagesWithContent: nat, contentRatio: real)

  /** The statistics `analyze_site_statistics` reports (exact ratio; no rounding). */
  function StatsOf(pages: seq<Page>, imageCount: nat): (s: Stats)
    ensures s.totalHtmlFiles == |pages| && s.totalImageFiles == imageCount
    ensures s.pagesWith404 + s.pagesWithContent <= s.totalHtmlFiles
    ensures 0.0 <= s.contentRatio <= 100.0
    ensures |pages| == 0 ==> s.contentRatio == 0.0
  {
    var t := TallyOf(pages);
    TallyDisjoint(pages);
    if |pages| == 0 then Stats(0, imageCount, t.contentSize, t.with404, t.withContent, 0.0)
    else
      var ratio := (t.withContent as real) * 100.0 / (|pages| as real);
      RatioBound(t.withContent, |pages|);
      Stats(|pages|, imageCount, t.contentSize, t.with404, t.withContent, ratio)
  }

  /** A share of at most the whole, as a percentage, lies between 0 and 100. */
  lemma RatioBound(n: nat, total: nat)
    requires 0 < total && n <= total
    ensures 0.0 <= (n as real) * 100.0 / (total as real) <= 100.0
  {
    var x := (n as real) * 100.0;
    assert x <= (total as real) * 100.0;
    assert x / (total as real) <= ((total as real) * 100.0) / (total as real);
  }

  // ---------------------------------------------------------------------
  // Recommendations.

  datatype Priority = High | Medium | Success
  datatype Category = Functionality | Compatibility | Content | ErrorPages | Completeness | Ready
  datatype Recommendation = Recommendation(priority: Priority, category: Category)

  /** The priority each kind of recommendation is emitted with. */
  function PriorityOf(c: Category): Priority {
    match c
    case Functionality => High
    case Compatibility => High
    case Content => Medium
    case ErrorPages => High
    case Completeness => Medium
    case Ready => Success
  }

  /** Whether the rule for a kind of recommendation fires. */
  predicate Fires(c: Category, functional: real, comparison: real, s: Stats) {
    match c
    case Functionality => functional < 90.0
    case Compatibility => comparison < 85.0
    case Content => s.contentRatio < 95.0
    case ErrorPages => s.pagesWith404 > 1
    case Completeness => s.totalHtmlFiles < 1000
    case Ready => functional >= 90.0 && comparison >= 85.0
  }

  /** The fixed order in which `generate_recommendations` checks its rules. */
  const RuleOrder: seq<Category> := [Functionality, Compatibility, Content, ErrorPages, Completeness, Ready]

  /** The rules of `cats` that fire, in order. */
  function Emit(cats: seq<Category>, functional: real, comparison: real, s: Stats): (r: seq<Recommendation>)
    ensures forall x :: x in r ==> x.category in cats && Fires(x.category, functional, comparison, s)
                                   && x.priority == PriorityOf(x.category)
    ensures forall c :: c in cats && Fires(c, functional, comparison, s) ==> Recommendation(PriorityOf(c), c) in r
    ensures |r| <= |cats|
    decreases |cats|
  {
    if |cats| == 0 then []
    else
      var rest := Emit(cats[1..], functional, comparison, s);
      assert forall c :: c in cats ==> c == cats[0] || c in cats[1..];
      if Fires(cats[0], functional, comparison, s) then [Recommendation(PriorityOf(cats[0]), cats[0])] + rest
      else rest
  }

  /** The recommendations `generate_recommendations` emits, in order. */
  function Recommendations(functional: real, comparison: real, s: Stats): (r: seq<Recommendation>)
    ensures Recommendation(High, Functionality) in r <==> functional < 90.0
    ensures Recommendation(High, Compatibility) in r <==> comparison < 85.0
    ensures Recommendation(Medium, Content) in r <==> s.contentRatio < 95.0
    ensures Recommendation(High, ErrorPages) in r <==> s.pagesWith404 > 1
    ensures Recommendation(Medium, Completeness) in r <==> s.totalHtmlFiles < 1000
    ensures Recommendation(Success, Ready) in r <==> functional >= 90.0 && comparison >= 85.0
    ensures forall x :: x in r ==> x.priority == PriorityOf(x.category)
  {
    EmitsRule(Functionality, functional, comparison, s);
    EmitsRule(Compatibility, functional, comparison, s);
    EmitsRule(Content, functional, comparison, s);
    EmitsRule(ErrorPages, functional, comparison, s);
    EmitsRule(Completeness, functional, comparison, s);
    EmitsRule(Ready, functional, comparison, s);
    Emit(RuleOrder, functional, comparison, s)
  }

  /** Every kind of recommendation is checked, so it is emitted exactly when its rule fires. */
  lemma EmitsRule(c: Category, functional: real, comparison: real, s: Stats)
    ensures Recommendation(PriorityOf(c), c) in Emit(RuleOrder, functional, comparison, s) <==> Fires(c, functional, comparison, s)
  {
    assert RuleOrder[Rank(c)] == c;
  }

  /** Position of each kind of recommendation in the rule order. */
  function Rank(c: Category): nat {
    match c
    case Functionality => 0
    case Compatibility => 1
    case Content => 2
    case ErrorPages => 3
    case Completeness => 4
    case Ready => 5
  }

  /** Recommendations in strictly increasing rule order. */
  predicate Ordered(r: seq<Recommendation>) {
    forall i, j :: 0 <= i < j < |r| ==> Rank(r[i].category) < Rank(r[j].category)
  }

  /** A recommendation ranked below everything in an ordered list can go in front of it. */
  lemma ConsOrdered(h: Recommendation, rest: seq<Recommendation>)
    requires Ordered(rest)
    requires forall x :: x in rest ==> Rank(h.category) < Rank(x.category)
    ensures Ordered([h] + rest)
  {
    var r := [h] + rest;
    forall i, j | 0 <= i < j < |r| ensures Rank(r[i].category) < Rank(r[j].category) {
      assert r[j] == rest[j - 1];
      if i > 0 {
        assert r[i] == rest[i - 1];
      } else {
        assert rest[j - 1] in rest;
      }
    }
  }

  /** Emitting from rules in increasing rank keeps that order. */
  lemma {:induction false} EmitOrdered(cats: seq<Category>, functional: real, comparison: real, s: Stats)
    requires forall i, j :: 0 <= i < j < |cats| ==> Rank(cats[i]) < Rank(cats[j])
    ensures Ordered(Emit(cats, functional, comparison, s))
    decreases |cats|
  {
    if |cats| > 0 {
      var tail := cats[1..];
      assert forall i, j :: 0 <= i < j < |tail| ==> Rank(tail[i]) < Rank(tail[j]) by {
        forall i, j | 0 <= i < j < |tail| ensures Rank(tail[i]) < Rank(tail[j]) {
          assert tail[i] == cats[i + 1] && tail[j] == cats[j + 1];
        }
      }
      EmitOrdered(tail, functional, comparison, s);
      var rest := Emit(tail, functional, comparison, s);
      if Fires(cats[0], functional, comparison, s) {
        var h := Recommendation(PriorityOf(cats[0]), cats[0]);
        forall x | x in rest ensures Rank(h.category) < Rank(x.category) {
          var k :| 0 <= k < |tail| && tail[k] == x.category;
          assert cats[k + 1] == x.category;
        }
        ConsOrdered(h, rest);
      }
    }
  }

  /** Recommendations come out in the fixed rule order, each kind at most once. */
  lemma RecommendationsOrdered(functional: real, comparison: real, s: Stats)
    ensures Ordered(Recommendations(functional, comparison, s))
  {
    var order := RuleOrder;
    assert forall i :: 0 <= i < |order| ==> Rank(order[i]) == i;
    EmitOrdered(order, functional, comparison, s);
  }

  /** SUCCESS is emitted exactly when neither score-based HIGH item is. */
  lemma SuccessIffNoScoreAlarm(functional: real, comparison: real, s: Stats)
    ensures var r := Recommendations(functional, comparison, s);
      Recommendation(Success, Ready) in r
      <==> Recommendation(High, Functionality) !in r && Recommendation(High, Compatibility) !in r
  {
  }

  // ---------------------------------------------------------------------
  // Readiness.

  /** `max(0, 100 - 5 * pages_with_404)`. */
  function ErrorPenalty(pagesWith404: nat): (p: real)
    ensures 0.0 <= p <= 100.0
    ensures p == 0.0 <==> pagesWith404 >= 20
  {
    if 100 - 5 * pagesWith404 > 0 then (100 - 5 * pagesWith404) as real else 0.0
  }

  /** Each further 404 page costs 5 points until the penalty score reaches 0. */
  lemma ErrorPenaltyStep(n: nat)
    ensures ErrorPenalty(n + 1) == if ErrorPenalty(n) >= 5.0 then ErrorPenalty(n) - 5.0 else 0.0
  {
  }

  /** `min(content_ratio, 100)`. */
  function ContentScore(ratio: real): (c: real)
    ensures c <= 100.0 && c <= ratio && (c == ratio || c == 100.0)
  {
    if ratio < 100.0 then ratio else 100.0
  }

  const FunctionalWeight: real := 0.4
  const ComparisonWeight: real := 0.3
  const ContentWeight: real := 0.2
  const PenaltyWeight: real := 0.1

  /** The weighted readiness score. */
  function Overall(functional: real, comparison: real, content: real, penalty: real): (o: real)
    ensures (0.0 <= functional <= 100.0 && 0.0 <= comparison <= 100.0 && 0.0 <= content <= 100.0
             && 0.0 <= penalty <= 100.0) ==> 0.0 <= o <= 100.0
    ensures functional == comparison == content == penalty ==> o == functional
  {
    functional * FunctionalWeight + comparison * ComparisonWeight + content * ContentWeight + penalty * PenaltyWeight
  }

  /** The weights sum to 1. */
  lemma WeightsSumToOne()
    ensures FunctionalWeight + ComparisonWeight + ContentWeight + PenaltyWeight == 1.0
  {
  }

  /** The overall score never drops when any one component rises. */
  lemma OverallMonotone(f: real, c: real, s: real, p: real, f': real, c': real, s': real, p': real)
    requires f <= f' && c <= c' && s <= s' && p <= p'
    ensures Overall(f, c, s, p) <= Overall(f', c', s', p')
  {
  }

  datatype Status = ReadyForProduction | MostlyReady | NeedsMinorWork | NeedsMajorWork

  /** The readiness band: exactly one applies to any score. */
  function StatusOf(overall: real): (st: Status)
    ensures st == ReadyForProduction <==> overall >= 90.0
    ensures st == MostlyReady <==> 80.0 <= overall < 90.0
    ensures st == NeedsMinorWork <==> 70.0 <= overall < 80.0
    ensures st == NeedsMajorWork <==> overall < 70.0
  {
    if overall >= 90.0 then ReadyForProduction
    else if overall >= 80.0 then MostlyReady
    else if overall >= 70.0 then NeedsMinorWork
    else NeedsMajorWork
  }

  datatype Assessment = Assessment(overallScore: real, status: Status, functional: real,
                                   comparison: real, content: real, errorPenalty: real)

  /** The assessment of `calculate_overall_readiness`. */
  function AssessmentOf(functional: real, comparison: real, s: Stats): (a: Assessment)
    ensures a.content == ContentScore(s.contentRatio) && a.errorPenalty == ErrorPenalty(s.pagesWith404)
    ensures (0.0 <= functional <= 100.0 && 0.0 <= comparison <= 100.0 && 0.0 <= s.contentRatio)
            ==> 0.0 <= a.overallScore <= 100.0
    ensures a.status == StatusOf(a.overallScore)
  {
    var content := ContentScore(s.contentRatio);
    var penalty := ErrorPenalty(s.pagesWith404);
    var overall := Overall(functional, comparison, content, penalty);
    Assessment(overall, StatusOf(overall), functional, comparison, content, penalty)
  }

  /** `main` reports success from 75 points; the positive conclusion needs 85. */
  predicate MainSucceeds(a: Assessment) {
    a.overallScore >= 75.0
  }

  predicate ReadyConclusion(a: Assessment) {
    a.overallScore >= 85.0
  }

  /** Every assessment with the positive conclusion also lets `main` succeed, and is at least MOSTLY READY. */
  lemma ConclusionImpliesSuccess(a: Assessment)
    requires a.status == StatusOf(a.overallScore) && ReadyConclusion(a)
    ensures MainSucceeds(a) && (a.status == ReadyForProduction || a.status == MostlyReady)
  {
  }

  // ---------------------------------------------------------------------
  // The validator object.

  class MasterSiteValidator {
    var functionalScore: real
    var comparisonScore: real
    var statistics: Option<Stats>
    var recommendations: seq<Recommendation>
    var assessment: Option<Assessment>

    constructor()
      ensures functionalScore == 0.0 && comparisonScore == 0.0
      ensures statistics == None && recommendations == [] && assessment == None
    {
      functionalScore := 0.0;
      comparisonScore := 0.0;
      statistics := None;
      recommendations := [];
      assessment := None;
    }

    /** `analyze_site_statistics` over the listed pages and the number of GIF files under assets. */
    method AnalyzeSiteStatistics(pages: seq<Page>, imageCount: nat) returns (stats: Stats)
      modifies this
      ensures stats == StatsOf(pages, imageCount) && statistics == Some(stats)
      ensures functionalScore == old(functionalScore) && comparisonScore == old(comparisonScore)
      ensures recommendations == old(recommendations) && assessment == old(assessment)
    {
      var size: nat, with404: nat, withContent: nat := 0, 0, 0;
      var i := 0;
      while i < |pages|
        invariant 0 <= i <= |pages|
        invariant TallyOf(pages[..i]) == Tally(size, with404, withContent)
      {
        assert pages[..i + 1][..i] == pages[..i];
        match pages[i].text {
          case None =>
          case Some(c) =>
            size := size + |c|;
            if Is404(c) {
              with404 := with404 + 1;
            } else if |c| > 1000 {
              withContent := withContent + 1;
            }
        }
        i := i + 1;
      }
      assert pages[..|pages|] == pages;
      stats := StatsOf(pages, imageCount);
      statistics := Some(stats);
    }

    method GenerateRecommendations(functional: real, comparison: real, s: Stats) returns (recs: seq<Recommendation>)
      modifies this
      ensures recs == Recommendations(functional, comparison, s) && recommendations == recs
      ensures functionalScore == old(functionalScore) && comparisonScore == old(comparisonScore)
      ensures statistics == old(statistics) && assessment == old(assessment)
    {
      recs := Recommendations(functional, comparison, s);
      recommendations := recs;
    }

    method CalculateOverallReadiness(functional: real, comparison: real, s: Stats) returns (a: Assessment)
      modifies this
      ensures a == AssessmentOf(functional, comparison, s) && assessment == Some(a)
      ensures functionalScore == old(functionalScore) && comparisonScore == old(comparisonScore)
      ensures statistics == old(statistics) && recommendations == old(recommendations)
    {
      a := AssessmentOf(functional, comparison, s);
      assessment := Some(a);
    }

    /** `run_complete_validation`: both suites, the statistics, the recommendations and the assessment. */
    method RunCompleteValidation(functionalRun: RunOutcome, comparisonRun: RunOutcome, parse: string -> Option<real>,
                                 pages: seq<Page>, imageCount: nat) returns (a: Assessment)
      modifies this
      ensures functionalScore == (if functionalRun.Finished? then FirstScore(Split(functionalRun.stdout, '\n'), FunctionalMarker, parse) else 0.0)
      ensures comparisonScore == (if comparisonRun.Finished? then FirstScore(Split(comparisonRun.stdout, '\n'), ComparisonMarker, parse) else 0.0)
      ensures statistics == Some(StatsOf(pages, imageCount))
      ensures recommendations == Recommendations(functionalScore, comparisonScore, StatsOf(pages, imageCount))
      ensures a == AssessmentOf(functionalScore, comparisonScore, StatsOf(pages, imageCount)) && assessment == Some(a)
    {
      var f := RunScore(functionalRun, FunctionalMarker, parse);
      var c := RunScore(comparisonRun, ComparisonMarker, parse);
      functionalScore, comparisonScore := f, c;
      var s := AnalyzeSiteStatistics(pages, imageCount);
      var recs := GenerateRecommendations(f, c, s);
      a := CalculateOverallReadiness(f, c, s);
    }
  }
}
