/**
 * The quick page checker: eleven key pages are fetched from the old host and
 * from the new site, each pair gets one of six results from the two status
 * codes and the sizes, and the results are tallied into a priority message.
 */
module QuickCheck {
  import opened Site
  import SiteFixer

  datatype PairResult = Good | SizeDiff | NewOnly | Broken | BothBroken | Error

  const AllResults: set<PairResult> := {Good, SizeDiff, NewOnly, Broken, BothBroken, Error}

  /** `check_page_pair`: either request raising gives `Error`. */
  function CheckPair(page: string, fetch: string -> Fetch): PairResult {
    var oldFetch := fetch(SiteFixer.OldUrl(page));
    var newFetch := fetch(SiteFixer.NewUrl(page));
    if oldFetch.Raised? || newFetch.Raised? then Error
    else if oldFetch.status == 200 && newFetch.status == 200 then
      (if SizeRatio(|oldFetch.body|, |newFetch.body|) < 0.5 then SizeDiff else Good)
    else if oldFetch.status != 200 && newFetch.status == 200 then NewOnly
    else if oldFetch.status == 200 && newFetch.status != 200 then Broken
    else BothBroken
  }

  /**
   * The decision table: with two 200s the pair is `SizeDiff` exactly when the
   * smaller body is under half the larger (so two empty bodies differ), and
   * the other status pairs and an exception map to the remaining results.
   */
  lemma CheckPairTable(page: string, fetch: string -> Fetch)
    ensures var r, o, n := CheckPair(page, fetch), fetch(SiteFixer.OldUrl(page)), fetch(SiteFixer.NewUrl(page));
      && (r == Error <==> o.Raised? || n.Raised?)
      && (r == SizeDiff <==> IsOk(o) && IsOk(n) && (2 * |o.body| < |n.body| || 2 * |n.body| < |o.body| || |o.body| + |n.body| == 0))
      && (r == Good <==> IsOk(o) && IsOk(n) && 2 * |o.body| >= |n.body| && 2 * |n.body| >= |o.body| && (|o.body| > 0 || |n.body| > 0))
      && (r == NewOnly <==> o.Response? && IsOk(n) && !IsOk(o))
      && (r == Broken <==> n.Response? && IsOk(o) && !IsOk(n))
      && (r == BothBroken <==> o.Response? && n.Response? && !IsOk(o) && !IsOk(n))
  {
    var o, n := fetch(SiteFixer.OldUrl(page)), fetch(SiteFixer.NewUrl(page));
    if o.Response? && n.Response? {
      RatioBelow(|o.body|, |n.body|, 0.5);
    }
  }

  const KeyPages: seq<string> := [
    "home", "honours", "records", "top25", "videos", "nextgame",
    "History1", "everyplayer", "squad_page2", "season2022", "latest_page2"]

  /** The results of the pages, in order. */
  function Results(pages: seq<string>, fetch: string -> Fetch): (r: seq<PairResult>)
    ensures |r| == |pages|
    decreases |pages|
  {
    if |pages| == 0 then []
    else Results(pages[..|pages| - 1], fetch) + [CheckPair(pages[|pages| - 1], fetch)]
  }

  /** How many of `rs` are `k`. */
  function Tally(rs: seq<PairResult>, k: PairResult): (n: nat)
    ensures n <= |rs|
    decreases |rs|
  {
    if |rs| == 0 then 0
    else Tally(rs[..|rs| - 1], k) + (if rs[|rs| - 1] == k then 1 else 0)
  }

  /** The six counters add up to the number of results. */
  lemma {:induction false} TallySum(rs: seq<PairResult>)
    ensures Tally(rs, Good) + Tally(rs, SizeDiff) + Tally(rs, NewOnly)
          + Tally(rs, Broken) + Tally(rs, BothBroken) + Tally(rs, Error) == |rs|
    decreases |rs|
  {
    if |rs| > 0 {
      TallySum(rs[..|rs| - 1]);
    }
  }

  datatype Priority = High(broken: nat) | Medium(sizeDiffs: nat) | AllGood

  /** The closing message: broken pages first, then size differences. */
  function PriorityOf(counts: map<PairResult, nat>): (p: Priority)
    requires AllResults <= counts.Keys
    ensures p.High? <==> counts[Broken] > 0
    ensures p.Medium? <==> counts[Broken] == 0 && counts[SizeDiff] > 0
    ensures p.AllGood? <==> counts[Broken] == 0 && counts[SizeDiff] == 0
  {
    if counts[Broken] > 0 then High(counts[Broken])
    else if counts[SizeDiff] > 0 then Medium(counts[SizeDiff])
    else AllGood
  }

  /** `main`: every result is one of the six counter keys, and the counters add up to the 11 pages. */
  method Run(fetch: string -> Fetch) returns (counts: map<PairResult, nat>, priority: Priority)
    ensures counts.Keys == AllResults
    ensures forall k :: k in counts ==> counts[k] == Tally(Results(KeyPages, fetch), k)
    ensures counts[Good] + counts[SizeDiff] + counts[NewOnly] + counts[Broken] + counts[BothBroken] + counts[Error] == 11
    ensures priority == PriorityOf(counts)
  {
    counts := CountResults(KeyPages, fetch);
    EveryKey(counts);
    TallySum(Results(KeyPages, fetch));
    priority := PriorityOf(counts);
  }

  /** A table with every result as a key has exactly the six keys. */
  lemma EveryKey(counts: map<PairResult, nat>)
    requires forall k :: k in counts
    ensures counts.Keys == AllResults
  {
    forall k | k in counts ensures k in AllResults {
      match k
      case Good =>
      case SizeDiff =>
      case NewOnly =>
      case Broken =>
      case BothBroken =>
      case Error =>
    }
  }

  /** The loop over the pages, counting each pair result. */
  method CountResults(pages: seq<string>, fetch: string -> Fetch) returns (counts: map<PairResult, nat>)
    ensures forall k :: k in counts && counts[k] == Tally(Results(pages, fetch), k)
  {
    counts := map[Good := 0, SizeDiff := 0, NewOnly := 0, Broken := 0, BothBroken := 0, Error := 0];
    ghost var done: seq<PairResult> := [];
    forall k ensures k in counts && counts[k] == Tally(done, k) {
      match k
      case Good =>
      case SizeDiff =>
      case NewOnly =>
      case Broken =>
      case BothBroken =>
      case Error =>
    }
    var i := 0;
    while i < |pages|
      invariant 0 <= i <= |pages|
      invariant done == Results(pages[..i], fetch)
      invariant forall k :: k in counts && counts[k] == Tally(done, k)
    {
      var result := CheckPair(pages[i], fetch);
      ResultsStep(pages, i, fetch);
      TallyAppend(done, result);
      done := done + [result];
      counts := counts[result := counts[result] + 1];
      i := i + 1;
    }
    assert pages[..i] == pages;
  }

  lemma ResultsStep(pages: seq<string>, i: nat, fetch: string -> Fetch)
    requires i < |pages|
    ensures Results(pages[..i + 1], fetch) == Results(pages[..i], fetch) + [CheckPair(pages[i], fetch)]
  {
    assert pages[..i + 1][..i] == pages[..i];
  }

  lemma TallyAppend(rs: seq<PairResult>, x: PairResult)
    ensures forall k :: Tally(rs + [x], k) == Tally(rs, k) + (if x == k then 1 else 0)
  {
    assert (rs + [x])[..|rs|] == rs;
  }
}
