/**
 * The final verification of the cleanup: how many pages still name one of
 * the old hosting domains, how many times the proboards forum is still named
 * on working pages, and how many working pages still link to YouTube.
 * Reading a page is not guarded, so one unreadable page stops the run.
 */
module FinalCheck {
  import opened Strings
  import opened Rewriting
  import opened Site

  const OldHostingDomains: seq<string> := ["0002n8y.wcomhost.com", "web.bethere.co.uk"]

  /** Every listed page can be read. */
  ghost predicate AllReadable(fs: FileSystem, listing: seq<string>) {
    forall name :: name in listing ==> PagePath(name) in fs
  }

  /** The number of pages whose raw text contains `domain` (comments included). */
  function FilesWith(fs: FileSystem, listing: seq<string>, domain: string): (n: nat)
    ensures n <= |listing|
    decreases |listing|
  {
    if |listing| == 0 then 0
    else
      var path := PagePath(listing[|listing| - 1]);
      FilesWith(fs, listing[..|listing| - 1], domain) + (if path in fs && Contains(fs[path], domain) then 1 else 0)
  }

  /** The per-domain counts, in domain order. */
  function DomainRefs(fs: FileSystem, listing: seq<string>, domains: seq<string>): (r: seq<nat>)
    ensures |r| == |domains|
    decreases |domains|
  {
    if |domains| == 0 then []
    else DomainRefs(fs, listing, domains[..|domains| - 1]) + [FilesWith(fs, listing, domains[|domains| - 1])]
  }

  function Sum(s: seq<nat>): nat
    decreases |s|
  {
    if |s| == 0 then 0 else Sum(s[..|s| - 1]) + s[|s| - 1]
  }

  /** A working page: readable and not the old host's error page. */
  predicate Working(fs: FileSystem, name: string) {
    PagePath(name) in fs && !Is404(fs[PagePath(name)])
  }

  /** The proboards count of one page: `content.count('proboards')` on a working page that names it. */
  function ProboardsIn(fs: FileSystem, name: string): nat {
    var path := PagePath(name);
    if path in fs && Contains(fs[path], "proboards") && !Is404(fs[path]) then Count(fs[path], "proboards") else 0
  }

  /** The proboards occurrences over all pages. */
  function ProboardsRefs(fs: FileSystem, listing: seq<string>): nat
    decreases |listing|
  {
    if |listing| == 0 then 0
    else ProboardsRefs(fs, listing[..|listing| - 1]) + ProboardsIn(fs, listing[|listing| - 1])
  }

  /** The pages that contribute to the proboards count, with their counts. */
  function ProboardsFiles(fs: FileSystem, listing: seq<string>): seq<(string, nat)>
    decreases |listing|
  {
    if |listing| == 0 then []
    else
      var name := listing[|listing| - 1];
      ProboardsFiles(fs, listing[..|listing| - 1]) + (if ProboardsIn(fs, name) > 0 then [(name, ProboardsIn(fs, name))] else [])
  }

  /** A working page that mentions YouTube in any letter case. */
  predicate HasYoutube(fs: FileSystem, name: string) {
    Working(fs, name) && Contains(Lower(fs[PagePath(name)]), "youtube")
  }

  /** The number of working pages that mention YouTube. */
  function YoutubeRefs(fs: FileSystem, listing: seq<string>): (n: nat)
    ensures n <= |listing|
    decreases |listing|
  {
    if |listing| == 0 then 0
    else YoutubeRefs(fs, listing[..|listing| - 1]) + (if HasYoutube(fs, listing[|listing| - 1]) then 1 else 0)
  }

  datatype Verification = Verification(
    domainRefs: seq<nat>, totalOldRefs: nat,
    proboardsRefs: nat, proboardsFiles: seq<(string, nat)>,
    youtubeRefs: nat, success: bool)

  /** The verification of the whole pages directory. */
  function VerificationOf(fs: FileSystem, listing: seq<string>): Verification {
    var refs := DomainRefs(fs, listing, OldHostingDomains);
    var total, proboards, youtube := Sum(refs), ProboardsRefs(fs, listing), YoutubeRefs(fs, listing);
    Verification(refs, total, proboards, ProboardsFiles(fs, listing), youtube, total == 0 && proboards == 2 && youtube > 0)
  }

  /** A domain count is 0 exactly when no page contains the domain. */
  lemma {:induction false} FilesWithZero(fs: FileSystem, listing: seq<string>, domain: string)
    ensures FilesWith(fs, listing, domain) == 0 <==>
      forall name :: name in listing && PagePath(name) in fs ==> !Contains(fs[PagePath(name)], domain)
    decreases |listing|
  {
    if |listing| > 0 {
      var init := listing[..|listing| - 1];
      FilesWithZero(fs, init, domain);
      assert listing == init + [listing[|listing| - 1]];
    }
  }

  /** A sum of counts is 0 exactly when every count is. */
  lemma {:induction false} SumZero(s: seq<nat>)
    ensures Sum(s) == 0 <==> forall k :: 0 <= k < |s| ==> s[k] == 0
    decreases |s|
  {
    if |s| > 0 {
      SumZero(s[..|s| - 1]);
    }
  }

  /** The total is 0 exactly when no page contains any old domain. */
  lemma OldRefsZero(fs: FileSystem, listing: seq<string>)
    ensures VerificationOf(fs, listing).totalOldRefs == 0 <==>
      forall k, name :: 0 <= k < |OldHostingDomains| && name in listing && PagePath(name) in fs
        ==> !Contains(fs[PagePath(name)], OldHostingDomains[k])
  {
    var refs := DomainRefs(fs, listing, OldHostingDomains);
    SumZero(refs);
    FilesWithZero(fs, listing, OldHostingDomains[0]);
    FilesWithZero(fs, listing, OldHostingDomains[1]);
  }

  /** A page's proboards count is positive exactly when it is working and names proboards. */
  lemma ProboardsInPositive(fs: FileSystem, name: string)
    ensures ProboardsIn(fs, name) > 0 <==> Working(fs, name) && Contains(fs[PagePath(name)], "proboards")
  {
    if PagePath(name) in fs {
      CountPositive(fs[PagePath(name)], "proboards");
    }
  }

  /** The listed counts add up to the proboards total, and every listed page names proboards. */
  lemma {:induction false} ProboardsFilesSum(fs: FileSystem, listing: seq<string>)
    ensures ProboardsRefs(fs, listing) == SumCounts(ProboardsFiles(fs, listing))
    ensures forall e :: e in ProboardsFiles(fs, listing) ==> e.0 in listing && Working(fs, e.0) && e.1 > 0
    decreases |listing|
  {
    if |listing| > 0 {
      var init := listing[..|listing| - 1];
      var name := listing[|listing| - 1];
      ProboardsFilesSum(fs, init);
      ProboardsInPositive(fs, name);
      var extra := if ProboardsIn(fs, name) > 0 then [(name, ProboardsIn(fs, name))] else [];
      SumCountsAppend(ProboardsFiles(fs, init), extra);
    }
  }

  function SumCounts(s: seq<(string, nat)>): nat
    decreases |s|
  {
    if |s| == 0 then 0 else SumCounts(s[..|s| - 1]) + s[|s| - 1].1
  }

  lemma {:induction false} SumCountsAppend(a: seq<(string, nat)>, b: seq<(string, nat)>)
    ensures SumCounts(a + b) == SumCounts(a) + SumCounts(b)
    decreases |b|
  {
    if |b| == 0 {
      assert a + b == a;
    } else {
      assert (a + b)[..|a + b| - 1] == a + b[..|b| - 1];
      SumCountsAppend(a, b[..|b| - 1]);
    }
  }

  /** The YouTube count is positive exactly when some working page mentions it. */
  lemma {:induction false} YoutubePositive(fs: FileSystem, listing: seq<string>)
    ensures YoutubeRefs(fs, listing) > 0 <==> exists name :: name in listing && HasYoutube(fs, name)
    decreases |listing|
  {
    if |listing| > 0 {
      var init := listing[..|listing| - 1];
      YoutubePositive(fs, init);
      assert listing == init + [listing[|listing| - 1]];
    }
  }

  /** Success needs all three: no old domain anywhere, exactly two proboards references and a YouTube page. */
  lemma SuccessIff(fs: FileSystem, listing: seq<string>)
    ensures VerificationOf(fs, listing).success <==>
      (forall k, name :: 0 <= k < |OldHostingDomains| && name in listing && PagePath(name) in fs
        ==> !Contains(fs[PagePath(name)], OldHostingDomains[k]))
      && ProboardsRefs(fs, listing) == 2
      && exists name :: name in listing && HasYoutube(fs, name)
  {
    OldRefsZero(fs, listing);
    YoutubePositive(fs, listing);
  }

  /**
   * A reference wrapped in a comment by the cleanup still counts: the check
   * reads the raw text, so a page holding `<!-- REMOVED: u -->` for a URL on
   * the domain is counted.
   */
  lemma WrappedStillCounts(fs: FileSystem, listing: seq<string>, name: string, url: string, domain: string)
    requires name in listing && PagePath(name) in fs
    requires Contains(url, domain) && Contains(fs[PagePath(name)], "<!-- REMOVED: " + url + " -->")
    ensures FilesWith(fs, listing, domain) > 0
  {
    var wrapped := "<!-- REMOVED: " + url + " -->";
    var i := IndexOf(url, domain).value;
    assert wrapped[14 + i..14 + i + |domain|] == domain;
    ContainsAt(wrapped, domain, 14 + i);
    ContainsTrans(fs[PagePath(name)], wrapped, domain);
    FilesWithZero(fs, listing, domain);
  }

  /** `main`; `None` when some page cannot be read, which ends the run. */
  method FinalVerification(fs: FileSystem, listing: seq<string>) returns (r: Option<Verification>)
    ensures r.None? <==> !AllReadable(fs, listing)
    ensures r.Some? ==> r.value == VerificationOf(fs, listing)
  {
    var readable, refs, total := CountDomains(fs, listing, OldHostingDomains);
    if !readable {
      return None;
    }
    var proboards, files := CountProboards(fs, listing);
    var youtube := CountYoutube(fs, listing);
    r := Some(Verification(refs, total, proboards, files, youtube, total == 0 && proboards == 2 && youtube > 0));
  }

  /** The passes over the pages for each domain, in order; they stop at the first page that cannot be read. */
  method CountDomains(fs: FileSystem, listing: seq<string>, domains: seq<string>) returns (readable: bool, refs: seq<nat>, total: nat)
    requires |domains| > 0
    ensures readable <==> AllReadable(fs, listing)
    ensures readable ==> refs == DomainRefs(fs, listing, domains) && total == Sum(refs)
  {
    refs, total := [], 0;
    var d := 0;
    while d < |domains|
      invariant 0 <= d <= |domains|
      invariant refs == DomainRefs(fs, listing, domains[..d])
      invariant total == Sum(refs)
      invariant d > 0 ==> AllReadable(fs, listing)
    {
      var n := CountFilesWith(fs, listing, domains[d]);
      if n.None? {
        return false, refs, total;
      }
      DomainRefsStep(fs, listing, domains, d);
      SumStep(refs, n.value);
      refs := refs + [n.value];
      total := total + n.value;
      d := d + 1;
    }
    assert domains[..d] == domains;
    readable := true;
  }

  lemma DomainRefsStep(fs: FileSystem, listing: seq<string>, domains: seq<string>, d: nat)
    requires d < |domains|
    ensures DomainRefs(fs, listing, domains[..d + 1]) == DomainRefs(fs, listing, domains[..d]) + [FilesWith(fs, listing, domains[d])]
  {
    assert domains[..d + 1][..d] == domains[..d];
  }

  lemma SumStep(s: seq<nat>, v: nat)
    ensures Sum(s + [v]) == Sum(s) + v
  {
    assert (s + [v])[..|s|] == s;
  }

  /** One domain's pass over the pages; `None` at the first page that cannot be read. */
  method CountFilesWith(fs: FileSystem, listing: seq<string>, domain: string) returns (n: Option<nat>)
    ensures n.None? <==> !AllReadable(fs, listing)
    ensures n.Some? ==> n.value == FilesWith(fs, listing, domain)
  {
    var count := 0;
    var i := 0;
    while i < |listing|
      invariant 0 <= i <= |listing|
      invariant AllReadable(fs, listing[..i])
      invariant count == FilesWith(fs, listing[..i], domain)
    {
      assert listing[..i + 1][..i] == listing[..i];
      var path := PagePath(listing[i]);
      if path !in fs {
        assert listing[i] in listing;
        return None;
      }
      if Contains(fs[path], domain) {
        count := count + 1;
      }
      assert listing[..i + 1] == listing[..i] + [listing[i]];
      i := i + 1;
    }
    assert listing[..i] == listing;
    n := Some(count);
  }

  /** The proboards pass. */
  method CountProboards(fs: FileSystem, listing: seq<string>) returns (refs: nat, files: seq<(string, nat)>)
    ensures refs == ProboardsRefs(fs, listing) && files == ProboardsFiles(fs, listing)
  {
    refs, files := 0, [];
    var i := 0;
    while i < |listing|
      invariant 0 <= i <= |listing|
      invariant refs == ProboardsRefs(fs, listing[..i]) && files == ProboardsFiles(fs, listing[..i])
    {
      assert listing[..i + 1][..i] == listing[..i];
      var path := PagePath(listing[i]);
      if path in fs && Contains(fs[path], "proboards") && !Is404(fs[path]) {
        var count := Count(fs[path], "proboards");
        CountPositive(fs[path], "proboards");
        refs := refs + count;
        files := files + [(listing[i], count)];
      }
      i := i + 1;
    }
    assert listing[..i] == listing;
  }

  /** The YouTube pass. */
  method CountYoutube(fs: FileSystem, listing: seq<string>) returns (youtube: nat)
    ensures youtube == YoutubeRefs(fs, listing)
  {
    youtube := 0;
    var i := 0;
    while i < |listing|
      invariant 0 <= i <= |listing|
      invariant youtube == YoutubeRefs(fs, listing[..i])
    {
      assert listing[..i + 1][..i] == listing[..i];
      var path := PagePath(listing[i]);
      if path in fs && Contains(Lower(fs[path]), "youtube") && !Is404(fs[path]) {
        youtube := youtube + 1;
      }
      i := i + 1;
    }
    assert listing[..i] == listing;
  }
}
