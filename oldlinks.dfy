/**
 * The removal of references to the old website's host: pages that name the
 * host are found, each reference found is neutralised (an `href` pointing to
 * it becomes `href="#"`, area links to it lose their `href`, and any URL on
 * the host left over is commented out), and the cleanup is then verified
 * with comments stripped.
 */
module OldLinks {
  import opened Strings
  import opened Rewriting
  import opened Attributes
  import opened Site
  import opened Cleanup

  const OldDomain: string := "0002n8y.wcomhost.com"
  const HttpsDomain: string := "https://" + OldDomain
  const HttpDomain: string := "http://" + OldDomain

  // ---------------------------------------------------------------------
  // Finding the references.

  /** The strings of `s`, each once, in the order they first occur. */
  function Dedup(s: seq<string>): (r: seq<string>)
    ensures Distinct(r) && |r| <= |s|
    ensures forall x :: x in r <==> x in s
    decreases |s|
  {
    if |s| == 0 then []
    else
      var d := Dedup(s[..|s| - 1]);
      var x := s[|s| - 1];
      assert s == s[..|s| - 1] + [x];
      if x in d then d else d + [x]
  }

  /** `set(https_matches + http_matches + domain_matches)`, as a list without repeats. */
  function PageMatches(content: string): seq<string> {
    Dedup(FindAll(content, UrlAt(HttpsDomain)) + FindAll(content, UrlAt(HttpDomain)) + FindAll(content, UrlAt(OldDomain)))
  }

  /** Every string found by a pattern that starts with `P + D` names the host `D`. */
  lemma NamesDomain(found: seq<string>, p: string)
    requires forall x :: x in found ==> StartsWith(x, p + OldDomain)
    ensures forall x :: x in found ==> Contains(x, OldDomain)
  {
    forall x | x in found
      ensures Contains(x, OldDomain)
    {
      assert x[..|p + OldDomain|] == p + OldDomain;
      assert x[|p|..|p| + |OldDomain|] == (p + OldDomain)[|p|..];
      ContainsAt(x, OldDomain, |p|);
    }
  }

  /** The URLs `P + D` finds occur in the page, name the host and have no quote. */
  lemma FoundNamesDomain(content: string, p: string)
    requires '"' !in p
    ensures forall x :: x in FindAll(content, UrlAt(p + OldDomain)) ==>
      Contains(content, x) && Contains(x, OldDomain) && '"' !in x
  {
    UrlAtMatches(content, p + OldDomain);
    NamesDomain(FindAll(content, UrlAt(p + OldDomain)), p);
  }

  /** The three searches of the page. */
  function Searches(content: string): (r: seq<string>)
    ensures forall x :: x in r ==> Contains(content, x) && Contains(x, OldDomain) && '"' !in x
    ensures PageMatches(content) == Dedup(r)
  {
    FoundNamesDomain(content, "https://");
    FoundNamesDomain(content, "http://");
    assert "" + OldDomain == OldDomain;
    FoundNamesDomain(content, "");
    FindAll(content, UrlAt(HttpsDomain)) + FindAll(content, UrlAt(HttpDomain)) + FindAll(content, UrlAt(OldDomain))
  }

  /** A page has references exactly when it names the old host. */
  lemma PageMatchesFound(content: string)
    ensures PageMatches(content) != [] <==> Contains(content, OldDomain)
  {
    var r := Searches(content);
    var c := FindAll(content, UrlAt(OldDomain));
    UrlAtFound(content, OldDomain);
    assert r == FindAll(content, UrlAt(HttpsDomain)) + FindAll(content, UrlAt(HttpDomain)) + c;
    if c != [] {
      assert c[0] in r;
    }
    if r != [] {
      assert r[0] in Dedup(r);
      ContainsTrans(content, r[0], OldDomain);
    }
  }

  /** Each reference occurs in the page, names the old host and has no quote. */
  lemma PageMatchesShape(content: string)
    ensures forall x :: x in PageMatches(content) ==> Contains(content, x) && Contains(x, OldDomain) && '"' !in x
  {
    var r := Searches(content);
  }

  datatype Reference = Reference(file: string, matches: seq<string>, content: string)

  /** `find_old_website_references`: working pages that name the old host, in listing order. */
  function FindRefs(fs: FileSystem, names: seq<string>): seq<Reference>
    decreases |names|
  {
    if |names| == 0 then []
    else
      var refs := FindRefs(fs, names[..|names| - 1]);
      var name := names[|names| - 1];
      var path := PagePath(name);
      if path in fs && !Is404(fs[path]) && PageMatches(fs[path]) != [] then
        refs + [Reference(name, PageMatches(fs[path]), fs[path])]
      else refs
  }

  /** The page names of the reports, in order. */
  function Files(refs: seq<Reference>): (r: seq<string>)
    ensures |r| == |refs| && forall i :: 0 <= i < |refs| ==> r[i] == refs[i].file
    decreases |refs|
  {
    if |refs| == 0 then [] else Files(refs[..|refs| - 1]) + [refs[|refs| - 1].file]
  }

  /** A readable, working page is reported exactly when it names the old host. */
  predicate HasOldRefs(fs: FileSystem, name: string) {
    PagePath(name) in fs && !Is404(fs[PagePath(name)]) && Contains(fs[PagePath(name)], OldDomain)
  }

  /** A page is reported exactly when it is listed and has old references. */
  lemma {:induction false} FindRefsFiles(fs: FileSystem, names: seq<string>)
    ensures forall name :: name in Files(FindRefs(fs, names)) <==> name in names && HasOldRefs(fs, name)
    decreases |names|
  {
    if |names| > 0 {
      var init, name := names[..|names| - 1], names[|names| - 1];
      FindRefsFiles(fs, init);
      assert names == init + [name];
      var path := PagePath(name);
      if path in fs {
        PageMatchesFound(fs[path]);
      }
      var refs := FindRefs(fs, init);
      if path in fs && !Is404(fs[path]) && PageMatches(fs[path]) != [] {
        var r := Reference(name, PageMatches(fs[path]), fs[path]);
        assert (refs + [r])[..|refs|] == refs;
        assert Files(FindRefs(fs, names)) == Files(refs) + [name];
      }
    }
  }

  /** Each report carries the page's text and its references, at least one; there are at most as many reports as pages. */
  lemma {:induction false} FindRefsReports(fs: FileSystem, names: seq<string>)
    ensures forall r :: r in FindRefs(fs, names) ==>
      PagePath(r.file) in fs && r.content == fs[PagePath(r.file)] && r.matches == PageMatches(r.content) && r.matches != []
    ensures |FindRefs(fs, names)| <= |names|
    decreases |names|
  {
    if |names| > 0 {
      FindRefsReports(fs, names[..|names| - 1]);
    }
  }

  /** Distinct listings give distinct reports. */
  lemma {:induction false} FindRefsDistinct(fs: FileSystem, names: seq<string>)
    requires Distinct(names)
    ensures DistinctFiles(FindRefs(fs, names))
    decreases |names|
  {
    if |names| > 0 {
      var init, name := names[..|names| - 1], names[|names| - 1];
      assert Distinct(init) by {
        assert forall i :: 0 <= i < |init| ==> init[i] == names[i];
      }
      FindRefsDistinct(fs, init);
      FindRefsFiles(fs, init);
      assert names == init + [name];
      assert name !in init;
      var refs := FindRefs(fs, init);
      var path := PagePath(name);
      if path in fs && !Is404(fs[path]) && PageMatches(fs[path]) != [] {
        forall i | 0 <= i < |refs|
          ensures refs[i].file != name
        {
          assert Files(refs)[i] in Files(refs);
        }
        DistinctAppend(refs, Reference(name, PageMatches(fs[path]), fs[path]));
      }
    }
  }

  // ---------------------------------------------------------------------
  // Removing them.

  /** `href="m"`. */
  function HrefUnit(m: string): string {
    HrefKey + m + "\""
  }

  const HashHref: string := "href=\"#\""

  /** Strategy 1: every `href="m"` becomes `href="#"`; whether it applied. */
  function ReplaceHref(content: string, m: string): (string, bool) {
    var unit := HrefUnit(m);
    if Contains(content, unit) then (ReplaceAll(content, unit, HashHref), true) else (content, false)
  }

  /** Strategy 1 applies exactly when the link occurs, and then it changes the text. */
  lemma ReplaceHrefSpec(content: string, m: string)
    requires |m| != 1
    ensures ReplaceHref(content, m).1 <==> Contains(content, HrefUnit(m))
    ensures ReplaceHref(content, m).1 <==> ReplaceHref(content, m).0 != content
  {
    ReplaceAllChanges(content, HrefUnit(m), HashHref);
  }

  /** The `<area>` tags that link to `m`: `<area[^>]*href="m"[^>]*>`. */
  function LinksTo(m: string): string -> bool {
    (attrs: string) => Contains(attrs, HrefUnit(m))
  }

  /** The comment-out loop: each URL found is replaced everywhere by its wrap. */
  function WrapAll(content: string, urls: seq<string>): string
    decreases |urls|
  {
    if |urls| == 0 then content
    else
      var last := urls[|urls| - 1];
      ReplaceAll(WrapAll(content, urls[..|urls| - 1]), last, WrapText(last))
  }

  /** Strategy 2, when the reference is still in the text: disable areas linking to it, then comment out every URL on the host. */
  function CommentOut(content: string, m: string): (string, bool) {
    var areas := FindAll(content, AreaTag(LinksTo(m)));
    var disabled := DisableAll(content, areas);
    var urls := FindAll(disabled, SchemeUrl(OldDomain));
    (WrapAll(disabled, urls), |areas| > 0 || |urls| > 0)
  }

  /** Only the areas that link to the reference are disabled, and nothing changes unless something is found. */
  lemma CommentOutSpec(content: string, m: string)
    ensures forall a :: a in FindAll(content, AreaTag(LinksTo(m))) ==>
      StartsWith(a, "<area") && Contains(a, HrefUnit(m))
    ensures !CommentOut(content, m).1 ==> CommentOut(content, m).0 == content
  {
    AreaTagsFound(content, LinksTo(m));
    forall a | a in FindAll(content, AreaTag(LinksTo(m)))
      ensures StartsWith(a, "<area") && Contains(a, HrefUnit(m))
    {
      var attrs := AreaAttrs(a);
      assert a == "<area" + attrs + ">";
      assert a[..5] == "<area";
      assert a[5..5 + |attrs|] == attrs;
      ContainsAt(a, attrs, 5);
      ContainsTrans(a, attrs, HrefUnit(m));
    }
  }

  /** One reference: strategy 1, then strategy 2 if the reference is still there. */
  function ProcessMatch(content: string, m: string): (string, bool) {
    var (c1, changed) := ReplaceHref(content, m);
    if Contains(c1, m) then
      var (c2, changed2) := CommentOut(c1, m);
      (c2, changed || changed2)
    else (c1, changed)
  }

  /** A reference that changes nothing leaves the text as it was. */
  lemma ProcessMatchUnchanged(content: string, m: string)
    ensures !ProcessMatch(content, m).1 ==> ProcessMatch(content, m).0 == content
  {
    CommentOutSpec(ReplaceHref(content, m).0, m);
  }

  /** All the references of a page, in order: the new text and `changes_made`. */
  function Process(content: string, matches: seq<string>): (string, bool)
    decreases |matches|
  {
    if |matches| == 0 then (content, false)
    else
      var (c, changed) := Process(content, matches[..|matches| - 1]);
      var (c', changed') := ProcessMatch(c, matches[|matches| - 1]);
      (c', changed || changed')
  }

  /** A page for which no change was reported is the page as read: skipping its write loses nothing. */
  lemma {:induction false} ProcessUnchanged(content: string, matches: seq<string>)
    ensures !Process(content, matches).1 ==> Process(content, matches).0 == content
    decreases |matches|
  {
    if |matches| > 0 {
      var init := matches[..|matches| - 1];
      ProcessUnchanged(content, init);
      ProcessMatchUnchanged(Process(content, init).0, matches[|matches| - 1]);
    }
  }

  /** The changes made to the page of a report, as `Process` computes them. */
  function Cleaned(r: Reference): (string, bool) {
    Process(r.content, r.matches)
  }

  /** `remove_old_website_references`: the files afterwards and the names written, in order. */
  function Remove(fs: FileSystem, refs: seq<Reference>): (FileSystem, seq<string>)
    decreases |refs|
  {
    if |refs| == 0 then (fs, [])
    else
      var (fs1, fixed) := Remove(fs, refs[..|refs| - 1]);
      var r := refs[|refs| - 1];
      var (c, changed) := Cleaned(r);
      if changed then (fs1[PagePath(r.file) := c], fixed + [r.file]) else (fs1, fixed)
  }

  /** Pairwise different page names. */
  predicate DistinctFiles(refs: seq<Reference>) {
    forall i, j :: 0 <= i < j < |refs| ==> refs[i].file != refs[j].file
  }

  /** A report for a new page keeps the page names distinct. */
  lemma DistinctAppend(refs: seq<Reference>, r: Reference)
    requires DistinctFiles(refs) && forall i :: 0 <= i < |refs| ==> refs[i].file != r.file
    ensures DistinctFiles(refs + [r])
  {
    var all := refs + [r];
    forall i, j | 0 <= i < j < |all|
      ensures all[i].file != all[j].file
    {
      assert all[i] == refs[i];
      if j < |refs| {
        assert all[j] == refs[j];
      }
    }
  }

  /** A page is listed only if it was reported and changed; with distinct reports, exactly the changed ones are listed. */
  lemma RemoveListed(fs: FileSystem, refs: seq<Reference>)
    ensures |Remove(fs, refs).1| <= |refs|
    ensures forall f :: f in Remove(fs, refs).1 ==> exists r :: r in refs && r.file == f && Cleaned(r).1
    ensures DistinctFiles(refs) ==> forall r :: r in refs ==> (r.file in Remove(fs, refs).1 <==> Cleaned(r).1)
  {
    ListedOnlyChanged(fs, refs);
    ListedAllChanged(fs, refs);
  }

  /** The first two parts of `RemoveListed`. */
  lemma {:induction false} ListedOnlyChanged(fs: FileSystem, refs: seq<Reference>)
    ensures |Remove(fs, refs).1| <= |refs|
    ensures forall f :: f in Remove(fs, refs).1 ==> exists r :: r in refs && r.file == f && Cleaned(r).1
    decreases |refs|
  {
    if |refs| > 0 {
      var init, last := refs[..|refs| - 1], refs[|refs| - 1];
      ListedOnlyChanged(fs, init);
      assert refs == init + [last];
    }
  }

  /** The distinct-reports part of `RemoveListed`. */
  lemma {:induction false} ListedAllChanged(fs: FileSystem, refs: seq<Reference>)
    ensures DistinctFiles(refs) ==> forall r :: r in refs ==> (r.file in Remove(fs, refs).1 <==> Cleaned(r).1)
    decreases |refs|
  {
    if |refs| > 0 && DistinctFiles(refs) {
      var init, last := refs[..|refs| - 1], refs[|refs| - 1];
      DistinctLast(refs);
      ListedAllChanged(fs, init);
      ListedOnlyChanged(fs, init);
      assert last.file !in Remove(fs, init).1;
      assert refs == init + [last];
    }
  }

  /** Without its last report, distinct reports stay distinct and name other pages than the last. */
  lemma DistinctLast(refs: seq<Reference>)
    requires |refs| > 0 && DistinctFiles(refs)
    ensures DistinctFiles(refs[..|refs| - 1])
    ensures forall r :: r in refs[..|refs| - 1] ==> r.file != refs[|refs| - 1].file
  {
    var init := refs[..|refs| - 1];
    forall r | r in init
      ensures r.file != refs[|refs| - 1].file
    {
      var i :| 0 <= i < |init| && init[i] == r;
      assert refs[i] == r;
    }
  }

  /**
   * Only the reported pages are written and every other file keeps its
   * text; with distinct reports each changed page holds its processed text.
   */
  lemma RemoveFiles(fs: FileSystem, refs: seq<Reference>)
    ensures forall k :: k in Remove(fs, refs).0 ==> k in fs || exists r :: r in refs && k == PagePath(r.file)
    ensures forall k :: k in fs && (forall r :: r in refs ==> k != PagePath(r.file)) ==>
      k in Remove(fs, refs).0 && Remove(fs, refs).0[k] == fs[k]
    ensures DistinctFiles(refs) ==> forall r :: r in refs && Cleaned(r).1 ==>
      PagePath(r.file) in Remove(fs, refs).0 && Remove(fs, refs).0[PagePath(r.file)] == Cleaned(r).0
  {
    RemoveKeys(fs, refs);
    RemoveFrame(fs, refs);
    RemoveWritten(fs, refs);
  }

  /** The first part of `RemoveFiles`: no file but a reported page appears. */
  lemma {:induction false} RemoveKeys(fs: FileSystem, refs: seq<Reference>)
    ensures forall k :: k in Remove(fs, refs).0 ==> k in fs || exists r :: r in refs && k == PagePath(r.file)
    decreases |refs|
  {
    if |refs| > 0 {
      var init, last := refs[..|refs| - 1], refs[|refs| - 1];
      RemoveKeys(fs, init);
      assert refs == init + [last];
    }
  }

  /** The second part of `RemoveFiles`: unreported files keep their text. */
  lemma {:induction false} RemoveFrame(fs: FileSystem, refs: seq<Reference>)
    ensures forall k :: k in fs && (forall r :: r in refs ==> k != PagePath(r.file)) ==>
      k in Remove(fs, refs).0 && Remove(fs, refs).0[k] == fs[k]
    decreases |refs|
  {
    if |refs| > 0 {
      var init, last := refs[..|refs| - 1], refs[|refs| - 1];
      RemoveFrame(fs, init);
      assert refs == init + [last];
    }
  }

  /** The third part of `RemoveFiles`: with distinct reports, each changed page holds its processed text. */
  lemma {:induction false} RemoveWritten(fs: FileSystem, refs: seq<Reference>)
    ensures DistinctFiles(refs) ==> forall r :: r in refs && Cleaned(r).1 ==>
      PagePath(r.file) in Remove(fs, refs).0 && Remove(fs, refs).0[PagePath(r.file)] == Cleaned(r).0
    decreases |refs|
  {
    if |refs| > 0 && DistinctFiles(refs) {
      var init, last := refs[..|refs| - 1], refs[|refs| - 1];
      DistinctLast(refs);
      RemoveWritten(fs, init);
      assert refs == init + [last];
      forall r | r in init
        ensures PagePath(r.file) != PagePath(last.file)
      {
        PagePathInjective(r.file, last.file);
      }
    }
  }

  // ---------------------------------------------------------------------
  // Verifying, and the statistics.

  /** A page that still names the old host outside comments. */
  predicate StillReferenced(content: string) {
    Contains(content, OldDomain) && Contains(StripComments(content), OldDomain)
  }

  /** `remaining_refs`: the readable pages still naming the old host outside comments. */
  function RemainingRefs(fs: FileSystem, names: seq<string>): (n: nat)
    ensures n <= |names|
    decreases |names|
  {
    if |names| == 0 then 0
    else
      var path := PagePath(names[|names| - 1]);
      RemainingRefs(fs, names[..|names| - 1]) + (if path in fs && StillReferenced(fs[path]) then 1 else 0)
  }

  /** `verify_cleanup` succeeds exactly when no readable page names the old host outside comments. */
  lemma {:induction false} VerifyCleanupSpec(fs: FileSystem, names: seq<string>)
    ensures RemainingRefs(fs, names) == 0 <==>
      forall name :: name in names && PagePath(name) in fs ==> !StillReferenced(fs[PagePath(name)])
    decreases |names|
  {
    if |names| > 0 {
      var init := names[..|names| - 1];
      VerifyCleanupSpec(fs, init);
      assert names == init + [names[|names| - 1]];
    }
  }

  /** A single commented-out URL no longer counts as a reference after comment stripping. */
  lemma WrappedNotReferenced(u: string, rest: string)
    requires '>' !in u && !Contains(StripComments(rest), OldDomain)
    ensures !Contains(StripComments(WrapText(u) + rest), OldDomain)
  {
    StripWrapped(u, rest);
  }

  /** `total_refs`: the number of references over all reports. */
  function TotalRefs(refs: seq<Reference>): nat
    decreases |refs|
  {
    if |refs| == 0 then 0 else TotalRefs(refs[..|refs| - 1]) + |refs[|refs| - 1].matches|
  }

  /** Every report has a reference, so there are at least as many references as reported files. */
  lemma {:induction false} TotalRefsAtLeast(refs: seq<Reference>)
    requires forall r :: r in refs ==> r.matches != []
    ensures TotalRefs(refs) >= |refs|
    decreases |refs|
  {
    if |refs| > 0 {
      TotalRefsAtLeast(refs[..|refs| - 1]);
      assert refs[|refs| - 1] in refs;
    }
  }

  /** The statistics of found reports: files and references. */
  lemma StatisticsOfFound(fs: FileSystem, names: seq<string>)
    ensures TotalRefs(FindRefs(fs, names)) >= |FindRefs(fs, names)|
  {
    FindRefsReports(fs, names);
    TotalRefsAtLeast(FindRefs(fs, names));
  }

  // ---------------------------------------------------------------------
  // The loops of the script.

  /** The scan of the pages directory. */
  method FindOldWebsiteReferences(fs: FileSystem, names: seq<string>) returns (refs: seq<Reference>)
    ensures refs == FindRefs(fs, names)
  {
    refs := [];
    var i := 0;
    while i < |names|
      invariant 0 <= i <= |names|
      invariant refs == FindRefs(fs, names[..i])
    {
      assert names[..i + 1][..i] == names[..i];
      var path := PagePath(names[i]);
      if path in fs && !Is404(fs[path]) {
        var matches := PageMatches(fs[path]);
        if matches != [] {
          refs := refs + [Reference(names[i], matches, fs[path])];
        }
      }
      i := i + 1;
    }
    assert names[..i] == names;
  }

  /** The loop over one page's references. */
  method ProcessReferences(content: string, matches: seq<string>) returns (newContent: string, changesMade: bool)
    ensures (newContent, changesMade) == Process(content, matches)
  {
    newContent, changesMade := content, false;
    var i := 0;
    while i < |matches|
      invariant 0 <= i <= |matches|
      invariant (newContent, changesMade) == Process(content, matches[..i])
    {
      assert matches[..i + 1][..i] == matches[..i];
      var r := ProcessMatch(newContent, matches[i]);
      newContent := r.0;
      changesMade := changesMade || r.1;
      i := i + 1;
    }
    assert matches[..i] == matches;
  }

  /** The loop over the reports, writing each changed page. */
  method RemoveOldWebsiteReferences(fs: FileSystem, refs: seq<Reference>) returns (fs': FileSystem, fixedFiles: seq<string>)
    ensures (fs', fixedFiles) == Remove(fs, refs)
  {
    fs', fixedFiles := fs, [];
    var i := 0;
    while i < |refs|
      invariant 0 <= i <= |refs|
      invariant (fs', fixedFiles) == Remove(fs, refs[..i])
    {
      assert refs[..i + 1][..i] == refs[..i];
      var newContent, changesMade := ProcessReferences(refs[i].content, refs[i].matches);
      if changesMade {
        fs' := fs'[PagePath(refs[i].file) := newContent];
        fixedFiles := fixedFiles + [refs[i].file];
      }
      i := i + 1;
    }
    assert refs[..i] == refs;
  }

  /** The verification loop. */
  method VerifyCleanup(fs: FileSystem, names: seq<string>) returns (success: bool)
    ensures success <==> forall name :: name in names && PagePath(name) in fs ==> !StillReferenced(fs[PagePath(name)])
  {
    var remaining := 0;
    var i := 0;
    while i < |names|
      invariant 0 <= i <= |names|
      invariant remaining == RemainingRefs(fs, names[..i])
    {
      assert names[..i + 1][..i] == names[..i];
      var path := PagePath(names[i]);
      if path in fs && Contains(fs[path], OldDomain) {
        if Contains(StripComments(fs[path]), OldDomain) {
          remaining := remaining + 1;
        }
      }
      i := i + 1;
    }
    assert names[..i] == names;
    VerifyCleanupSpec(fs, names);
    success := remaining == 0;
  }
}
