/**
 * The banner fixer: pages that still show `img0.gif` where the site banner
 * belongs are found by three patterns tried in order (the first that fires
 * flags the page), then every `src="img0.gif"` and `src=".../img0.gif"` on
 * a flagged page is pointed at the shared banner. The banner itself is
 * fetched from the old host when it is missing, trying three URLs in order.
 */
module BannerFix {
  import opened Strings
  import opened Rewriting
  import opened Attributes
  import opened Site

  /** The banner as a page refers to it. */
  const BannerRef: string := "../assets/images/banner.gif"
  /** The banner file on disk. */
  const BannerFile: string := "assets/images/banner.gif"
  const BareImg0: string := "img0.gif"

  /** A `src` value that ends in `img0.gif` (the third pattern's group). */
  predicate HasImg0Name(v: string) {
    EndsWith(v, "img0.gif")
  }

  /** A `src` value that is a path ending in `/img0.gif` (the second substitution). */
  predicate InFolderImg0(v: string) {
    EndsWith(v, "/img0.gif")
  }

  /**
   * One detection pattern: the `src` values it matches, whether `findall`
   * returns the value (a group) or the whole `src="…"` match, and the width
   * and height that must also occur somewhere in the page.
   */
  datatype BannerPattern = BannerPattern(accept: string -> bool, grouped: bool, size: Option<(string, string)>)

  /** The three patterns, in the order they are tried. */
  function Patterns(): seq<BannerPattern> {
    [BannerPattern(Is(BareImg0), false, Some(("659", "119"))),
     BannerPattern(Is(BareImg0), false, Some(("658", "119"))),
     BannerPattern(HasImg0Name, true, None)]
  }

  /** `width=W|width="W"` and `height=H|height="H"` both found anywhere in the page. */
  predicate Sized(content: string, size: Option<(string, string)>) {
    match size
    case None => true
    case Some((w, h)) =>
      (Contains(content, "width=" + w) || Contains(content, "width=\"" + w + "\""))
      && (Contains(content, "height=" + h) || Contains(content, "height=\"" + h + "\""))
  }

  /** The `current_src` of the first pattern that flags the page, if any. */
  function Flag(content: string, patterns: seq<BannerPattern>): Option<string>
    decreases |patterns|
  {
    if |patterns| == 0 then None
    else
      var p := patterns[0];
      var m := Values(content, SrcKey, false, p.accept);
      if |m| > 0 && Sized(content, p.size) && !Contains(content, BannerRef) then
        Some(if p.grouped then m[0] else SrcUnit(m[0]))
      else Flag(content, patterns[1..])
  }

  /**
   * A page is flagged exactly when it does not mention the banner and has
   * some `src` value ending in `img0.gif`: the two sized patterns only decide
   * which `current_src` is reported, the whole `src="img0.gif"` or the first
   * such value.
   */
  lemma FlagSpec(content: string)
    ensures Flag(content, Patterns()).Some? <==>
      !Contains(content, BannerRef) && Values(content, SrcKey, false, HasImg0Name) != []
    ensures Flag(content, Patterns()).Some? ==>
      Flag(content, Patterns()).value == SrcUnit(BareImg0)
      || Flag(content, Patterns()).value == Values(content, SrcKey, false, HasImg0Name)[0]
  {
    var ps := Patterns();
    var wide := Values(content, SrcKey, false, HasImg0Name);
    var exact := Values(content, SrcKey, false, Is(BareImg0));
    var clear := !Contains(content, BannerRef);
    var f3 := Flag(content, ps[2..]);
    assert f3 == if |wide| > 0 && clear then Some(wide[0]) else None by {
      assert ps[2..][1..] == [];
      assert ps[2..][0].accept == HasImg0Name && ps[2..][0].grouped && ps[2..][0].size.None?;
      assert Values(content, SrcKey, false, ps[2..][0].accept) == wide;
      assert Flag(content, ps[2..][1..]) == None;
      assert Sized(content, ps[2..][0].size);
    }
    var f2 := Flag(content, ps[1..]);
    assert f2 == if |exact| > 0 && Sized(content, ps[1].size) && clear then Some(SrcUnit(exact[0])) else f3 by {
      assert ps[1..][1..] == ps[2..];
    }
    assert Flag(content, ps) == if |exact| > 0 && Sized(content, ps[0].size) && clear then Some(SrcUnit(exact[0])) else f2;
    if wide == [] {
      ValuesNarrower(content, SrcKey, false, HasImg0Name, Is(BareImg0));
    } else if |exact| > 0 {
      assert exact[0] in exact;
    }
  }

  /** A flagged page: its name, the src reported and the text it was read with. */
  datatype Problem = Problem(file: string, currentSrc: string, content: string)

  /** One page of `analyze_banner_issues`; unreadable and 404 pages are skipped. */
  function AnalyzePage(fs: FileSystem, name: string): Option<Problem> {
    var path := PagePath(name);
    if path !in fs || Is404(fs[path]) then None
    else
      match Flag(fs[path], Patterns())
      case None => None
      case Some(src) => Some(Problem(name, src, fs[path]))
  }

  /** `analyze_banner_issues` over the glob's page names, in order. */
  function Analyze(fs: FileSystem, names: seq<string>): (r: seq<Problem>)
    ensures |r| <= |names|
    decreases |names|
  {
    if |names| == 0 then []
    else
      var a := AnalyzePage(fs, names[|names| - 1]);
      Analyze(fs, names[..|names| - 1]) + (if a.Some? then [a.value] else [])
  }

  /**
   * A problem is reported exactly for a listed page that can be read, is not
   * a 404 page and is flagged, carrying its text and the flagged src; a page
   * listed once is reported at most once.
   */
  lemma {:induction false} AnalyzeSpec(fs: FileSystem, names: seq<string>)
    ensures forall p :: p in Analyze(fs, names) <==>
      p.file in names && PagePath(p.file) in fs && p.content == fs[PagePath(p.file)]
      && !Is404(p.content) && Flag(p.content, Patterns()) == Some(p.currentSrc)
    ensures Distinct(names) ==> forall i, j :: 0 <= i < j < |Analyze(fs, names)| ==>
      Analyze(fs, names)[i].file != Analyze(fs, names)[j].file
    decreases |names|
  {
    if |names| > 0 {
      var init := names[..|names| - 1];
      var last := names[|names| - 1];
      AnalyzeSpec(fs, init);
      assert names == init + [last];
      if Distinct(names) {
        assert Distinct(init);
        forall p | p in Analyze(fs, init) ensures p.file != last {
          assert p.file in init;
        }
      }
    }
  }

  /** The pattern loop of one page, leaving at the first pattern that flags it. */
  method CheckPatterns(content: string) returns (flag: Option<string>)
    ensures flag == Flag(content, Patterns())
  {
    var patterns := Patterns();
    flag := None;
    var i := 0;
    while i < |patterns|
      invariant 0 <= i <= |patterns|
      invariant Flag(content, patterns) == Flag(content, patterns[i..])
    {
      var p := patterns[i];
      var srcMatches := Values(content, SrcKey, false, p.accept);
      if |srcMatches| > 0 && Sized(content, p.size) && !Contains(content, BannerRef) {
        flag := Some(if p.grouped then srcMatches[0] else SrcUnit(srcMatches[0]));
        break;
      }
      assert patterns[i..][1..] == patterns[i + 1..];
      i := i + 1;
    }
  }

  /** `analyze_banner_issues`: the problems of the pages, in glob order. */
  method AnalyzeBannerIssues(fs: FileSystem, names: seq<string>) returns (problems: seq<Problem>)
    ensures problems == Analyze(fs, names)
  {
    problems := [];
    var i := 0;
    while i < |names|
      invariant 0 <= i <= |names|
      invariant problems == Analyze(fs, names[..i])
    {
      assert names[..i + 1][..i] == names[..i];
      var path := PagePath(names[i]);
      if path in fs && !Is404(fs[path]) {
        var flag := CheckPatterns(fs[path]);
        if flag.Some? {
          problems := problems + [Problem(names[i], flag.value, fs[path])];
        }
      }
      i := i + 1;
    }
    assert names[..i] == names;
  }

  /** The two substitutions of `fix_banner_images`. */
  function FixContent(content: string): string {
    SrcSub(SrcSub(content, Is(BareImg0), BannerRef), InFolderImg0, BannerRef)
  }

  /**
   * The first substitution replaces each literal `src="img0.gif"`; afterwards
   * no `src` value is `img0.gif` or ends in `/img0.gif`, and so a second fix
   * changes nothing.
   */
  lemma FixContentSpec(content: string)
    ensures SrcSub(content, Is(BareImg0), BannerRef)
      == ReplaceAll(content, SrcUnit(BareImg0), SrcUnit(BannerRef))
    ensures Values(FixContent(content), SrcKey, false, Is(BareImg0)) == []
    ensures Values(FixContent(content), SrcKey, false, InFolderImg0) == []
    ensures !Contains(FixContent(content), SrcUnit(BareImg0))
    ensures FixContent(FixContent(content)) == FixContent(content)
  {
    ReplaceIsSub(content, BareImg0, BannerRef);
    assert BannerRef[|BannerRef| - 5] != "/img0.gif"[4];
    assert BannerRef[|BannerRef| - 10] != "src="[0];
    var c1 := SrcSub(content, Is(BareImg0), BannerRef);
    var c2 := FixContent(content);
    SubKeepsClear(content, Is(BareImg0), Is(BareImg0), BannerRef);
    SubKeepsClear(c1, InFolderImg0, Is(BareImg0), BannerRef);
    SubKeepsClear(c1, InFolderImg0, InFolderImg0, BannerRef);
    UnitAbsentIff(c2, BareImg0);
    NoValuesNoChange(c2, SrcKey, false, Is(BareImg0), SrcUnit(BannerRef));
    NoValuesNoChange(c2, SrcKey, false, InFolderImg0, SrcUnit(BannerRef));
  }

  /** `fix_banner_images` over the problems: a page is written and counted only when its text changed. */
  function FixAll(fs: FileSystem, problems: seq<Problem>): (FileSystem, nat) {
    FixAllBy(fs, problems, FixContent)
  }

  /** The same pass for any text transformation `fix`. */
  function FixAllBy(fs: FileSystem, problems: seq<Problem>, fix: string -> string): (FileSystem, nat)
    decreases |problems|
  {
    if |problems| == 0 then (fs, 0)
    else
      var (fs1, n) := FixAllBy(fs, problems[..|problems| - 1], fix);
      var p := problems[|problems| - 1];
      var c := fix(p.content);
      if c != p.content then (fs1[PagePath(p.file) := c], n + 1) else (fs1, n)
  }

  /** The positions of the problems whose text `fix` changes. */
  function ChangedAt(problems: seq<Problem>, fix: string -> string): set<nat> {
    set i: nat | i < |problems| && fix(problems[i].content) != problems[i].content
  }

  /**
   * `fixed_count` is the number of problems whose text changes: at most the
   * number of problems, and zero exactly when no problem's text changes.
   */
  lemma FixAllCount(fs: FileSystem, problems: seq<Problem>)
    ensures FixAll(fs, problems).1 == |ChangedAt(problems, FixContent)|
    ensures FixAll(fs, problems).1 <= |problems|
    ensures FixAll(fs, problems).1 == 0 <==> forall p :: p in problems ==> FixContent(p.content) == p.content
  {
    FixAllByChanged(fs, problems, FixContent);
    FixAllByCount(fs, problems, FixContent);
  }

  lemma {:induction false} FixAllByChanged(fs: FileSystem, problems: seq<Problem>, fix: string -> string)
    ensures FixAllBy(fs, problems, fix).1 == |ChangedAt(problems, fix)|
    decreases |problems|
  {
    if |problems| > 0 {
      var n := |problems| - 1;
      FixAllByChanged(fs, problems[..n], fix);
      ChangedAtSnoc(problems, fix);
    }
  }

  /** The last problem adds its own position exactly when its text changes. */
  lemma ChangedAtSnoc(problems: seq<Problem>, fix: string -> string)
    requires |problems| > 0
    ensures var n := |problems| - 1;
      |ChangedAt(problems, fix)| == |ChangedAt(problems[..n], fix)| + if fix(problems[n].content) != problems[n].content then 1 else 0
  {
    var n := |problems| - 1;
    ChangedAtSet(problems, fix);
    assert n !in ChangedAt(problems[..n], fix);
  }

  lemma ChangedAtSet(problems: seq<Problem>, fix: string -> string)
    requires |problems| > 0
    ensures var n := |problems| - 1;
      ChangedAt(problems, fix) == ChangedAt(problems[..n], fix) + if fix(problems[n].content) != problems[n].content then {n} else {}
  {
    var n := |problems| - 1;
    var init := problems[..n];
    forall i: nat | i < n ensures init[i] == problems[i] {
    }
  }

  lemma {:induction false} FixAllByCount(fs: FileSystem, problems: seq<Problem>, fix: string -> string)
    ensures FixAllBy(fs, problems, fix).1 <= |problems|
    ensures FixAllBy(fs, problems, fix).1 == 0 <==> forall p :: p in problems ==> fix(p.content) == p.content
    decreases |problems|
  {
    if |problems| > 0 {
      var init := problems[..|problems| - 1];
      FixAllByCount(fs, init, fix);
      assert problems == init + [problems[|problems| - 1]];
    }
  }

  /** Pairwise different page names. */
  predicate DistinctFiles(problems: seq<Problem>) {
    forall i, j :: 0 <= i < j < |problems| ==> problems[i].file != problems[j].file
  }

  /**
   * Only the problems' pages are written; with distinct pages each one whose
   * text changes ends up holding its fixed text.
   */
  lemma FixAllFiles(fs: FileSystem, problems: seq<Problem>)
    ensures forall k :: k in FixAll(fs, problems).0 ==> k in fs || exists p :: p in problems && k == PagePath(p.file)
    ensures forall k :: k in fs && (forall p :: p in problems ==> k != PagePath(p.file)) ==>
      k in FixAll(fs, problems).0 && FixAll(fs, problems).0[k] == fs[k]
    ensures DistinctFiles(problems) ==>
      forall p :: p in problems && FixContent(p.content) != p.content ==>
        PagePath(p.file) in FixAll(fs, problems).0 && FixAll(fs, problems).0[PagePath(p.file)] == FixContent(p.content)
  {
    FixAllKeys(fs, problems, FixContent);
    FixAllKeeps(fs, problems, FixContent);
    if DistinctFiles(problems) {
      FixAllWrites(fs, problems, FixContent);
    }
  }

  /** Only the problems' pages can be added. */
  lemma {:induction false} FixAllKeys(fs: FileSystem, problems: seq<Problem>, fix: string -> string)
    ensures forall k :: k in FixAllBy(fs, problems, fix).0 ==> k in fs || exists p :: p in problems && k == PagePath(p.file)
    decreases |problems|
  {
    if |problems| > 0 {
      var init := problems[..|problems| - 1];
      FixAllKeys(fs, init, fix);
      assert problems == init + [problems[|problems| - 1]];
    }
  }

  /** A file that is no problem's page keeps its text. */
  lemma {:induction false} FixAllKeeps(fs: FileSystem, problems: seq<Problem>, fix: string -> string)
    ensures forall k :: k in fs && (forall p :: p in problems ==> k != PagePath(p.file)) ==>
      k in FixAllBy(fs, problems, fix).0 && FixAllBy(fs, problems, fix).0[k] == fs[k]
    decreases |problems|
  {
    if |problems| > 0 {
      var init := problems[..|problems| - 1];
      FixAllKeeps(fs, init, fix);
      assert forall p :: p in init ==> p in problems;
    }
  }

  /** With distinct pages, each page whose text changes holds its fixed text. */
  lemma {:induction false} FixAllWrites(fs: FileSystem, problems: seq<Problem>, fix: string -> string)
    requires DistinctFiles(problems)
    ensures forall p :: p in problems && fix(p.content) != p.content ==>
      PagePath(p.file) in FixAllBy(fs, problems, fix).0 && FixAllBy(fs, problems, fix).0[PagePath(p.file)] == fix(p.content)
    decreases |problems|
  {
    if |problems| > 0 {
      var init := problems[..|problems| - 1];
      var last := problems[|problems| - 1];
      assert DistinctFiles(init);
      FixAllWrites(fs, init, fix);
      var fs1 := FixAllBy(fs, init, fix).0;
      var fs' := FixAllBy(fs, problems, fix).0;
      var c := fix(last.content);
      assert fs' == if c != last.content then fs1[PagePath(last.file) := c] else fs1;
      forall p | p in problems && fix(p.content) != p.content
        ensures PagePath(p.file) in fs' && fs'[PagePath(p.file)] == fix(p.content)
      {
        var i :| 0 <= i < |problems| && problems[i] == p;
        if i < |init| {
          assert init[i] == p;
          PagePathInjective(p.file, last.file);
        }
      }
    }
  }

  /** `fix_banner_images`: rewrites the flagged pages and counts the ones that changed. */
  method FixBannerImages(fs: FileSystem, problems: seq<Problem>) returns (fs': FileSystem, fixedCount: nat)
    ensures (fs', fixedCount) == FixAll(fs, problems)
  {
    fs', fixedCount := fs, 0;
    var i := 0;
    while i < |problems|
      invariant 0 <= i <= |problems|
      invariant (fs', fixedCount) == FixAll(fs, problems[..i])
    {
      FixAllStep(fs, problems, i);
      var content := problems[i].content;
      var newContent := FixContent(content);
      if newContent != content {
        fs' := fs'[PagePath(problems[i].file) := newContent];
        fixedCount := fixedCount + 1;
      }
      i := i + 1;
    }
    assert problems[..i] == problems;
  }

  lemma FixAllStep(fs: FileSystem, problems: seq<Problem>, i: nat)
    requires i < |problems|
    ensures FixAll(fs, problems[..i + 1]) ==
      var (fs1, n) := FixAll(fs, problems[..i]);
      var c := FixContent(problems[i].content);
      if c != problems[i].content then (fs1[PagePath(problems[i].file) := c], n + 1) else (fs1, n)
  {
    assert problems[..i + 1][..i] == problems[..i];
  }

  // ---------------------------------------------------------------------
  // download_banner_if_missing

  /** The old-host URLs of the banner, in the order they are tried. */
  const BannerUrls: seq<string> := [
    "https://0002n8y.wcomhost.com/website/assets/images/banner.gif",
    "https://0002n8y.wcomhost.com/website/banner.gif",
    "https://0002n8y.wcomhost.com/website/images/banner.gif"]

  /** The index of the first URL that answers 200; `None` when none does. */
  function FirstOk(fetch: string -> Fetch, urls: seq<string>): (r: Option<nat>)
    ensures r.Some? ==> (r.value < |urls| && IsOk(fetch(urls[r.value]))
      && forall j :: 0 <= j < r.value ==> !IsOk(fetch(urls[j])))
    ensures r.None? <==> forall u :: u in urls ==> !IsOk(fetch(u))
    decreases |urls|
  {
    if |urls| == 0 then None
    else if IsOk(fetch(urls[0])) then Some(0)
    else
      var rest := FirstOk(fetch, urls[1..]);
      assert forall u :: u in urls ==> u == urls[0] || u in urls[1..];
      if rest.Some? then Some(rest.value + 1) else None
  }

  /** `download_banner_if_missing`: the files afterwards and whether the banner is there. */
  function DownloadBanner(fs: FileSystem, fetch: string -> Fetch): (FileSystem, bool) {
    if BannerFile in fs then (fs, true)
    else
      match FirstOk(fetch, BannerUrls)
      case Some(i) => (fs[BannerFile := fetch(BannerUrls[i]).body], true)
      case None => (fs, false)
  }

  /**
   * Nothing is fetched into an existing banner; otherwise the banner is the
   * body of the first URL that answers 200, and the result is true exactly
   * when the banner existed or some URL answered 200. No other file changes.
   */
  lemma DownloadBannerSpec(fs: FileSystem, fetch: string -> Fetch)
    ensures var (fs', ok) := DownloadBanner(fs, fetch);
      (ok <==> BannerFile in fs || exists u :: u in BannerUrls && IsOk(fetch(u)))
      && fs'.Keys == fs.Keys + (if ok then {BannerFile} else {})
      && (forall p :: p in fs ==> fs'[p] == fs[p])
      && (ok && BannerFile !in fs ==> exists i :: (0 <= i < |BannerUrls| && IsOk(fetch(BannerUrls[i]))
        && fs'[BannerFile] == fetch(BannerUrls[i]).body
        && forall j :: 0 <= j < i ==> !IsOk(fetch(BannerUrls[j]))))
  {
    var r := FirstOk(fetch, BannerUrls);
    if BannerFile !in fs && r.Some? {
      assert BannerUrls[r.value] in BannerUrls;
    }
  }

  /** The download loop: stops at the first 200; an unreachable URL moves on to the next. */
  method DownloadBannerIfMissing(fs: FileSystem, fetch: string -> Fetch) returns (fs': FileSystem, ok: bool)
    ensures (fs', ok) == DownloadBanner(fs, fetch)
  {
    if BannerFile in fs {
      return fs, true;
    }
    var urls := BannerUrls;
    var i := 0;
    while i < |urls|
      invariant 0 <= i <= |urls|
      invariant forall j :: 0 <= j < i ==> !IsOk(fetch(urls[j]))
    {
      var response := fetch(urls[i]);
      if IsOk(response) {
        FirstOkIs(fetch, urls, i);
        return fs[BannerFile := response.body], true;
      }
      i := i + 1;
    }
    FirstOkNone(fetch, urls);
    return fs, false;
  }

  /** The first URL answering 200 is the one the search finds. */
  lemma FirstOkIs(fetch: string -> Fetch, urls: seq<string>, i: nat)
    requires i < |urls| && IsOk(fetch(urls[i])) && forall j :: 0 <= j < i ==> !IsOk(fetch(urls[j]))
    ensures FirstOk(fetch, urls) == Some(i)
  {
    assert urls[i] in urls;
  }

  /** When no URL answers 200 the search finds none. */
  lemma FirstOkNone(fetch: string -> Fetch, urls: seq<string>)
    requires forall j :: 0 <= j < |urls| ==> !IsOk(fetch(urls[j]))
    ensures FirstOk(fetch, urls) == None
  {
    forall u | u in urls ensures !IsOk(fetch(u)) {
      var j :| 0 <= j < |urls| && urls[j] == u;
    }
  }
}
