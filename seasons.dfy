/**
 * The season-page repair: a season page that came down as a short error
 * page is overwritten by the `_`-suffixed page that holds the real content;
 * `clubhistory` is copied from its suffixed page unconditionally; and a few
 * other pages are restored from their `_index` or `_page2` variant. A
 * file's size is the length of its text.
 */
module Seasons {
  import opened Strings
  import opened Site

  /** A page shorter than this is taken to be an error page. */
  const SmallPage: nat := 1000

  /** The seasons known to be broken, in the order they are repaired. */
  const BrokenSeasons: seq<string> := [
    "season2021", "season1920", "season1819", "season1718", "season1617",
    "season1516", "season1415", "season1314", "season1213a", "season09-10"]

  /** The other pages checked after the seasons. */
  const OtherBroken: seq<string> := [
    "legends", "oldplayers", "players72", "doyouremember", "playerawards", "squad", "latest"]

  function PageFile(stem: string): string {
    "pages/" + stem + ".html"
  }

  /** `shutil.copy2(src, dst)`: the destination gets the source's text. */
  function Copy(fs: FileSystem, src: string, dst: string): FileSystem
    requires src in fs
  {
    fs[dst := fs[src]]
  }

  /** `fix_season_page`: the files afterwards and whether the page was fixed. */
  function FixSeasonPage(fs: FileSystem, season: string): (FileSystem, bool) {
    var broken, content := PageFile(season), PageFile(season + "_");
    if content !in fs || broken !in fs then (fs, false)
    else if |fs[broken]| < SmallPage && |fs[content]| > SmallPage then (Copy(fs, content, broken), true)
    else (fs, false)
  }

  /**
   * A season page is fixed exactly when both files exist, the page is short
   * and the content file is long; it then holds the content file's text and
   * no other file changes. Otherwise nothing changes.
   */
  lemma FixSeasonPageSpec(fs: FileSystem, season: string)
    ensures var (fs', ok) := FixSeasonPage(fs, season);
      var broken, content := PageFile(season), PageFile(season + "_");
      (ok <==> broken in fs && content in fs && |fs[broken]| < SmallPage && |fs[content]| > SmallPage)
      && (ok ==> (fs'.Keys == fs.Keys && fs'[broken] == fs[content]
        && forall p :: p in fs && p != broken ==> fs'[p] == fs[p]))
      && (!ok ==> fs' == fs)
  {
  }

  /** `fix_clubhistory`: copied whenever the suffixed page exists, whatever the sizes. */
  function FixClubhistory(fs: FileSystem): (FileSystem, bool) {
    var broken, content := PageFile("clubhistory"), PageFile("clubhistory_");
    if content in fs then (Copy(fs, content, broken), true) else (fs, false)
  }

  /**
   * Unlike a season, `clubhistory` is repaired exactly when its suffixed
   * page exists, whatever either size, and the page may be created by it.
   */
  lemma FixClubhistorySpec(fs: FileSystem)
    ensures var (fs', ok) := FixClubhistory(fs);
      var broken, content := PageFile("clubhistory"), PageFile("clubhistory_");
      (ok <==> content in fs)
      && (ok ==> (fs'.Keys == fs.Keys + {broken} && fs'[broken] == fs[content]
        && forall p :: p in fs && p != broken ==> fs'[p] == fs[p]))
      && (!ok ==> fs' == fs)
  {
  }

  /** The seasons loop: the files afterwards and the number fixed. */
  function FixSeasons(fs: FileSystem, seasons: seq<string>): (FileSystem, nat)
    decreases |seasons|
  {
    if |seasons| == 0 then (fs, 0)
    else
      var (fs1, n) := FixSeasons(fs, seasons[..|seasons| - 1]);
      var (fs2, ok) := FixSeasonPage(fs1, seasons[|seasons| - 1]);
      (fs2, n + if ok then 1 else 0)
  }

  /**
   * Each season adds at most one fix; only existing season pages are
   * written, so the set of files is unchanged and a file that is no
   * season's page keeps its text.
   */
  lemma {:induction false} FixSeasonsSpec(fs: FileSystem, seasons: seq<string>)
    ensures FixSeasons(fs, seasons).1 <= |seasons|
    ensures FixSeasons(fs, seasons).0.Keys == fs.Keys
    ensures forall p :: p in fs && (forall s :: s in seasons ==> p != PageFile(s)) ==> FixSeasons(fs, seasons).0[p] == fs[p]
    ensures FixSeasons(fs, seasons).1 == 0 ==> FixSeasons(fs, seasons).0 == fs
    decreases |seasons|
  {
    if |seasons| > 0 {
      var init := seasons[..|seasons| - 1];
      FixSeasonsSpec(fs, init);
      FixSeasonPageSpec(FixSeasons(fs, init).0, seasons[|seasons| - 1]);
      assert seasons == init + [seasons[|seasons| - 1]];
    }
  }

  /**
   * The source of the other-page repair: the `_index` page when both it and
   * the page exist and the page is short (with no size check on the
   * source), else the `_page2` page when `_index` is absent, the page exists
   * and is short.
   */
  function OtherSource(fs: FileSystem, page: string): Option<string> {
    var broken, index, page2 := PageFile(page), PageFile(page + "_index"), PageFile(page + "_page2");
    if broken in fs && index in fs then
      if |fs[broken]| < SmallPage then Some(index) else None
    else if broken in fs && page2 in fs && |fs[broken]| < SmallPage then Some(page2)
    else None
  }

  /**
   * A page is repaired only when it exists and is short; `_page2` is used
   * only when `_index` does not exist; the chosen source exists.
   */
  lemma OtherSourceSpec(fs: FileSystem, page: string)
    ensures var s := OtherSource(fs, page);
      (s.Some? ==> PageFile(page) in fs && |fs[PageFile(page)]| < SmallPage && s.value in fs)
      && (s == Some(PageFile(page + "_page2")) ==> PageFile(page + "_index") !in fs)
      && (PageFile(page) in fs && |fs[PageFile(page)]| < SmallPage ==>
        (s.None? <==> PageFile(page + "_index") !in fs && PageFile(page + "_page2") !in fs))
  {
    var index, page2 := PageFile(page + "_index"), PageFile(page + "_page2");
    assert index[|index| - 6] == 'x' && page2[|page2| - 6] == '2';
    assert index != page2;
  }

  /** The loop over the other pages: the files afterwards and the number fixed. */
  function FixOthers(fs: FileSystem, pages: seq<string>): (FileSystem, nat)
    decreases |pages|
  {
    if |pages| == 0 then (fs, 0)
    else
      var (fs1, n) := FixOthers(fs, pages[..|pages| - 1]);
      var page := pages[|pages| - 1];
      match OtherSource(fs1, page)
      case None => (fs1, n)
      case Some(src) => (Copy(fs1, src, PageFile(page)), n + 1)
  }

  /** Each page adds at most one fix, and only existing pages are overwritten. */
  lemma {:induction false} FixOthersSpec(fs: FileSystem, pages: seq<string>)
    ensures FixOthers(fs, pages).1 <= |pages|
    ensures FixOthers(fs, pages).0.Keys == fs.Keys
    ensures FixOthers(fs, pages).1 == 0 ==> FixOthers(fs, pages).0 == fs
    decreases |pages|
  {
    if |pages| > 0 {
      var init := pages[..|pages| - 1];
      FixOthersSpec(fs, init);
      OtherSourceSpec(FixOthers(fs, init).0, pages[|pages| - 1]);
    }
  }

  /** `main`: the seasons, then clubhistory, then the other pages; the files and `fixed_count`. */
  function Main(fs: FileSystem): (FileSystem, nat) {
    var (fs1, n1) := FixSeasons(fs, BrokenSeasons);
    var (fs2, ok) := FixClubhistory(fs1);
    var (fs3, n3) := FixOthers(fs2, OtherBroken);
    (fs3, n1 + (if ok then 1 else 0) + n3)
  }

  /**
   * At most one fix per listed page: ten seasons, clubhistory and seven
   * others; the only file that can be created is `clubhistory.html`.
   */
  lemma MainSpec(fs: FileSystem)
    ensures Main(fs).1 <= 18
    ensures Main(fs).0.Keys <= fs.Keys + {PageFile("clubhistory")}
  {
    FixSeasonsSpec(fs, BrokenSeasons);
    var (fs1, n1) := FixSeasons(fs, BrokenSeasons);
    var (fs2, ok) := FixClubhistory(fs1);
    FixOthersSpec(fs2, OtherBroken);
  }

  /** The seasons loop of `main`. */
  method FixSeasonLoop(fs: FileSystem, seasons: seq<string>) returns (fs': FileSystem, fixedCount: nat)
    ensures (fs', fixedCount) == FixSeasons(fs, seasons)
  {
    fs', fixedCount := fs, 0;
    var i := 0;
    while i < |seasons|
      invariant 0 <= i <= |seasons|
      invariant (fs', fixedCount) == FixSeasons(fs, seasons[..i])
    {
      assert seasons[..i + 1][..i] == seasons[..i];
      var r := FixSeasonPage(fs', seasons[i]);
      fs' := r.0;
      if r.1 {
        fixedCount := fixedCount + 1;
      }
      i := i + 1;
    }
    assert seasons[..i] == seasons;
  }

  /** The other-pages loop of `main`, with the checks in source order. */
  method FixOtherLoop(fs: FileSystem, pages: seq<string>) returns (fs': FileSystem, fixedCount: nat)
    ensures (fs', fixedCount) == FixOthers(fs, pages)
  {
    fs', fixedCount := fs, 0;
    var i := 0;
    while i < |pages|
      invariant 0 <= i <= |pages|
      invariant (fs', fixedCount) == FixOthers(fs, pages[..i])
    {
      assert pages[..i + 1][..i] == pages[..i];
      var brokenFile, contentFile := PageFile(pages[i]), PageFile(pages[i] + "_index");
      if brokenFile in fs' && contentFile in fs' {
        if |fs'[brokenFile]| < SmallPage {
          fs' := Copy(fs', contentFile, brokenFile);
          fixedCount := fixedCount + 1;
        }
      } else if brokenFile in fs' {
        contentFile := PageFile(pages[i] + "_page2");
        if contentFile in fs' && |fs'[brokenFile]| < SmallPage {
          fs' := Copy(fs', contentFile, brokenFile);
          fixedCount := fixedCount + 1;
        }
      }
      i := i + 1;
    }
    assert pages[..i] == pages;
  }

  /** `main` as the three steps. */
  method MainLoop(fs: FileSystem) returns (fs': FileSystem, fixedCount: nat)
    ensures (fs', fixedCount) == Main(fs)
  {
    var n: nat;
    fs', fixedCount := FixSeasonLoop(fs, BrokenSeasons);
    var r := FixClubhistory(fs');
    fs' := r.0;
    if r.1 {
      fixedCount := fixedCount + 1;
    }
    fs', n := FixOtherLoop(fs', OtherBroken);
    fixedCount := fixedCount + n;
  }
}
