/**
 * The img1/img0 relocation: pages that still refer to the bare `img1.gif`
 * get a page-specific copy of the shared image and point at it, and bare
 * `img0.gif` refs are pointed at the shared images folder.
 */
module Img1Fix {
  import opened Strings
  import opened Rewriting
  import opened Attributes
  import opened Site

  const BaseImg1: string := "assets/images/img1.gif"
  const BareImg1: string := "img1.gif"
  const BareImg0: string := "img0.gif"
  const SharedImg0: string := "../assets/images/img0.gif"

  /** `os.path.basename(html_file).replace('.html', '')`. */
  function PageName(htmlFile: string): string {
    ReplaceAll(Basename(htmlFile), ".html", "")
  }

  /** The page-specific copy of img1 on disk. */
  function PageImg1(page: string): string {
    ImagesDir + "/" + page + "_img1.gif"
  }

  /** The ref that replaces a bare img1 on the page. */
  function PageImg1Ref(page: string): string {
    "../assets/images/" + page + "_img1.gif"
  }

  /** The outcome of one page: the files, the number of fixes (one per kind) and whether the page was rewritten. */
  datatype PageResult = PageResult(fs: FileSystem, fixes: nat, written: bool)

  /** The img1 step: every bare `src="img1.gif"` points at the page-specific copy. */
  function Img1Step(content: string, page: string): string {
    if Contains(content, SrcUnit(BareImg1)) then ReplaceAll(content, SrcUnit(BareImg1), SrcUnit(PageImg1Ref(page))) else content
  }

  /** The img0 step: every bare `src="img0.gif"` points at the shared folder. */
  function Img0Step(content: string): string {
    if Contains(content, SrcUnit(BareImg0)) then ReplaceAll(content, SrcUnit(BareImg0), SrcUnit(SharedImg0)) else content
  }

  /** One page of `fix_img1_references`; a page that cannot be read is skipped (the exception is caught). */
  function FixPage(fs: FileSystem, htmlFile: string): PageResult {
    if htmlFile !in fs then PageResult(fs, 0, false)
    else
      var content := fs[htmlFile];
      var page := PageName(htmlFile);
      var hasImg1 := Contains(content, SrcUnit(BareImg1));
      var fs1 := if hasImg1 && PageImg1(page) !in fs && BaseImg1 in fs then fs[PageImg1(page) := fs[BaseImg1]] else fs;
      var c1 := Img1Step(content, page);
      var c2 := Img0Step(c1);
      var fixes := (if hasImg1 then 1 else 0) + (if Contains(c1, SrcUnit(BareImg0)) then 1 else 0);
      if c2 != content then PageResult(fs1[htmlFile := c2], fixes, true) else PageResult(fs1, fixes, false)
  }

  /** After the img1 step no bare img1 is left, and the text grew exactly when there was one. */
  lemma Img1StepSpec(content: string, page: string)
    requires '"' !in page
    ensures !Contains(Img1Step(content, page), SrcUnit(BareImg1))
    ensures Contains(content, SrcUnit(BareImg1)) <==> |Img1Step(content, page)| > |content|
    ensures !Contains(content, SrcUnit(BareImg1)) ==> Img1Step(content, page) == content
  {
    var u, n := SrcUnit(BareImg1), PageImg1Ref(page);
    if Contains(content, u) {
      assert SafeValue(n, Is(BareImg1)) by {
        assert n[|n| - 1] == 'f';
        assert n == "../assets/images/" + page + "_img1.gif";
      }
      ReplaceIsSub(content, BareImg1, n);
      SubKeepsClear(content, Is(BareImg1), Is(BareImg1), n);
      UnitAbsentIff(Img1Step(content, page), BareImg1);
    }
    ReplaceAllLonger(content, u, SrcUnit(n));
  }

  /** The img0 step leaves no bare img0, brings no bare img1 back, and grows the text exactly when there was an img0. */
  lemma Img0StepSpec(content: string)
    requires !Contains(content, SrcUnit(BareImg1))
    ensures !Contains(Img0Step(content), SrcUnit(BareImg0)) && !Contains(Img0Step(content), SrcUnit(BareImg1))
    ensures Contains(content, SrcUnit(BareImg0)) <==> |Img0Step(content)| > |content|
    ensures !Contains(content, SrcUnit(BareImg0)) ==> Img0Step(content) == content
  {
    if Contains(content, SrcUnit(BareImg0)) {
      Img0Clears(content, Img0Step(content));
    }
    ReplaceAllLonger(content, SrcUnit(BareImg0), SrcUnit(SharedImg0));
  }

  /** Replacing every bare img0 leaves neither a bare img0 nor a bare img1. */
  lemma Img0Clears(content: string, c: string)
    requires !Contains(content, SrcUnit(BareImg1))
    requires c == ReplaceAll(content, SrcUnit(BareImg0), SrcUnit(SharedImg0))
    ensures !Contains(c, SrcUnit(BareImg0)) && !Contains(c, SrcUnit(BareImg1))
  {
    ReplaceIsSub(content, BareImg0, SharedImg0);
    UnitAbsentIff(content, BareImg1);
    SubKeepsClear(content, Is(BareImg0), Is(BareImg1), SharedImg0);
    SubKeepsClear(content, Is(BareImg0), Is(BareImg0), SharedImg0);
    UnitAbsentIff(c, BareImg0);
    UnitAbsentIff(c, BareImg1);
  }

  /**
   * Afterwards the page holds neither a bare `src="img1.gif"` nor a bare
   * `src="img0.gif"`; it is rewritten exactly when one of the two was found;
   * and at most two fixes are counted for it.
   */
  lemma FixPageSpec(fs: FileSystem, htmlFile: string)
    requires htmlFile in fs && '"' !in PageName(htmlFile)
    ensures var r := FixPage(fs, htmlFile);
      && htmlFile in r.fs
      && !Contains(r.fs[htmlFile], SrcUnit(BareImg1)) && !Contains(r.fs[htmlFile], SrcUnit(BareImg0))
      && r.fixes <= 2
      && (r.written <==> r.fixes > 0)
      && (r.written <==> Contains(fs[htmlFile], SrcUnit(BareImg1)) || Contains(fs[htmlFile], SrcUnit(BareImg0)))
  {
    var content := fs[htmlFile];
    var page := PageName(htmlFile);
    Img1StepSpec(content, page);
    var c1 := Img1Step(content, page);
    Img0StepSpec(c1);
  }

  /** The running state of the pass: the files, `total_fixes` and `files_fixed`. */
  datatype Totals = Totals(fs: FileSystem, totalFixes: nat, filesFixed: nat)

  /** The pages of the glob, in order. */
  function FixPages(fs: FileSystem, htmlFiles: seq<string>): Totals
    decreases |htmlFiles|
  {
    if |htmlFiles| == 0 then Totals(fs, 0, 0)
    else
      var before := FixPages(fs, htmlFiles[..|htmlFiles| - 1]);
      var r := FixPage(before.fs, htmlFiles[|htmlFiles| - 1]);
      Totals(r.fs, before.totalFixes + r.fixes, before.filesFixed + if r.written then 1 else 0)
  }

  /** `fix_img1_references`: nothing at all happens when the shared img1 is missing. */
  function FixImg1References(fs: FileSystem, htmlFiles: seq<string>): Totals {
    if BaseImg1 !in fs then Totals(fs, 0, 0) else FixPages(fs, htmlFiles)
  }

  /**
   * Each rewritten page contributes one or two fixes and every other page
   * none: `files_fixed <= total_fixes <= 2 * files_fixed`, so the total grows
   * per kind of ref, not per occurrence.
   */
  lemma {:induction false} FixPagesCounts(fs: FileSystem, htmlFiles: seq<string>)
    requires forall f :: f in htmlFiles ==> '"' !in PageName(f)
    ensures var t := FixPages(fs, htmlFiles);
      t.filesFixed <= t.totalFixes <= 2 * t.filesFixed && t.filesFixed <= |htmlFiles|
    decreases |htmlFiles|
  {
    if |htmlFiles| > 0 {
      var init := htmlFiles[..|htmlFiles| - 1];
      var f := htmlFiles[|htmlFiles| - 1];
      FixPagesCounts(fs, init);
      var before := FixPages(fs, init);
      if f in before.fs {
        FixPageSpec(before.fs, f);
      }
    }
  }

  /**
   * Only the glob's pages and their page-specific img1 copies are written:
   * every other file is present afterwards exactly when it was before, with
   * the same text.
   */
  lemma FixPagesFrame(fs: FileSystem, htmlFiles: seq<string>, f: string)
    requires f !in htmlFiles && forall h :: h in htmlFiles ==> f != PageImg1(PageName(h))
    ensures var out := FixImg1References(fs, htmlFiles).fs;
      (f in out <==> f in fs) && (f in fs ==> out[f] == fs[f])
  {
    if BaseImg1 in fs {
      PagesFrame(fs, htmlFiles, f);
    }
  }

  lemma {:induction false} PagesFrame(fs: FileSystem, htmlFiles: seq<string>, f: string)
    requires f !in htmlFiles && forall h :: h in htmlFiles ==> f != PageImg1(PageName(h))
    ensures var out := FixPages(fs, htmlFiles).fs;
      (f in out <==> f in fs) && (f in fs ==> out[f] == fs[f])
    decreases |htmlFiles|
  {
    if |htmlFiles| > 0 {
      var init, h := htmlFiles[..|htmlFiles| - 1], htmlFiles[|htmlFiles| - 1];
      assert htmlFiles == init + [h];
      PagesFrame(fs, init, f);
      PageFrame(FixPages(fs, init).fs, h, f);
    }
  }

  /** One page writes only itself and its page-specific img1 copy. */
  lemma PageFrame(fs: FileSystem, htmlFile: string, f: string)
    requires f != htmlFile && f != PageImg1(PageName(htmlFile))
    ensures var out := FixPage(fs, htmlFile).fs;
      (f in out <==> f in fs) && (f in fs ==> out[f] == fs[f])
  {
    if htmlFile in fs {
      var content := fs[htmlFile];
      var page := PageName(htmlFile);
      var hasImg1 := Contains(content, SrcUnit(BareImg1));
      var fs1 := if hasImg1 && PageImg1(page) !in fs && BaseImg1 in fs then fs[PageImg1(page) := fs[BaseImg1]] else fs;
      assert (f in fs1 <==> f in fs) && (f in fs ==> fs1[f] == fs[f]);
      var c2 := Img0Step(Img1Step(content, page));
      assert FixPage(fs, htmlFile).fs == if c2 != content then fs1[htmlFile := c2] else fs1;
    }
  }

  /** One more page continues the totals of the pages before it. */
  lemma FixPagesStep(fs: FileSystem, htmlFiles: seq<string>, i: nat)
    requires i < |htmlFiles|
    ensures var before := FixPages(fs, htmlFiles[..i]);
      var r := FixPage(before.fs, htmlFiles[i]);
      FixPages(fs, htmlFiles[..i + 1]) == Totals(r.fs, before.totalFixes + r.fixes, before.filesFixed + if r.written then 1 else 0)
  {
    assert htmlFiles[..i + 1][..i] == htmlFiles[..i];
  }

  /** The pass as a loop over the glob. */
  method FixImg1(fs: FileSystem, htmlFiles: seq<string>) returns (t: Totals)
    ensures t == FixImg1References(fs, htmlFiles)
  {
    if BaseImg1 !in fs {
      return Totals(fs, 0, 0);
    }
    var files := fs;
    var totalFixes: nat, filesFixed: nat := 0, 0;
    var i := 0;
    while i < |htmlFiles|
      invariant 0 <= i <= |htmlFiles|
      invariant Totals(files, totalFixes, filesFixed) == FixPages(fs, htmlFiles[..i])
    {
      FixPagesStep(fs, htmlFiles, i);
      var r := FixOnePage(files, htmlFiles[i]);
      files, totalFixes := r.fs, totalFixes + r.fixes;
      if r.written {
        filesFixed := filesFixed + 1;
      }
      i := i + 1;
    }
    assert htmlFiles[..i] == htmlFiles;
    t := Totals(files, totalFixes, filesFixed);
  }

  /** The body of the loop over the glob: one page read, fixed and written back when it changed. */
  method FixOnePage(files: FileSystem, htmlFile: string) returns (r: PageResult)
    ensures r == FixPage(files, htmlFile)
  {
    if htmlFile !in files {
      return PageResult(files, 0, false);
    }
    var fs1 := files;
    var fixes: nat := 0;
    var content := files[htmlFile];
    var original := content;
    var page := PageName(htmlFile);
    if Contains(content, SrcUnit(BareImg1)) {
      var pageImg1 := PageImg1(page);
      if pageImg1 !in fs1 && BaseImg1 in fs1 {
        fs1 := fs1[pageImg1 := fs1[BaseImg1]];
      }
      content := ReplaceAll(content, SrcUnit(BareImg1), SrcUnit(PageImg1Ref(page)));
      fixes := fixes + 1;
    }
    assert content == Img1Step(original, page);
    var c1 := content;
    if Contains(content, SrcUnit(BareImg0)) {
      content := ReplaceAll(content, SrcUnit(BareImg0), SrcUnit(SharedImg0));
      fixes := fixes + 1;
    }
    assert content == Img0Step(c1);
    if content != original {
      r := PageResult(fs1[htmlFile := content], fixes, true);
    } else {
      r := PageResult(fs1, fixes, false);
    }
  }
}
