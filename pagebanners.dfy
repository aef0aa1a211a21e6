/**
 * The page-banner restorer: pages that show the shared banner get their own
 * header image back, the page-specific `<stem>_img0.gif` from the images
 * folder when it exists and otherwise a local `img0.gif`; a page for which
 * neither exists keeps the banner. A verification pass counts the pages that
 * still mention the banner, `img0.gif` and a page-specific `_img0.gif`.
 */
module PageBanners {
  import opened Strings
  import opened Rewriting
  import opened Attributes
  import opened Site
  import BannerFix

  const LocalImg0: string := "img0.gif"

  /** `Path(name).stem` for the glob's `*.html` names: the name without `.html`. */
  function Stem(name: string): string {
    if EndsWith(name, ".html") && |name| > 5 then name[..|name| - 5] else name
  }

  /** The page-specific header image on disk. */
  function PageImg0File(stem: string): string {
    ImagesDir + "/" + stem + "_img0.gif"
  }

  /** The src that replaces the banner, in order of preference; `None` keeps the banner. */
  function Choice(fs: FileSystem, name: string): Option<string> {
    var stem := Stem(name);
    if PageImg0File(stem) in fs then Some("../assets/images/" + stem + "_img0.gif")
    else if PagePath(LocalImg0) in fs then Some(LocalImg0)
    else None
  }

  /**
   * The pattern as the pass writes it, `src="../assets/images/banner\.gif"`:
   * the two dots of `../` are left unescaped, so each matches any character
   * but a newline.
   */
  function AsWrittenPattern(): Matcher {
    (t: string) =>
      if |t| >= 33 && t[..5] == SrcKey && t[5] != '\n' && t[6] != '\n'
        && t[7..33] == BannerTail then 33 else 0
  }

  /** What the pattern demands after the two wildcard characters. */
  const BannerTail: string := "/assets/images/banner.gif\""

  /** The pattern as intended: the literal `src="../assets/images/banner.gif"`. */
  function ExactPattern(): Matcher {
    Literal(SrcUnit(BannerFix.BannerRef))
  }

  /** Every exact banner src is also a match of the pattern as written. */
  lemma AsWrittenCoversExact(t: string)
    requires StartsWith(t, SrcUnit(BannerFix.BannerRef))
    ensures MatchesAt(AsWrittenPattern(), t) && AsWrittenPattern()(t) == ExactPattern()(t)
  {
    ExactParts(t);
    assert AsWrittenPattern()(t) == 33;
    assert ExactPattern()(t) == 33;
  }

  /** The pieces of a text that starts with the exact banner src. */
  lemma ExactParts(t: string)
    requires StartsWith(t, SrcUnit(BannerFix.BannerRef))
    ensures |t| >= 33 && t[..5] == SrcKey && t[5] == '.' && t[6] == '.' && t[7..33] == BannerTail
  {
    var w := ".." + BannerTail;
    var u := SrcUnit(BannerFix.BannerRef);
    BannerSplit();
    assert u == SrcKey + (BannerFix.BannerRef + "\"");
    assert t[..33] == u;
    assert t[..5] == u[..5] == SrcKey;
    assert t[7..33] == u[7..33] == w[2..] == BannerTail;
    assert t[5] == w[0] && t[6] == w[1];
  }

  /** The banner path and its closing quote are two dots and the tail. */
  lemma BannerSplit()
    ensures BannerFix.BannerRef + "\"" == ".." + BannerTail
  {
  }

  /** A text that differs from `p` at a position of `p` does not start with `p`. */
  lemma MismatchNoStart(s: string, p: string, j: nat)
    requires j < |p| && j < |s| && s[j] != p[j]
    ensures !StartsWith(s, p)
  {
    if |p| <= |s| {
      assert s[..|p|][j] == s[j];
    }
  }

  /** The page of the counterexample: a src that only the unescaped dots accept, then the banner path as text. */
  function OtherSrcPage(): string {
    SrcKey + "ab" + BannerTail + BannerFix.BannerRef
  }

  /** The characters of the counterexample page that the proofs below look at. */
  lemma OtherSrcPageParts()
    ensures var c := OtherSrcPage();
      |c| == 60 && c[..5] == SrcKey && c[5] == 'a' && c[6] == 'b' && c[7..33] == BannerTail
      && c[33..] == BannerFix.BannerRef && c[5..] == "ab" + BannerTail + BannerFix.BannerRef
      && c[1] == 'r' && c[2] == 'c' && c[3] == '=' && c[4] == '"'
  {
    var c := OtherSrcPage();
    assert c == SrcKey + ("ab" + BannerTail + BannerFix.BannerRef);
  }

  /** Past its `src=` the counterexample page has no `=` left, so no exact banner src. */
  lemma OtherSrcRestNoExact()
    ensures !Contains("ab" + BannerTail + BannerFix.BannerRef, SrcUnit(BannerFix.BannerRef))
  {
    var rest := "ab" + BannerTail + BannerFix.BannerRef;
    var u := SrcUnit(BannerFix.BannerRef);
    assert '=' !in rest by {
      assert '=' !in BannerTail && '=' !in BannerFix.BannerRef;
    }
    assert '=' in u by {
      assert u[3] == '=';
    }
    if Contains(rest, u) {
      ContainsChars(rest, u);
    }
  }

  /** No occurrence at the first `k` positions, none after them: none at all. */
  lemma {:induction false} NotContainedFrom(c: string, u: string, k: nat)
    requires k <= |c| && !Contains(c[k..], u)
    requires forall i :: 0 <= i < k ==> !StartsWith(c[i..], u)
    ensures !Contains(c, u)
    decreases k
  {
    if k > 0 {
      assert c[1..][k - 1..] == c[k..];
      forall i | 0 <= i < k - 1 ensures !StartsWith(c[1..][i..], u) {
        assert c[1..][i..] == c[i + 1..];
      }
      NotContainedFrom(c[1..], u, k - 1);
      assert !StartsWith(c[0..], u) && c[0..] == c;
    }
  }

  /** A text that opens with `src=` and then a character other than `.` has no exact banner src in its first five places. */
  lemma NoExactInKey(c: string)
    requires |c| > 5 && c[..5] == SrcKey && c[5] != '.'
    ensures forall i :: 0 <= i < 5 ==> !StartsWith(c[i..], SrcUnit(BannerFix.BannerRef))
  {
    var u := SrcUnit(BannerFix.BannerRef);
    assert u[0] == 's' && u[5] == '.';
    forall i | 0 <= i < 5 ensures !StartsWith(c[i..], u) {
      if i == 0 {
        MismatchNoStart(c[i..], u, 5);
      } else {
        assert c[i..][0] == c[..5][i];
        MismatchNoStart(c[i..], u, 0);
      }
    }
  }

  /** That page passes the banner check but holds no exact banner src. */
  lemma OtherSrcPageHasNoExactSrc()
    ensures Contains(OtherSrcPage(), BannerFix.BannerRef)
    ensures !Contains(OtherSrcPage(), SrcUnit(BannerFix.BannerRef))
  {
    var c := OtherSrcPage();
    OtherSrcPageParts();
    OtherSrcRestNoExact();
    EndContained(c, BannerFix.BannerRef, 33);
    NoExactAfterKey(c);
  }

  /** A text ending at `k` with `p` contains `p`. */
  lemma EndContained(c: string, p: string, k: nat)
    requires k <= |c| && c[k..] == p
    ensures Contains(c, p)
  {
    assert c[k..k + |p|] == p;
    ContainsAt(c, p, k);
  }

  /** `src=` and a character other than `.`, then a text without the exact banner src: none at all. */
  lemma NoExactAfterKey(c: string)
    requires |c| > 5 && c[..5] == SrcKey && c[5] != '.' && !Contains(c[5..], SrcUnit(BannerFix.BannerRef))
    ensures !Contains(c, SrcUnit(BannerFix.BannerRef))
  {
    NoExactInKey(c);
    NotContainedFrom(c, SrcUnit(BannerFix.BannerRef), 5);
  }

  /**
   * The pattern as written also rewrites a src that is not the banner: the
   * page above holds no exact banner src and is still rewritten.
   */
  lemma AsWrittenMatchesOtherSrc()
    ensures !Contains(OtherSrcPage(), SrcUnit(BannerFix.BannerRef))
    ensures MatchCount(OtherSrcPage(), AsWrittenPattern()) > 0
    ensures Rewrite(OtherSrcPage(), AsWrittenPattern(), SrcUnit(LocalImg0)) == SrcUnit(LocalImg0) + BannerFix.BannerRef
  {
    OtherSrcPageHasNoExactSrc();
    OtherSrcPageParts();
    var c := OtherSrcPage();
    var m := AsWrittenPattern();
    var r := SrcUnit(LocalImg0);
    assert MatchesAt(m, c) && m(c) == 33;
    assert MatchCount(c, m) == 1 + MatchCount(c[33..], m);
    assert Rewrite(c, m, r) == r + Rewrite(c[33..], m, r);
    ShortNoMatch(BannerFix.BannerRef, m);
    RewriteNoMatch(BannerFix.BannerRef, m, r);
  }

  /** A text shorter than the pattern holds no match of it. */
  lemma {:induction false} ShortNoMatch(t: string, m: Matcher)
    requires m == AsWrittenPattern() && |t| < 33
    ensures MatchCount(t, m) == 0
    decreases |t|
  {
    if |t| > 0 {
      ShortNoMatch(t[1..], m);
    }
  }

  /** The new text of one page, when the pass rewrites it with pattern `m`. */
  function PageFix(fs: FileSystem, name: string, m: Matcher): Option<string> {
    var path := PagePath(name);
    if path !in fs then None
    else
      var content := fs[path];
      if Is404(content) || !Contains(content, BannerFix.BannerRef) then None
      else
        match Choice(fs, name)
        case None => None
        case Some(img) => if MatchCount(content, m) > 0 then Some(Rewrite(content, m, SrcUnit(img))) else None
  }

  /** An exact banner src mentions the banner path. */
  lemma ExactMentionsBanner(c: string)
    requires Contains(c, SrcUnit(BannerFix.BannerRef))
    ensures Contains(c, BannerFix.BannerRef)
  {
    ContainsAt(SrcUnit(BannerFix.BannerRef), BannerFix.BannerRef, 5);
    ContainsTrans(c, SrcUnit(BannerFix.BannerRef), BannerFix.BannerRef);
  }

  /** The chosen image of a page whose name has no quote is a safe replacement for the banner src. */
  lemma ChoiceSafe(fs: FileSystem, name: string)
    requires '"' !in name && Choice(fs, name).Some?
    ensures SafeValue(Choice(fs, name).value, Is(BannerFix.BannerRef))
  {
    var img := Choice(fs, name).value;
    var b := BannerFix.BannerRef;
    var stem := Stem(name);
    if img != LocalImg0 {
      assert img == "../assets/images/" + stem + "_img0.gif";
      assert '"' !in stem by {
        assert forall k :: 0 <= k < |stem| ==> stem[k] == name[k];
      }
      assert img[|img| - 5] != b[|b| - 5];
    }
    assert img[|img| - 1] == 'f';
  }

  /** Replacing every exact banner src by a safe one leaves none. */
  lemma ExactReplaceClears(c: string, img: string)
    requires SafeValue(img, Is(BannerFix.BannerRef))
    ensures !Contains(ReplaceAll(c, SrcUnit(BannerFix.BannerRef), SrcUnit(img)), SrcUnit(BannerFix.BannerRef))
  {
    var b := BannerFix.BannerRef;
    ReplaceIsSub(c, b, img);
    SubKeepsClear(c, Is(b), Is(b), img);
    UnitAbsentIff(SrcSub(c, Is(b), img), b);
  }

  /**
   * With the exact pattern a page is rewritten exactly when it is not a 404
   * page, an image to restore exists, and it holds an exact banner src; the
   * new text is the old one with every such src replaced by the chosen
   * image, and no exact banner src is left.
   */
  lemma PageFixSpec(fs: FileSystem, name: string)
    requires PagePath(name) in fs && '"' !in name
    ensures var c := fs[PagePath(name)];
      (PageFix(fs, name, ExactPattern()).Some? <==>
        !Is404(c) && Choice(fs, name).Some? && Contains(c, SrcUnit(BannerFix.BannerRef)))
      && (PageFix(fs, name, ExactPattern()).Some? ==>
        PageFix(fs, name, ExactPattern()).value
          == ReplaceAll(c, SrcUnit(BannerFix.BannerRef), SrcUnit(Choice(fs, name).value))
        && !Contains(PageFix(fs, name, ExactPattern()).value, SrcUnit(BannerFix.BannerRef)))
  {
    var c := fs[PagePath(name)];
    CountPositive(c, SrcUnit(BannerFix.BannerRef));
    if Contains(c, SrcUnit(BannerFix.BannerRef)) {
      ExactMentionsBanner(c);
      if Choice(fs, name).Some? {
        ChoiceSafe(fs, name);
        ExactReplaceClears(c, Choice(fs, name).value);
      }
    }
  }

  /** The state of the pass: the files, `fixed_count` and `files_modified`. */
  datatype Totals = Totals(fs: FileSystem, fixedCount: nat, filesModified: seq<string>)

  /** The pass over the glob's page names with pattern `m`. */
  function FixAll(fs: FileSystem, names: seq<string>, m: Matcher): Totals
    decreases |names|
  {
    if |names| == 0 then Totals(fs, 0, [])
    else
      var before := FixAll(fs, names[..|names| - 1], m);
      var name := names[|names| - 1];
      match PageFix(before.fs, name, m)
      case None => before
      case Some(c) => Totals(before.fs[PagePath(name) := c], before.fixedCount + 1, before.filesModified + [name])
  }

  /**
   * `fixed_count` is the length of `files_modified`, every modified file is
   * one of the pages, in glob order, and files other than the pages keep
   * their contents (so the choice of image never changes under the pass).
   */
  lemma FixAllSpec(fs: FileSystem, names: seq<string>, m: Matcher)
    ensures var t := FixAll(fs, names, m);
      t.fixedCount == |t.filesModified| <= |names|
      && (forall n :: n in t.filesModified ==> n in names)
      && t.fs.Keys == fs.Keys
      && forall k :: k in fs && (forall n :: n in names ==> k != PagePath(n)) ==> t.fs[k] == fs[k]
  {
    FixAllCount(fs, names, m);
    FixAllModified(fs, names, m);
    FixAllFrame(fs, names, m);
  }

  /** The count half of `FixAllSpec`. */
  lemma {:induction false} FixAllCount(fs: FileSystem, names: seq<string>, m: Matcher)
    ensures FixAll(fs, names, m).fixedCount == |FixAll(fs, names, m).filesModified| <= |names|
    decreases |names|
  {
    if |names| > 0 {
      FixAllCount(fs, names[..|names| - 1], m);
    }
  }

  /** The modified-files half of `FixAllSpec`. */
  lemma {:induction false} FixAllModified(fs: FileSystem, names: seq<string>, m: Matcher)
    ensures forall n :: n in FixAll(fs, names, m).filesModified ==> n in names
    decreases |names|
  {
    if |names| > 0 {
      var init := names[..|names| - 1];
      FixAllModified(fs, init, m);
      assert names == init + [names[|names| - 1]];
    }
  }

  /** The frame half of `FixAllSpec`. */
  lemma FixAllFrame(fs: FileSystem, names: seq<string>, m: Matcher)
    ensures FixAll(fs, names, m).fs.Keys == fs.Keys
    ensures forall k :: k in fs && (forall n :: n in names ==> k != PagePath(n)) ==> FixAll(fs, names, m).fs[k] == fs[k]
  {
    FixAllKeys(fs, names, m);
    FixAllOthers(fs, names, m);
  }

  lemma {:induction false} FixAllKeys(fs: FileSystem, names: seq<string>, m: Matcher)
    ensures FixAll(fs, names, m).fs.Keys == fs.Keys
    decreases |names|
  {
    if |names| > 0 {
      FixAllKeys(fs, names[..|names| - 1], m);
    }
  }

  lemma {:induction false} FixAllOthers(fs: FileSystem, names: seq<string>, m: Matcher)
    ensures forall k :: k in fs && (forall n :: n in names ==> k != PagePath(n)) ==> k in FixAll(fs, names, m).fs && FixAll(fs, names, m).fs[k] == fs[k]
    decreases |names|
  {
    if |names| > 0 {
      var init := names[..|names| - 1];
      FixAllOthers(fs, init, m);
      FixAllKeys(fs, init, m);
      InInitAll(names);
    }
  }

  /** `fix_all_page_banners`: the pass and its result, whether any page was fixed. */
  function FixAllPageBanners(fs: FileSystem, names: seq<string>): (Totals, bool) {
    var t := FixAll(fs, names, ExactPattern());
    (t, t.fixedCount > 0)
  }

  /** The result is true exactly when some page was modified. */
  lemma FixAllPageBannersSpec(fs: FileSystem, names: seq<string>)
    ensures FixAllPageBanners(fs, names).1 <==> |FixAllPageBanners(fs, names).0.filesModified| > 0
  {
    FixAllSpec(fs, names, ExactPattern());
  }

  /** One page of the loop: the checks in source order, then the substitution. */
  method FixPage(fs: FileSystem, name: string) returns (newContent: Option<string>)
    ensures newContent == PageFix(fs, name, ExactPattern())
  {
    var path := PagePath(name);
    if path !in fs {
      return None;
    }
    var content := fs[path];
    if Is404(content) || !Contains(content, BannerFix.BannerRef) {
      return None;
    }
    var stem := Stem(name);
    var correctImage: Option<string> := None;
    if PageImg0File(stem) in fs {
      correctImage := Some("../assets/images/" + stem + "_img0.gif");
    }
    if correctImage.None? && PagePath(LocalImg0) in fs {
      correctImage := Some(LocalImg0);
    }
    if correctImage.None? {
      return None;
    }
    var pattern := ExactPattern();
    if MatchCount(content, pattern) > 0 {
      newContent := Some(Rewrite(content, pattern, SrcUnit(correctImage.value)));
    } else {
      newContent := None;
    }
  }

  /** `fix_all_page_banners` as the loop over the glob. */
  method FixAllPageBannersLoop(fs: FileSystem, names: seq<string>) returns (t: Totals, fixed: bool)
    ensures (t, fixed) == FixAllPageBanners(fs, names)
  {
    t := Totals(fs, 0, []);
    var i := 0;
    while i < |names|
      invariant 0 <= i <= |names|
      invariant t == FixAll(fs, names[..i], ExactPattern())
    {
      assert names[..i + 1][..i] == names[..i];
      var c := FixPage(t.fs, names[i]);
      if c.Some? {
        t := Totals(t.fs[PagePath(names[i]) := c.value], t.fixedCount + 1, t.filesModified + [names[i]]);
      }
      i := i + 1;
    }
    assert names[..i] == names;
    fixed := t.fixedCount > 0;
  }

  // ---------------------------------------------------------------------
  // verify_banner_fixes

  /** The three counters of the verification pass. */
  datatype Usage = Usage(banner: nat, img0: nat, specific: nat)

  /** The pages that mention the banner, `img0.gif` and `_img0.gif`; unreadable pages are skipped. */
  function UsageCounts(fs: FileSystem, names: seq<string>): Usage
    decreases |names|
  {
    if |names| == 0 then Usage(0, 0, 0)
    else
      var u := UsageCounts(fs, names[..|names| - 1]);
      var path := PagePath(names[|names| - 1]);
      if path !in fs then u
      else
        var c := fs[path];
        Usage(u.banner + (if Contains(c, BannerFix.BannerRef) then 1 else 0),
          u.img0 + (if Contains(c, "img0.gif") then 1 else 0),
          u.specific + (if Contains(c, "_img0.gif") then 1 else 0))
  }

  /** Every page counted for `_img0.gif` is also counted for `img0.gif`. */
  lemma {:induction false} UsageBounds(fs: FileSystem, names: seq<string>)
    ensures var u := UsageCounts(fs, names);
      u.specific <= u.img0 <= |names| && u.banner <= |names|
    decreases |names|
  {
    if |names| > 0 {
      UsageBounds(fs, names[..|names| - 1]);
      var path := PagePath(names[|names| - 1]);
      if path in fs && Contains(fs[path], "_img0.gif") {
        ContainsAt("_img0.gif", "img0.gif", 1);
        ContainsTrans(fs[path], "_img0.gif", "img0.gif");
      }
    }
  }

  /** `verify_banner_fixes`: the counters, and `banner_count` as its result. */
  method VerifyBannerFixes(fs: FileSystem, names: seq<string>) returns (bannerCount: nat, usage: Usage)
    ensures usage == UsageCounts(fs, names) && bannerCount == usage.banner
  {
    usage := Usage(0, 0, 0);
    var i := 0;
    while i < |names|
      invariant 0 <= i <= |names|
      invariant usage == UsageCounts(fs, names[..i])
    {
      assert names[..i + 1][..i] == names[..i];
      var path := PagePath(names[i]);
      if path in fs {
        var c := fs[path];
        if Contains(c, BannerFix.BannerRef) {
          usage := usage.(banner := usage.banner + 1);
        }
        if Contains(c, "img0.gif") {
          usage := usage.(img0 := usage.img0 + 1);
        }
        if Contains(c, "_img0.gif") {
          usage := usage.(specific := usage.specific + 1);
        }
      }
      i := i + 1;
    }
    assert names[..i] == names;
    bannerCount := usage.banner;
  }
}
