/**
 * The remaining-banner fixer: on pages that do not yet show the shared
 * banner, every src of the form `../assets/images/<anything>_img0.gif` is
 * pointed at the banner, followed by two narrower substitutions (the home
 * page's image and the `%3c`-encoded names). A usage analysis lists, per
 * banner-sized image src, the pages that show it.
 */
module RemainingBanners {
  import opened Strings
  import opened Rewriting
  import opened Attributes
  import opened Site
  import BannerFix

  const ImagesPrefix: string := "../assets/images/"
  const Img0Suffix: string := "_img0.gif"
  const HomeImg0: string := "../assets/images/home_img0.gif"

  /** `src="\.\.\/assets\/images\/[^"]*_img0\.gif"`: the value is the prefix, anything, then the suffix. */
  predicate AnyImg0(v: string) {
    |v| >= |ImagesPrefix| + |Img0Suffix| && StartsWith(v, ImagesPrefix) && EndsWith(v, Img0Suffix)
  }

  /** `src="\.\.\/assets\/images\/%3c[^"]*_img0\.gif"`: as above, with the encoded `<` first. */
  predicate EncodedImg0(v: string) {
    |v| >= |ImagesPrefix| + 3 + |Img0Suffix| && StartsWith(v, ImagesPrefix + "%3c") && EndsWith(v, Img0Suffix)
  }

  /** The three substitutions of one page, in source order. */
  function FixContent(content: string): string {
    var c1 := SrcSub(content, AnyImg0, BannerFix.BannerRef);
    var c2 := SrcSub(c1, Is(HomeImg0), BannerFix.BannerRef);
    SrcSub(c2, EncodedImg0, BannerFix.BannerRef)
  }

  /** Both narrower patterns only accept values the first one accepts. */
  lemma NarrowerPatterns()
    ensures forall v :: Is(HomeImg0)(v) ==> AnyImg0(v)
    ensures forall v :: EncodedImg0(v) ==> AnyImg0(v)
  {
    forall v | EncodedImg0(v) ensures StartsWith(v, ImagesPrefix) {
      assert v[..|ImagesPrefix|] == (ImagesPrefix + "%3c")[..|ImagesPrefix|];
    }
    assert HomeImg0[..|ImagesPrefix|] == ImagesPrefix;
  }

  /**
   * The home and encoded substitutions are subsumed by the first: the three
   * together do what the first does alone, after which no src of the form
   * `../assets/images/<name>_img0.gif` is left; fixing again changes nothing.
   */
  lemma FixContentSpec(content: string)
    ensures FixContent(content) == SrcSub(content, AnyImg0, BannerFix.BannerRef)
    ensures Values(FixContent(content), SrcKey, false, AnyImg0) == []
    ensures FixContent(FixContent(content)) == FixContent(content)
  {
    var b := BannerFix.BannerRef;
    assert SafeValue(b, AnyImg0) by {
      assert b[|b| - 5] != Img0Suffix[|Img0Suffix| - 5];
      assert b[|b| - 10] != "src="[0];
    }
    var c1 := SrcSub(content, AnyImg0, b);
    SubKeepsClear(content, AnyImg0, AnyImg0, b);
    NarrowerPatterns();
    ValuesNarrower(c1, SrcKey, false, AnyImg0, Is(HomeImg0));
    NoValuesNoChange(c1, SrcKey, false, Is(HomeImg0), SrcUnit(b));
    ValuesNarrower(c1, SrcKey, false, AnyImg0, EncodedImg0);
    NoValuesNoChange(c1, SrcKey, false, EncodedImg0, SrcUnit(b));
    SubIdempotent(content, AnyImg0, b);
  }

  /** The new text of one page when the pass writes it: readable, not a 404 page, no banner yet, and changed. */
  function PageFix(fs: FileSystem, name: string): Option<string> {
    var path := PagePath(name);
    if path !in fs then None
    else
      var content := fs[path];
      if Is404(content) || Contains(content, BannerFix.BannerRef) then None
      else
        var c := FixContent(content);
        if c != content then Some(c) else None
  }

  /** The state of the pass: the files and `fixed_files`. */
  datatype Totals = Totals(fs: FileSystem, fixedFiles: seq<string>)

  /** `fix_remaining_banner_issues` over the glob's page names. */
  function FixRemaining(fs: FileSystem, names: seq<string>): Totals
    decreases |names|
  {
    if |names| == 0 then Totals(fs, [])
    else
      var before := FixRemaining(fs, names[..|names| - 1]);
      var name := names[|names| - 1];
      match PageFix(before.fs, name)
      case None => before
      case Some(c) => Totals(before.fs[PagePath(name) := c], before.fixedFiles + [name])
  }

  /**
   * A page is written and listed exactly when its text changes; before the
   * write it had a src of the replaced form, and afterwards it has none.
   */
  lemma PageFixSpec(fs: FileSystem, name: string)
    requires PagePath(name) in fs
    ensures var c := fs[PagePath(name)];
      (PageFix(fs, name).Some? <==> !Is404(c) && !Contains(c, BannerFix.BannerRef) && FixContent(c) != c)
      && (PageFix(fs, name).Some? ==>
        Values(c, SrcKey, false, AnyImg0) != []
        && Values(PageFix(fs, name).value, SrcKey, false, AnyImg0) == [])
  {
    var c := fs[PagePath(name)];
    FixContentSpec(c);
    if Values(c, SrcKey, false, AnyImg0) == [] {
      NoValuesNoChange(c, SrcKey, false, AnyImg0, SrcUnit(BannerFix.BannerRef));
    }
  }

  /** The listed files are pages of the glob, and nothing but the listed pages changes. */
  lemma {:induction false} FixRemainingSpec(fs: FileSystem, names: seq<string>)
    ensures var t := FixRemaining(fs, names);
      |t.fixedFiles| <= |names|
      && (forall n :: n in t.fixedFiles ==> n in names)
      && t.fs.Keys == fs.Keys
      && forall k :: k in fs && (forall n :: n in t.fixedFiles ==> k != PagePath(n)) ==> t.fs[k] == fs[k]
    decreases |names|
  {
    if |names| > 0 {
      var init := names[..|names| - 1];
      FixRemainingSpec(fs, init);
      assert names == init + [names[|names| - 1]];
    }
  }

  /** With distinct page names each fixed file is listed once. */
  lemma {:induction false} FixRemainingOnce(fs: FileSystem, names: seq<string>)
    requires Distinct(names)
    ensures Distinct(FixRemaining(fs, names).fixedFiles)
    decreases |names|
  {
    if |names| > 0 {
      var init := names[..|names| - 1];
      var name := names[|names| - 1];
      assert Distinct(init);
      FixRemainingOnce(fs, init);
      FixRemainingSpec(fs, init);
      var before := FixRemaining(fs, init);
      var t := FixRemaining(fs, names);
      if PageFix(before.fs, name).Some? {
        assert t.fixedFiles == before.fixedFiles + [name];
        forall i, j | 0 <= i < j < |t.fixedFiles| ensures t.fixedFiles[i] != t.fixedFiles[j] {
          if j == |before.fixedFiles| {
            assert before.fixedFiles[i] in before.fixedFiles;
            assert before.fixedFiles[i] in init;
          }
        }
      }
    }
  }

  /** `fix_remaining_banner_issues`: the loop over the glob, returning `fixed_files`. */
  method FixRemainingBannerIssues(fs: FileSystem, names: seq<string>) returns (t: Totals)
    ensures t == FixRemaining(fs, names)
  {
    t := Totals(fs, []);
    var i := 0;
    while i < |names|
      invariant 0 <= i <= |names|
      invariant t == FixRemaining(fs, names[..i])
    {
      assert names[..i + 1][..i] == names[..i];
      var path := PagePath(names[i]);
      if path in t.fs {
        var content := t.fs[path];
        if !Is404(content) && !Contains(content, BannerFix.BannerRef) {
          var original := content;
          content := SrcSub(content, AnyImg0, BannerFix.BannerRef);
          content := SrcSub(content, Is(HomeImg0), BannerFix.BannerRef);
          content := SrcSub(content, EncodedImg0, BannerFix.BannerRef);
          if content != original {
            t := Totals(t.fs[path := content], t.fixedFiles + [names[i]]);
          }
        }
      }
      i := i + 1;
    }
    assert names[..i] == names;
  }

  // ---------------------------------------------------------------------
  // analyze_banner_usage

  /** The pages listed so far for `src`; none when it is not yet a key. */
  function Get(usage: map<string, seq<string>>, src: string): seq<string> {
    if src in usage then usage[src] else []
  }

  /** `n` copies of `name`. */
  function Repeat(name: string, n: nat): (r: seq<string>)
    ensures |r| == n && forall x :: x in r ==> x == name
  {
    if n == 0 then [] else Repeat(name, n - 1) + [name]
  }

  /** One page's matches: `name` is appended to the list of each src, once per match. */
  function AddPage(usage: map<string, seq<string>>, srcs: seq<string>, name: string): map<string, seq<string>>
    decreases |srcs|
  {
    if |srcs| == 0 then usage
    else
      var u := AddPage(usage, srcs[..|srcs| - 1], name);
      var src := srcs[|srcs| - 1];
      u[src := Get(u, src) + [name]]
  }

  /** A src becomes a key exactly when it was one or is matched. */
  lemma {:induction false} AddPageKeys(usage: map<string, seq<string>>, srcs: seq<string>, name: string)
    ensures forall s :: s in AddPage(usage, srcs, name) <==> s in usage || s in srcs
    decreases |srcs|
  {
    if |srcs| > 0 {
      var init := srcs[..|srcs| - 1];
      AddPageKeys(usage, init, name);
      assert srcs == init + [srcs[|srcs| - 1]];
    }
  }

  /** A src gains the page once per match. */
  lemma {:induction false} AddPageGet(usage: map<string, seq<string>>, srcs: seq<string>, name: string, s: string)
    ensures Get(AddPage(usage, srcs, name), s) == Get(usage, s) + Repeat(name, multiset(srcs)[s])
    decreases |srcs|
  {
    if |srcs| > 0 {
      var init := srcs[..|srcs| - 1];
      var src := srcs[|srcs| - 1];
      AddPageGet(usage, init, name, s);
      CountLast(srcs, s);
      if src == s {
        var k := multiset(init)[s];
        assert Repeat(name, k + 1) == Repeat(name, k) + [name];
        assert Get(usage, s) + Repeat(name, k) + [name] == Get(usage, s) + (Repeat(name, k) + [name]);
      }
    }
  }

  /** The count of `s` in a non-empty sequence, from the count before its last element. */
  lemma CountLast(srcs: seq<string>, s: string)
    requires |srcs| > 0
    ensures multiset(srcs)[s] == multiset(srcs[..|srcs| - 1])[s] + (if srcs[|srcs| - 1] == s then 1 else 0)
  {
    var init := srcs[..|srcs| - 1];
    assert srcs == init + [srcs[|srcs| - 1]];
    assert multiset(srcs) == multiset(init) + multiset{srcs[|srcs| - 1]};
  }

  /**
   * The usage table after the listed pages: `imgSrcs` stands for the
   * `findall` of the banner-sized `<img>` regex on a page's text.
   */
  function Usage(fs: FileSystem, names: seq<string>, imgSrcs: string -> seq<string>): map<string, seq<string>>
    decreases |names|
  {
    if |names| == 0 then map[]
    else
      var u := Usage(fs, names[..|names| - 1], imgSrcs);
      var name := names[|names| - 1];
      var path := PagePath(name);
      if path !in fs || Is404(fs[path]) then u else AddPage(u, imgSrcs(fs[path]), name)
  }

  /** How often `src` is matched on the readable, non-404 pages. */
  function Matches(fs: FileSystem, names: seq<string>, imgSrcs: string -> seq<string>, src: string): nat
    decreases |names|
  {
    if |names| == 0 then 0
    else
      var path := PagePath(names[|names| - 1]);
      Matches(fs, names[..|names| - 1], imgSrcs, src)
        + if path !in fs || Is404(fs[path]) then 0 else multiset(imgSrcs(fs[path]))[src]
  }

  /**
   * A src is a key exactly when some page matches it, its list has one entry
   * per match (so a page that shows it twice is listed twice), and every
   * entry is a page of the glob.
   */
  lemma {:induction false} UsageSpec(fs: FileSystem, names: seq<string>, imgSrcs: string -> seq<string>, src: string)
    ensures src in Usage(fs, names, imgSrcs) <==> Matches(fs, names, imgSrcs, src) > 0
    ensures |Get(Usage(fs, names, imgSrcs), src)| == Matches(fs, names, imgSrcs, src)
    ensures forall n :: n in Get(Usage(fs, names, imgSrcs), src) ==> n in names
    decreases |names|
  {
    if |names| > 0 {
      var init := names[..|names| - 1];
      var name := names[|names| - 1];
      UsageSpec(fs, init, imgSrcs, src);
      var u := Usage(fs, init, imgSrcs);
      var path := PagePath(name);
      assert names == init + [name];
      if path in fs && !Is404(fs[path]) {
        var srcs := imgSrcs(fs[path]);
        AddPageKeys(u, srcs, name);
        AddPageGet(u, srcs, name, src);
        assert src in srcs <==> multiset(srcs)[src] > 0;
        if src !in u {
          assert Get(u, src) == [];
        }
      }
    }
  }

  /** The inner loop: one page's matches, in order. */
  method AddPageLoop(usage: map<string, seq<string>>, srcs: seq<string>, name: string) returns (u: map<string, seq<string>>)
    ensures u == AddPage(usage, srcs, name)
  {
    u := usage;
    var i := 0;
    while i < |srcs|
      invariant 0 <= i <= |srcs|
      invariant u == AddPage(usage, srcs[..i], name)
    {
      assert srcs[..i + 1][..i] == srcs[..i];
      var src := srcs[i];
      if src !in u {
        u := u[src := []];
      }
      u := u[src := u[src] + [name]];
      i := i + 1;
    }
    assert srcs[..i] == srcs;
  }

  /** `analyze_banner_usage`: the table it prints. */
  method AnalyzeBannerUsage(fs: FileSystem, names: seq<string>, imgSrcs: string -> seq<string>)
    returns (usage: map<string, seq<string>>)
    ensures usage == Usage(fs, names, imgSrcs)
  {
    usage := map[];
    var i := 0;
    while i < |names|
      invariant 0 <= i <= |names|
      invariant usage == Usage(fs, names[..i], imgSrcs)
    {
      assert names[..i + 1][..i] == names[..i];
      var path := PagePath(names[i]);
      if path in fs && !Is404(fs[path]) {
        usage := AddPageLoop(usage, imgSrcs(fs[path]), names[i]);
      }
      i := i + 1;
    }
    assert names[..i] == names;
  }
}
