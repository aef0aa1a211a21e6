/**
 * The image-path normaliser: every relative image `src` of every `.html`
 * file under a directory is pointed at `../assets/images/<basename>`, the
 * image is copied there when it can be found next to the page, and a
 * verification pass lists the relative image refs that do not resolve.
 *
 * A path built from a page's ref is looked up, and a copy written, under its
 * normal form (`Paths.Normalize`), as the operating system resolves `..`.
 * Paths are compared for the copy after `os.path.abspath`, which is a
 * parameter (`norm`) here: it depends on the working directory.
 */
module ImagePaths {
  import opened Strings
  import opened Rewriting
  import opened Attributes
  import opened Site
  import opened Paths

  /** The folder every normalised image ref points into, relative to a page. */
  const AssetsLink: string := "../assets/images/"

  /** `img_ref.startswith(('http://', 'https://'))`. */
  predicate IsWebRef(ref: string) {
    StartsWith(ref, "http://") || StartsWith(ref, "https://")
  }

  /** The normalised ref: the file name under the shared images folder. */
  function NewPath(ref: string): string {
    AssetsLink + Basename(ref)
  }

  /** A relative ref that is not yet normalised: the only kind the pass rewrites. */
  predicate Rewrites(ref: string) {
    !IsWebRef(ref) && ref != NewPath(ref)
  }

  /** The base name of `a/f` is `f` when `f` has no slash. */
  lemma {:induction false} BasenameAfterSlash(a: string, f: string)
    requires '/' !in f
    ensures Basename(a + "/" + f) == f
    decreases |f|
  {
    if |f| > 0 {
      var s := a + "/" + f;
      var init := f[..|f| - 1];
      assert s[..|s| - 1] == a + "/" + init;
      BasenameAfterSlash(a, init);
      assert init + [f[|f| - 1]] == f;
    }
  }

  /** The rule is idempotent: a normalised ref normalises to itself, so a second run rewrites nothing. */
  lemma NewPathFixed(ref: string)
    ensures NewPath(NewPath(ref)) == NewPath(ref)
    ensures !Rewrites(NewPath(ref))
  {
    var b := Basename(ref);
    assert AssetsLink + b == "../assets/images" + "/" + b;
    BasenameAfterSlash("../assets/images", b);
  }

  /** An image ref ends with `f`, `F`, `g` or `G`, and so does its base name. */
  lemma ImageRefEnd(ref: string)
    requires IsImageRef(ref)
    ensures |ref| > 0 && |Basename(ref)| > 0
    ensures ref[|ref| - 1] in "fFgG"
    ensures Basename(ref)[|Basename(ref)| - 1] == ref[|ref| - 1]
  {
    ImageRefLast(ref);
    BasenameLast(ref);
  }

  /** The last character of an image ref is the last letter of its extension, in either case. */
  lemma ImageRefLast(ref: string)
    requires IsImageRef(ref)
    ensures |ref| > 0 && ref[|ref| - 1] in "fFgG"
  {
    var l := Lower(ref);
    assert |l| > 0 && l[|l| - 1] in "fg";
    assert l[|l| - 1] == LowerChar(ref[|ref| - 1]);
  }

  /** A path that does not end with '/' keeps its last character in its base name. */
  lemma BasenameLast(path: string)
    requires |path| > 0 && path[|path| - 1] != '/'
    ensures |Basename(path)| > 0
    ensures Basename(path)[|Basename(path)| - 1] == path[|path| - 1]
  {
    var b := Basename(path);
    assert b == path[|path| - |b|..];
  }

  /** The normalised ref of a quote-free image ref is a safe replacement for any other ref. */
  lemma NewPathSafe(ref: string, v: string)
    requires IsImageRef(ref) && '"' !in ref && v != NewPath(ref)
    ensures SafeValue(NewPath(ref), Is(v))
  {
    var n := NewPath(ref);
    ImageRefEnd(ref);
    assert n[|n| - 1] == ref[|ref| - 1];
    ContainsChars(ref, Basename(ref)) by {
      ContainsAt(ref, Basename(ref), |ref| - |Basename(ref)|);
    }
    assert n == AssetsLink + Basename(ref);
  }

  // ---------------------------------------------------------------------
  // The rewriting of one page.

  datatype ContentFix = ContentFix(content: string, modified: bool)

  /** The loop over the refs found in the page: each rewritten ref replaces every `src="<ref>"` text. */
  function FixRefs(content: string, refs: seq<string>): ContentFix
    decreases |refs|
  {
    if |refs| == 0 then ContentFix(content, false)
    else
      var prev := FixRefs(content, refs[..|refs| - 1]);
      var ref := refs[|refs| - 1];
      if Rewrites(ref) then ContentFix(ReplaceAll(prev.content, SrcUnit(ref), SrcUnit(NewPath(ref))), true)
      else prev
  }

  /** The page is marked modified exactly when some ref is rewritten; otherwise its text is unchanged. */
  lemma {:induction false} FixRefsModified(content: string, refs: seq<string>)
    ensures FixRefs(content, refs).modified <==> exists r :: r in refs && Rewrites(r)
    ensures !FixRefs(content, refs).modified ==> FixRefs(content, refs).content == content
    decreases |refs|
  {
    if |refs| > 0 {
      var init := refs[..|refs| - 1];
      FixRefsModified(content, init);
      assert refs == init + [refs[|refs| - 1]];
    }
  }

  /** A page whose refs are all web refs, or all already normalised, is left exactly as it was. */
  lemma NothingToRewrite(content: string, refs: seq<string>)
    requires forall r :: r in refs ==> IsWebRef(r) || exists x :: r == NewPath(x)
    ensures FixRefs(content, refs) == ContentFix(content, false)
  {
    forall r | r in refs
      ensures !Rewrites(r)
    {
      if !IsWebRef(r) {
        var x :| r == NewPath(x);
        NewPathFixed(x);
      }
    }
    FixRefsModified(content, refs);
  }

  /**
   * Afterwards no `src="<ref>"` text of a rewritten ref is left: each replace
   * removes its own, and no later replacement (a normalised ref) can bring
   * one back.
   */
  lemma {:induction false} FixRefsClears(content: string, refs: seq<string>)
    requires forall r :: r in refs ==> IsImageRef(r) && '"' !in r
    ensures forall r :: r in refs && Rewrites(r) ==> !Contains(FixRefs(content, refs).content, SrcUnit(r))
    decreases |refs|
  {
    if |refs| > 0 {
      var init := refs[..|refs| - 1];
      var last := refs[|refs| - 1];
      FixRefsClears(content, init);
      assert refs == init + [last];
      var prev := FixRefs(content, init).content;
      if Rewrites(last) {
        assert last in refs;
        forall r | r in refs && Rewrites(r)
          ensures !Contains(ReplaceAll(prev, SrcUnit(last), SrcUnit(NewPath(last))), SrcUnit(r))
        {
          ClearStep(prev, last, r);
        }
      }
    }
  }

  /** One replace removes its own ref's src and brings back no other rewritten ref's src. */
  lemma ClearStep(prev: string, last: string, r: string)
    requires IsImageRef(last) && '"' !in last && '"' !in r && Rewrites(last) && Rewrites(r)
    requires r != last ==> !Contains(prev, SrcUnit(r))
    ensures !Contains(ReplaceAll(prev, SrcUnit(last), SrcUnit(NewPath(last))), SrcUnit(r))
  {
    var next := ReplaceAll(prev, SrcUnit(last), SrcUnit(NewPath(last)));
    ReplaceIsSub(prev, last, NewPath(last));
    NewPathFixed(last);
    NewPathSafe(last, r);
    if r != last {
      UnitAbsentIff(prev, r);
    }
    SubKeepsClear(prev, Is(last), Is(r), NewPath(last));
    UnitAbsentIff(next, r);
  }

  // ---------------------------------------------------------------------
  // The image copies of one page.

  /** Where a ref points from the page: `os.path.join(os.path.dirname(file_path), img_ref)`. */
  function Source(filePath: string, ref: string): string {
    PathJoin(Dirname(filePath), ref)
  }

  /** Where the image is copied to: `os.path.join(assets_dir, filename)`. */
  function Dest(assetsDir: string, ref: string): string {
    PathJoin(assetsDir, Basename(ref))
  }

  /** An image is copied only when its source exists and is not the destination itself. */
  function CopyStep(fs: FileSystem, filePath: string, assetsDir: string, norm: string -> string, ref: string): FileSystem {
    var src, dst := Source(filePath, ref), Dest(assetsDir, ref);
    if !IsWebRef(ref) && Normalize(src) in fs && norm(src) != norm(dst) then fs[Normalize(dst) := fs[Normalize(src)]] else fs
  }

  /** The copies of the refs of one page, in order. */
  function Copies(fs: FileSystem, filePath: string, assetsDir: string, norm: string -> string, refs: seq<string>): FileSystem
    decreases |refs|
  {
    if |refs| == 0 then fs
    else CopyStep(Copies(fs, filePath, assetsDir, norm, refs[..|refs| - 1]), filePath, assetsDir, norm, refs[|refs| - 1])
  }

  /** Copying never removes a file, and the only files it changes or adds are destinations of relative refs. */
  lemma {:induction false} CopiesSpec(fs: FileSystem, filePath: string, assetsDir: string, norm: string -> string, refs: seq<string>)
    ensures forall p :: p in fs ==> p in Copies(fs, filePath, assetsDir, norm, refs)
    ensures forall p :: p in Copies(fs, filePath, assetsDir, norm, refs) && (p !in fs || Copies(fs, filePath, assetsDir, norm, refs)[p] != fs[p]) ==>
      exists r :: r in refs && !IsWebRef(r) && p == Normalize(Dest(assetsDir, r))
    decreases |refs|
  {
    if |refs| > 0 {
      var init := refs[..|refs| - 1];
      CopiesSpec(fs, filePath, assetsDir, norm, init);
      assert refs == init + [refs[|refs| - 1]];
    }
  }

  /** A copy destination, as the file it resolves to, is an image, never an `.html` page. */
  lemma DestNotHtml(assetsDir: string, ref: string)
    requires IsImageRef(ref)
    ensures !EndsWith(Normalize(Dest(assetsDir, ref)), ".html")
  {
    var b := Basename(ref);
    ImageRefEnd(ref);
    assert b != "." && b != "..";
    NormalizeLast(assetsDir, b);
    DestLast(Normalize(Dest(assetsDir, ref)), b);
  }

  /** A path ending with a file name whose last letter is not `l` is not a page. */
  lemma DestLast(d: string, b: string)
    requires |b| > 0 && b[|b| - 1] in "fFgG" && EndsWith(d, b)
    ensures !EndsWith(d, ".html")
  {
    LastOfEnding(d, b);
    LastOfEnding(d, ".html");
    assert d[|d| - 1] != 'l';
  }

  /** A text ending with a non-empty `p` ends with the last character of `p`. */
  lemma LastOfEnding(d: string, p: string)
    requires |p| > 0
    ensures EndsWith(d, p) ==> d[|d| - 1] == p[|p| - 1]
  {
    if EndsWith(d, p) {
      assert d[|d| - |p|..][|p| - 1] == d[|d| - 1];
    }
  }

  // ---------------------------------------------------------------------
  // One page and the whole walk.

  /** The image folder of the site: `os.path.join(directory, 'assets', 'images')`. */
  function AssetsDir(directory: string): string {
    PathJoin(PathJoin(directory, "assets"), "images")
  }

  /** One `.html` file: the copies, then the rewritten text written back only when modified. */
  function FixFile(fs: FileSystem, assetsDir: string, filePath: string, norm: string -> string): FileSystem {
    if filePath !in fs then fs
    else
      var content := fs[filePath];
      var refs := ImageRefs(content);
      var copied := Copies(fs, filePath, assetsDir, norm, refs);
      var fix := FixRefs(content, refs);
      if fix.modified then copied[filePath := fix.content] else copied
  }

  /**
   * The page ends up holding its rewritten text, no other `.html` file is
   * touched, and no file disappears.
   */
  lemma FixFileSpec(fs: FileSystem, assetsDir: string, filePath: string, norm: string -> string)
    requires filePath in fs && EndsWith(filePath, ".html")
    ensures var r := FixFile(fs, assetsDir, filePath, norm);
      && filePath in r
      && r[filePath] == FixRefs(fs[filePath], ImageRefs(fs[filePath])).content
      && (forall p :: p in fs ==> p in r)
      && (forall p :: EndsWith(p, ".html") && p != filePath ==> (p in r <==> p in fs) && (p in fs ==> r[p] == fs[p]))
  {
    var content := fs[filePath];
    var refs := ImageRefs(content);
    FixRefsModified(content, refs);
    CopiesSpec(fs, filePath, assetsDir, norm, refs);
    var copied := Copies(fs, filePath, assetsDir, norm, refs);
    var fix := FixRefs(content, refs);
    var r := FixFile(fs, assetsDir, filePath, norm);
    assert r == if fix.modified then copied[filePath := fix.content] else copied;
    forall p | EndsWith(p, ".html")
      ensures p in copied <==> p in fs
      ensures p in fs ==> copied[p] == fs[p]
    {
      if p in copied && (p !in fs || copied[p] != fs[p]) {
        var x :| x in refs && !IsWebRef(x) && p == Normalize(Dest(assetsDir, x));
        DestNotHtml(assetsDir, x);
      }
    }
  }

  /**
   * `fix_image_paths`: the `.html` files of the walk, in walk order. A walked
   * `.html` file that cannot be read raises outside any `try`, which ends the
   * whole run: `None`.
   */
  function FixAll(fs: FileSystem, directory: string, files: seq<string>, norm: string -> string): Option<FileSystem>
    decreases |files|
  {
    if |files| == 0 then Some(fs)
    else
      var before := FixAll(fs, directory, files[..|files| - 1], norm);
      var f := files[|files| - 1];
      if before.None? || !EndsWith(f, ".html") then before
      else if f !in before.value then None
      else Some(FixFile(before.value, AssetsDir(directory), f, norm))
  }

  /**
   * On a finished walk every `.html` file is present exactly when it was
   * before, an `.html` file the walk does not list is untouched, and (each
   * file listed once) every listed page ends up with the rewritten form of
   * its own original text.
   */
  lemma {:induction false} FixAllPages(fs: FileSystem, directory: string, files: seq<string>, norm: string -> string, p: string)
    requires EndsWith(p, ".html")
    ensures FixAll(fs, directory, files, norm).Some? ==>
      var r := FixAll(fs, directory, files, norm).value;
      (p in r <==> p in fs) && (p !in files && p in fs ==> r[p] == fs[p])
    ensures FixAll(fs, directory, files, norm).Some? && Distinct(files) && p in files && p in fs ==>
      var r := FixAll(fs, directory, files, norm).value;
      p in r && r[p] == FixRefs(fs[p], ImageRefs(fs[p])).content
    decreases |files|
  {
    if |files| > 0 {
      var init := files[..|files| - 1];
      var f := files[|files| - 1];
      assert files == init + [f];
      FixAllPages(fs, directory, init, norm, p);
      var before := FixAll(fs, directory, init, norm);
      if before.Some? && EndsWith(f, ".html") && f in before.value {
        FixFileSpec(before.value, AssetsDir(directory), f, norm);
      }
      if Distinct(files) && p in files && p in fs && p !in init {
        assert p == f;
      }
    }
  }

  /** The walk is cut short exactly when one of its `.html` files cannot be read. */
  lemma {:induction false} FixAllAborts(fs: FileSystem, directory: string, files: seq<string>, norm: string -> string)
    ensures FixAll(fs, directory, files, norm).None? <==> exists f :: f in files && EndsWith(f, ".html") && f !in fs
    decreases |files|
  {
    if |files| > 0 {
      var init := files[..|files| - 1];
      var f := files[|files| - 1];
      FixAllAborts(fs, directory, init, norm);
      InInitAll(files);
      if EndsWith(f, ".html") {
        FixAllPages(fs, directory, init, norm, f);
      }
    }
  }

  /** One file of the walk: copies and rewriting interleaved, as in the source. */
  method FixPage(fs: FileSystem, assetsDir: string, filePath: string, norm: string -> string) returns (fs': FileSystem)
    ensures fs' == FixFile(fs, assetsDir, filePath, norm)
  {
    if filePath !in fs {
      return fs;
    }
    var content := fs[filePath];
    var refs := ImageRefs(content);
    var modified := false;
    fs' := fs;
    var i := 0;
    while i < |refs|
      invariant 0 <= i <= |refs|
      invariant fs' == Copies(fs, filePath, assetsDir, norm, refs[..i])
      invariant ContentFix(content, modified) == FixRefs(fs[filePath], refs[..i])
    {
      CopiesStep(fs, filePath, assetsDir, norm, refs, i);
      FixRefsStep(fs[filePath], refs, i);
      var ref := refs[i];
      if !IsWebRef(ref) {
        var filename := Basename(ref);
        var newPath := AssetsLink + filename;
        var oldPath := Source(filePath, ref);
        var destPath := Dest(assetsDir, ref);
        if Normalize(oldPath) in fs' && norm(oldPath) != norm(destPath) {
          fs' := fs'[Normalize(destPath) := fs'[Normalize(oldPath)]];
        }
        if ref != newPath {
          content := ReplaceAll(content, SrcUnit(ref), SrcUnit(newPath));
          modified := true;
        }
      }
      i := i + 1;
    }
    assert refs[..i] == refs;
    if modified {
      fs' := fs'[filePath := content];
    }
  }

  lemma CopiesStep(fs: FileSystem, filePath: string, assetsDir: string, norm: string -> string, refs: seq<string>, i: nat)
    requires i < |refs|
    ensures Copies(fs, filePath, assetsDir, norm, refs[..i + 1])
      == CopyStep(Copies(fs, filePath, assetsDir, norm, refs[..i]), filePath, assetsDir, norm, refs[i])
  {
    assert refs[..i + 1][..i] == refs[..i];
  }

  lemma FixRefsStep(content: string, refs: seq<string>, i: nat)
    requires i < |refs|
    ensures FixRefs(content, refs[..i + 1]) ==
      var prev := FixRefs(content, refs[..i]);
      if Rewrites(refs[i]) then ContentFix(ReplaceAll(prev.content, SrcUnit(refs[i]), SrcUnit(NewPath(refs[i]))), true)
      else prev
  {
    assert refs[..i + 1][..i] == refs[..i];
  }

  /** Once the walk is cut short, the later files do not resume it. */
  lemma {:induction false} FixAllAbortSticks(fs: FileSystem, directory: string, files: seq<string>, norm: string -> string, i: nat)
    requires i <= |files| && FixAll(fs, directory, files[..i], norm).None?
    ensures FixAll(fs, directory, files, norm).None?
    decreases |files|
  {
    if i < |files| {
      var init := files[..|files| - 1];
      assert init[..i] == files[..i];
      FixAllAbortSticks(fs, directory, init, norm, i);
    } else {
      assert files[..i] == files;
    }
  }

  lemma FixAllStep(fs: FileSystem, directory: string, files: seq<string>, norm: string -> string, i: nat)
    requires i < |files|
    ensures var before := FixAll(fs, directory, files[..i], norm);
      FixAll(fs, directory, files[..i + 1], norm) ==
        if before.None? || !EndsWith(files[i], ".html") then before
        else if files[i] !in before.value then None
        else Some(FixFile(before.value, AssetsDir(directory), files[i], norm))
  {
    assert files[..i + 1][..i] == files[..i];
  }

  /** `fix_image_paths(directory)` over the walk's file paths. */
  method FixImagePaths(fs: FileSystem, directory: string, files: seq<string>, norm: string -> string) returns (r: Option<FileSystem>)
    ensures r == FixAll(fs, directory, files, norm)
  {
    var assetsDir := AssetsDir(directory);
    var fs' := fs;
    var i := 0;
    while i < |files|
      invariant 0 <= i <= |files|
      invariant FixAll(fs, directory, files[..i], norm) == Some(fs')
    {
      FixAllStep(fs, directory, files, norm, i);
      if EndsWith(files[i], ".html") {
        if files[i] !in fs' {
          FixAllAbortSticks(fs, directory, files, norm, i + 1);
          return None;
        }
        fs' := FixPage(fs', assetsDir, files[i], norm);
      }
      i := i + 1;
    }
    assert files[..i] == files;
    return Some(fs');
  }

  // ---------------------------------------------------------------------
  // verify_images

  datatype BrokenImage = BrokenImage(file: string, image: string, path: string)

  /** The relative refs of one page whose target does not exist. */
  function BrokenIn(fs: FileSystem, file: string, refs: seq<string>): seq<BrokenImage>
    decreases |refs|
  {
    if |refs| == 0 then []
    else
      var ref := refs[|refs| - 1];
      var path := Source(file, ref);
      BrokenIn(fs, file, refs[..|refs| - 1]) + (if !IsWebRef(ref) && Normalize(path) !in fs then [BrokenImage(file, ref, path)] else [])
  }

  /**
   * The broken images of the walk's `.html` files, in walk order; `None` when
   * a walked `.html` file cannot be read, which raises out of `verify_images`.
   */
  function BrokenImages(fs: FileSystem, files: seq<string>): Option<seq<BrokenImage>>
    decreases |files|
  {
    if |files| == 0 then Some([])
    else
      var before := BrokenImages(fs, files[..|files| - 1]);
      var f := files[|files| - 1];
      if before.None? || !EndsWith(f, ".html") then before
      else if f !in fs then None
      else Some(before.value + BrokenIn(fs, f, ImageRefs(fs[f])))
  }

  /** An entry is reported exactly for a relative ref of the page whose joined path resolves to no file. */
  lemma {:induction false} BrokenInSpec(fs: FileSystem, file: string, refs: seq<string>, b: BrokenImage)
    ensures b in BrokenIn(fs, file, refs) <==>
      b.file == file && b.image in refs && !IsWebRef(b.image) && b.path == Source(file, b.image) && Normalize(b.path) !in fs
    decreases |refs|
  {
    if |refs| > 0 {
      var init, last := refs[..|refs| - 1], refs[|refs| - 1];
      BrokenInSpec(fs, file, init, b);
      InInit(refs, b.image);
      var path := Source(file, last);
      var e := if !IsWebRef(last) && Normalize(path) !in fs then [BrokenImage(file, last, path)] else [];
      assert BrokenIn(fs, file, refs) == BrokenIn(fs, file, init) + e;
      assert b in e <==> b.file == file && b.image == last && !IsWebRef(last) && b.path == path && Normalize(b.path) !in fs;
    }
  }

  /**
   * The verification fails exactly when a walked `.html` file cannot be read;
   * otherwise an entry is reported exactly for a relative image ref of a
   * listed page whose joined path resolves to no file.
   */
  lemma {:induction false} BrokenImagesSpec(fs: FileSystem, files: seq<string>, b: BrokenImage)
    ensures BrokenImages(fs, files).None? <==> exists f :: f in files && EndsWith(f, ".html") && f !in fs
    ensures BrokenImages(fs, files).Some? ==>
      (b in BrokenImages(fs, files).value <==>
        b.file in files && EndsWith(b.file, ".html") && b.file in fs && b.image in ImageRefs(fs[b.file])
        && !IsWebRef(b.image) && b.path == Source(b.file, b.image) && Normalize(b.path) !in fs)
    decreases |files|
  {
    if |files| > 0 {
      var init := files[..|files| - 1];
      var f := files[|files| - 1];
      BrokenImagesSpec(fs, init, b);
      InInitAll(files);
      if EndsWith(f, ".html") && f in fs {
        BrokenInSpec(fs, f, ImageRefs(fs[f]), b);
      }
    }
  }

  /** The folder part of `dir/sub/name` is `dir/sub` when the file name has no slash. */
  lemma DirnameOf(dir: string, name: string)
    requires '/' !in name
    ensures Dirname(dir + "/" + name) == dir
  {
    var path := dir + "/" + name;
    BasenameAfterSlash(dir, name);
    var d := Dirname(path);
    assert d + "/" + name == path;
    assert |d| == |dir|;
    assert d == path[..|dir|] == dir;
  }

  /**
   * A rewritten ref, seen from a page one folder below the site directory,
   * resolves to the very file the copy step writes: so after the fix a ref
   * whose image was copied is not reported broken.
   */
  lemma NewPathTargetsDest(dir: string, sub: string, name: string, ref: string)
    requires |dir| > 0
    requires '/' !in sub && PlainSegment(sub) && '/' !in name
    ensures Normalize(Source(dir + "/" + sub + "/" + name, NewPath(ref))) == Normalize(Dest(AssetsDir(dir), ref))
  {
    var b := Basename(ref);
    SourceSpelling(dir, sub, name, b);
    ParentNormal(dir, sub, "assets/images/" + b);
    DestSpelling(dir, b);
  }

  lemma SourceSpelling(dir: string, sub: string, name: string, b: string)
    requires |dir| > 0 && '/' !in name
    ensures Source(dir + "/" + sub + "/" + name, AssetsLink + b) == dir + "/" + sub + "/../" + ("assets/images/" + b)
  {
    DirnameOf(dir + "/" + sub, name);
    var d := dir + "/" + sub;
    assert !StartsWith(AssetsLink + b, "/") by {
      assert (AssetsLink + b)[0] == '.';
    }
    assert PathJoin(d, AssetsLink + b) == d + "/" + (AssetsLink + b);
  }

  lemma DestSpelling(dir: string, b: string)
    requires |dir| > 0 && '/' !in b
    ensures Dest(AssetsDir(dir), AssetsLink + b) == dir + "/" + ("assets/images/" + b)
  {
    BasenameAfterSlash("../assets/images", b);
    assert AssetsLink + b == "../assets/images" + "/" + b;
    var a := PathJoin(dir, "assets");
    assert a == dir + "/assets";
    assert PathJoin(a, "images") == dir + "/assets/images";
    if |b| > 0 {
      assert b[0] != '/';
    }
    assert PathJoin(dir + "/assets/images", b) == dir + "/assets/images" + "/" + b;
  }

  /** Such a ref is not reported once its destination exists. */
  lemma CopiedNotBroken(fs: FileSystem, dir: string, sub: string, name: string, ref: string)
    requires |dir| > 0
    requires '/' !in sub && PlainSegment(sub) && '/' !in name
    requires Normalize(Dest(AssetsDir(dir), ref)) in fs
    ensures BrokenIn(fs, dir + "/" + sub + "/" + name, [NewPath(ref)]) == []
  {
    NewPathTargetsDest(dir, sub, name, ref);
  }

  /** The refs of one page. */
  method CheckPageImages(fs: FileSystem, file: string, refs: seq<string>) returns (broken: seq<BrokenImage>)
    ensures broken == BrokenIn(fs, file, refs)
  {
    broken := [];
    var i := 0;
    while i < |refs|
      invariant 0 <= i <= |refs|
      invariant broken == BrokenIn(fs, file, refs[..i])
    {
      assert refs[..i + 1][..i] == refs[..i];
      var ref := refs[i];
      if !IsWebRef(ref) {
        var path := Source(file, ref);
        if Normalize(path) !in fs {
          broken := broken + [BrokenImage(file, ref, path)];
        }
      }
      i := i + 1;
    }
    assert refs[..i] == refs;
  }

  /** Once the verification raises, the later files do not resume it. */
  lemma {:induction false} BrokenImagesAbortSticks(fs: FileSystem, files: seq<string>, i: nat)
    requires i <= |files| && BrokenImages(fs, files[..i]).None?
    ensures BrokenImages(fs, files).None?
    decreases |files|
  {
    if i < |files| {
      var init := files[..|files| - 1];
      assert init[..i] == files[..i];
      BrokenImagesAbortSticks(fs, init, i);
    } else {
      assert files[..i] == files;
    }
  }

  /** `verify_images(directory)` over the walk's file paths. */
  method VerifyImages(fs: FileSystem, files: seq<string>) returns (r: Option<seq<BrokenImage>>)
    ensures r == BrokenImages(fs, files)
  {
    var broken := [];
    var i := 0;
    while i < |files|
      invariant 0 <= i <= |files|
      invariant BrokenImages(fs, files[..i]) == Some(broken)
    {
      assert files[..i + 1][..i] == files[..i];
      var f := files[i];
      if EndsWith(f, ".html") {
        if f !in fs {
          BrokenImagesAbortSticks(fs, files, i + 1);
          return None;
        }
        var found := CheckPageImages(fs, f, ImageRefs(fs[f]));
        broken := broken + found;
      }
      i := i + 1;
    }
    assert files[..i] == files;
    return Some(broken);
  }
}
