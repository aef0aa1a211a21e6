/**
 * The image fixer: for a page of the old host, the image references are
 * resolved to URLs on the old origin and to candidate files under
 * `assets/images`, and every reference none of whose candidates exists
 * becomes one download. A short table of commonly missing images is
 * downloaded where the file is absent.
 */
module ImageFixer {
  import opened Strings
  import opened Site
  import opened Paths
  import SiteFixer

  /** A pending download: the old-host URL and the local file it goes to. */
  datatype Download = Download(url: string, path: string)

  /** The old-host URL of an image reference on `page`: host-relative refs join the host, others the page's folder. */
  function ImageUrl(page: string, ref: string): string {
    if StartsWith(ref, "/") then OriginHost + ref else OriginBase + page + "/" + ref
  }

  /** Every image URL is on the old origin and ends with the reference itself. */
  lemma ImageUrlOnOrigin(page: string, ref: string)
    ensures StartsWith(ImageUrl(page, ref), OriginHost)
    ensures EndsWith(ImageUrl(page, ref), ref)
    ensures !StartsWith(ref, "/") ==> StartsWith(ImageUrl(page, ref), SiteFixer.OldUrl(page))
  {
    var u := ImageUrl(page, ref);
    if StartsWith(ref, "/") {
      assert u[..|OriginHost|] == OriginHost;
      assert u[|u| - |ref|..] == ref;
    } else {
      assert u == SiteFixer.OldUrl(page) + ref;
      assert u[..|SiteFixer.OldUrl(page)|] == SiteFixer.OldUrl(page);
      assert u[..|OriginHost|] == OriginHost;
      assert u[|u| - |ref|..] == ref;
    }
  }

  /** Where a missing image is downloaded to: `assets/images/<page>_<basename>`. */
  function DownloadTarget(page: string, ref: string): string {
    ImagesDir + "/" + page + "_" + Basename(ref)
  }

  /** The local files that may already hold the image, in the order they are tried. */
  function Candidates(page: string, ref: string): (c: seq<string>)
    ensures |c| == 3 && c[1] == DownloadTarget(page, ref)
  {
    [ImagesDir + "/" + Basename(ref), DownloadTarget(page, ref), ImagesDir + "/" + ref]
  }

  /** The download one `src` value calls for, after stripping it; `None` for web URLs and images found locally. */
  function RefDownload(page: string, fs: FileSystem, raw: string): Option<Download> {
    var ref := Strip(raw);
    if StartsWith(ref, "http") then None
    else if FirstExisting(fs, ResolveAll(Candidates(page, ref))).Some? then None
    else Some(Download(ImageUrl(page, ref), DownloadTarget(page, ref)))
  }

  /**
   * A reference needs a download exactly when its stripped form does not
   * start with `http` and none of its three candidates exists; the download
   * then fetches the resolved URL into the page-specific file, which does
   * not exist yet.
   */
  lemma RefDownloadSpec(page: string, fs: FileSystem, raw: string)
    ensures var ref := Strip(raw);
      RefDownload(page, fs, raw).Some? <==>
        !StartsWith(ref, "http") && forall c :: c in Candidates(page, ref) ==> Normalize(c) !in fs
    ensures var ref := Strip(raw);
      RefDownload(page, fs, raw).Some? ==>
        RefDownload(page, fs, raw).value == Download(ImageUrl(page, ref), DownloadTarget(page, ref))
        && Normalize(DownloadTarget(page, ref)) !in fs
  {
    RefDownloadNeeded(page, fs, raw);
    RefDownloadTarget(page, fs, raw);
  }

  lemma RefDownloadNeeded(page: string, fs: FileSystem, raw: string)
    ensures var ref := Strip(raw);
      RefDownload(page, fs, raw).Some? <==>
        !StartsWith(ref, "http") && forall c :: c in Candidates(page, ref) ==> Normalize(c) !in fs
  {
    ResolvedNone(fs, Candidates(page, Strip(raw)));
  }

  lemma RefDownloadTarget(page: string, fs: FileSystem, raw: string)
    ensures var ref := Strip(raw);
      RefDownload(page, fs, raw).Some? ==>
        RefDownload(page, fs, raw).value == Download(ImageUrl(page, ref), DownloadTarget(page, ref))
        && Normalize(DownloadTarget(page, ref)) !in fs
  {
    var c := Candidates(page, Strip(raw));
    ResolvedNone(fs, c);
    assert c[1] in c;
  }

  /** The downloads of a sequence of references, in order. */
  function Needed(page: string, fs: FileSystem, refs: seq<string>): (r: seq<Download>)
    ensures |r| <= |refs|
  {
    Collect((raw: string) => RefDownload(page, fs, raw), refs)
  }

  /** The downloads `f` calls for over `refs`, in order. */
  function Collect(f: string -> Option<Download>, refs: seq<string>): (r: seq<Download>)
    ensures |r| <= |refs|
    decreases |refs|
  {
    if |refs| == 0 then []
    else Append(Collect(f, refs[..|refs| - 1]), f(refs[|refs| - 1]))
  }

  /** The list with the download appended, if there is one. */
  function Append(ds: seq<Download>, d: Option<Download>): (r: seq<Download>)
    ensures |r| <= |ds| + 1
  {
    if d.Some? then ds + [d.value] else ds
  }

  /** One more reference extends the list by its download. */
  lemma NeededStep(page: string, fs: FileSystem, refs: seq<string>, i: nat)
    requires i < |refs|
    ensures Needed(page, fs, refs[..i + 1]) == Append(Needed(page, fs, refs[..i]), RefDownload(page, fs, refs[i]))
  {
    assert refs[..i + 1][..i] == refs[..i];
  }

  /** A download is collected exactly when `f` calls for it on some reference. */
  lemma {:induction false} CollectMembers(f: string -> Option<Download>, refs: seq<string>, d: Download)
    ensures d in Collect(f, refs) <==> exists r :: r in refs && f(r) == Some(d)
    decreases |refs|
  {
    if |refs| > 0 {
      var init := refs[..|refs| - 1];
      CollectMembers(f, init, d);
      assert refs == init + [refs[|refs| - 1]];
    }
  }

  /** A download is listed exactly when some reference calls for it. */
  lemma NeededMembers(page: string, fs: FileSystem, refs: seq<string>, d: Download)
    ensures d in Needed(page, fs, refs) <==> exists r :: r in refs && RefDownload(page, fs, r) == Some(d)
  {
    var f := (raw: string) => RefDownload(page, fs, raw);
    CollectMembers(f, refs, d);
    assert forall r :: f(r) == RefDownload(page, fs, r);
  }

  /** `compare_page_images` as a value: nothing for a page that fails; otherwise the downloads of its image refs. */
  function PageDownloads(page: string, fetch: string -> Fetch, fs: FileSystem): seq<Download> {
    var f := fetch(SiteFixer.OldUrl(page));
    if !IsOk(f) then [] else Needed(page, fs, ImageRefs(f.body))
  }

  /** A page that raises, answers other than 200, or has no image refs yields no downloads. */
  lemma PageDownloadsEmpty(page: string, fetch: string -> Fetch, fs: FileSystem)
    requires !IsOk(fetch(SiteFixer.OldUrl(page))) || ImageRefs(fetch(SiteFixer.OldUrl(page)).body) == []
    ensures PageDownloads(page, fetch, fs) == []
  {
  }

  /** The candidate scan: the first path that exists, stopping at the first hit. */
  method FindLocal(fs: FileSystem, paths: seq<string>) returns (found: Option<string>)
    ensures found == FirstExisting(fs, paths)
  {
    found := None;
    var i := 0;
    while i < |paths|
      invariant 0 <= i <= |paths|
      invariant FirstExisting(fs, paths) == FirstExisting(fs, paths[i..])
    {
      if paths[i] in fs {
        found := Some(paths[i]);
        return;
      }
      assert paths[i..][1..] == paths[i + 1..];
      i := i + 1;
    }
  }

  /** One reference of the page: skipped, found locally, or a download. */
  method CheckRef(page: string, fs: FileSystem, raw: string) returns (d: Option<Download>)
    ensures d == RefDownload(page, fs, raw)
  {
    var ref := Strip(raw);
    if StartsWith(ref, "http") {
      return None;
    }
    var url := ImageUrl(page, ref);
    var local := FindLocal(fs, ResolveAll(Candidates(page, ref)));
    d := if local.None? then Some(Download(url, DownloadTarget(page, ref))) else None;
  }

  /** `compare_page_images`: the download list of one page. */
  method ComparePageImages(page: string, fetch: string -> Fetch, fs: FileSystem) returns (downloads: seq<Download>)
    ensures downloads == PageDownloads(page, fetch, fs)
  {
    var response := fetch(SiteFixer.OldUrl(page));
    if !IsOk(response) {
      return [];
    }
    var refs := ImageRefs(response.body);
    if |refs| == 0 {
      return [];
    }
    downloads := CheckRefs(page, fs, refs);
  }

  /** The loop over the references of a page, in order. */
  method CheckRefs(page: string, fs: FileSystem, refs: seq<string>) returns (downloads: seq<Download>)
    ensures downloads == Needed(page, fs, refs)
  {
    downloads := [];
    var i := 0;
    while i < |refs|
      invariant 0 <= i <= |refs|
      invariant downloads == Needed(page, fs, refs[..i])
    {
      NeededStep(page, fs, refs, i);
      var d := CheckRef(page, fs, refs[i]);
      downloads := Append(downloads, d);
      i := i + 1;
    }
    assert refs[..i] == refs;
  }

  // ---------------------------------------------------------------------
  // fix_common_image_issues

  const CommonMissing: seq<Download> := [
    Download("https://0002n8y.wcomhost.com/website/home/img0.gif", "assets/images/home_img0.gif"),
    Download("https://0002n8y.wcomhost.com/website/home/img1.gif", "assets/images/home_img1.gif"),
    Download("https://0002n8y.wcomhost.com/website/honours/img1.gif", "assets/images/honours_img1.gif"),
    Download("https://0002n8y.wcomhost.com/website/records/img1.gif", "assets/images/records_img1.gif"),
    Download("https://0002n8y.wcomhost.com/website/videos/img1.gif", "assets/images/videos_img1.gif"),
    Download("https://0002n8y.wcomhost.com/website/History1/img1.gif", "assets/images/History1_img1.gif")]

  /** `download_image`: a 200 response is written to the file and reported as success; anything else changes nothing. */
  function DownloadImage(fs: FileSystem, fetch: string -> Fetch, d: Download): (r: (FileSystem, bool))
    ensures r.1 <==> IsOk(fetch(d.url))
    ensures r.0.Keys == fs.Keys + (if r.1 then {d.path} else {})
    ensures forall p :: p in r.0 && p != d.path ==> r.0[p] == fs[p]
    ensures r.1 ==> r.0[d.path] == fetch(d.url).body
  {
    var f := fetch(d.url);
    if IsOk(f) then (fs[d.path := f.body], true) else (fs, false)
  }

  /** The table pass: each entry whose file does not exist (at that point) is downloaded; successes are counted. */
  function CommonFix(fs: FileSystem, fetch: string -> Fetch, items: seq<Download>): (FileSystem, nat)
    decreases |items|
  {
    if |items| == 0 then (fs, 0)
    else
      var (fs1, n) := CommonFix(fs, fetch, items[..|items| - 1]);
      var d := items[|items| - 1];
      if d.path in fs1 then (fs1, n)
      else
        var (fs2, ok) := DownloadImage(fs1, fetch, d);
        (fs2, n + if ok then 1 else 0)
  }

  /** The entries that are absent to begin with and whose URL answers 200. */
  function AbsentOk(fs: FileSystem, fetch: string -> Fetch, items: seq<Download>): (n: nat)
    ensures n <= |items|
    decreases |items|
  {
    if |items| == 0 then 0
    else
      var d := items[|items| - 1];
      AbsentOk(fs, fetch, items[..|items| - 1]) + (if d.path !in fs && IsOk(fetch(d.url)) then 1 else 0)
  }

  predicate DistinctPaths(items: seq<Download>) {
    forall i, j :: 0 <= i < j < |items| ==> items[i].path != items[j].path
  }

  /**
   * Files that exist are never overwritten; a file is added exactly when an
   * entry for it answers 200 and it was absent, holding that response; and
   * with distinct target files the count is the number of entries absent to
   * begin with whose download succeeds.
   */
  lemma CommonFixSpec(fs: FileSystem, fetch: string -> Fetch, items: seq<Download>)
    ensures forall p :: p in fs ==> p in CommonFix(fs, fetch, items).0 && CommonFix(fs, fetch, items).0[p] == fs[p]
    ensures forall p :: p in CommonFix(fs, fetch, items).0 <==>
      p in fs || exists d :: d in items && d.path == p && IsOk(fetch(d.url))
    ensures DistinctPaths(items) ==> CommonFix(fs, fetch, items).1 == AbsentOk(fs, fetch, items)
  {
    CommonFixKeeps(fs, fetch, items);
    CommonFixAdds(fs, fetch, items);
    if DistinctPaths(items) {
      CommonFixCount(fs, fetch, items);
    }
  }

  /** Files that exist are never overwritten. */
  lemma {:induction false} CommonFixKeeps(fs: FileSystem, fetch: string -> Fetch, items: seq<Download>)
    ensures forall p :: p in fs ==> p in CommonFix(fs, fetch, items).0 && CommonFix(fs, fetch, items).0[p] == fs[p]
    decreases |items|
  {
    if |items| > 0 {
      CommonFixKeeps(fs, fetch, items[..|items| - 1]);
    }
  }

  /** A file is added exactly when an entry for it answers 200. */
  lemma {:induction false} CommonFixAdds(fs: FileSystem, fetch: string -> Fetch, items: seq<Download>)
    ensures forall p :: p in CommonFix(fs, fetch, items).0 <==>
      p in fs || exists d :: d in items && d.path == p && IsOk(fetch(d.url))
    decreases |items|
  {
    if |items| > 0 {
      var init := items[..|items| - 1];
      CommonFixAdds(fs, fetch, init);
      assert items == init + [items[|items| - 1]];
    }
  }

  /** With distinct target files, the count is the entries absent to begin with whose download succeeds. */
  lemma {:induction false} CommonFixCount(fs: FileSystem, fetch: string -> Fetch, items: seq<Download>)
    requires DistinctPaths(items)
    ensures CommonFix(fs, fetch, items).1 == AbsentOk(fs, fetch, items)
    decreases |items|
  {
    if |items| > 0 {
      var init := items[..|items| - 1];
      var d := items[|items| - 1];
      assert DistinctPaths(init);
      CommonFixCount(fs, fetch, init);
      CommonFixAdds(fs, fetch, init);
      CommonFixKeeps(fs, fetch, init);
    }
  }

  /** The six table entries go to six different files. */
  lemma CommonMissingDistinct()
    ensures DistinctPaths(CommonMissing)
  {
    var items := CommonMissing;
    forall i, j | 0 <= i < j < |items| ensures items[i].path != items[j].path {
      var a, b := items[i].path, items[j].path;
      assert a[14] != b[14] || a[19] != b[19] || a[22] != b[22];
    }
  }

  /** `fix_common_image_issues`: the new files and the number downloaded. */
  method FixCommonImageIssues(fs: FileSystem, fetch: string -> Fetch) returns (fs': FileSystem, downloaded: nat)
    ensures (fs', downloaded) == CommonFix(fs, fetch, CommonMissing)
    ensures downloaded == AbsentOk(fs, fetch, CommonMissing) && downloaded <= 6
    ensures forall p :: p in fs ==> p in fs' && fs'[p] == fs[p]
  {
    fs', downloaded := DownloadMissing(fs, fetch, CommonMissing);
    CommonMissingDistinct();
    CommonFixKeeps(fs, fetch, CommonMissing);
    CommonFixCount(fs, fetch, CommonMissing);
  }

  /** The loop of `fix_common_image_issues` over its list of entries. */
  method DownloadMissing(fs: FileSystem, fetch: string -> Fetch, items: seq<Download>) returns (fs': FileSystem, downloaded: nat)
    ensures (fs', downloaded) == CommonFix(fs, fetch, items)
  {
    fs', downloaded := fs, 0;
    var i := 0;
    while i < |items|
      invariant 0 <= i <= |items|
      invariant (fs', downloaded) == CommonFix(fs, fetch, items[..i])
    {
      assert items[..i + 1][..i] == items[..i];
      var d := items[i];
      if d.path !in fs' {
        var result := DownloadImage(fs', fetch, d);
        fs' := result.0;
        if result.1 {
          downloaded := downloaded + 1;
        }
      }
      i := i + 1;
    }
    assert items[..i] == items;
  }
}
