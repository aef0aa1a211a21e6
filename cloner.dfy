/**
 * The site cloner: pages named in the validation report are downloaded from
 * the old host, every `<img>` of a page is downloaded once into the assets
 * directory under a name derived from its `src` and pointed at that copy,
 * and `<area>` links inside image maps are made relative.
 *
 * The HTTP session, md5, `urlparse` and `urljoin`, and the HTML parser and
 * serialiser are outside the model; they are given as the functions of an
 * `Oracles` value.
 */
module Cloner {
  import opened Strings
  import opened Rewriting
  import opened Site

  /** An element of a parsed page; an empty `src` or `href` stands for a missing or empty attribute. */
  datatype Element = Img(src: string) | Area(inMap: bool, href: string) | Other(markup: string)

  datatype Oracles = Oracles(
    download: string -> Option<string>,    // `session.get(url)` with `raise_for_status`: the body, or `None`
    decode: string -> Option<string>,      // reading saved bytes back as UTF-8 text: `None` when they are not valid UTF-8
    md5Hex: string -> string,              // `hashlib.md5(s.encode()).hexdigest()`
    urlPath: string -> string,             // `urlparse(url).path`
    urljoin: (string, string) -> string,   // `urljoin(base, ref)` (section 5.2 of RFC 3986)
    parse: string -> seq<Element>,         // `BeautifulSoup(content, 'html.parser')`
    render: seq<Element> -> string)        // `str(soup)`

  const ClonePagesDir: string := "web/pages"
  const CloneAssetsDir: string := "web/assets/images"

  /** The last position of `c` in `s`. */
  function RFind(s: string, c: char): (r: Option<nat>)
    ensures r.None? ==> forall j :: 0 <= j < |s| ==> s[j] != c
    ensures r.Some? ==> r.value < |s| && s[r.value] == c && forall j :: r.value < j < |s| ==> s[j] != c
    decreases |s|
  {
    if |s| == 0 then None
    else if s[|s| - 1] == c then Some(|s| - 1)
    else
      var t := s[..|s| - 1];
      var r := RFind(t, c);
      assert forall j :: 0 <= j < |t| ==> s[j] == t[j];
      r
  }

  predicate AllDots(s: string) {
    forall i :: 0 <= i < |s| ==> s[i] == '.'
  }

  /**
   * `os.path.splitext` of a file name: the extension runs from the last dot,
   * unless only dots come before it (a leading-dot name has no extension).
   */
  function SplitExt(name: string): (r: (string, string))
    ensures r.0 + r.1 == name
    ensures r.1 == "" || (r.1[0] == '.' && !AllDots(r.0) && forall j :: 0 < j < |r.1| ==> r.1[j] != '.')
    ensures r.1 == "" ==> RFind(name, '.').None? || AllDots(name[..RFind(name, '.').value])
  {
    match RFind(name, '.')
    case None => (name, "")
    case Some(i) =>
      if AllDots(name[..i]) then (name, "")
      else
        assert name[..i] + name[i..] == name;
        (name[..i], name[i..])
  }

  /** `f"{filename}_{url_hash}{ext}"`: the stem and extension of the src's path around the first 8 hex digits of its md5. */
  function NewFilename(o: Oracles, src: string): string {
    var parts := SplitExt(Basename(o.urlPath(src)));
    parts.0 + "_" + Take(o.md5Hex(src), 8) + parts.1
  }

  /** The image cache and the files written so far. */
  datatype Cache = Cache(images: map<string, string>, disk: FileSystem)

  /** Every cached name is the name derived from its src. */
  ghost predicate Derived(o: Oracles, images: map<string, string>) {
    forall src :: src in images ==> images[src] == NewFilename(o, src)
  }

  /** `process_image` on the cache: a cached src is answered without a download; otherwise only a successful download adds an entry (and writes the file). */
  function ProcessImageStep(o: Oracles, c: Cache, src: string, pageUrl: string): (Cache, Option<string>) {
    if src in c.images then (c, Some(c.images[src]))
    else
      var name := NewFilename(o, src);
      match o.download(o.urljoin(pageUrl, src))
      case None => (c, None)
      case Some(data) => (Cache(c.images[src := name], c.disk[PathJoin(CloneAssetsDir, name) := data]), Some(name))
  }

  /**
   * The cache only grows: existing entries never change, the only new entry
   * is `src` under its derived name, added exactly when it was not cached and
   * its download succeeded, and the answer is the entry for `src`.
   */
  lemma ProcessImageGrows(o: Oracles, c: Cache, src: string, pageUrl: string)
    ensures var (c', name) := ProcessImageStep(o, c, src, pageUrl);
      && (forall k :: k in c.images ==> k in c'.images && c'.images[k] == c.images[k])
      && c'.images.Keys == c.images.Keys + (if name.Some? then {src} else {})
      && (name.Some? <==> src in c.images || o.download(o.urljoin(pageUrl, src)).Some?)
      && (name.Some? ==> c'.images[src] == name.value)
      && (src !in c.images && name.Some? ==> name.value == NewFilename(o, src))
      && (name.None? ==> c' == c)
      && (Derived(o, c.images) ==> Derived(o, c'.images))
      && (forall p :: p in c.disk ==> p in c'.disk)
  {
  }

  /**
   * The key is the raw src, not the resolved URL: once a src is cached, the
   * same src on any other page gets the same name and nothing is downloaded.
   */
  lemma SharedAcrossPages(o: Oracles, c: Cache, src: string, pageA: string, pageB: string)
    requires ProcessImageStep(o, c, src, pageA).1.Some?
    ensures var c1 := ProcessImageStep(o, c, src, pageA).0;
      ProcessImageStep(o, c1, src, pageB) == (c1, ProcessImageStep(o, c, src, pageA).1)
  {
  }

  /** `"../assets/images/" + name`: where a rewritten page finds a cached image. */
  function LocalImageSrc(name: string): string {
    "../assets/images/" + name
  }

  /** The image pass over a page's elements, left to right, threading the cache. */
  function ImgPass(o: Oracles, c: Cache, elems: seq<Element>, pageUrl: string): (r: (Cache, seq<Element>))
    ensures |r.1| == |elems|
    decreases |elems|
  {
    if |elems| == 0 then (c, [])
    else
      var (c1, done) := ImgPass(o, c, elems[..|elems| - 1], pageUrl);
      var e := elems[|elems| - 1];
      if e.Img? && e.src != "" then
        var (c2, name) := ProcessImageStep(o, c1, e.src, pageUrl);
        (c2, done + [if name.Some? then Img(LocalImageSrc(name.value)) else e])
      else (c1, done + [e])
  }

  /** The image pass keeps every cache entry, and every derived name. */
  lemma {:induction false} ImgPassGrows(o: Oracles, c: Cache, elems: seq<Element>, pageUrl: string)
    ensures var c' := ImgPass(o, c, elems, pageUrl).0;
      && (forall k :: k in c.images ==> k in c'.images && c'.images[k] == c.images[k])
      && (Derived(o, c.images) ==> Derived(o, c'.images))
      && (forall p :: p in c.disk ==> p in c'.disk)
    decreases |elems|
  {
    if |elems| > 0 {
      var init := elems[..|elems| - 1];
      ImgPassGrows(o, c, init, pageUrl);
      var c1 := ImgPass(o, c, init, pageUrl).0;
      var e := elems[|elems| - 1];
      if e.Img? && e.src != "" {
        ProcessImageGrows(o, c1, e.src, pageUrl);
      }
    }
  }

  /** An element is kept by the image pass, or it is an image now pointing at the local copy its src is cached under. */
  predicate PassedImage(e: Element, e': Element, images: map<string, string>) {
    e' == e || (e.Img? && e'.Img? && e.src in images && e'.src == LocalImageSrc(images[e.src]))
  }

  /**
   * Elements other than images are kept as they are, and an image is either
   * kept or pointed at the local copy its src is cached under afterwards.
   */
  lemma {:induction false} ImgPassShape(o: Oracles, c: Cache, elems: seq<Element>, pageUrl: string)
    ensures var (c', out) := ImgPass(o, c, elems, pageUrl);
      forall i :: 0 <= i < |elems| ==> PassedImage(elems[i], out[i], c'.images)
    decreases |elems|
  {
    if |elems| > 0 {
      var n := |elems| - 1;
      var init := elems[..n];
      ImgPassShape(o, c, init, pageUrl);
      ImgPassLast(o, c, elems, pageUrl);
      var (c1, done) := ImgPass(o, c, init, pageUrl);
      var (c', out) := ImgPass(o, c, elems, pageUrl);
      forall i | 0 <= i < n
        ensures PassedImage(elems[i], out[i], c'.images)
      {
        assert elems[i] == init[i] && out[i] == done[i];
        PassedImageKept(init[i], done[i], c1.images, c'.images);
      }
    }
  }

  /** The last element's step of the image pass: the earlier output is kept and the cache only grows. */
  lemma ImgPassLast(o: Oracles, c: Cache, elems: seq<Element>, pageUrl: string)
    requires |elems| > 0
    ensures var n := |elems| - 1;
      var (c1, done) := ImgPass(o, c, elems[..n], pageUrl);
      var (c', out) := ImgPass(o, c, elems, pageUrl);
      && out[..n] == done
      && PassedImage(elems[n], out[n], c'.images)
      && (forall k :: k in c1.images ==> k in c'.images && c'.images[k] == c1.images[k])
  {
    var n := |elems| - 1;
    var e := elems[n];
    var (c1, done) := ImgPass(o, c, elems[..n], pageUrl);
    if e.Img? && e.src != "" {
      ProcessImageGrows(o, c1, e.src, pageUrl);
    }
  }

  /** What the pass did to an element still holds once the cache has grown. */
  lemma PassedImageKept(e: Element, e': Element, images: map<string, string>, images': map<string, string>)
    requires PassedImage(e, e', images)
    requires forall k :: k in images ==> k in images' && images'[k] == images[k]
    ensures PassedImage(e, e', images')
  {
  }

  /** An area inside an image map whose href starts with the old site's base loses that base (every occurrence, as `str.replace` does). */
  function RewriteArea(e: Element): Element {
    if e.Area? && e.inMap && e.href != "" && StartsWith(e.href, OriginBase) then Area(true, ReplaceAll(e.href, OriginBase, ""))
    else e
  }

  /** An old-site link becomes the path after the base when the base does not occur again; other elements are untouched. */
  lemma RewriteAreaSpec(e: Element)
    ensures !(e.Area? && e.inMap && StartsWith(e.href, OriginBase)) ==> RewriteArea(e) == e
    ensures e.Area? && e.inMap && StartsWith(e.href, OriginBase) && !Contains(e.href[|OriginBase|..], OriginBase)
      ==> RewriteArea(e) == Area(true, e.href[|OriginBase|..])
  {
    if e.Area? && e.inMap && StartsWith(e.href, OriginBase) && !Contains(e.href[|OriginBase|..], OriginBase) {
      var rest := e.href[|OriginBase|..];
      assert e.href == OriginBase + rest;
      ReplaceAllPrefix(OriginBase, rest, "");
      assert "" + rest == rest;
    }
  }

  /** `for area in map_tag.find_all('area')`, over every element. */
  function AreaPass(elems: seq<Element>): (r: seq<Element>)
    ensures |r| == |elems| && forall i :: 0 <= i < |elems| ==> r[i] == RewriteArea(elems[i])
  {
    seq(|elems|, i requires 0 <= i < |elems| => RewriteArea(elems[i]))
  }

  /** The area pass as the loop over the page's elements. */
  method RewriteAreas(elems: seq<Element>) returns (page: seq<Element>)
    ensures page == AreaPass(elems)
  {
    page := [];
    var j := 0;
    while j < |elems|
      invariant 0 <= j <= |elems|
      invariant |page| == j && forall k :: 0 <= k < j ==> page[k] == RewriteArea(elems[k])
    {
      page := page + [RewriteArea(elems[j])];
      j := j + 1;
    }
  }

  /**
   * `process_page`: the cache and files afterwards, and whether the page was
   * cloned. The downloaded bytes are saved first; when they do not read back
   * as UTF-8 the source raises out of `process_page`, which its caller logs
   * as a failure: the raw file stays and nothing else happens.
   */
  function ProcessPageStep(o: Oracles, pageMapping: map<string, string>, c: Cache, pageName: string): (Cache, bool) {
    if pageName !in pageMapping then (c, false)
    else
      var pageUrl := pageMapping[pageName];
      var localPath := PathJoin(ClonePagesDir, pageName);
      match o.download(pageUrl)
      case None => (c, false)
      case Some(body) =>
        var saved := Cache(c.images, c.disk[localPath := body]);
        match o.decode(body)
        case None => (saved, false)
        case Some(content) =>
          var (c1, elems) := ImgPass(o, saved, o.parse(content), pageUrl);
          (Cache(c1.images, c1.disk[localPath := o.render(AreaPass(elems))]), true)
  }

  /**
   * A page is cloned exactly when it has a URL, its download succeeds and the
   * saved bytes read back as UTF-8. A page without a URL, or whose download
   * fails, changes nothing; one that does not decode leaves only its raw
   * bytes written; a cloned page is written and keeps every cache entry; no
   * file disappears.
   */
  lemma ProcessPageSpec(o: Oracles, pageMapping: map<string, string>, c: Cache, pageName: string)
    ensures var (c', ok) := ProcessPageStep(o, pageMapping, c, pageName);
      var downloaded := pageName in pageMapping && o.download(pageMapping[pageName]).Some?;
      && (ok <==> downloaded && o.decode(o.download(pageMapping[pageName]).value).Some?)
      && (!downloaded ==> c' == c)
      && (downloaded && !ok ==>
        c' == Cache(c.images, c.disk[PathJoin(ClonePagesDir, pageName) := o.download(pageMapping[pageName]).value]))
      && (forall k :: k in c.images ==> k in c'.images && c'.images[k] == c.images[k])
      && (Derived(o, c.images) ==> Derived(o, c'.images))
      && (forall p :: p in c.disk ==> p in c'.disk)
      && (downloaded ==> PathJoin(ClonePagesDir, pageName) in c'.disk)
  {
    if pageName in pageMapping && o.download(pageMapping[pageName]).Some? {
      var body := o.download(pageMapping[pageName]).value;
      var localPath := PathJoin(ClonePagesDir, pageName);
      if o.decode(body).Some? {
        ImgPassGrows(o, Cache(c.images, c.disk[localPath := body]), o.parse(o.decode(body).value), pageMapping[pageName]);
      }
    }
  }

  /** `run_full_clone` over the pages in the order they are processed. */
  function CloneAll(o: Oracles, pageMapping: map<string, string>, c: Cache, pages: seq<string>): Cache
    decreases |pages|
  {
    if |pages| == 0 then c
    else ProcessPageStep(o, pageMapping, CloneAll(o, pageMapping, c, pages[..|pages| - 1]), pages[|pages| - 1]).0
  }

  /**
   * Over the whole clone every cache entry stays, names stay derived, no file
   * disappears, and every processed page with a URL whose download succeeded
   * is on disk.
   */
  lemma {:induction false} CloneAllSpec(o: Oracles, pageMapping: map<string, string>, c: Cache, pages: seq<string>)
    ensures var c' := CloneAll(o, pageMapping, c, pages);
      && (forall k :: k in c.images ==> k in c'.images && c'.images[k] == c.images[k])
      && (Derived(o, c.images) ==> Derived(o, c'.images))
      && (forall p :: p in c.disk ==> p in c'.disk)
      && (forall p :: p in pages && p in pageMapping && o.download(pageMapping[p]).Some? ==> PathJoin(ClonePagesDir, p) in c'.disk)
    decreases |pages|
  {
    if |pages| > 0 {
      var init, last := pages[..|pages| - 1], pages[|pages| - 1];
      CloneAllSpec(o, pageMapping, c, init);
      ProcessPageSpec(o, pageMapping, CloneAll(o, pageMapping, c, init), last);
      InInitAll(pages);
    }
  }

  lemma CloneAllStep(o: Oracles, pageMapping: map<string, string>, c: Cache, pages: seq<string>, p: string)
    ensures CloneAll(o, pageMapping, c, pages + [p]) == ProcessPageStep(o, pageMapping, CloneAll(o, pageMapping, c, pages), p).0
  {
    assert (pages + [p])[..|pages|] == pages;
  }

  /** The report fields `_load_page_mapping` reads; `None` when the report cannot be read or lacks a field. */
  datatype ValidationReport = ValidationReport(
    originalBase: string,
    navigationLinks: map<string, seq<string>>,
    bannerUsage: map<string, seq<string>>)

  /** The pages of the report: every page in a navigation-link list or a banner-usage list. */
  ghost function ReportPages(r: ValidationReport): set<string> {
    (set k, p | k in r.navigationLinks && p in r.navigationLinks[k] :: p)
    + (set k, p | k in r.bannerUsage && p in r.bannerUsage[k] :: p)
  }

  /** `pages.update(...)` for every list of a dictionary. */
  method UnionOfLists(m: map<string, seq<string>>) returns (pages: set<string>)
    ensures pages == set k, p | k in m && p in m[k] :: p
  {
    pages := {};
    var todo := m.Keys;
    while todo != {}
      invariant todo <= m.Keys
      invariant pages == set k, p | k in m && k !in todo && p in m[k] :: p
      decreases todo
    {
      var k :| k in todo;
      pages := pages + (set p | p in m[k]);
      todo := todo - {k};
    }
  }

  /** `_load_page_mapping`: each page of the report mapped to `urljoin(base, page)`; empty when the report is unusable. */
  method LoadPageMapping(o: Oracles, report: Option<ValidationReport>) returns (mapping: map<string, string>)
    ensures report.None? ==> mapping == map[]
    ensures report.Some? ==> mapping.Keys == ReportPages(report.value)
    ensures report.Some? ==> forall p :: p in mapping ==> mapping[p] == o.urljoin(report.value.originalBase, p)
  {
    mapping := map[];
    if report.None? {
      return;
    }
    var r := report.value;
    var nav := UnionOfLists(r.navigationLinks);
    var banners := UnionOfLists(r.bannerUsage);
    var pages := nav + banners;
    var todo := pages;
    while todo != {}
      invariant todo <= pages
      invariant mapping.Keys == pages - todo
      invariant forall p :: p in mapping ==> mapping[p] == o.urljoin(r.originalBase, p)
      decreases todo
    {
      var p :| p in todo;
      mapping := mapping[p := o.urljoin(r.originalBase, p)];
      todo := todo - {p};
    }
  }

  class WebsiteCloner {
    const oracles: Oracles
    var imageMapping: map<string, string>
    var pageMapping: map<string, string>
    var disk: FileSystem

    /** Every cached name is derived from its src. */
    ghost predicate Valid()
      reads this
    {
      Derived(oracles, imageMapping)
    }

    constructor (o: Oracles, report: Option<ValidationReport>, files: FileSystem)
      ensures Valid()
      ensures oracles == o && imageMapping == map[] && disk == files
      ensures report.None? ==> pageMapping == map[]
      ensures report.Some? ==> pageMapping.Keys == ReportPages(report.value)
      ensures report.Some? ==> forall p :: p in pageMapping ==> pageMapping[p] == o.urljoin(report.value.originalBase, p)
    {
      var mapping := LoadPageMapping(o, report);
      oracles := o;
      imageMapping := map[];
      pageMapping := mapping;
      disk := files;
    }

    /** `download_file`: the body written to `path` on success. */
    method DownloadFile(url: string, path: string) returns (ok: bool)
      modifies this
      ensures ok <==> oracles.download(url).Some?
      ensures disk == if ok then old(disk)[path := oracles.download(url).value] else old(disk)
      ensures imageMapping == old(imageMapping) && pageMapping == old(pageMapping)
    {
      var response := oracles.download(url);
      if response.None? {
        return false;
      }
      disk := disk[path := response.value];
      ok := true;
    }

    /** `process_image`. */
    method ProcessImage(src: string, pageUrl: string) returns (name: Option<string>)
      modifies this
      ensures (Cache(imageMapping, disk), name) == ProcessImageStep(oracles, Cache(old(imageMapping), old(disk)), src, pageUrl)
      ensures pageMapping == old(pageMapping)
    {
      if src in imageMapping {
        return Some(imageMapping[src]);
      }
      var parts := SplitExt(Basename(oracles.urlPath(src)));
      var newFilename := parts.0 + "_" + Take(oracles.md5Hex(src), 8) + parts.1;
      var localPath := PathJoin(CloneAssetsDir, newFilename);
      var fullUrl := oracles.urljoin(pageUrl, src);
      var ok := DownloadFile(fullUrl, localPath);
      if ok {
        imageMapping := imageMapping[src := newFilename];
        return Some(newFilename);
      }
      return None;
    }

    /** `process_page`: the images first, then the areas of the image maps, then the page is written back. */
    method ProcessPage(pageName: string) returns (ok: bool)
      requires Valid()
      modifies this
      ensures Valid()
      ensures (Cache(imageMapping, disk), ok) == ProcessPageStep(oracles, old(pageMapping), Cache(old(imageMapping), old(disk)), pageName)
      ensures pageMapping == old(pageMapping)
    {
      if pageName !in pageMapping {
        return false;
      }
      var pageUrl := pageMapping[pageName];
      var localPath := PathJoin(ClonePagesDir, pageName);
      ok := DownloadFile(pageUrl, localPath);
      if !ok {
        return;
      }
      var decoded := oracles.decode(disk[localPath]);
      if decoded.None? {
        return false;
      }
      var content := decoded.value;
      ImgPassGrows(oracles, Cache(imageMapping, disk), oracles.parse(content), pageUrl);
      var out := ProcessImages(oracles.parse(content), pageUrl);
      var page := RewriteAreas(out);
      disk := disk[localPath := oracles.render(page)];
    }

    /** `for img in soup.find_all('img')`: each image with a src is processed in page order. */
    method ProcessImages(elems: seq<Element>, pageUrl: string) returns (out: seq<Element>)
      modifies this
      ensures (Cache(imageMapping, disk), out) == ImgPass(oracles, Cache(old(imageMapping), old(disk)), elems, pageUrl)
      ensures pageMapping == old(pageMapping)
    {
      ghost var start := Cache(imageMapping, disk);
      out := [];
      var i := 0;
      while i < |elems|
        invariant 0 <= i <= |elems|
        invariant (Cache(imageMapping, disk), out) == ImgPass(oracles, start, elems[..i], pageUrl)
        invariant pageMapping == old(pageMapping)
      {
        assert elems[..i + 1][..i] == elems[..i];
        ghost var before := Cache(imageMapping, disk);
        var e := elems[i];
        if e.Img? && e.src != "" {
          var name := ProcessImage(e.src, pageUrl);
          assert (Cache(imageMapping, disk), name) == ProcessImageStep(oracles, before, e.src, pageUrl);
          out := out + [if name.Some? then Img(LocalImageSrc(name.value)) else e];
        } else {
          out := out + [e];
        }
        assert (Cache(imageMapping, disk), out) == ImgPass(oracles, start, elems[..i + 1], pageUrl);
        i := i + 1;
      }
      assert elems[..i] == elems;
    }

    /**
     * `run_full_clone`, one page at a time: each mapped page is processed
     * once, in some order (`order`), and the cache and files afterwards are
     * those of the page steps in that order; every cached entry stays and
     * stays derived.
     */
    method RunFullClone() returns (ghost order: seq<string>)
      requires Valid()
      modifies this
      ensures Valid()
      ensures Distinct(order) && (forall p :: p in order <==> p in pageMapping)
      ensures Cache(imageMapping, disk) == CloneAll(oracles, pageMapping, Cache(old(imageMapping), old(disk)), order)
      ensures pageMapping == old(pageMapping)
      ensures forall k :: k in old(imageMapping) ==> k in imageMapping && imageMapping[k] == old(imageMapping)[k]
    {
      ghost var start := Cache(imageMapping, disk);
      order := [];
      var todo := pageMapping.Keys;
      while todo != {}
        invariant Valid()
        invariant pageMapping == old(pageMapping)
        invariant todo <= pageMapping.Keys
        invariant Distinct(order) && forall p :: p in order <==> p in pageMapping && p !in todo
        invariant Cache(imageMapping, disk) == CloneAll(oracles, pageMapping, start, order)
        decreases todo
      {
        var page :| page in todo;
        ghost var before := Cache(imageMapping, disk);
        ProcessPageSpec(oracles, pageMapping, before, page);
        var _ := ProcessPage(page);
        CloneAllStep(oracles, pageMapping, start, order, page);
        order := order + [page];
        todo := todo - {page};
      }
      CloneAllSpec(oracles, pageMapping, start, order);
    }
  }
}
