/**
 * Shared vocabulary of the mirror scripts: the pages directory as a listing
 * of files, the files on disk, HTTP fetch results, and the old host's
 * "page not found" text that marks a page the clone captured as an error.
 */
module Site {
  import opened Strings
  import opened Attributes
  import opened Paths

  /** The text the old host put on pages it could not find. */
  const NotFoundText: string := "404: Page not found"

  /** Old origin of the mirrored site. */
  const OriginHost: string := "https://0002n8y.wcomhost.com"
  const OriginBase: string := "https://0002n8y.wcomhost.com/website/"

  /** A page captured as the old host's error page. */
  predicate Is404(text: string) {
    Contains(text, NotFoundText)
  }

  /** A file from a directory listing (in listing order); `text` is `None` when reading it raises. */
  datatype Page = Page(name: string, text: Option<string>)

  /**
   * The files on disk, keyed by their normalised path (`Paths.Normalize`):
   * a spelling exists when its normal form is a key.
   */
  type FileSystem = map<string, string>

  /** The normal forms of candidate spellings, in the same order: what an existence test actually looks up. */
  function ResolveAll(paths: seq<string>): (r: seq<string>)
    ensures |r| == |paths| && forall i :: 0 <= i < |paths| ==> r[i] == Normalize(paths[i])
  {
    seq(|paths|, i requires 0 <= i < |paths| => Normalize(paths[i]))
  }

  /**
   * The outcome of one `requests.get`: a response, or an exception with its
   * message (`requestError` for a `requests.exceptions.RequestException`).
   */
  datatype Fetch = Response(status: nat, body: string) | Raised(requestError: bool, message: string)

  predicate IsOk(f: Fetch) {
    f.Response? && f.status == 200
  }

  const HrefKey: string := "href=\""

  predicate EndsWithHtml(v: string) {
    EndsWith(v, ".html")
  }

  /** `re.findall(r'href="([^"]*\.html)"', content)`. */
  function HtmlLinks(content: string): (r: seq<string>)
    ensures forall v :: v in r ==> EndsWith(v, ".html") && '"' !in v
  {
    Values(content, HrefKey, false, EndsWithHtml)
  }

  predicate NotWebLink(link: string) {
    !StartsWith(link, "http")
  }

  /** The `.html` hrefs of a page that do not start with `http` (the site's own pages). */
  function NavLinks(content: string): (r: seq<string>)
    ensures forall l :: l in r <==> l in HtmlLinks(content) && !StartsWith(l, "http")
  {
    Filter(HtmlLinks(content), NotWebLink)
  }

  /** A relative link: neither an absolute URL nor an in-page anchor. */
  predicate IsInternal(link: string) {
    !StartsWith(link, "http") && !StartsWith(link, "#")
  }

  /** The value ends with an image extension, ignoring case. */
  predicate IsImageRef(v: string) {
    var l := Lower(v);
    EndsWith(l, ".gif") || EndsWith(l, ".jpg") || EndsWith(l, ".jpeg") || EndsWith(l, ".png")
  }

  /** `re.findall(r'src="([^"]*\.(gif|jpg|jpeg|png))"', content, re.IGNORECASE)`, values only. */
  function ImageRefs(content: string): (r: seq<string>)
    ensures forall v :: v in r ==> IsImageRef(v) && '"' !in v
  {
    Values(content, SrcKey, true, IsImageRef)
  }

  /** The text of the file at `path`, `None` when it does not exist (reading raises). */
  function Read(fs: FileSystem, path: string): Option<string> {
    if path in fs then Some(fs[path]) else None
  }

  /** The first of `paths` that exists: the candidates are tried in order and the search stops at a hit. */
  function FirstExisting(fs: FileSystem, paths: seq<string>): (r: Option<string>)
    ensures r.Some? <==> exists i :: 0 <= i < |paths| && paths[i] in fs
    ensures r.Some? ==> r.value in fs
    ensures r.Some? ==> exists i :: 0 <= i < |paths| && paths[i] == r.value && forall j :: 0 <= j < i ==> paths[j] !in fs
    decreases |paths|
  {
    if |paths| == 0 then None
    else if paths[0] in fs then Some(paths[0])
    else
      var r := FirstExisting(fs, paths[1..]);
      assert forall i :: 1 <= i < |paths| ==> paths[i] == paths[1..][i - 1];
      r
  }

  /** No candidate is found exactly when none of them exists. */
  lemma FirstExistingNone(fs: FileSystem, paths: seq<string>)
    ensures FirstExisting(fs, paths).None? <==> forall x :: x in paths ==> x !in fs
  {
    if FirstExisting(fs, paths).None? {
      forall x | x in paths ensures x !in fs {
        var i :| 0 <= i < |paths| && paths[i] == x;
      }
    }
  }

  /** No candidate spelling is found exactly when none of them resolves to an existing file. */
  lemma ResolvedNone(fs: FileSystem, paths: seq<string>)
    ensures FirstExisting(fs, ResolveAll(paths)).None? <==> forall x :: x in paths ==> Normalize(x) !in fs
  {
    var r := ResolveAll(paths);
    FirstExistingNone(fs, r);
    if forall y :: y in r ==> y !in fs {
      forall x | x in paths ensures Normalize(x) !in fs {
        var i :| 0 <= i < |paths| && paths[i] == x;
        assert r[i] in r;
      }
    } else {
      var y :| y in r && y in fs;
      var i :| 0 <= i < |r| && r[i] == y;
      assert paths[i] in paths;
    }
  }

  const PagesDir: string := "pages"
  const ImagesDir: string := "assets/images"

  /** The file of a page listed in the pages directory. */
  function PagePath(name: string): string {
    PathJoin(PagesDir, name)
  }

  /** Different page names are different page files. */
  lemma PagePathInjective(a: string, b: string)
    requires a != b
    ensures PagePath(a) != PagePath(b)
  {
    var pa, pb := PagePath(a), PagePath(b);
    if !StartsWith(a, "/") && !StartsWith(b, "/") {
      assert pa[6..] == a && pb[6..] == b;
    } else if !StartsWith(a, "/") {
      assert pa[0] != pb[0];
    } else if !StartsWith(b, "/") {
      assert pa[0] != pb[0];
    }
  }

  /** Comparing a percentage `n / t * 100` with a bound, without the division. */
  lemma PercentAtLeast(n: nat, t: nat, bound: real)
    requires t > 0
    ensures n as real / t as real * 100.0 >= bound <==> n as real * 100.0 >= bound * t as real
  {
    var q := n as real / t as real;
    var tr := t as real;
    assert q * tr == n as real;
    if q * 100.0 >= bound {
      assert (q * 100.0 - bound) * tr >= 0.0;
    } else {
      assert (bound - q * 100.0) * tr > 0.0;
    }
  }

  /** `min(a, b) / max(a, b)` when `max(a, b) > 0`, else 0: how close two page sizes are. */
  function SizeRatio(a: nat, b: nat): (r: real)
    ensures 0.0 <= r <= 1.0
    ensures r == 1.0 <==> a == b && a > 0
    ensures (a == 0 || b == 0) ==> r == 0.0
  {
    var lo, hi := if a <= b then a else b, if a <= b then b else a;
    if hi > 0 then lo as real / hi as real else 0.0
  }

  /** The ratio is below a positive bound exactly when the smaller size is below that share of the larger. */
  lemma RatioBelow(a: nat, b: nat, bound: real)
    requires bound > 0.0
    ensures var lo, hi := if a <= b then a else b, if a <= b then b else a;
      SizeRatio(a, b) < bound <==> hi == 0 || (lo as real) < bound * (hi as real)
  {
    var lo, hi := if a <= b then a else b, if a <= b then b else a;
    if hi > 0 {
      var q := lo as real / hi as real;
      assert q * hi as real == lo as real;
      if q < bound {
        assert (bound - q) * hi as real > 0.0;
      } else {
        assert (q - bound) * hi as real >= 0.0;
      }
    }
  }
}
