/**
 * The broken-link analysis: the pages directory is split into pages that
 * are the old host's error page and working pages, the relative `.html`
 * links of the working pages are collected as a set, and each distinct link
 * is reported, in sorted order, as OK, BROKEN or MISSING.
 *
 * A listed page that is not a key of the file system exists but cannot be
 * read, so a link to it exists without a readable error text. The existence
 * test folds the link's path as the operating system does, so `./a.html`
 * finds the listed page `a.html` as well.
 */
module LinkCheck {
  import opened Strings
  import opened Site
  import opened Paths

  /** The listed pages that read as the error page, in listing order. */
  function BrokenFiles(fs: FileSystem, listing: seq<string>): seq<string>
    decreases |listing|
  {
    if |listing| == 0 then []
    else
      var name := listing[|listing| - 1];
      var path := PagePath(name);
      BrokenFiles(fs, listing[..|listing| - 1]) + (if path in fs && Is404(fs[path]) then [name] else [])
  }

  /** The listed pages that read as something else, in listing order. */
  function WorkingFiles(fs: FileSystem, listing: seq<string>): seq<string>
    decreases |listing|
  {
    if |listing| == 0 then []
    else
      var name := listing[|listing| - 1];
      var path := PagePath(name);
      WorkingFiles(fs, listing[..|listing| - 1]) + (if path in fs && !Is404(fs[path]) then [name] else [])
  }

  /** How many listed pages can be read. */
  function ReadableCount(fs: FileSystem, listing: seq<string>): (n: nat)
    ensures n <= |listing|
    decreases |listing|
  {
    if |listing| == 0 then 0
    else ReadableCount(fs, listing[..|listing| - 1]) + (if PagePath(listing[|listing| - 1]) in fs then 1 else 0)
  }

  /** Every readable page is in exactly one of the two lists, and unreadable pages are in neither. */
  lemma {:induction false} FilesPartition(fs: FileSystem, listing: seq<string>, name: string)
    ensures name in BrokenFiles(fs, listing) <==> name in listing && PagePath(name) in fs && Is404(fs[PagePath(name)])
    ensures name in WorkingFiles(fs, listing) <==> name in listing && PagePath(name) in fs && !Is404(fs[PagePath(name)])
    ensures |BrokenFiles(fs, listing)| + |WorkingFiles(fs, listing)| == ReadableCount(fs, listing)
    decreases |listing|
  {
    if |listing| > 0 {
      var init := listing[..|listing| - 1];
      FilesPartition(fs, init, name);
      assert listing == init + [listing[|listing| - 1]];
    }
  }

  /** The links collected from the working pages: `.html` hrefs not starting with `http`. */
  function LinkSet(fs: FileSystem, listing: seq<string>): set<string>
    decreases |listing|
  {
    if |listing| == 0 then {}
    else
      var path := PagePath(listing[|listing| - 1]);
      var before := LinkSet(fs, listing[..|listing| - 1]);
      if path in fs && !Is404(fs[path]) then before + (set l | l in NavLinks(fs[path])) else before
  }

  /** The page `name` reads, lacks the error text, and has `link` as a relative `.html` href. */
  predicate LinksTo(fs: FileSystem, name: string, link: string) {
    PagePath(name) in fs && !Is404(fs[PagePath(name)]) && link in NavLinks(fs[PagePath(name)])
  }

  /** A link is collected exactly when some readable page without the error text has it as a relative `.html` href. */
  lemma LinkSetSpec(fs: FileSystem, listing: seq<string>, link: string)
    ensures link in LinkSet(fs, listing) <==> exists name :: name in listing && LinksTo(fs, name, link)
  {
    if link in LinkSet(fs, listing) {
      var name := LinkSource(fs, listing, link);
    }
    forall name | name in listing && LinksTo(fs, name, link)
      ensures link in LinkSet(fs, listing)
    {
      LinkCollected(fs, listing, name, link);
    }
  }

  /** A collected link comes from some listed page that links to it. */
  lemma {:induction false} LinkSource(fs: FileSystem, listing: seq<string>, link: string) returns (name: string)
    requires link in LinkSet(fs, listing)
    ensures name in listing && LinksTo(fs, name, link)
    decreases |listing|
  {
    var init := listing[..|listing| - 1];
    LinkSetStep(fs, listing, link);
    if link in LinkSet(fs, init) {
      name := LinkSource(fs, init, link);
      InInit(listing, name);
    } else {
      name := listing[|listing| - 1];
    }
  }

  /** Every link of a listed page that reads without the error text is collected. */
  lemma {:induction false} LinkCollected(fs: FileSystem, listing: seq<string>, name: string, link: string)
    requires name in listing && LinksTo(fs, name, link)
    ensures link in LinkSet(fs, listing)
    decreases |listing|
  {
    var init := listing[..|listing| - 1];
    LinkSetStep(fs, listing, link);
    if name != listing[|listing| - 1] {
      InInit(listing, name);
      LinkCollected(fs, init, name, link);
    }
  }

  /** The last listed page adds its links to those of the pages before it. */
  lemma LinkSetStep(fs: FileSystem, listing: seq<string>, link: string)
    requires |listing| > 0
    ensures link in LinkSet(fs, listing) <==>
      link in LinkSet(fs, listing[..|listing| - 1]) || LinksTo(fs, listing[|listing| - 1], link)
  {
  }

  datatype LinkStatus = Ok | BrokenLink | Missing

  /** The file `pages/<link>` resolves to, as the existence test looks it up. */
  function Target(link: string): string {
    Normalize(PagePath(link))
  }

  /** Some listed page lives at `path`, once the page's own path is folded the same way. */
  predicate Listed(listing: seq<string>, path: string)
    decreases |listing|
  {
    |listing| > 0 && (Normalize(PagePath(listing[|listing| - 1])) == path || Listed(listing[..|listing| - 1], path))
  }

  /** `Listed` finds exactly the listed pages whose folded path is `path`. */
  lemma {:induction false} ListedSpec(listing: seq<string>, path: string)
    ensures Listed(listing, path) <==> exists name :: name in listing && Normalize(PagePath(name)) == path
    decreases |listing|
  {
    if |listing| > 0 {
      var init := listing[..|listing| - 1];
      ListedSpec(init, path);
      assert listing == init + [listing[|listing| - 1]];
    }
  }

  /** The target file of a link exists: it is on disk, or it is a listed page. */
  predicate TargetExists(fs: FileSystem, listing: seq<string>, link: string) {
    Target(link) in fs || Listed(listing, Target(link))
  }

  /** `"✅ OK" if exists and not has_404 else "❌ BROKEN" if has_404 else "❓ MISSING"`. */
  function StatusOf(fs: FileSystem, listing: seq<string>, link: string): LinkStatus {
    var present := TargetExists(fs, listing, link);
    var has404 := present && Target(link) in fs && Is404(fs[Target(link)]);
    if present && !has404 then Ok else if has404 then BrokenLink else Missing
  }

  /**
   * OK exactly when the target exists without a readable error text (so a
   * listed page whose folded path is the target, but which cannot be read, is
   * OK), BROKEN when it reads as the error page, and MISSING when it is
   * neither on disk nor a listed page.
   */
  lemma StatusTable(fs: FileSystem, listing: seq<string>, link: string)
    ensures var path := Target(link);
      && (StatusOf(fs, listing, link) == Ok <==> (path in fs && !Is404(fs[path])) || (path !in fs && exists name :: name in listing && Normalize(PagePath(name)) == path))
      && (StatusOf(fs, listing, link) == BrokenLink <==> path in fs && Is404(fs[path]))
      && (StatusOf(fs, listing, link) == Missing <==> path !in fs && forall name :: name in listing ==> Normalize(PagePath(name)) != path)
  {
    ListedSpec(listing, Target(link));
  }

  /** Two links that resolve to the same file get the same status. */
  lemma SameTargetSameStatus(fs: FileSystem, listing: seq<string>, a: string, b: string)
    requires Target(a) == Target(b)
    ensures StatusOf(fs, listing, a) == StatusOf(fs, listing, b)
  {
  }

  /** `./name` resolves to the same file as `name`. */
  lemma DotTarget(name: string)
    requires |name| > 0 && name[0] != '/'
    ensures Target("./" + name) == Target(name)
  {
    assert ("./" + name)[0] == '.';
    DotNormal(PagesDir, name);
  }

  /** `./name` and `name` resolve to the same file, so they get the same status. */
  lemma DotLinkSameStatus(fs: FileSystem, listing: seq<string>, name: string)
    requires |name| > 0 && name[0] != '/'
    ensures StatusOf(fs, listing, "./" + name) == StatusOf(fs, listing, name)
  {
    DotTarget(name);
    SameTargetSameStatus(fs, listing, "./" + name, name);
  }

  /** A link spelled as a listed page's own name is OK when that page is not on disk: it exists but cannot be read. */
  lemma ListedUnreadableOk(fs: FileSystem, listing: seq<string>, name: string)
    requires name in listing && Target(name) !in fs
    ensures StatusOf(fs, listing, name) == Ok
  {
    ListedSpec(listing, Target(name));
  }

  /** A link `./name` to a listed page `name` that is not on disk is OK, like `./a.html` for an unreadable `a.html`. */
  lemma DotLinkToUnreadableOk(fs: FileSystem, listing: seq<string>, name: string)
    requires name in listing && Target(name) !in fs
    requires |name| > 0 && name[0] != '/'
    ensures StatusOf(fs, listing, "./" + name) == Ok
  {
    ListedUnreadableOk(fs, listing, name);
    DotLinkSameStatus(fs, listing, name);
  }

  datatype LinkLine = LinkLine(link: string, status: LinkStatus)

  /** `check_broken_links`: the two page lists, the distinct links in sorted order, and one status line per link. */
  method CheckBrokenLinks(fs: FileSystem, listing: seq<string>)
    returns (broken: seq<string>, working: seq<string>, links: seq<string>, report: seq<LinkLine>)
    ensures broken == BrokenFiles(fs, listing) && working == WorkingFiles(fs, listing)
    ensures Sorted(links) && Distinct(links)
    ensures forall l :: l in links <==> l in LinkSet(fs, listing)
    ensures |report| == |links|
    ensures forall k :: 0 <= k < |links| ==> report[k] == LinkLine(links[k], StatusOf(fs, listing, links[k]))
  {
    broken := FindBroken(fs, listing);
    var found;
    working, found := CollectWorking(fs, listing);
    links := Sort(found);
    SortDistinct(found);
    forall l ensures l in links <==> l in found {
      assert l in links <==> l in multiset(links);
    }
    report := ReportLinks(fs, listing, links);
    ReportSpec(fs, listing, links);
  }

  /** The first pass over the pages: the ones with the error text. */
  method FindBroken(fs: FileSystem, listing: seq<string>) returns (broken: seq<string>)
    ensures broken == BrokenFiles(fs, listing)
  {
    broken := [];
    var i := 0;
    while i < |listing|
      invariant 0 <= i <= |listing|
      invariant broken == BrokenFiles(fs, listing[..i])
    {
      assert listing[..i + 1][..i] == listing[..i];
      var path := PagePath(listing[i]);
      if path in fs && Is404(fs[path]) {
        broken := broken + [listing[i]];
      }
      i := i + 1;
    }
    assert listing[..i] == listing;
  }

  /** The second pass: the working pages and the links they refer to, without repeats. */
  method CollectWorking(fs: FileSystem, listing: seq<string>) returns (working: seq<string>, found: seq<string>)
    ensures working == WorkingFiles(fs, listing)
    ensures Distinct(found)
    ensures forall l :: l in found <==> l in LinkSet(fs, listing)
  {
    found := [];
    working := [];
    var i := 0;
    while i < |listing|
      invariant 0 <= i <= |listing|
      invariant working == WorkingFiles(fs, listing[..i])
      invariant Distinct(found)
      invariant forall l :: l in found <==> l in LinkSet(fs, listing[..i])
    {
      assert listing[..i + 1][..i] == listing[..i];
      var path := PagePath(listing[i]);
      if path in fs && !Is404(fs[path]) {
        working := working + [listing[i]];
        found := Collect(found, HtmlLinks(fs[path]));
      }
      i := i + 1;
    }
    assert listing[..i] == listing;
  }

  /** The status line of every link, in the given order, for a given way of rating a link. */
  function Lines(links: seq<string>, status: string -> LinkStatus): seq<LinkLine>
    decreases |links|
  {
    if |links| == 0 then []
    else
      var last := links[|links| - 1];
      Lines(links[..|links| - 1], status) + [LinkLine(last, status(last))]
  }

  /** There is one line per link, naming the link and its rating. */
  lemma {:induction false} LinesAt(links: seq<string>, status: string -> LinkStatus)
    ensures |Lines(links, status)| == |links|
    ensures forall k :: 0 <= k < |links| ==> Lines(links, status)[k] == LinkLine(links[k], status(links[k]))
    decreases |links|
  {
    if |links| > 0 {
      var init := links[..|links| - 1];
      LinesAt(init, status);
      assert forall k :: 0 <= k < |init| ==> links[k] == init[k];
    }
  }

  /** The report of the links, each with its status. */
  function Report(fs: FileSystem, listing: seq<string>, links: seq<string>): seq<LinkLine> {
    Lines(links, (l: string) => StatusOf(fs, listing, l))
  }

  /** The report has one line per link, naming the link and its status. */
  lemma ReportSpec(fs: FileSystem, listing: seq<string>, links: seq<string>)
    ensures |Report(fs, listing, links)| == |links|
    ensures forall k :: 0 <= k < |links| ==> Report(fs, listing, links)[k] == LinkLine(links[k], StatusOf(fs, listing, links[k]))
  {
    LinesAt(links, (l: string) => StatusOf(fs, listing, l));
  }

  /** The report loop: one status line per link. */
  method ReportLinks(fs: FileSystem, listing: seq<string>, links: seq<string>) returns (report: seq<LinkLine>)
    ensures report == Report(fs, listing, links)
  {
    report := [];
    var k := 0;
    while k < |links|
      invariant 0 <= k <= |links|
      invariant report == Report(fs, listing, links[..k])
    {
      var link := links[k];
      var status := StatusLine(fs, listing, link);
      assert links[..k + 1][..k] == links[..k];
      report := report + [LinkLine(link, status)];
      k := k + 1;
    }
    assert links[..k] == links;
  }

  /** One status line: `exists`, then `has_404` only for a target that exists and reads. */
  method StatusLine(fs: FileSystem, listing: seq<string>, link: string) returns (status: LinkStatus)
    ensures status == StatusOf(fs, listing, link)
  {
    var path := Target(link);
    var present := path in fs || Listed(listing, path);
    var has404 := false;
    if present && path in fs {
      has404 := Is404(fs[path]);
    }
    status := if present && !has404 then Ok else if has404 then BrokenLink else Missing;
  }

  /** `for link in links: if not link.startswith('http'): all_links.add(link)`, on a set kept as a sequence without repeats. */
  method Collect(found: seq<string>, pageLinks: seq<string>) returns (r: seq<string>)
    requires Distinct(found)
    ensures Distinct(r)
    ensures forall l :: l in r <==> l in found || l in Filter(pageLinks, NotWebLink)
  {
    r := found;
    var j := 0;
    while j < |pageLinks|
      invariant 0 <= j <= |pageLinks|
      invariant Distinct(r)
      invariant forall l :: l in r <==> l in found || l in Filter(pageLinks[..j], NotWebLink)
    {
      assert pageLinks[..j + 1] == pageLinks[..j] + [pageLinks[j]];
      var link := pageLinks[j];
      if !StartsWith(link, "http") && link !in r {
        r := r + [link];
      }
      j := j + 1;
    }
    assert pageLinks[..j] == pageLinks;
  }
}
