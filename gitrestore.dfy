/**
 * The restore of the forum links from the last commit's diff: the removed
 * lines that carried a forum `href` are collected with the file they were
 * removed from; each one's `coords` locates the area tag in the page as it
 * stands, and an area tag found without an `href` gets the URL back. The
 * diff is text given to the model (the output of `git show HEAD`).
 */
module GitRestore {
  import opened Strings
  import opened Rewriting
  import opened Attributes
  import opened Site
  import opened Cleanup
  import opened Proboards

  /** What is kept of one removed line. */
  datatype Removal = Removal(file: string, removedLine: string, url: string, fullLine: string)

  const DiffHeader: string := "diff --git"
  const CoordsKey: string := "coords=\""

  /** A URL the forum pattern `https?://[^"]*proboards[^"]*` accepts as an `href` value. */
  predicate ForumUrl(v: string) {
    (StartsWith(v, "https://") && Contains(v[8..], "proboards"))
    || (StartsWith(v, "http://") && Contains(v[7..], "proboards"))
  }

  /** `re.search(r'href="(https?://[^"]*proboards[^"]*)"', line).group(1)`, if there is a match. */
  function ForumHref(line: string): (r: Option<string>)
    ensures r.Some? ==> ForumUrl(r.value) && '"' !in r.value && Contains(line, r.value)
    ensures r.None? <==> Values(line, HrefKey, false, ForumUrl) == []
  {
    var vs := Values(line, HrefKey, false, ForumUrl);
    if |vs| == 0 then None
    else
      assert vs[0] in vs;
      Some(vs[0])
  }

  /** The file a `diff --git` line names: the text after its last '/', when it has one. */
  function HeaderFile(line: string): (r: Option<string>)
    ensures r.Some? ==> '/' !in r.value
  {
    if '/' in line then Some(AfterLast(line, '/')) else None
  }

  /** A line the diff shows as removed: it starts with `-` but is not a `---` file line. */
  predicate IsRemoval(line: string) {
    StartsWith(line, "-") && !StartsWith(line, "---")
  }

  /** The record kept for a removed line, given the current file. */
  function RemovalOf(line: string, current: Option<string>): Option<Removal> {
    if IsRemoval(line) && Contains(Lower(line), "proboards") && current.Some? && current.value != "" then
      match ForumHref(line)
      case None => None
      case Some(url) => Some(Removal(current.value, Strip(line), url, Strip(line[1..])))
    else None
  }

  /** The scan over the diff lines: the current file and the removals, in diff order. */
  function Scan(lines: seq<string>): (Option<string>, seq<Removal>)
    decreases |lines|
  {
    if |lines| == 0 then (None, [])
    else
      var (current, removals) := Scan(lines[..|lines| - 1]);
      var line := lines[|lines| - 1];
      if StartsWith(line, DiffHeader) then (HeaderFile(line), removals)
      else
        match RemovalOf(line, current)
        case None => (current, removals)
        case Some(r) => (current, removals + [r])
  }

  /** `get_proboards_changes_from_git`, on the text of the diff. */
  function ChangesFromDiff(diff: string): seq<Removal> {
    Scan(Split(diff, '\n')).1
  }

  /** `f` is the file named by one of the diff's `diff --git` lines. */
  ghost predicate NamedByHeader(lines: seq<string>, f: string) {
    exists h :: h in lines && StartsWith(h, DiffHeader) && HeaderFile(h) == Some(f)
  }

  /** `r` is the record of one of the diff's removed lines that mentions the forum. */
  ghost predicate KeptFromLine(lines: seq<string>, r: Removal) {
    exists line :: line in lines && IsRemoval(line) && Contains(Lower(line), "proboards")
      && ForumHref(line) == Some(r.url) && r.removedLine == Strip(line) && r.fullLine == Strip(line[1..])
  }

  /**
   * Every removal comes from a removed line of the diff that mentions the
   * forum and carries a forum `href`, with the URL of its first one; its
   * file is a non-empty name without '/' taken from a `diff --git` line; at
   * most one removal per line.
   */
  lemma ScanSpec(lines: seq<string>)
    ensures |Scan(lines).1| <= |lines|
    ensures Scan(lines).0.Some? ==> NamedByHeader(lines, Scan(lines).0.value)
    ensures forall r :: r in Scan(lines).1 ==>
      r.file != "" && '/' !in r.file && NamedByHeader(lines, r.file) && KeptFromLine(lines, r)
      && ForumUrl(r.url) && '"' !in r.url
  {
    ScanLength(lines);
    ScanCurrent(lines);
    ScanRecords(lines);
  }

  /**
   * The positional reading of the scan: the current file is the one named by
   * the last `diff --git` line (none before the first), and the removals are
   * exactly the records of the lines `k` made with the file current at `k`.
   */
  lemma ScanFromLastHeader(lines: seq<string>)
    ensures forall h ::
      (0 <= h < |lines| && StartsWith(lines[h], DiffHeader) && forall j :: h < j < |lines| ==> !StartsWith(lines[j], DiffHeader))
      ==> Scan(lines).0 == HeaderFile(lines[h])
    ensures (forall j :: 0 <= j < |lines| ==> !StartsWith(lines[j], DiffHeader)) ==> Scan(lines).0 == None
    ensures forall r :: r in Scan(lines).1 <==> exists k :: 0 <= k < |lines| && RemovalOf(lines[k], Scan(lines[..k]).0) == Some(r)
  {
    ScanCurrentAll(lines);
    ScanCurrentNone(lines);
    ScanRecordsOnly(lines);
    ScanRecordsAll(lines);
  }

  lemma ScanCurrentAll(lines: seq<string>)
    ensures forall h ::
      (0 <= h < |lines| && StartsWith(lines[h], DiffHeader) && forall j :: h < j < |lines| ==> !StartsWith(lines[j], DiffHeader))
      ==> Scan(lines).0 == HeaderFile(lines[h])
  {
    forall h | 0 <= h < |lines| && StartsWith(lines[h], DiffHeader)
      && (forall j :: h < j < |lines| ==> !StartsWith(lines[j], DiffHeader))
      ensures Scan(lines).0 == HeaderFile(lines[h])
    {
      ScanCurrentLast(lines, h);
    }
  }

  lemma ScanRecordsOnly(lines: seq<string>)
    ensures forall r :: r in Scan(lines).1 ==> exists k :: 0 <= k < |lines| && RemovalOf(lines[k], Scan(lines[..k]).0) == Some(r)
  {
    forall r | r in Scan(lines).1
      ensures exists k :: 0 <= k < |lines| && RemovalOf(lines[k], Scan(lines[..k]).0) == Some(r)
    {
      var k := ScanRecordLine(lines, r);
    }
  }

  lemma ScanRecordsAll(lines: seq<string>)
    ensures forall r, k :: 0 <= k < |lines| && RemovalOf(lines[k], Scan(lines[..k]).0) == Some(r) ==> r in Scan(lines).1
  {
    forall r, k | 0 <= k < |lines| && RemovalOf(lines[k], Scan(lines[..k]).0) == Some(r) ensures r in Scan(lines).1 {
      ScanRecordKept(lines, k);
    }
  }

  /** After the last `diff --git` line, the current file is the one it names. */
  lemma {:induction false} ScanCurrentLast(lines: seq<string>, h: nat)
    requires h < |lines| && StartsWith(lines[h], DiffHeader)
    requires forall j :: h < j < |lines| ==> !StartsWith(lines[j], DiffHeader)
    ensures Scan(lines).0 == HeaderFile(lines[h])
    decreases |lines|
  {
    var init := lines[..|lines| - 1];
    if h < |lines| - 1 {
      assert init[h] == lines[h];
      forall j | h < j < |init| ensures !StartsWith(init[j], DiffHeader) {
        assert init[j] == lines[j];
      }
      ScanCurrentLast(init, h);
    }
  }

  /** Before any `diff --git` line there is no current file. */
  lemma {:induction false} ScanCurrentNone(lines: seq<string>)
    ensures (forall j :: 0 <= j < |lines| ==> !StartsWith(lines[j], DiffHeader)) ==> Scan(lines).0 == None
    decreases |lines|
  {
    if |lines| > 0 {
      var init := lines[..|lines| - 1];
      ScanCurrentNone(init);
      if forall j :: 0 <= j < |lines| ==> !StartsWith(lines[j], DiffHeader) {
        forall j | 0 <= j < |init| ensures !StartsWith(init[j], DiffHeader) {
          assert init[j] == lines[j];
        }
      }
    }
  }

  /** Every record is the record of one line, made with the file current there. */
  lemma {:induction false} ScanRecordLine(lines: seq<string>, r: Removal) returns (k: nat)
    requires r in Scan(lines).1
    ensures k < |lines| && RemovalOf(lines[k], Scan(lines[..k]).0) == Some(r)
    decreases |lines|
  {
    var init, line := lines[..|lines| - 1], lines[|lines| - 1];
    if r in Scan(init).1 {
      k := ScanRecordLine(init, r);
      assert lines[k] == init[k] && lines[..k] == init[..k];
    } else {
      k := |lines| - 1;
      assert lines[..k] == init;
    }
  }

  /** Every line whose record is made under the file current there is kept. */
  lemma {:induction false} ScanRecordKept(lines: seq<string>, k: nat)
    requires k < |lines| && RemovalOf(lines[k], Scan(lines[..k]).0).Some?
    ensures RemovalOf(lines[k], Scan(lines[..k]).0).value in Scan(lines).1
    decreases |lines|
  {
    var init := lines[..|lines| - 1];
    if k < |lines| - 1 {
      assert lines[k] == init[k] && lines[..k] == init[..k];
      ScanRecordKept(init, k);
    } else {
      assert lines[..k] == init;
      assert !StartsWith(lines[k], DiffHeader) by {
        DiffHeaderNotRemoval(lines[k]);
      }
    }
  }

  /** A `diff --git` line is not a removed line. */
  lemma DiffHeaderNotRemoval(line: string)
    ensures StartsWith(line, DiffHeader) ==> !IsRemoval(line)
  {
    if StartsWith(line, DiffHeader) {
      assert line[0] == 'd';
    }
  }

  /** A `diff --git` line without '/' names no file, so no removed line after it is kept until the next one. */
  lemma HeaderWithoutSlash(lines: seq<string>, h: nat, k: nat)
    requires h < k < |lines| && StartsWith(lines[h], DiffHeader) && '/' !in lines[h]
    requires forall j :: h < j < k ==> !StartsWith(lines[j], DiffHeader)
    ensures RemovalOf(lines[k], Scan(lines[..k]).0) == None
  {
    var p := lines[..k];
    assert p[h] == lines[h];
    forall j | h < j < |p| ensures !StartsWith(p[j], DiffHeader) {
      assert p[j] == lines[j];
    }
    ScanCurrentLast(p, h);
  }

  lemma {:induction false} ScanLength(lines: seq<string>)
    ensures |Scan(lines).1| <= |lines|
    decreases |lines|
  {
    if |lines| > 0 {
      ScanLength(lines[..|lines| - 1]);
    }
  }

  /** The current file is the base name of the last `diff --git` line seen. */
  lemma {:induction false} ScanCurrent(lines: seq<string>)
    ensures Scan(lines).0.Some? ==> '/' !in Scan(lines).0.value && NamedByHeader(lines, Scan(lines).0.value)
    decreases |lines|
  {
    if |lines| > 0 {
      var init, line := lines[..|lines| - 1], lines[|lines| - 1];
      ScanCurrent(init);
      InInit(lines, line);
      if !StartsWith(line, DiffHeader) && Scan(init).0.Some? {
        var h :| h in init && StartsWith(h, DiffHeader) && HeaderFile(h) == Some(Scan(init).0.value);
        InInit(lines, h);
      }
    }
  }

  /** Every record comes from a removed line under a `diff --git` line. */
  lemma {:induction false} ScanRecords(lines: seq<string>)
    ensures forall r :: r in Scan(lines).1 ==>
      r.file != "" && '/' !in r.file && NamedByHeader(lines, r.file) && KeptFromLine(lines, r)
      && ForumUrl(r.url) && '"' !in r.url
    decreases |lines|
  {
    if |lines| > 0 {
      var init, line := lines[..|lines| - 1], lines[|lines| - 1];
      ScanRecords(init);
      ScanCurrent(init);
      var (current, removals) := Scan(init);
      InInitAll(lines);
      forall r | r in Scan(lines).1
        ensures r.file != "" && '/' !in r.file && NamedByHeader(lines, r.file) && KeptFromLine(lines, r)
          && ForumUrl(r.url) && '"' !in r.url
      {
        if r in removals {
          RecordWidens(init, lines, r);
        } else {
          RecordOfLine(init, lines, r);
        }
      }
    }
  }

  /** A record taken from some lines is still taken from any lines that include them. */
  lemma RecordWidens(init: seq<string>, lines: seq<string>, r: Removal)
    requires forall x :: x in init ==> x in lines
    requires r.file != "" && '/' !in r.file && NamedByHeader(init, r.file) && KeptFromLine(init, r)
      && ForumUrl(r.url) && '"' !in r.url
    ensures r.file != "" && '/' !in r.file && NamedByHeader(lines, r.file) && KeptFromLine(lines, r)
      && ForumUrl(r.url) && '"' !in r.url
  {
    var h :| h in init && StartsWith(h, DiffHeader) && HeaderFile(h) == Some(r.file);
    assert h in lines;
    var l :| l in init && IsRemoval(l) && Contains(Lower(l), "proboards")
      && ForumHref(l) == Some(r.url) && r.removedLine == Strip(l) && r.fullLine == Strip(l[1..]);
    assert l in lines;
  }

  /** The record the last line adds is taken from that line, under the file current before it. */
  lemma RecordOfLine(init: seq<string>, lines: seq<string>, r: Removal)
    requires |lines| > 0 && init == lines[..|lines| - 1]
    requires forall x :: x in init ==> x in lines
    requires Scan(init).0.Some? ==> '/' !in Scan(init).0.value && NamedByHeader(init, Scan(init).0.value)
    requires r in Scan(lines).1 && r !in Scan(init).1
    ensures r.file != "" && '/' !in r.file && NamedByHeader(lines, r.file) && KeptFromLine(lines, r)
      && ForumUrl(r.url) && '"' !in r.url
  {
    var line := lines[|lines| - 1];
    var current := Scan(init).0;
    assert !StartsWith(line, DiffHeader) && RemovalOf(line, current) == Some(r);
    var h :| h in init && StartsWith(h, DiffHeader) && HeaderFile(h) == Some(current.value);
    assert h in lines;
    assert line in lines;
  }

  /** A diff in which no removed line mentions the forum, in any case, yields no removals. */
  lemma {:induction false} ScanQuiet(lines: seq<string>)
    requires forall line :: line in lines && IsRemoval(line) ==> !Contains(Lower(line), "proboards")
    ensures Scan(lines).1 == []
    decreases |lines|
  {
    if |lines| > 0 {
      var init := lines[..|lines| - 1];
      assert forall line :: line in init ==> line in lines;
      assert lines[|lines| - 1] in lines;
      ScanQuiet(init);
    }
  }

  // ---------------------------------------------------------------------
  // Restoring.

  /** `re.search(r'coords="([^"]*)"', line).group(1)`, if there is a match. */
  function Coords(line: string): (r: Option<string>)
    ensures r.Some? ==> '"' !in r.value && Contains(line, r.value)
    ensures r.None? <==> Values(line, CoordsKey, false, AnyValue) == []
  {
    var vs := Values(line, CoordsKey, false, AnyValue);
    if |vs| == 0 then None
    else
      assert vs[0] in vs;
      Some(vs[0])
  }

  /** The attributes of an area tag that carry these coordinates. */
  function HasCoords(coords: string): string -> bool {
    (attrs: string) => Contains(attrs, CoordsKey + coords + "\"")
  }

  /** `re.search(rf'<area([^>]*coords="{coords}"[^>]*)>', content)`: the first such tag. */
  function FindArea(content: string, coords: string): (r: Option<string>)
    ensures r.Some? ==>
      Contains(content, r.value) && |r.value| >= 6 && r.value == "<area" + AreaAttrs(r.value) + ">"
      && HasCoords(coords)(AreaAttrs(r.value))
    ensures r.None? <==> MatchCount(content, AreaTag(HasCoords(coords))) == 0
  {
    match Search(content, AreaTag(HasCoords(coords)))
    case None => None
    case Some(p) =>
      var t := content[p..];
      var n := AreaLen(t, HasCoords(coords));
      AreaTagShape(t, HasCoords(coords));
      assert content[p..p + n] == t[..n];
      ContainsAt(content, t[..n], p);
      Some(t[..n])
  }

  /**
   * One removal against a page's text: when its line has coordinates and
   * an area tag with them has no `href=`, that tag gets the removal's URL as
   * its `href`. The new text and whether a link was restored.
   */
  function RestoreInPage(content: string, r: Removal): (string, bool) {
    match Coords(r.fullLine)
    case None => (content, false)
    case Some(coords) =>
      match FindArea(content, coords)
      case None => (content, false)
      case Some(tag) =>
        var attrs := AreaAttrs(tag);
        if Contains(attrs, "href=") then (content, false)
        else (ReplaceAll(content, tag, RestoredArea(attrs, r.url)), true)
  }

  /**
   * A link is restored exactly when the removed line has coordinates and
   * the first area tag with them lacks an `href=`; the page then holds
   * that tag with the URL as its `href`, and otherwise keeps its text.
   */
  lemma RestoreInPageSpec(content: string, r: Removal)
    ensures var (c, restored) := RestoreInPage(content, r);
      (restored <==>
        Coords(r.fullLine).Some? && FindArea(content, Coords(r.fullLine).value).Some?
        && !Contains(AreaAttrs(FindArea(content, Coords(r.fullLine).value).value), "href="))
      && (restored ==> Contains(c, RestoredArea(AreaAttrs(FindArea(content, Coords(r.fullLine).value).value), r.url)))
      && (!restored ==> c == content)
  {
    if Coords(r.fullLine).Some? {
      var coords := Coords(r.fullLine).value;
      if FindArea(content, coords).Some? {
        var tag := FindArea(content, coords).value;
        ReplaceAllInserts(content, tag, RestoredArea(AreaAttrs(tag), r.url));
      }
    }
  }

  /** The state of the restore loop: the files, `files_modified` and `restored_count`. */
  datatype Progress = Progress(fs: FileSystem, modified: set<string>, restored: nat)

  /**
   * One removal: a missing page is skipped; the page is read afresh and
   * written back whenever its file has been modified by this or an earlier removal.
   */
  function RestoreOne(p: Progress, r: Removal): Progress {
    var path := PagePath(r.file);
    if path !in p.fs then p
    else
      var (c, restored) := RestoreInPage(p.fs[path], r);
      var modified := if restored then p.modified + {r.file} else p.modified;
      Progress(if r.file in modified then p.fs[path := c] else p.fs, modified, if restored then p.restored + 1 else p.restored)
  }

  /** `restore_proboards_links`: the loop over the removals. */
  function RestoreLinks(fs: FileSystem, removals: seq<Removal>): Progress
    decreases |removals|
  {
    if |removals| == 0 then Progress(fs, {}, 0)
    else RestoreOne(RestoreLinks(fs, removals[..|removals| - 1]), removals[|removals| - 1])
  }

  /** One removal writes only its own page, counts one restore at most, and a removal that restores nothing changes no file. */
  lemma RestoreOneSpec(p: Progress, r: Removal)
    ensures var q := RestoreOne(p, r);
      q.fs.Keys == p.fs.Keys && (forall x :: x in p.fs && x != PagePath(r.file) ==> q.fs[x] == p.fs[x])
      && p.restored <= q.restored <= p.restored + 1
      && q.modified == (if q.restored > p.restored then p.modified + {r.file} else p.modified)
      && (q.restored == p.restored ==> q.fs == p.fs)
  {
    var path := PagePath(r.file);
    if path in p.fs {
      RestoreInPageSpec(p.fs[path], r);
      var (c, restored) := RestoreInPage(p.fs[path], r);
      if !restored {
        assert p.fs[path := p.fs[path]] == p.fs;
      }
    }
  }

  /**
   * The whole restore: at most one link per removal; no page is created; a
   * page no removal names is never written; `files_modified` names only
   * removals' files, no more of them than links restored; and when nothing
   * is restored (the result is false) every file is as it was.
   */
  lemma RestoreLinksSpec(fs: FileSystem, removals: seq<Removal>)
    ensures var q := RestoreLinks(fs, removals);
      q.restored <= |removals| && q.fs.Keys == fs.Keys
      && (forall x :: x in fs && (forall r :: r in removals ==> x != PagePath(r.file)) ==> q.fs[x] == fs[x])
      && (forall f :: f in q.modified ==> exists r :: r in removals && r.file == f)
      && |q.modified| <= q.restored
      && (q.restored == 0 ==> q.fs == fs && q.modified == {})
  {
    RestoreCounts(fs, removals);
    RestoreKeys(fs, removals);
    RestoreFrame(fs, removals);
    RestoreModifiedNamed(fs, removals);
    RestoreNothing(fs, removals);
  }

  lemma {:induction false} RestoreCounts(fs: FileSystem, removals: seq<Removal>)
    ensures var q := RestoreLinks(fs, removals); |q.modified| <= q.restored <= |removals|
    decreases |removals|
  {
    if |removals| > 0 {
      var init, last := removals[..|removals| - 1], removals[|removals| - 1];
      RestoreCounts(fs, init);
      var p := RestoreLinks(fs, init);
      RestoreOneSpec(p, last);
      assert |p.modified + {last.file}| <= |p.modified| + 1;
    }
  }

  lemma {:induction false} RestoreKeys(fs: FileSystem, removals: seq<Removal>)
    ensures RestoreLinks(fs, removals).fs.Keys == fs.Keys
    decreases |removals|
  {
    if |removals| > 0 {
      var init := removals[..|removals| - 1];
      RestoreKeys(fs, init);
      RestoreOneSpec(RestoreLinks(fs, init), removals[|removals| - 1]);
    }
  }

  lemma {:induction false} RestoreFrame(fs: FileSystem, removals: seq<Removal>)
    ensures var q := RestoreLinks(fs, removals);
      forall x :: x in fs && (forall r :: r in removals ==> x != PagePath(r.file)) ==> x in q.fs && q.fs[x] == fs[x]
    decreases |removals|
  {
    if |removals| > 0 {
      var init, last := removals[..|removals| - 1], removals[|removals| - 1];
      RestoreFrame(fs, init);
      RestoreKeys(fs, init);
      RestoreOneSpec(RestoreLinks(fs, init), last);
      assert last in removals;
      assert forall r :: r in init ==> r in removals;
    }
  }

  lemma {:induction false} RestoreModifiedNamed(fs: FileSystem, removals: seq<Removal>)
    ensures forall f :: f in RestoreLinks(fs, removals).modified ==> exists r :: r in removals && r.file == f
    decreases |removals|
  {
    if |removals| > 0 {
      var init, last := removals[..|removals| - 1], removals[|removals| - 1];
      RestoreModifiedNamed(fs, init);
      var p := RestoreLinks(fs, init);
      RestoreOneSpec(p, last);
      forall f | f in RestoreLinks(fs, removals).modified
        ensures exists r :: r in removals && r.file == f
      {
        if f in p.modified {
          var r :| r in init && r.file == f;
          InInit(removals, r);
        } else {
          InInit(removals, last);
        }
      }
    }
  }

  lemma {:induction false} RestoreNothing(fs: FileSystem, removals: seq<Removal>)
    ensures var q := RestoreLinks(fs, removals); q.restored == 0 ==> q.fs == fs && q.modified == {}
    decreases |removals|
  {
    if |removals| > 0 {
      var init := removals[..|removals| - 1];
      RestoreNothing(fs, init);
      RestoreOneSpec(RestoreLinks(fs, init), removals[|removals| - 1]);
    }
  }

  // ---------------------------------------------------------------------
  // Verification.

  /** The forum URLs of the `href`s outside comments of page `name`; none when it cannot be read. */
  function ActiveUrls(fs: FileSystem, name: string): (r: seq<string>)
    ensures forall u :: u in r ==> ForumUrl(u)
  {
    var path := PagePath(name);
    if path in fs then Values(StripComments(fs[path]), HrefKey, false, ForumUrl) else []
  }

  /** Each URL paired with the name of the page it was found in. */
  function Paired(name: string, urls: seq<string>): (r: seq<(string, string)>)
    ensures |r| == |urls|
    ensures forall k :: 0 <= k < |r| ==> r[k] == (name, urls[k])
  {
    seq(|urls|, k requires 0 <= k < |urls| => (name, urls[k]))
  }

  /** The forum links of the readable pages outside comments, with their page names, in page order. */
  function ActiveLinks(fs: FileSystem, names: seq<string>): (r: seq<(string, string)>)
    ensures forall link :: link in r ==> link.0 in names && ForumUrl(link.1)
    decreases |names|
  {
    if |names| == 0 then []
    else ActiveLinks(fs, names[..|names| - 1]) + Paired(names[|names| - 1], ActiveUrls(fs, names[|names| - 1]))
  }

  /** A readable page with a forum link outside comments. */
  predicate HasActiveLink(fs: FileSystem, name: string) {
    ActiveUrls(fs, name) != []
  }

  /** `verify_proboards_links` succeeds exactly when some readable page has a forum link outside comments. */
  lemma {:induction false} ActiveLinksFound(fs: FileSystem, names: seq<string>)
    ensures ActiveLinks(fs, names) != [] <==> exists name :: name in names && HasActiveLink(fs, name)
    decreases |names|
  {
    if |names| > 0 {
      var init, last := names[..|names| - 1], names[|names| - 1];
      ActiveLinksFound(fs, init);
      assert names == init + [last];
      var own := Paired(last, ActiveUrls(fs, last));
      assert own != [] <==> HasActiveLink(fs, last);
      assert ActiveLinks(fs, names) != [] <==> ActiveLinks(fs, init) != [] || own != [];
    }
  }

  /** One more page appends its own pairs. */
  lemma ActiveLinksStep(fs: FileSystem, names: seq<string>, i: nat)
    requires i < |names|
    ensures ActiveLinks(fs, names[..i + 1]) == ActiveLinks(fs, names[..i]) + Paired(names[i], ActiveUrls(fs, names[i]))
  {
    assert names[..i + 1][..i] == names[..i];
  }

  // ---------------------------------------------------------------------
  // The loops of the script.

  /** `get_proboards_changes_from_git`: the loop over the lines of the diff. */
  method GetProboardsChanges(diff: string) returns (removals: seq<Removal>)
    ensures removals == ChangesFromDiff(diff)
  {
    var lines := Split(diff, '\n');
    var current: Option<string> := None;
    removals := [];
    var i := 0;
    while i < |lines|
      invariant 0 <= i <= |lines|
      invariant (current, removals) == Scan(lines[..i])
    {
      assert lines[..i + 1][..i] == lines[..i];
      var line := lines[i];
      if StartsWith(line, DiffHeader) {
        current := HeaderFile(line);
      } else {
        var r := RemovalOf(line, current);
        if r.Some? {
          removals := removals + [r.value];
        }
      }
      i := i + 1;
    }
    assert lines[..i] == lines;
  }

  /** `restore_proboards_links`: the files afterwards and whether any link was restored. */
  method RestoreProboardsLinks(fs: FileSystem, removals: seq<Removal>) returns (fs': FileSystem, restored: bool)
    ensures fs' == RestoreLinks(fs, removals).fs && (restored <==> RestoreLinks(fs, removals).restored > 0)
  {
    var p := Progress(fs, {}, 0);
    var i := 0;
    while i < |removals|
      invariant 0 <= i <= |removals|
      invariant p == RestoreLinks(fs, removals[..i])
    {
      assert removals[..i + 1][..i] == removals[..i];
      p := RestoreOne(p, removals[i]);
      i := i + 1;
    }
    assert removals[..i] == removals;
    fs', restored := p.fs, p.restored > 0;
  }

  /** `verify_proboards_links`. */
  method VerifyProboardsLinks(fs: FileSystem, names: seq<string>) returns (found: bool)
    ensures found <==> exists name :: name in names && HasActiveLink(fs, name)
  {
    var links: seq<(string, string)> := [];
    var i := 0;
    while i < |names|
      invariant 0 <= i <= |names|
      invariant links == ActiveLinks(fs, names[..i])
    {
      ActiveLinksStep(fs, names, i);
      var path := PagePath(names[i]);
      if path in fs {
        var urls := Values(StripComments(fs[path]), HrefKey, false, ForumUrl);
        links := AppendPairs(links, names[i], urls);
      } else {
        assert links + Paired(names[i], ActiveUrls(fs, names[i])) == links;
      }
      i := i + 1;
    }
    assert names[..i] == names;
    ActiveLinksFound(fs, names);
    found := |links| > 0;
  }

  /** The inner loop of `verify_proboards_links`: one page's URLs appended with its name. */
  method AppendPairs(links: seq<(string, string)>, name: string, urls: seq<string>) returns (out: seq<(string, string)>)
    ensures out == links + Paired(name, urls)
  {
    out := links;
    var j := 0;
    while j < |urls|
      invariant 0 <= j <= |urls|
      invariant |out| == |links| + j && out[..|links|] == links
      invariant forall k :: 0 <= k < j ==> out[|links| + k] == (name, urls[k])
    {
      out := out + [(name, urls[j])];
      j := j + 1;
    }
    assert out == links + Paired(name, urls);
  }
}
