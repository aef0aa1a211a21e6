/**
 * How the operating system resolves a path spelling to a file:
 * `os.path.normpath`. Empty and `.` segments are dropped and a `..` removes
 * the segment before it, so `site/pages/../assets/images/a.gif` and
 * `site/assets/images/a.gif` name the same file. The files on disk are keyed
 * by their normalised spelling, and every existence test and copy the
 * scripts make with a path built from a page's own link goes through
 * `Normalize`.
 */
module Paths {
  import opened Strings

  /** A segment that `normpath` keeps as it is: not empty, not `.`, not `..`. */
  predicate PlainSegment(s: string) {
    s != "" && s != "." && s != ".."
  }

  /** One segment of the `normpath` loop applied to the segments kept so far. */
  function Push(kept: seq<string>, s: string, rooted: bool): seq<string> {
    if s == "" || s == "." then kept
    else if s != ".." || (!rooted && |kept| == 0) || (|kept| > 0 && kept[|kept| - 1] == "..") then kept + [s]
    else if |kept| > 0 then kept[..|kept| - 1]
    else kept
  }

  /** The `normpath` loop over `segs`, starting from the segments `kept`. */
  function Collapse(kept: seq<string>, segs: seq<string>, rooted: bool): seq<string>
    decreases |segs|
  {
    if |segs| == 0 then kept
    else Push(Collapse(kept, segs[..|segs| - 1], rooted), segs[|segs| - 1], rooted)
  }

  /** `'/'.join(segs)`. */
  function JoinSegments(segs: seq<string>): string
    decreases |segs|
  {
    if |segs| == 0 then ""
    else if |segs| == 1 then segs[0]
    else segs[0] + "/" + JoinSegments(segs[1..])
  }

  /** The leading slashes `normpath` keeps: exactly two are kept as two, one or three or more as one. */
  function Lead(path: string): string {
    if StartsWith(path, "//") && !StartsWith(path, "///") then "//"
    else if StartsWith(path, "/") then "/"
    else ""
  }

  /** `os.path.normpath(path)`. */
  function Normalize(path: string): string {
    var lead := Lead(path);
    var body := JoinSegments(Collapse([], Split(path, '/'), lead != ""));
    if lead + body == "" then "." else lead + body
  }

  // ---------------------------------------------------------------------
  // Splitting and joining

  /** A text without the separator is a single segment. */
  lemma {:induction false} SplitSingle(s: string)
    requires '/' !in s
    ensures Split(s, '/') == [s]
    decreases |s|
  {
    if |s| > 0 {
      SplitSingle(s[1..]);
      assert [s[0]] + s[1..] == s;
    }
  }

  /** Splitting at a separator splits the two sides independently. */
  lemma {:induction false} SplitConcat(a: string, b: string)
    ensures Split(a + "/" + b, '/') == Split(a, '/') + Split(b, '/')
    decreases |a|
  {
    if |a| == 0 {
      assert a + "/" + b == "/" + b;
      assert ("/" + b)[1..] == b;
    } else {
      var s := a + "/" + b;
      assert s[1..] == a[1..] + "/" + b;
      SplitConcat(a[1..], b);
    }
  }

  /** Joining the segments of a text gives the text back. */
  lemma {:induction false} JoinSplit(s: string)
    ensures JoinSegments(Split(s, '/')) == s
    decreases |s|
  {
    if |s| > 0 {
      JoinSplit(s[1..]);
      var rest := Split(s[1..], '/');
      if s[0] == '/' {
        assert ([""] + rest)[1..] == rest;
      } else if |rest| == 1 {
        assert [s[0]] + s[1..] == s;
      } else {
        var parts := Split(s, '/');
        assert parts[0] == [s[0]] + rest[0] && parts[1..] == rest[1..];
        assert [s[0]] + s[1..] == s;
      }
    }
  }

  /** Joining one more segment adds it after a separator. */
  lemma {:induction false} JoinSnoc(segs: seq<string>, b: string)
    requires |segs| > 0
    ensures JoinSegments(segs + [b]) == JoinSegments(segs) + "/" + b
    decreases |segs|
  {
    if |segs| > 1 {
      JoinSnoc(segs[1..], b);
      assert (segs + [b])[1..] == segs[1..] + [b];
    }
  }

  /** The joined text ends with the last segment. */
  lemma JoinLastSegment(segs: seq<string>)
    requires |segs| > 0
    ensures EndsWith(JoinSegments(segs), segs[|segs| - 1])
  {
    var init := segs[..|segs| - 1];
    assert segs == init + [segs[|segs| - 1]];
    if |init| > 0 {
      JoinSnoc(init, segs[|segs| - 1]);
    }
  }

  // ---------------------------------------------------------------------
  // The collapse loop

  /** The loop over two runs of segments is the loop over the second, from where the first left off. */
  lemma {:induction false} CollapseAppend(kept: seq<string>, xs: seq<string>, ys: seq<string>, rooted: bool)
    ensures Collapse(kept, xs + ys, rooted) == Collapse(Collapse(kept, xs, rooted), ys, rooted)
    decreases |ys|
  {
    if |ys| == 0 {
      assert xs + ys == xs;
    } else {
      var init := ys[..|ys| - 1];
      CollapseAppend(kept, xs, init, rooted);
      assert (xs + ys)[..|xs + ys| - 1] == xs + init;
    }
  }

  /** A plain segment followed by `..` cancels out. */
  lemma ParentCancels(kept: seq<string>, s: string, rooted: bool)
    requires PlainSegment(s)
    ensures Collapse(kept, [s, ".."], rooted) == kept
  {
    assert [s, ".."][..1] == [s];
    assert [s][..0] == [];
    var one := kept + [s];
    assert Collapse(kept, [s], rooted) == Push(kept, s, rooted) == one;
    assert one[|one| - 1] == s && one[..|one| - 1] == kept;
    assert Push(one, "..", rooted) == kept;
  }

  /** Plain segments are kept as they are. */
  lemma {:induction false} CollapsePlain(kept: seq<string>, segs: seq<string>, rooted: bool)
    requires forall i :: 0 <= i < |segs| ==> PlainSegment(segs[i]) && segs[i] != ".."
    ensures Collapse(kept, segs, rooted) == kept + segs
    decreases |segs|
  {
    if |segs| > 0 {
      var init := segs[..|segs| - 1];
      CollapsePlain(kept, init, rooted);
      assert segs == init + [segs[|segs| - 1]];
    }
  }

  // ---------------------------------------------------------------------
  // What normalisation promises

  /** A relative path whose segments are all plain is its own normal form. */
  lemma CleanNormal(path: string)
    requires !StartsWith(path, "/")
    requires forall i :: 0 <= i < |Split(path, '/')| ==> PlainSegment(Split(path, '/')[i])
    ensures Normalize(path) == path
  {
    var segs := Split(path, '/');
    CollapsePlain([], segs, false);
    assert [] + segs == segs;
    JoinSplit(path);
    assert segs[0] != "";
  }

  /** The segments of `dir/seg/../rest` and of `dir/rest`. */
  lemma SplitParent(dir: string, seg: string, rest: string)
    requires '/' !in seg
    ensures Split(dir + "/" + seg + "/../" + rest, '/') == Split(dir, '/') + [seg, ".."] + Split(rest, '/')
  {
    SplitTwoInner(dir, seg, "..", rest);
    assert dir + "/" + seg + "/../" + rest == dir + "/" + (seg + "/" + (".." + "/" + rest));
  }

  /** Two separator-free segments between two texts are split out as they are. */
  lemma SplitTwoInner(a: string, x: string, y: string, b: string)
    requires '/' !in x && '/' !in y
    ensures Split(a + "/" + (x + "/" + (y + "/" + b)), '/') == Split(a, '/') + [x, y] + Split(b, '/')
  {
    var s2 := y + "/" + b;
    var s1 := x + "/" + s2;
    SplitConcat(y, b);
    SplitSingle(y);
    SplitConcat(x, s2);
    SplitSingle(x);
    SplitConcat(a, s1);
    assert [x] + ([y] + Split(b, '/')) == [x, y] + Split(b, '/');
  }

  /** Inside the loop, `seg, ..` drops out wherever it stands. */
  lemma CollapseParent(d: seq<string>, seg: string, r: seq<string>, rooted: bool)
    requires PlainSegment(seg)
    ensures Collapse([], d + [seg, ".."] + r, rooted) == Collapse([], d + r, rooted)
  {
    CollapseAppend([], d + [seg, ".."], r, rooted);
    CollapseAppend([], d, [seg, ".."], rooted);
    ParentCancels(Collapse([], d, rooted), seg, rooted);
    CollapseAppend([], d, r, rooted);
  }

  /**
   * `dir/seg/../rest` names the same file as `dir/rest` when `seg` is a plain
   * segment, for a relative or an absolute `dir`.
   */
  lemma ParentNormal(dir: string, seg: string, rest: string)
    requires |dir| > 0 && |rest| > 0 && rest[0] != '/'
    requires '/' !in seg && PlainSegment(seg)
    ensures Normalize(dir + "/" + seg + "/../" + rest) == Normalize(dir + "/" + rest)
  {
    var up := dir + "/" + seg + "/../" + rest;
    var direct := dir + "/" + rest;
    SplitParent(dir, seg, rest);
    SplitConcat(dir, rest);
    SameLead(dir, seg, rest);
    CollapseParent(Split(dir, '/'), seg, Split(rest, '/'), Lead(up) != "");
  }

  /** Both spellings keep the same leading slashes: they agree up to the third character, or neither has a slash there. */
  lemma SameLead(dir: string, seg: string, rest: string)
    requires |dir| > 0 && |rest| > 0 && rest[0] != '/'
    requires '/' !in seg && PlainSegment(seg)
    ensures Lead(dir + "/" + seg + "/../" + rest) == Lead(dir + "/" + rest)
  {
    var up := dir + "/" + seg + "/../" + rest;
    var direct := dir + "/" + rest;
    assert up[0] == direct[0];
    assert up[1] == direct[1];
    assert seg[0] in seg;
    assert (up[2] == '/') == (direct[2] == '/');
  }

  /** `dir/./rest` names the same file as `dir/rest`: a `.` segment drops out. */
  lemma DotNormal(dir: string, rest: string)
    requires |dir| > 0 && |rest| > 0 && rest[0] != '/'
    ensures Normalize(dir + "/" + ("./" + rest)) == Normalize(dir + "/" + rest)
  {
    SplitDot(dir, rest);
    SplitConcat(dir, rest);
    DotLead(dir, rest);
    CollapseDot(Split(dir, '/'), Split(rest, '/'), Lead(dir + "/" + ("./" + rest)) != "");
  }

  /** The segments of `dir/./rest`. */
  lemma SplitDot(dir: string, rest: string)
    ensures Split(dir + "/" + ("./" + rest), '/') == Split(dir, '/') + (["."] + Split(rest, '/'))
  {
    assert "./" + rest == "." + "/" + rest;
    SplitConcat(dir, "." + "/" + rest);
    SplitConcat(".", rest);
    SplitSingle(".");
  }

  /** Both spellings keep the same leading slashes. */
  lemma DotLead(dir: string, rest: string)
    requires |dir| > 0 && |rest| > 0 && rest[0] != '/'
    ensures Lead(dir + "/" + ("./" + rest)) == Lead(dir + "/" + rest)
  {
    var dot := dir + "/" + ("./" + rest);
    var direct := dir + "/" + rest;
    assert dot[0] == direct[0];
    assert dot[1] == direct[1];
    assert (dot[2] == '/') == (direct[2] == '/');
  }

  /** Inside the loop, a `.` segment drops out wherever it stands. */
  lemma CollapseDot(d: seq<string>, r: seq<string>, rooted: bool)
    ensures Collapse([], d + (["."] + r), rooted) == Collapse([], d + r, rooted)
  {
    CollapseAppend([], d, ["."] + r, rooted);
    CollapseAppend(Collapse([], d, rooted), ["."], r, rooted);
    assert ["."][..0] == [];
    CollapseAppend([], d, r, rooted);
  }

  /** The segments of a path joined with a final segment that has no separator. */
  lemma SplitJoinLast(dir: string, b: string)
    requires '/' !in b
    ensures var segs := Split(PathJoin(dir, b), '/'); |segs| > 0 && segs[|segs| - 1] == b
  {
    SplitSingle(b);
    if dir != "" {
      SplitConcat(dir, b);
    }
  }

  /** A path joined with a plain final segment still ends with that segment once normalised. */
  lemma NormalizeLast(dir: string, b: string)
    requires '/' !in b && PlainSegment(b)
    ensures EndsWith(Normalize(PathJoin(dir, b)), b)
  {
    var p := PathJoin(dir, b);
    var segs := Split(p, '/');
    SplitJoinLast(dir, b);
    var rooted := Lead(p) != "";
    var init := segs[..|segs| - 1];
    assert segs == init + [b];
    var kept := Collapse([], init, rooted);
    assert Collapse([], segs, rooted) == kept + [b];
    JoinLastSegment(kept + [b]);
    EndsWithAfter(Lead(p), JoinSegments(kept + [b]), b);
  }

  /** A text ending with `b` still does after something is put in front. */
  lemma EndsWithAfter(a: string, t: string, b: string)
    requires EndsWith(t, b)
    ensures EndsWith(a + t, b)
  {
    assert (a + t)[|a + t| - |b|..] == t[|t| - |b|..];
  }
}
