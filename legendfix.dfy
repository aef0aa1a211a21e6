/**
 * The legend decoder: links and image names that the clone saved with a
 * URL-encoded `<` in front (`%3clegends…`) are replaced by the plain names,
 * the eight page names first and then the image prefix, counting every
 * occurrence replaced.
 */
module LegendFix {
  import opened Strings
  import opened Rewriting
  import opened Site

  /** The encoded `<` the clone left in front of the names. */
  const Encoded: string := "%3c"

  /** The legend pages, in the order of the mapping table. */
  const LegendPages: seq<string> := [
    "legends.html", "legends_.html", "legends_index.html", "legends_page2.html",
    "legends_page3.html", "legends_page4.html", "legends_page5.html", "legends_page6.html"]

  /** The image prefix, replaced after the pages. */
  const LegendImages: seq<string> := ["legends_img"]

  /** Every name, in replacement order; each is replaced where it occurs as `"%3c" + name`. */
  function Targets(): seq<string> {
    LegendPages + LegendImages
  }

  /** The replacements of one page: the new text and `file_replacements`, the counts taken before each replace. */
  function Decode(content: string, names: seq<string>): (string, nat)
    decreases |names|
  {
    if |names| == 0 then (content, 0)
    else
      var (c, n) := Decode(content, names[..|names| - 1]);
      var name := names[|names| - 1];
      var k := Count(c, Encoded + name);
      if k > 0 then (ReplaceAll(c, Encoded + name, name), n + k) else (c, n)
  }

  /**
   * Every replacement deletes exactly the three characters `%3c`, so the new
   * text is `3 * file_replacements` shorter; in particular it differs from
   * the old text exactly when something was replaced.
   */
  lemma DecodeLength(content: string, names: seq<string>)
    ensures |Decode(content, names).0| + 3 * Decode(content, names).1 == |content|
    ensures Decode(content, names).1 == 0 ==> Decode(content, names).0 == content
    ensures Decode(content, names).0 != content <==> Decode(content, names).1 > 0
  {
    DecodeShrinks(content, names);
    DecodeUntouched(content, names);
  }

  /** The length half of `DecodeLength`. */
  lemma {:induction false} DecodeShrinks(content: string, names: seq<string>)
    ensures |Decode(content, names).0| + 3 * Decode(content, names).1 == |content|
    decreases |names|
  {
    if |names| > 0 {
      var init := names[..|names| - 1];
      DecodeShrinks(content, init);
      var (c, n) := Decode(content, init);
      var name := names[|names| - 1];
      DeleteEncoded(c, name);
    }
  }

  /** Replacing `"%3c" + name` by `name` everywhere shortens the text by three per occurrence. */
  lemma DeleteEncoded(c: string, name: string)
    ensures |ReplaceAll(c, Encoded + name, name)| + 3 * Count(c, Encoded + name) == |c|
  {
    ReplaceAllLength(c, Encoded + name, name);
    var k := Count(c, Encoded + name);
    assert |Encoded + name| == |name| + 3;
    assert k * (|name| - (|name| + 3)) == -3 * k;
  }

  /** The no-replacement half of `DecodeLength`. */
  lemma {:induction false} DecodeUntouched(content: string, names: seq<string>)
    ensures Decode(content, names).1 == 0 ==> Decode(content, names).0 == content
    decreases |names|
  {
    if |names| > 0 {
      DecodeUntouched(content, names[..|names| - 1]);
    }
  }

  datatype Totals = Totals(fs: FileSystem, totalReplacements: nat, filesModified: nat)

  /** `fix_legend_references` over the glob's pages; a page that cannot be read is skipped. */
  function FixLegends(fs: FileSystem, htmlFiles: seq<string>): Totals
    decreases |htmlFiles|
  {
    if |htmlFiles| == 0 then Totals(fs, 0, 0)
    else
      var before := FixLegends(fs, htmlFiles[..|htmlFiles| - 1]);
      var f := htmlFiles[|htmlFiles| - 1];
      if f !in before.fs then before
      else
        var (c, n) := Decode(before.fs[f], Targets());
        if c != before.fs[f] then Totals(before.fs[f := c], before.totalReplacements + n, before.filesModified + 1)
        else before
  }

  /**
   * A page is written and counted exactly when something in it was replaced,
   * so every modified page adds at least one replacement, and only pages are
   * written.
   */
  lemma {:induction false} FixLegendsCounts(fs: FileSystem, htmlFiles: seq<string>)
    ensures FixLegends(fs, htmlFiles).filesModified <= FixLegends(fs, htmlFiles).totalReplacements
    ensures FixLegends(fs, htmlFiles).filesModified <= |htmlFiles|
    ensures FixLegends(fs, htmlFiles).fs.Keys == fs.Keys
    ensures forall p :: p in fs && p !in htmlFiles ==> FixLegends(fs, htmlFiles).fs[p] == fs[p]
    decreases |htmlFiles|
  {
    if |htmlFiles| > 0 {
      var init := htmlFiles[..|htmlFiles| - 1];
      FixLegendsCounts(fs, init);
      var before := FixLegends(fs, init);
      var f := htmlFiles[|htmlFiles| - 1];
      if f in before.fs {
        DecodeLength(before.fs[f], Targets());
      }
    }
  }

  /** The inner loops of one page: the pages table, then the image table. */
  method DecodePage(content: string) returns (c: string, fileReplacements: nat)
    ensures (c, fileReplacements) == Decode(content, Targets())
  {
    var names := Targets();
    c, fileReplacements := content, 0;
    var i := 0;
    while i < |names|
      invariant 0 <= i <= |names|
      invariant (c, fileReplacements) == Decode(content, names[..i])
    {
      assert names[..i + 1][..i] == names[..i];
      var oldRef := Encoded + names[i];
      var count := Count(c, oldRef);
      if count > 0 {
        c := ReplaceAll(c, oldRef, names[i]);
        fileReplacements := fileReplacements + count;
      }
      i := i + 1;
    }
    assert names[..i] == names;
  }

  /** `fix_legend_references`: the loop over the pages. */
  method FixLegendReferences(fs: FileSystem, htmlFiles: seq<string>) returns (t: Totals)
    ensures t == FixLegends(fs, htmlFiles)
  {
    t := Totals(fs, 0, 0);
    var i := 0;
    while i < |htmlFiles|
      invariant 0 <= i <= |htmlFiles|
      invariant t == FixLegends(fs, htmlFiles[..i])
    {
      assert htmlFiles[..i + 1][..i] == htmlFiles[..i];
      var f := htmlFiles[i];
      if f in t.fs {
        var content := t.fs[f];
        var c, n := DecodePage(content);
        if c != content {
          t := Totals(t.fs[f := c], t.totalReplacements + n, t.filesModified + 1);
        }
      }
      i := i + 1;
    }
    assert htmlFiles[..i] == htmlFiles;
  }
}
