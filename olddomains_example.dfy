/**
 * A worked page for the old-domain cleanup: an image-map area whose link
 * is a URL on the domain. The three patterns wrap the URL twice (the
 * bare-domain pattern finds it again inside the first comment), and the
 * area step then finds the whole tag, whose `href` value now holds '>'
 * characters, and strips the attribute.
 */
module OldDomainsExample {
  import opened Strings
  import opened Rewriting
  import opened Attributes
  import opened Site
  import opened Cleanup
  import opened OldDomains

  const D: string := "web.bethere.co.uk"
  /** The tag's attributes before its link, `<area` and the tag up to the link's value. */
  const AT1: string := " shape=\"rect\""
  const AT2: string := " coords=\"1,2,3,4\" "
  const AT: string := AT1 + AT2
  const P0: string := "<area" + AT
  const A0: string := P0 + HrefKey
  /** What the bare-domain pattern finds, and the URL the first pattern finds. */
  const DU: string := D + "/a"
  const U: string := "https://" + DU
  /** The closing quote and the end of the tag. */
  const Z: string := "\">"

  /** The page, after the first pattern, and after the third. */
  const S0: string := A0 + (U + Z)
  const W: string := WrapText(U)
  const S1: string := A0 + (W + Z)
  const A3: string := A0 + RemovedOpen + "https://"
  const WD: string := WrapText(DU)
  const S2: string := A3 + (WD + (RemovedClose + Z))
  /** The link's value in the area tag after the three patterns. */
  const V: string := RemovedOpen + "https://" + WD + RemovedClose

  /**
   * The area tag of the page, and what the cleanup leaves of it, with three
   * references removed; the texts are written in pieces only to keep the
   * proof small.
   */
  lemma CleanAreaExample()
    ensures CleanPage("<area shape=\"rect\"" + " coords=\"1,2,3,4\" " + "href=\"https://" + "web.bethere.co.uk/a\">",
      "web.bethere.co.uk") == ("<area shape=\"rect\"" + " coords=\"1,2,3,4\" " + ">", true, 3)
  {
    InputLiteral();
    ResultLiteral();
    CleanPageExample();
  }

  lemma InputLiteral()
    ensures S0 == "<area shape=\"rect\"" + " coords=\"1,2,3,4\" " + "href=\"https://" + "web.bethere.co.uk/a\">"
  {
    Regroup7("<area", AT1, AT2, HrefKey, "https://", D + "/a", Z);
    FirstPiece();
    assert HrefKey + "https://" == "href=\"https://";
    assert (D + "/a") + Z == "web.bethere.co.uk/a\">";
  }

  lemma FirstPiece()
    ensures "<area" + AT1 == "<area shape=\"rect\""
  {
  }

  lemma ResultLiteral()
    ensures P0 + ">" == "<area shape=\"rect\"" + " coords=\"1,2,3,4\" " + ">"
  {
    Assoc("<area", AT1, AT2);
    FirstPiece();
  }

  /** The domain of the example is the second of the old domains. */
  lemma DomainListed()
    ensures D == OldDomains.OldDomains[1]
  {
  }

  lemma CleanPageExample()
    ensures CleanPage(S0, D) == (P0 + ">", true, 3)
  {
    Wrapped();
    AreaFound();
    CleanPageIs(S0, D, S2, 2, [S2]);
    DisabledWhole();
  }

  lemma DisabledWhole()
    ensures DisableAll(S2, [S2]) == P0 + ">"
  {
    DisableAllOne(S2, S2);
    Disabled();
    assert S2 + "" == S2;
    ShortNoContains("", S2);
    ReplaceAllPrefix(S2, "", Disable(S2));
  }

  // ---------------------------------------------------------------------
  // The three patterns.

  lemma Wrapped()
    ensures WrapDomain(S0, D) == (S2, 2)
  {
    var ps := Patterns(D);
    Inits(SchemeUrl(D), HrefUnit(), UrlAt(D));
    WrapPatternsStep(S0, ps);
    Wrapped2();
    BareFound();
    BareWrapped();
  }

  lemma Wrapped1()
    ensures WrapPatterns(S0, [SchemeUrl(D)]) == (S1, 1)
  {
    Inits(SchemeUrl(D), HrefUnit(), UrlAt(D));
    WrapPatternsStep(S0, [SchemeUrl(D)]);
    WrapPatternsNone(S0);
    SchemeFound();
    SchemeWrapped();
  }

  lemma Wrapped2()
    ensures WrapPatterns(S0, [SchemeUrl(D), HrefUnit()]) == (S1, 1)
  {
    Wrapped1();
    HrefNone();
    WrapNoneMore(S0, SchemeUrl(D), HrefUnit(), S1, 1);
  }

  /** A second pattern that finds nothing leaves the page as the first left it. */
  lemma WrapNoneMore(content: string, p: Matcher, q: Matcher, c: string, n: nat)
    requires WrapPatterns(content, [p]) == (c, n) && FindAll(c, q) == []
    ensures WrapPatterns(content, [p, q]) == (c, n)
  {
    Inits(p, q, q);
    WrapPatternsStep(content, [p, q]);
    WrapFoundNone(c);
  }

  /** The second pattern. */
  function HrefUnit(): Matcher {
    UnitMatcher(HrefKey, false, OnDomain(D))
  }

  lemma Inits(a: Matcher, b: Matcher, c: Matcher)
    ensures [a, b, c][..2] == [a, b] && [a, b, c][2] == c
    ensures [a, b][..1] == [a] && [a, b][1] == b
    ensures [a][..0] == [] && [a][0] == a
  {
  }

  /** The first pattern finds the URL once. */
  lemma SchemeFound()
    ensures FindAll(S0, SchemeUrl(D)) == [U]
  {
    SchemeBefore();
    SchemeAtU();
    SchemeAfter();
    FindAllOne(A0, U, Z, SchemeUrl(D));
  }

  lemma SchemeBefore()
    ensures forall i :: 0 <= i < |A0| ==> !MatchesAt(SchemeUrl(D), (A0 + (U + Z))[i..])
  {
    SchemeUrlStarts(D);
    A0NoPair('t');
    NoMatchIn(A0, U + Z, SchemeUrl(D), 'h', 't');
  }

  lemma SchemeAfter()
    ensures forall i :: 0 <= i < |Z| ==> !MatchesAt(SchemeUrl(D), Z[i..])
  {
    SchemeUrlStarts(D);
    NoPairAbsent(Z, 'h', 't');
    NoMatchIn(Z, "", SchemeUrl(D), 'h', 't');
    assert Z + "" == Z;
  }

  /** At the URL, the first pattern matches exactly the URL. */
  lemma SchemeAtU()
    ensures SchemeUrl(D)(U + Z) == |U|
  {
    var h := "https://" + D;
    Cat4("https://", D, "/a", Z);
    CatParts(h, "/a" + Z);
    SlashRun(Z);
  }

  /** The URL is wrapped once: it occurs in the page, after a stretch where it cannot start. */
  lemma SchemeWrapped()
    ensures WrapFound(S0, [U]) == (S1, 1)
  {
    WrapFoundOne(S0, U);
    ContainsMid(A0, U, Z);
    ShortNoContains(Z, U);
    UStarts();
    A0NoPair('t');
    NoMatchIn(A0, U + Z, Literal(U), 'h', 't');
    ReplaceAllAfter(A0, U, Z, W);
  }

  lemma UStarts()
    ensures forall t :: MatchesAt(Literal(U), t) ==> |t| >= 2 && t[0] == 'h' && t[1] == 't'
  {
    assert U[0] == 'h' && U[1] == 't';
    LiteralStarts(U);
  }

  /**
   * The `href` pattern finds nothing: the page's only `href="` now holds
   * the comment, which does not start with the domain's URL.
   */
  lemma HrefNone()
    ensures FindAll(S1, HrefUnit()) == []
  {
    var m := UnitMatcher(HrefKey, false, OnDomain(D));
    var t := HrefKey + (W + Z);
    Assoc(P0, HrefKey, W + Z);
    HrefBefore();
    FindAllSkip(P0, t, m);
    HrefRejected();
    HrefAfter();
    FindAllNoFront(t, m);
    FindAllNone(t[1..], m);
  }

  lemma HrefBefore()
    ensures forall i :: 0 <= i < |P0| ==>
      !MatchesAt(UnitMatcher(HrefKey, false, OnDomain(D)), (P0 + (HrefKey + (W + Z)))[i..])
  {
    HrefUnitStarts(OnDomain(D));
    P0NoPair('r');
    NoMatchIn(P0, HrefKey + (W + Z), UnitMatcher(HrefKey, false, OnDomain(D)), 'h', 'r');
  }

  lemma HrefRejected()
    ensures !MatchesAt(UnitMatcher(HrefKey, false, OnDomain(D)), HrefKey + (W + Z))
  {
    var t := HrefKey + (W + Z);
    CatParts(HrefKey, W + Z);
    WQuoteFree();
    QuoteFreeIs(W + Z, |W|);
    assert t[|HrefKey|..|HrefKey| + |W|] == W;
    WNotOnDomain();
  }

  /** The comment is not a URL on the domain. */
  lemma WNotOnDomain()
    ensures !OnDomain(D)(W)
  {
    assert W[0] == '<';
    NotStarts(W, "https://" + D);
    NotStarts(W, "http://" + D);
  }

  lemma NotStarts(s: string, p: string)
    requires |p| > 0 && |s| > 0 && s[0] != p[0]
    ensures !StartsWith(s, p)
  {
    if |p| <= |s| {
      assert s[..|p|][0] == s[0];
    }
  }

  lemma HrefAfter()
    ensures forall i :: 0 <= i < |(HrefKey + (W + Z))[1..]| ==>
      !MatchesAt(UnitMatcher(HrefKey, false, OnDomain(D)), (HrefKey + (W + Z))[1..][i..])
  {
    WZNoPair();
    HrefTailNoPair(W + Z);
    NoUnitIn((HrefKey + (W + Z))[1..], OnDomain(D));
  }

  /** No `href="` unit starts in a text without `h` followed by `r`. */
  lemma NoUnitIn(y: string, accept: string -> bool)
    requires NoPair(y, 'h', 'r')
    ensures forall i :: 0 <= i < |y| ==> !MatchesAt(UnitMatcher(HrefKey, false, accept), y[i..])
  {
    HrefUnitStarts(accept);
    NoMatchIn(y, "", UnitMatcher(HrefKey, false, accept), 'h', 'r');
    assert y + "" == y;
  }

  /** The bare-domain pattern finds the domain's text inside the first comment. */
  lemma BareFound()
    ensures FindAll(S1, UrlAt(D)) == [DU]
  {
    var r := RemovedClose + Z;
    S1Regroup();
    BareBefore();
    BareAtDU();
    BareAfter();
    FindAllOne(A3, DU, r, UrlAt(D));
  }

  lemma BareBefore()
    ensures forall i :: 0 <= i < |A3| ==> !MatchesAt(UrlAt(D), (A3 + (DU + (RemovedClose + Z)))[i..])
  {
    BareStarts();
    A3NoPair();
    NoMatchIn(A3, DU + (RemovedClose + Z), UrlAt(D), 'w', 'e');
  }

  lemma BareAtDU()
    ensures UrlAt(D)(DU + (RemovedClose + Z)) == |DU|
  {
    var r := RemovedClose + Z;
    Assoc(D, "/a", r);
    CatParts(D, "/a" + r);
    SlashRun(r);
  }

  lemma BareAfter()
    ensures forall i :: 0 <= i < |RemovedClose + Z| ==> !MatchesAt(UrlAt(D), (RemovedClose + Z)[i..])
  {
    var r := RemovedClose + Z;
    BareStarts();
    NoPairAbsent(r, 'w', 'e');
    NoMatchIn(r, "", UrlAt(D), 'w', 'e');
    assert r + "" == r;
  }

  /** The domain's text is wrapped once more. */
  lemma BareWrapped()
    ensures WrapFound(S1, [DU]) == (S2, 1)
  {
    var r := RemovedClose + Z;
    WrapFoundOne(S1, DU);
    S1Regroup();
    ContainsMid(A3, DU, r);
    ShortNoContains(r, DU);
    assert DU[0] == 'w' && DU[1] == 'e';
    LiteralStarts(DU);
    A3NoPair();
    NoMatchIn(A3, DU + r, Literal(DU), 'w', 'e');
    ReplaceAllAfter(A3, DU, r, WD);
  }

  lemma S1Regroup()
    ensures S1 == A3 + (DU + (RemovedClose + Z))
  {
    Regroup6(A0, RemovedOpen, "https://", DU, RemovedClose, Z);
  }

  // ---------------------------------------------------------------------
  // The area step.

  /** The area pattern matches the whole tag, so it is the one area found. */
  lemma AreaFound()
    ensures DomainAreas(S2, D) == [S2]
  {
    AreaWhole();
    assert S2 + "" == S2 && "" + (S2 + "") == S2;
    FindAllOne("", S2, "", DomainArea(D));
  }

  lemma AreaWhole()
    ensures DomainAreaLen(S2, D) == |S2|
  {
    var x := AT + (HrefKey + (V + Z));
    S2Regroup();
    CatParts("<area", x);
    AfterWhole();
  }

  lemma S2Regroup()
    ensures S2 == "<area" + (AT + (HrefKey + (V + Z)))
  {
    Regroup8("<area", AT, HrefKey, RemovedOpen, "https://", WD, RemovedClose, Z);
  }

  /** After `<area`, the last `href="` before the first '>' is the tag's own, and its tail runs to the end. */
  lemma AfterWhole()
    ensures AfterAreaLen(AT + (HrefKey + (V + Z)), D) == |AT + (HrefKey + (V + Z))|
  {
    var x := AT + (HrefKey + (V + Z));
    var k := |AT|;
    CatParts(AT, HrefKey + (V + Z));
    CatParts(HrefKey, V + Z);
    assert x[k + |HrefKey|..] == V + Z;
    TailWhole();
    assert HrefHere(x, k, D);
    ATChars();
    GtFreePast(AT, HrefKey + (V + Z));
    NoLaterHref();
    LastWhereIs((j: nat) => HrefHere(x, j, D), k, GtFree(x));
  }

  lemma TailWhole()
    ensures HrefTailLen(V + Z, D) == |V| + 2
  {
    VQuoteFree();
    VNamesDomain();
    HrefTailFound(V, "", "", D);
    assert V + "\"" + "" + ">" + "" == V + Z;
  }

  lemma NoLaterHref()
    ensures var x := AT + (HrefKey + (V + Z));
      forall j :: |AT| < j <= |x| ==> !HrefHere(x, j, D)
  {
    var x := AT + (HrefKey + (V + Z));
    var k := |AT|;
    CatParts(AT, HrefKey + (V + Z));
    assert x[k + 1..] == (HrefKey + (V + Z))[1..];
    VZNoPair();
    HrefTailNoPair(V + Z);
    NoKeyPast(x, k, HrefKey);
  }

  /** The area tag disabled: its one `href="..."` attribute is removed. */
  lemma Disabled()
    ensures Disable(S2) == P0 + ">"
  {
    DisabledSkip();
    DisabledHref();
  }

  lemma DisabledSkip()
    ensures Rewrite(S2, UnitMatcher(HrefKey, false, AnyValue), "")
      == P0 + Rewrite(HrefKey + (V + Z), UnitMatcher(HrefKey, false, AnyValue), "")
  {
    S2AsP0();
    DisabledBefore();
    RewriteSkip(P0, HrefKey + (V + Z), UnitMatcher(HrefKey, false, AnyValue), "");
  }

  lemma DisabledBefore()
    ensures forall i :: 0 <= i < |P0| ==>
      !MatchesAt(UnitMatcher(HrefKey, false, AnyValue), (P0 + (HrefKey + (V + Z)))[i..])
  {
    HrefUnitStarts(AnyValue);
    P0NoPair('r');
    NoMatchIn(P0, HrefKey + (V + Z), UnitMatcher(HrefKey, false, AnyValue), 'h', 'r');
  }

  lemma S2AsP0()
    ensures S2 == P0 + (HrefKey + (V + Z))
  {
    S2Regroup();
    Assoc("<area", AT, HrefKey + (V + Z));
  }

  lemma DisabledHref()
    ensures Rewrite(HrefKey + (V + Z), UnitMatcher(HrefKey, false, AnyValue), "") == ">"
  {
    var m := UnitMatcher(HrefKey, false, AnyValue);
    var t := HrefKey + (V + Z);
    CatParts(HrefKey, V + Z);
    VQuoteFree();
    QuoteFreeIs(V + Z, |V|);
    assert m(t) == |V| + 7;
    assert t[|V| + 7..] == ">";
    assert !MatchesAt(m, ">");
    FindAllNone(">", m);
    RewriteNoMatch(">", m, "");
  }

  // ---------------------------------------------------------------------
  // Facts about the pieces.

  lemma A0NoPair(c2: char)
    requires c2 == 't' || c2 == 'r'
    ensures c2 == 't' ==> NoPair(A0, 'h', c2)
  {
    P0NoPair(c2);
    if c2 == 't' {
      assert NoPair(HrefKey, 'h', 't');
      NoPairCat(P0, HrefKey, 'h', 't');
    }
  }

  lemma P0NoPair(c2: char)
    requires c2 == 't' || c2 == 'r'
    ensures NoPair(P0, 'h', c2)
  {
    NoPairAbsent("<area", 'h', c2);
    assert NoPair(AT, 'h', c2);
    NoPairCat("<area", AT, 'h', c2);
  }

  lemma BareStarts()
    ensures forall t :: MatchesAt(UrlAt(D), t) ==> |t| >= 2 && t[0] == 'w' && t[1] == 'e'
  {
    UrlAtStarts(D);
  }

  lemma HrefUnitStarts(accept: string -> bool)
    ensures forall t :: MatchesAt(UnitMatcher(HrefKey, false, accept), t) ==> |t| >= 2 && t[0] == 'h' && t[1] == 'r'
  {
    UnitStarts(HrefKey, accept);
  }

  /** Past its `h`, the key followed by a pair-free text has no pair. */
  lemma HrefTailNoPair(r: string)
    requires NoPair(r, 'h', 'r')
    ensures NoPair((HrefKey + r)[1..], 'h', 'r')
  {
    var k := "ref=\"";
    assert (HrefKey + r)[1..] == k + r;
    NoPairAbsent(k, 'h', 'r');
    NoPairCat(k, r, 'h', 'r');
  }

  lemma WZNoPair()
    ensures NoPair(W + Z, 'h', 'r')
  {
    WNoPair();
    NoPairAbsent(Z, 'h', 'r');
    NoPairCat(W, Z, 'h', 'r');
  }

  lemma VZNoPair()
    ensures NoPair(V + Z, 'h', 'r')
  {
    VNoPair();
    NoPairAbsent(Z, 'h', 'r');
    NoPairCat(V, Z, 'h', 'r');
  }

  lemma A3NoPair()
    ensures NoPair(A3, 'w', 'e')
  {
    A3Chars();
    NoPairAbsent(A3, 'w', 'e');
  }

  lemma A3Chars()
    ensures 'w' !in A3
  {
    assert 'w' !in P0;
  }

  lemma ATChars()
    ensures '>' !in AT
  {
  }

  lemma UQuoteFree()
    ensures '"' !in U && '"' !in DU
  {
    assert '"' !in D && '"' !in "/a" && '"' !in "https://";
  }

  lemma CommentQuoteFree()
    ensures '"' !in RemovedOpen && '"' !in RemovedClose
  {
  }

  lemma WQuoteFree()
    ensures '"' !in W
  {
    UQuoteFree();
    CommentQuoteFree();
  }

  lemma VQuoteFree()
    ensures '"' !in V
  {
    UQuoteFree();
    CommentQuoteFree();
    assert '"' !in WD && '"' !in "https://";
  }

  /** The domain's text, the URL and the comments never hold `h` followed by `r`. */
  lemma UNoPair()
    ensures NoPair(U, 'h', 'r') && NoPair(DU, 'h', 'r')
  {
    assert NoPair("https://", 'h', 'r');
    assert NoPair(D, 'h', 'r');
    NoPairAbsent("/a", 'h', 'r');
    NoPairCat(D, "/a", 'h', 'r');
    NoPairCat("https://", DU, 'h', 'r');
  }

  lemma WNoPair()
    ensures NoPair(W, 'h', 'r')
  {
    UNoPair();
    NoPairAbsent(RemovedOpen, 'h', 'r');
    NoPairAbsent(RemovedClose, 'h', 'r');
    NoPairCat(RemovedOpen, U, 'h', 'r');
    NoPairCat(RemovedOpen + U, RemovedClose, 'h', 'r');
  }

  lemma VNoPair()
    ensures NoPair(V, 'h', 'r')
  {
    UNoPair();
    NoPairAbsent(RemovedOpen, 'h', 'r');
    NoPairAbsent(RemovedClose, 'h', 'r');
    assert NoPair("https://", 'h', 'r');
    NoPairCat(RemovedOpen, DU, 'h', 'r');
    NoPairCat(RemovedOpen + DU, RemovedClose, 'h', 'r');
    NoPairCat(RemovedOpen, "https://", 'h', 'r');
    NoPairCat(RemovedOpen + "https://", WD, 'h', 'r');
    NoPairCat(RemovedOpen + "https://" + WD, RemovedClose, 'h', 'r');
  }

  /** The link's value names the domain, inside the inner comment. */
  lemma VNamesDomain()
    ensures Contains(V, D)
  {
    DUNamesDomain();
    WDNamesDU();
    VNamesWD();
    ContainsTrans(V, WD, DU);
    ContainsTrans(V, DU, D);
  }

  lemma DUNamesDomain()
    ensures Contains(DU, D)
  {
    CatParts(D, "/a");
    ContainsPrefix(D, D, DU);
  }

  lemma WDNamesDU()
    ensures Contains(WD, DU)
  {
    Assoc(RemovedOpen, DU, RemovedClose);
    ContainsMid(RemovedOpen, DU, RemovedClose);
  }

  lemma VNamesWD()
    ensures Contains(V, WD)
  {
    Assoc(RemovedOpen + "https://", WD, RemovedClose);
    ContainsMid(RemovedOpen + "https://", WD, RemovedClose);
  }

  /** `/a` followed by a quote or a space is a run of two. */
  lemma SlashRun(r: string)
    requires |r| > 0 && (r[0] == '"' || r[0] == ' ')
    ensures UrlRun("/a" + r) == 2
  {
    UrlRunIs("/a" + r, 2);
  }

  // ---------------------------------------------------------------------
  // Text lemmas.

  lemma Assoc(a: string, b: string, c: string)
    ensures (a + b) + c == a + (b + c)
  {
  }

  lemma Cat4(x: string, y: string, z: string, w: string)
    ensures (x + (y + z)) + w == (x + y) + (z + w)
  {
  }

  lemma CatParts(x: string, r: string)
    ensures (x + r)[..|x|] == x && (x + r)[|x|..] == r
  {
  }

  lemma Regroup7(p: string, a1: string, a2: string, k: string, h: string, du: string, z: string)
    ensures ((p + (a1 + a2)) + k) + ((h + du) + z) == (((p + a1) + a2) + (k + h)) + (du + z)
  {
  }

  lemma Regroup6(a: string, o: string, h: string, d: string, c: string, z: string)
    ensures a + (((o + (h + d)) + c) + z) == ((a + o) + h) + (d + (c + z))
  {
  }

  lemma Regroup8(p: string, at: string, k: string, o: string, h: string, wd: string, c: string, z: string)
    ensures (((p + at) + k) + o + h) + (wd + (c + z)) == p + (at + (k + ((o + h + wd + c) + z)))
  {
  }

  /** A text in the middle of a concatenation occurs in it. */
  lemma ContainsMid(a: string, x: string, r: string)
    ensures Contains(a + (x + r), x)
  {
    var s := a + (x + r);
    assert s[|a|..|a| + |x|] == x;
    ContainsAt(s, x, |a|);
  }

  /** Past a `'>'`-free stretch, the first '>' is no earlier than its end. */
  lemma GtFreePast(a: string, r: string)
    requires '>' !in a
    ensures GtFree(a + r) >= |a|
  {
    var s := a + r;
    forall i | 0 <= i < |a|
      ensures s[i] != '>'
    {
      assert s[i] == a[i] && a[i] in a;
    }
  }

  /** A key of two characters or more starts nowhere past `k` when the text after `k` has no pair of its first two. */
  lemma NoKeyPast(x: string, k: nat, key: string)
    requires |key| >= 2 && k < |x| && NoPair(x[k + 1..], key[0], key[1])
    ensures forall j :: k < j <= |x| ==> !StartsWith(x[j..], key)
  {
    var y := x[k + 1..];
    forall j | k < j <= |x|
      ensures !StartsWith(x[j..], key)
    {
      if j + |key| <= |x| {
        assert y[j - k - 1] == x[j];
        if x[j] == key[0] {
          assert y[j - k] == x[j + 1] == x[j..][..|key|][1];
        } else {
          assert x[j..][..|key|][0] == x[j];
        }
      }
    }
  }
}
