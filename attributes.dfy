/**
 * Scanning HTML text for quoted attribute values: the behaviour of the
 * scripts' `re.findall(r'src="([^"]*\.gif)"', text)` and
 * `re.sub(r'src="...\.gif"', replacement, text)` style patterns. A unit is a
 * key that ends with the opening quote (`src="`, `href="`), a value without
 * quotes, and the closing quote; the pattern fixes which values it accepts.
 */
module Attributes {
  import opened Strings
  import opened Rewriting

  /** The index of the first '"' in `s`, or |s| when there is none. */
  function QuoteFree(s: string): (n: nat)
    ensures n <= |s|
    decreases |s|
  {
    if |s| == 0 || s[0] == '"' then 0 else 1 + QuoteFree(s[1..])
  }

  /** Before index `QuoteFree(s)` there is no quote, and at it there is one. */
  lemma {:induction false} QuoteFreeSpec(s: string)
    ensures forall i :: 0 <= i < QuoteFree(s) ==> s[i] != '"'
    ensures QuoteFree(s) < |s| ==> s[QuoteFree(s)] == '"'
    decreases |s|
  {
    if |s| > 0 && s[0] != '"' {
      QuoteFreeSpec(s[1..]);
      assert forall i :: 1 <= i < QuoteFree(s) ==> s[i] == s[1..][i - 1];
    }
  }

  /** The first quote is determined by the characters before it. */
  lemma {:induction false} QuoteFreeIs(s: string, n: nat)
    requires n <= |s|
    requires forall i :: 0 <= i < n ==> s[i] != '"'
    requires n < |s| ==> s[n] == '"'
    ensures QuoteFree(s) == n
    decreases n
  {
    if n > 0 {
      assert forall i :: 0 <= i < n - 1 ==> s[1..][i] == s[i + 1];
      QuoteFreeIs(s[1..], n - 1);
    }
  }

  /** A text that starts with `src="` has its first quote at index 4. */
  lemma KeyQuote(s: string)
    requires StartsWith(s, SrcKey)
    ensures QuoteFree(s) == 4 && s[..4] == "src="
  {
    assert forall j :: 0 <= j < 5 ==> s[j] == s[..5][j];
    QuoteFreeIs(s, 4);
  }

  /** `key` begins `t`, compared ASCII-case-insensitively when `ci` (the regex flag `re.IGNORECASE`). */
  predicate KeyAt(t: string, key: string, ci: bool) {
    |key| <= |t| && (if ci then Lower(t[..|key|]) == Lower(key) else t[..|key|] == key)
  }

  /** The length of the unit with an accepted value at the front of `t`, 0 when there is none. */
  function UnitLen(t: string, key: string, ci: bool, accept: string -> bool): (n: nat)
    ensures n == 0 || |key| < n <= |t|
    ensures n > 0 <==> KeyAt(t, key, ci) && QuoteFree(t[|key|..]) < |t| - |key|
                       && accept(t[|key|..|key| + QuoteFree(t[|key|..])])
    ensures n > 0 ==> n == |key| + QuoteFree(t[|key|..]) + 1
  {
    if KeyAt(t, key, ci) then
      var v := QuoteFree(t[|key|..]);
      if v < |t| - |key| && accept(t[|key|..|key| + v]) then |key| + v + 1 else 0
    else 0
  }

  /** Every unit starts with the first two characters of its key. */
  lemma UnitStarts(key: string, accept: string -> bool)
    requires |key| >= 2
    ensures forall t :: MatchesAt(UnitMatcher(key, false, accept), t) ==> |t| >= 2 && t[0] == key[0] && t[1] == key[1]
  {
    forall t | MatchesAt(UnitMatcher(key, false, accept), t)
      ensures |t| >= 2 && t[0] == key[0] && t[1] == key[1]
    {
      assert t[..|key|] == key;
      assert t[0] == t[..|key|][0] && t[1] == t[..|key|][1];
    }
  }

  /** The regex as a matcher for `Rewrite`. */
  function UnitMatcher(key: string, ci: bool, accept: string -> bool): Matcher {
    (t: string) => UnitLen(t, key, ci, accept)
  }

  /** `re.findall`: the accepted values, left to right, of units that do not overlap. */
  function Values(t: string, key: string, ci: bool, accept: string -> bool): (r: seq<string>)
    ensures forall v :: v in r ==> accept(v) && '"' !in v
    ensures forall v :: v in r ==> Contains(t, v)
    decreases |t|
  {
    if |t| == 0 then []
    else
      var n := UnitLen(t, key, ci, accept);
      if n > 0 then
        var v := t[|key|..n - 1];
        QuoteFreeSpec(t[|key|..]);
        assert forall i :: 0 <= i < |v| ==> v[i] == t[|key|..][i];
        ContainsAt(t, v, |key|);
        var rest := Values(t[n..], key, ci, accept);
        forall w | w in rest ensures Contains(t, w) {
          ContainsSuffix(t, w, n);
        }
        [v] + rest
      else
        var rest := Values(t[1..], key, ci, accept);
        forall w | w in rest ensures Contains(t, w) {
          ContainsSuffix(t, w, 1);
        }
        rest
  }

  /** `re.sub`: every unit with an accepted value is replaced by `rep`. */
  function Sub(t: string, key: string, ci: bool, accept: string -> bool, rep: string): string {
    Rewrite(t, UnitMatcher(key, ci, accept), rep)
  }

  /** `re.findall` finds exactly as many units as `re.sub` replaces. */
  lemma {:induction false} ValuesCount(t: string, key: string, ci: bool, accept: string -> bool)
    ensures |Values(t, key, ci, accept)| == MatchCount(t, UnitMatcher(key, ci, accept))
    decreases |t|
  {
    if |t| > 0 {
      var n := UnitLen(t, key, ci, accept);
      if n > 0 {
        ValuesCount(t[n..], key, ci, accept);
      } else {
        ValuesCount(t[1..], key, ci, accept);
      }
    }
  }

  /** A text in which the pattern finds nothing is left unchanged by `re.sub`. */
  lemma NoValuesNoChange(t: string, key: string, ci: bool, accept: string -> bool, rep: string)
    requires Values(t, key, ci, accept) == []
    ensures Sub(t, key, ci, accept, rep) == t
  {
    ValuesCount(t, key, ci, accept);
    RewriteNoMatch(t, UnitMatcher(key, ci, accept), rep);
  }

  /** A pattern whose values are among another's finds nothing where the other finds nothing. */
  lemma {:induction false} ValuesNarrower(t: string, key: string, ci: bool, wide: string -> bool, narrow: string -> bool)
    requires forall v :: narrow(v) ==> wide(v)
    requires Values(t, key, ci, wide) == []
    ensures Values(t, key, ci, narrow) == []
    decreases |t|
  {
    if |t| > 0 {
      ValuesNarrower(t[1..], key, ci, wide, narrow);
    }
  }

  /** A stretch in which no unit starts contributes no value. */
  lemma {:induction false} ValuesSkip(a: string, x: string, key: string, ci: bool, accept: string -> bool)
    requires forall i :: 0 <= i < |a| ==> UnitLen((a + x)[i..], key, ci, accept) == 0
    ensures Values(a + x, key, ci, accept) == Values(x, key, ci, accept)
    decreases |a|
  {
    if |a| == 0 {
      assert a + x == x;
    } else {
      assert (a + x)[0..] == a + x;
      assert (a + x)[1..] == a[1..] + x;
      forall i | 0 <= i < |a[1..]|
        ensures UnitLen((a[1..] + x)[i..], key, ci, accept) == 0
      {
        assert (a[1..] + x)[i..] == (a + x)[i + 1..];
      }
      ValuesSkip(a[1..], x, key, ci, accept);
    }
  }

  // ---------------------------------------------------------------------
  // Replacing `src="..."` units by a fixed `src="R"` unit.

  const SrcKey: string := "src=\""

  /** The unit `src="v"`. */
  function SrcUnit(v: string): (u: string)
    ensures |u| == |v| + 6 && u[..5] == SrcKey && u[5..|v| + 5] == v && u[|v| + 5] == '"'
  {
    SrcKey + v + "\""
  }

  /** `re.sub` of case-sensitive `src="..."` units by `src="r"`. */
  function SrcSub(t: string, accept: string -> bool, r: string): string {
    Sub(t, SrcKey, false, accept, SrcUnit(r))
  }

  /** A replacement value that can be substituted repeatedly without creating new units. */
  predicate SafeValue(r: string, accept: string -> bool) {
    '"' !in r && !accept(r) && !EndsWith(r, "src=")
  }

  /** The only quotes of `src="v"` are its two delimiters. */
  lemma UnitQuotes(v: string, k: nat)
    requires '"' !in v && k < |SrcUnit(v)|
    ensures SrcUnit(v)[k] == '"' <==> k == 4 || k == |v| + 5
  {
    var u := SrcUnit(v);
    if 5 <= k < |v| + 5 {
      assert u[k] == u[5..|v| + 5][k - 5];
      assert u[k] == v[k - 5];
    } else if k < 5 {
      assert u[k] == u[..5][k];
    }
  }

  /** `src="v"` does not occur in a different unit `src="r"`. */
  lemma UnitNotContained(v: string, r: string)
    requires '"' !in v && '"' !in r && v != r
    ensures !Contains(SrcUnit(r), SrcUnit(v))
  {
    var u, q := SrcUnit(r), SrcUnit(v);
    var found := IndexOf(u, q);
    if found.Some? {
      UnitOccurrence(v, r, found.value);
    }
  }

  /** Where `src="v"` occurs in `src="r"`, the two values agree. */
  lemma UnitOccurrence(v: string, r: string, i: nat)
    requires '"' !in v && '"' !in r
    requires i + |SrcUnit(v)| <= |SrcUnit(r)| && SrcUnit(r)[i..i + |SrcUnit(v)|] == SrcUnit(v)
    ensures v == r
  {
    var u, q := SrcUnit(r), SrcUnit(v);
    assert u[i..i + |q|][4] == q[4];
    UnitQuotes(r, i + 4);
    UnitQuotes(v, 4);
    assert u[i..i + |q|][|q| - 1] == q[|q| - 1];
    UnitQuotes(r, i + |q| - 1);
    UnitQuotes(v, |q| - 1);
    assert u == q;
    assert v == u[5..|r| + 5];
  }

  /** No proper prefix of `src="v"` ends `src="r"`, unless `r` ends with `src=`. */
  lemma UnitNoBorder(v: string, r: string)
    requires '"' !in v && '"' !in r && !EndsWith(r, "src=")
    ensures NoBorder(SrcUnit(r), SrcUnit(v))
  {
    var u, q := SrcUnit(r), SrcUnit(v);
    forall k | 0 < k < |q| && k <= |u|
      ensures u[|u| - k..] != q[..k]
    {
      UnitQuotes(v, k - 1);
      UnitQuotes(r, |u| - 1);
      if k != 5 {
        assert u[|u| - k..][k - 1] == u[|u| - 1];
        assert q[..k][k - 1] == q[k - 1];
      } else if |r| >= 4 {
        assert u[|u| - 5..][..4] == r[|r| - 4..];
        assert q[..5][..4] == "src=";
      } else {
        UnitQuotes(r, 4);
        assert u[|u| - 5..][3 - |r|] == u[4];
        assert q[..5][3 - |r|] == SrcKey[3 - |r|];
      }
    }
  }

  /** No `src="` begins strictly inside `src="r"`. */
  lemma NoKeyInside(r: string, x: string, i: nat)
    requires '"' !in r && !EndsWith(r, "src=")
    requires 0 < i < |SrcUnit(r)|
    ensures !KeyAt((SrcUnit(r) + x)[i..], SrcKey, false)
  {
    var u := SrcUnit(r);
    var t := (u + x)[i..];
    UnitQuotes(r, |u| - 1);
    if i + 4 < |u| - 1 {
      UnitQuotes(r, i + 4);
      assert t[4] == u[i + 4];
      KeyMismatch(t, 4);
    } else if i + 4 == |u| - 1 {
      if |r| >= 4 {
        assert t[..4] == r[|r| - 4..];
        KeyTailMismatch(t, r);
      } else {
        UnitQuotes(r, 4);
        assert t[4 - i] == u[4];
        KeyMismatch(t, 4 - i);
      }
    } else {
      assert t[|u| - 1 - i] == u[|u| - 1];
      KeyMismatch(t, |u| - 1 - i);
    }
  }

  /** A quote among the first four characters, or a fifth character other than a quote, rules out `src="`. */
  lemma KeyMismatch(t: string, k: nat)
    requires k < 5 && (|t| < 5 || (k < 4 <==> t[k] == '"'))
    ensures !KeyAt(t, SrcKey, false)
  {
    if |t| >= 5 {
      assert t[..5][k] == t[k];
    }
  }

  /** Four characters that are not `src=` rule out `src="`. */
  lemma KeyTailMismatch(t: string, r: string)
    requires |r| >= 4 && !EndsWith(r, "src=") && |t| >= 4 && t[..4] == r[|r| - 4..]
    ensures !KeyAt(t, SrcKey, false)
  {
    if |t| >= 5 {
      assert t[..5][..4] == t[..4];
    }
  }

  /** No accepted unit starts anywhere inside `src="r"`. */
  lemma ReplacementUnitFree(r: string, accept: string -> bool, x: string)
    requires SafeValue(r, accept)
    ensures forall i :: 0 <= i < |SrcUnit(r)| ==> UnitLen((SrcUnit(r) + x)[i..], SrcKey, false, accept) == 0
  {
    var u := SrcUnit(r);
    forall i | 0 <= i < |u|
      ensures UnitLen((u + x)[i..], SrcKey, false, accept) == 0
    {
      if i == 0 {
        var t := (u + x)[5..];
        forall j | 0 <= j < |r| ensures t[j] != '"' {
          assert t[j] == u[5..|r| + 5][j];
        }
        assert t[|r|] == u[|r| + 5];
        QuoteFreeIs(t, |r|);
        assert (u + x)[0..][5..5 + |r|] == r;
      } else {
        NoKeyInside(r, x, i);
      }
    }
  }

  /** Substitution keeps the text before the first quote, and whether there is one. */
  lemma {:induction false} QuoteFreeSub(x: string, accept: string -> bool, r: string)
    ensures QuoteFree(SrcSub(x, accept, r)) == QuoteFree(x)
    ensures SrcSub(x, accept, r)[..QuoteFree(x)] == x[..QuoteFree(x)]
    ensures QuoteFree(x) < |x| <==> QuoteFree(SrcSub(x, accept, r)) < |SrcSub(x, accept, r)|
    decreases |x|
  {
    var m := UnitMatcher(SrcKey, false, accept);
    var u := SrcUnit(r);
    var y := SrcSub(x, accept, r);
    if |x| == 0 {
    } else if MatchesAt(m, x) {
      KeyQuote(x);
      var rest := Rewrite(x[m(x)..], m, u);
      assert y == u + rest;
      assert (u + rest)[..5] == SrcKey;
      KeyQuote(y);
    } else {
      var y' := SrcSub(x[1..], accept, r);
      QuoteFreeSub(x[1..], accept, r);
      assert y == [x[0]] + y';
      QuoteFreeCons(x[0], x[1..], y');
    }
  }

  /** The first quote of `[c] + s` follows from that of `s`. */
  lemma QuoteFreeCons(c: char, s: string, s': string)
    requires QuoteFree(s') == QuoteFree(s) && s'[..QuoteFree(s)] == s[..QuoteFree(s)]
    requires QuoteFree(s) < |s| <==> QuoteFree(s') < |s'|
    ensures QuoteFree([c] + s') == QuoteFree([c] + s)
    ensures ([c] + s')[..QuoteFree([c] + s)] == ([c] + s)[..QuoteFree([c] + s)]
    ensures QuoteFree([c] + s) < |[c] + s| <==> QuoteFree([c] + s') < |[c] + s'|
  {
    var n := QuoteFree(s);
    var cs, cs' := [c] + s, [c] + s';
    QuoteFreeFront(c, s);
    QuoteFreeFront(c, s');
    var m := QuoteFree(cs);
    if c == '"' {
      assert cs'[..m] == [] == cs[..m];
    } else {
      assert m == n + 1;
      ConsPrefix(c, s, n);
      ConsPrefix(c, s', n);
    }
  }

  /** A prefix of `[c] + s` is `c` followed by a prefix of `s`. */
  lemma ConsPrefix(c: char, s: string, n: nat)
    requires n <= |s|
    ensures ([c] + s)[..n + 1] == [c] + s[..n]
  {
  }

  /** The first quote of `[c] + s`, from the first quote of `s`. */
  lemma QuoteFreeFront(c: char, s: string)
    ensures QuoteFree([c] + s) == if c == '"' then 0 else 1 + QuoteFree(s)
  {
    assert ([c] + s)[0] == c;
    assert ([c] + s)[1..] == s;
  }

  /**
   * Where no unit of `check` starts and `hit` does not match, substituting
   * the units of `hit` starts no unit of `check` there either.
   */
  lemma UnitStaysAbsent(t: string, hit: string -> bool, check: string -> bool, r: string)
    requires |t| > 0 && UnitLen(t, SrcKey, false, hit) == 0 && UnitLen(t, SrcKey, false, check) == 0
    ensures UnitLen(SrcSub(t, hit, r), SrcKey, false, check) == 0
  {
    if !KeyAt(t, SrcKey, false) {
      NoKeyStaysAbsent(t, hit, r);
    } else {
      KeyStaysAbsent(t, hit, check, r);
    }
  }

  /** Without `src="` at the front, substitution puts none there. */
  lemma NoKeyStaysAbsent(t: string, hit: string -> bool, r: string)
    requires |t| > 0 && !KeyAt(t, SrcKey, false)
    ensures !KeyAt(SrcSub(t, hit, r), SrcKey, false)
  {
    var m := UnitMatcher(SrcKey, false, hit);
    var u := SrcUnit(r);
    var y := SrcSub(t, hit, r);
    assert y == [t[0]] + SrcSub(t[1..], hit, r);
    if KeyAt(y, SrcKey, false) {
      assert y[..5] == SrcKey;
      assert y[1..][..4] == y[..5][1..];
      RewritePrefix(t[1..], m, u, "rc=\"");
      assert false;
    }
  }

  /** With `src="` at the front but no unit of `hit`, substitution keeps the key and the value up to its closing quote. */
  lemma KeyStaysAbsent(t: string, hit: string -> bool, check: string -> bool, r: string)
    requires KeyAt(t, SrcKey, false) && UnitLen(t, SrcKey, false, hit) == 0 && UnitLen(t, SrcKey, false, check) == 0
    ensures UnitLen(SrcSub(t, hit, r), SrcKey, false, check) == 0
  {
    var y, x := SrcSub(t, hit, r), t[5..];
    KeySub(t, hit, r);
    QuoteFreeSub(x, hit, r);
    assert y[5..] == SrcSub(x, hit, r);
    var n := QuoteFree(x);
    if n < |x| {
      assert y[5..5 + n] == SrcSub(x, hit, r)[..n];
      assert t[5..5 + n] == x[..n];
    }
  }

  /** A `src="` that starts no unit of `hit` is kept, and substitution goes on after it. */
  lemma KeySub(t: string, hit: string -> bool, r: string)
    requires KeyAt(t, SrcKey, false) && UnitLen(t, SrcKey, false, hit) == 0
    ensures SrcSub(t, hit, r) == SrcKey + SrcSub(t[5..], hit, r)
  {
    var m := UnitMatcher(SrcKey, false, hit);
    var a, x := t[..5], t[5..];
    assert a + x == t;
    forall i | 0 <= i < |a| ensures !MatchesAt(m, (a + x)[i..]) {
      if i > 0 {
        assert (a + x)[i..][0] == SrcKey[i];
      }
    }
    RewriteSkip(a, x, m, SrcUnit(r));
  }

  /** The pattern finds nothing exactly when no unit it accepts starts anywhere. */
  lemma {:induction false} ValuesEmptyIff(t: string, key: string, ci: bool, accept: string -> bool)
    ensures Values(t, key, ci, accept) == [] <==> forall i :: 0 <= i < |t| ==> UnitLen(t[i..], key, ci, accept) == 0
    decreases |t|
  {
    if |t| > 0 {
      ValuesEmptyIff(t[1..], key, ci, accept);
      assert forall i :: 1 <= i < |t| ==> t[i..] == t[1..][i - 1..];
      assert t[0..] == t;
    }
  }

  /**
   * Substituting the units of `hit` by a replacement that `check` rejects
   * leaves no unit of `check`, provided there was none to begin with or every
   * value `check` accepts is one `hit` replaces.
   */
  lemma {:induction false} SubKeepsClear(t: string, hit: string -> bool, check: string -> bool, r: string)
    requires SafeValue(r, check)
    requires Values(t, SrcKey, false, check) == [] || forall v :: check(v) ==> hit(v)
    ensures Values(SrcSub(t, hit, r), SrcKey, false, check) == []
    decreases |t|
  {
    var m := UnitMatcher(SrcKey, false, hit);
    var u := SrcUnit(r);
    if |t| == 0 {
    } else if MatchesAt(m, t) {
      var k := m(t);
      if Values(t, SrcKey, false, check) == [] {
        ValuesEmptyIff(t, SrcKey, false, check);
        assert forall i :: 0 <= i < |t[k..]| ==> t[k..][i..] == t[k + i..];
        ValuesEmptyIff(t[k..], SrcKey, false, check);
      }
      var rest := SrcSub(t[k..], hit, r);
      SubKeepsClear(t[k..], hit, check, r);
      ReplacementUnitFree(r, check, rest);
      ValuesSkip(u, rest, SrcKey, false, check);
    } else {
      var y := SrcSub(t, hit, r);
      UnitStaysAbsent(t, hit, check, r);
      SubKeepsClear(t[1..], hit, check, r);
      assert y[1..] == SrcSub(t[1..], hit, r);
    }
  }

  /** `re.sub` with a safe replacement is idempotent. */
  lemma SubIdempotent(t: string, accept: string -> bool, r: string)
    requires SafeValue(r, accept)
    ensures SrcSub(SrcSub(t, accept, r), accept, r) == SrcSub(t, accept, r)
  {
    SubKeepsClear(t, accept, accept, r);
    NoValuesNoChange(SrcSub(t, accept, r), SrcKey, false, accept, SrcUnit(r));
  }

  /** A unit `src="v"` written out literally is found by a pattern that accepts `v`. */
  lemma LiteralUnitFound(t: string, v: string, accept: string -> bool)
    requires '"' !in v && StartsWith(t, SrcUnit(v))
    ensures UnitLen(t, SrcKey, false, accept) > 0 <==> accept(v)
    ensures accept(v) ==> t[5..UnitLen(t, SrcKey, false, accept) - 1] == v
  {
    var u := SrcUnit(v);
    assert t[..|u|] == u;
    assert t[..5] == u[..5];
    var x := t[5..];
    forall j | 0 <= j < |v| ensures x[j] != '"' {
      assert x[j] == u[5..|v| + 5][j];
    }
    assert x[|v|] == u[|v| + 5];
    QuoteFreeIs(x, |v|);
    assert t[5..5 + |v|] == u[5..|v| + 5];
  }

  /** If the pattern finds nothing, no literal `src="v"` with an accepted `v` is left. */
  lemma {:induction false} NoValuesNoLiteral(t: string, v: string, accept: string -> bool)
    requires '"' !in v && accept(v)
    requires Values(t, SrcKey, false, accept) == []
    ensures !Contains(t, SrcUnit(v))
    decreases |t|
  {
    if |t| > 0 {
      if StartsWith(t, SrcUnit(v)) {
        LiteralUnitFound(t, v, accept);
      }
      NoValuesNoLiteral(t[1..], v, accept);
    }
  }

  // ---------------------------------------------------------------------
  // `content.replace('src="v"', 'src="r"')` as a substitution of units.

  /** The pattern that accepts only the value `v`. */
  function Is(v: string): string -> bool {
    (w: string) => w == v
  }

  /** A literal `src="v"` matches exactly where the unit with value `v` does, and it is as long. */
  lemma LiteralIsUnit(t: string, v: string)
    requires '"' !in v
    ensures Literal(SrcUnit(v))(t) == UnitLen(t, SrcKey, false, Is(v))
  {
    var u := SrcUnit(v);
    if StartsWith(t, u) {
      LiteralUnitFound(t, v, Is(v));
    } else if KeyAt(t, SrcKey, false) {
      QuoteFreeSpec(t[5..]);
    }
  }

  /** `replace` of a literal unit is the substitution of the units with that value. */
  lemma {:induction false} ReplaceIsSub(t: string, v: string, r: string)
    requires '"' !in v
    ensures ReplaceAll(t, SrcUnit(v), SrcUnit(r)) == SrcSub(t, Is(v), r)
    decreases |t|
  {
    LiteralIsUnit(t, v);
    if |t| > 0 {
      var k := UnitLen(t, SrcKey, false, Is(v));
      if k > 0 {
        ReplaceIsSub(t[k..], v, r);
      } else {
        ReplaceIsSub(t[1..], v, r);
      }
    }
  }

  /** The units with value `v` are found exactly when `src="v"` occurs literally. */
  lemma UnitAbsentIff(t: string, v: string)
    requires '"' !in v
    ensures Values(t, SrcKey, false, Is(v)) == [] <==> !Contains(t, SrcUnit(v))
  {
    if Values(t, SrcKey, false, Is(v)) == [] {
      NoValuesNoLiteral(t, v, Is(v));
    } else {
      ValuesEmptyIff(t, SrcKey, false, Is(v));
      var i :| 0 <= i < |t| && UnitLen(t[i..], SrcKey, false, Is(v)) > 0;
      LiteralIsUnit(t[i..], v);
      var u := SrcUnit(v);
      assert t[i..][..|u|] == t[i..i + |u|];
      ContainsAt(t, u, i);
    }
  }
}
