/**
 * Left-to-right, non-overlapping replacement: the behaviour shared by
 * Python's `str.replace(old, new)` and by `re.sub(pattern, new, text)` for
 * the fixed patterns the repair scripts use. A pattern is modelled by a
 * matcher: the length of the match that starts at the front of a string,
 * 0 when the pattern does not match there.
 */
module Rewriting {
  import opened Strings

  type Matcher = string -> nat

  /** The pattern matches a non-empty prefix of `s`. */
  predicate MatchesAt(m: Matcher, s: string) {
    0 < m(s) <= |s|
  }

  /** Every match of `m` in `s`, scanning from the left, is replaced by `rep`. */
  function Rewrite(s: string, m: Matcher, rep: string): string
    decreases |s|
  {
    if |s| == 0 then ""
    else if MatchesAt(m, s) then rep + Rewrite(s[m(s)..], m, rep)
    else [s[0]] + Rewrite(s[1..], m, rep)
  }

  /** The number of matches `Rewrite` replaces (`len(re.findall(...))`). */
  function MatchCount(s: string, m: Matcher): nat
    decreases |s|
  {
    if |s| == 0 then 0
    else if MatchesAt(m, s) then 1 + MatchCount(s[m(s)..], m)
    else MatchCount(s[1..], m)
  }

  /** The matcher of a literal pattern. */
  function Literal(p: string): Matcher {
    (t: string) => if |p| > 0 && StartsWith(t, p) then |p| else 0
  }

  /** Python's `s.replace(p, r)` for a non-empty `p`. */
  function ReplaceAll(s: string, p: string, r: string): string {
    Rewrite(s, Literal(p), r)
  }

  /** Python's `s.count(p)` for a non-empty `p`. */
  function Count(s: string, p: string): nat {
    MatchCount(s, Literal(p))
  }

  /** Where nothing matches, rewriting changes nothing. */
  lemma {:induction false} RewriteNoMatch(s: string, m: Matcher, rep: string)
    requires MatchCount(s, m) == 0
    ensures Rewrite(s, m, rep) == s
    decreases |s|
  {
    if |s| > 0 {
      RewriteNoMatch(s[1..], m, rep);
      assert [s[0]] + s[1..] == s;
    }
  }

  /** A match-free stretch at the front passes through unchanged. */
  lemma {:induction false} RewriteSkip(a: string, x: string, m: Matcher, rep: string)
    requires forall i :: 0 <= i < |a| ==> !MatchesAt(m, (a + x)[i..])
    ensures Rewrite(a + x, m, rep) == a + Rewrite(x, m, rep)
    decreases |a|
  {
    if |a| == 0 {
      assert a + x == x;
    } else {
      assert !MatchesAt(m, (a + x)[0..]);
      assert (a + x)[0..] == a + x;
      assert (a + x)[1..] == a[1..] + x;
      forall i | 0 <= i < |a[1..]|
        ensures !MatchesAt(m, (a[1..] + x)[i..])
      {
        assert (a[1..] + x)[i..] == (a + x)[i + 1..];
      }
      RewriteSkip(a[1..], x, m, rep);
    }
  }

  /** `s.count(p) > 0` exactly when `p in s`. */
  lemma {:induction false} CountPositive(s: string, p: string)
    requires |p| > 0
    ensures Count(s, p) > 0 <==> Contains(s, p)
    decreases |s|
  {
    if |s| > 0 && !StartsWith(s, p) {
      CountPositive(s[1..], p);
    }
  }

  /** The length of `s.replace(p, r)`: each of the `s.count(p)` occurrences trades `|p|` characters for `|r|`. */
  lemma {:induction false} ReplaceAllLength(s: string, p: string, r: string)
    requires |p| > 0
    ensures |ReplaceAll(s, p, r)| == |s| + Count(s, p) * (|r| - |p|)
    decreases |s|
  {
    if |s| > 0 {
      if StartsWith(s, p) {
        ReplaceAllLength(s[|p|..], p, r);
        Distribute(Count(s[|p|..], p), |r| - |p|);
      } else {
        ReplaceAllLength(s[1..], p, r);
      }
    }
  }

  lemma Distribute(c: int, d: int)
    ensures (1 + c) * d == d + c * d
  {
  }

  /** Deleting every occurrence of the character `c` leaves no `c` and adds no character. */
  lemma {:induction false} DeleteChar(s: string, c: char)
    ensures c !in ReplaceAll(s, [c], "")
    ensures forall x :: x in ReplaceAll(s, [c], "") ==> x in s
    decreases |s|
  {
    if |s| > 0 {
      if s[0] == c {
        assert StartsWith(s, [c]);
        DeleteChar(s[1..], c);
      } else {
        assert !StartsWith(s, [c]);
        DeleteChar(s[1..], c);
      }
    }
  }

  /** A replacement of a different length changes the text exactly when the pattern occurs. */
  lemma ReplaceAllChanges(s: string, p: string, r: string)
    requires |p| > 0 && |r| != |p|
    ensures ReplaceAll(s, p, r) != s <==> Contains(s, p)
  {
    ReplaceAllLength(s, p, r);
    CountPositive(s, p);
    if Count(s, p) == 0 {
      RewriteNoMatch(s, Literal(p), r);
    }
  }

  /** Replacing by something no longer never lengthens a text, and shortens it when the replaced text occurs. */
  lemma ReplaceAllShorter(s: string, p: string, r: string)
    requires |p| > 0 && |r| <= |p|
    ensures |ReplaceAll(s, p, r)| <= |s|
    ensures Contains(s, p) && |r| < |p| ==> |ReplaceAll(s, p, r)| < |s|
  {
    ReplaceAllLength(s, p, r);
    var n, d := Count(s, p), |p| - |r|;
    assert n * (|r| - |p|) == -(n * d);
    if Contains(s, p) && |r| < |p| {
      CountPositive(s, p);
      MulAtLeast(n, d);
    }
  }

  /** A longer replacement lengthens the text exactly when the pattern occurs, and otherwise changes nothing. */
  lemma ReplaceAllLonger(s: string, p: string, r: string)
    requires |p| > 0 && |r| > |p|
    ensures Contains(s, p) <==> |ReplaceAll(s, p, r)| > |s|
    ensures !Contains(s, p) ==> ReplaceAll(s, p, r) == s
  {
    ReplaceAllLength(s, p, r);
    CountPositive(s, p);
    var c, d := Count(s, p), |r| - |p|;
    assert |ReplaceAll(s, p, r)| == |s| + c * d;
    if c == 0 {
      RewriteNoMatch(s, Literal(p), r);
    } else {
      MulAtLeast(c, d);
    }
  }

  lemma {:induction false} MulAtLeast(c: nat, d: nat)
    requires c >= 1
    ensures c * d >= d
    decreases c
  {
    if c > 1 {
      MulAtLeast(c - 1, d);
      assert c * d == (c - 1) * d + d;
    }
  }

  /**
   * If the rewritten text starts with `w` and `w` does not contain the first
   * character of the replacement, the original text already started with `w`.
   */
  lemma {:induction false} RewritePrefix(s: string, m: Matcher, rep: string, w: string)
    requires |rep| > 0 && rep[0] !in w
    requires StartsWith(Rewrite(s, m, rep), w)
    ensures StartsWith(s, w)
    decreases |s|
  {
    if |w| > 0 {
      assert Rewrite(s, m, rep)[0] == w[0];
      assert |s| > 0 && !MatchesAt(m, s);
      var t := Rewrite(s[1..], m, rep);
      assert Rewrite(s, m, rep) == [s[0]] + t;
      assert t[..|w| - 1] == w[1..];
      RewritePrefix(s[1..], m, rep, w[1..]);
      assert s[..|w|] == [s[0]] + s[1..][..|w| - 1];
    }
  }

  /** No non-empty proper prefix of `q` ends `a`: no occurrence of `q` can straddle the end of `a`. */
  ghost predicate NoBorder(a: string, q: string) {
    forall k :: 0 < k < |q| && k <= |a| ==> a[|a| - k..] != q[..k]
  }

  /** Joining two texts free of `q` creates no occurrence when none can straddle the seam. */
  lemma {:induction false} ConcatAvoids(a: string, b: string, q: string)
    requires |q| > 0 && !Contains(a, q) && !Contains(b, q) && NoBorder(a, q)
    ensures !Contains(a + b, q)
    decreases |a|
  {
    if |a| == 0 {
      assert a + b == b;
    } else {
      assert !StartsWith(a + b, q) by {
        if |q| <= |a| {
          assert (a + b)[..|q|] == a[..|q|];
        } else if |q| <= |a + b| {
          assert a[|a| - |a|..] == a;
          assert (a + b)[..|q|][..|a|] == a;
        }
      }
      assert (a + b)[1..] == a[1..] + b;
      forall k | 0 < k < |q| && k <= |a[1..]|
        ensures a[1..][|a[1..]| - k..] != q[..k]
      {
        assert a[1..][|a[1..]| - k..] == a[|a| - k..];
      }
      ConcatAvoids(a[1..], b, q);
    }
  }

  /** Every text that starts with `q` is matched by `m`. */
  ghost predicate Covers(m: Matcher, q: string) {
    forall t :: StartsWith(t, q) ==> MatchesAt(m, t)
  }

  /**
   * Rewriting leaves no occurrence of `q`, neither one it matches (when `m`
   * covers `q`) nor one it could create, provided the replacement neither
   * contains `q` nor lets it straddle a seam.
   */
  lemma {:induction false} RewriteAvoids(s: string, m: Matcher, rep: string, q: string)
    requires |q| > 0 && |rep| > 0 && rep[0] !in q[1..]
    requires !Contains(rep, q) && NoBorder(rep, q)
    requires Covers(m, q) || !Contains(s, q)
    ensures !Contains(Rewrite(s, m, rep), q)
    decreases |s|
  {
    if |s| == 0 {
    } else if MatchesAt(m, s) {
      var k := m(s);
      if Contains(s[k..], q) {
        ContainsSuffix(s, q, k);
      }
      RewriteAvoids(s[k..], m, rep, q);
      ConcatAvoids(rep, Rewrite(s[k..], m, rep), q);
    } else {
      var t := Rewrite(s[1..], m, rep);
      RewriteAvoids(s[1..], m, rep, q);
      assert Rewrite(s, m, rep) == [s[0]] + t;
      if StartsWith([s[0]] + t, q) {
        assert t[..|q| - 1] == q[1..];
        RewritePrefix(s[1..], m, rep, q[1..]);
        assert false;
      }
      assert ([s[0]] + t)[1..] == t;
    }
  }

  /** `s.replace(p, r)` leaves no occurrence of `p` when `r` cannot recreate one. */
  lemma ReplaceAllRemoves(s: string, p: string, r: string)
    requires |p| > 0 && |r| > 0 && r[0] !in p[1..]
    requires !Contains(r, p) && NoBorder(r, p)
    ensures !Contains(ReplaceAll(s, p, r), p)
  {
    RewriteAvoids(s, Literal(p), r, p);
  }

  /** `s.replace(p, r)` creates no occurrence of a `q` that was absent, when `r` cannot. */
  lemma ReplaceAllKeepsAbsent(s: string, p: string, r: string, q: string)
    requires |q| > 0 && |r| > 0 && r[0] !in q[1..]
    requires !Contains(r, q) && NoBorder(r, q)
    requires !Contains(s, q)
    ensures !Contains(ReplaceAll(s, p, r), q)
  {
    RewriteAvoids(s, Literal(p), r, q);
  }

  /** When the only occurrence of `p` in `a + p` is the final one, `replace` touches only that one. */
  lemma ReplaceOnlyAtEnd(a: string, p: string, r: string)
    requires |p| > 0 && !Contains((a + p)[..|a + p| - 1], p)
    ensures ReplaceAll(a + p, p, r) == a + r
  {
    var s := a + p;
    forall i | 0 <= i < |a|
      ensures !MatchesAt(Literal(p), s[i..])
    {
      if StartsWith(s[i..], p) {
        assert s[..|s| - 1][i..i + |p|] == p;
        ContainsAt(s[..|s| - 1], p, i);
      }
    }
    RewriteSkip(a, p, Literal(p), r);
    assert StartsWith(p, p) && p[|p|..] == "";
  }

  /** Removing a leading `p` from a text in which `p` does not occur again. */
  lemma ReplaceAllPrefix(p: string, rest: string, r: string)
    requires |p| > 0 && !Contains(rest, p)
    ensures ReplaceAll(p + rest, p, r) == r + rest
  {
    assert StartsWith(p + rest, p) && (p + rest)[|p|..] == rest;
    CountPositive(rest, p);
    RewriteNoMatch(rest, Literal(p), r);
  }

  /** `s.replace(p, r)` on a text whose only occurrence of `p` follows a stretch where none starts. */
  lemma ReplaceAllAfter(a: string, p: string, rest: string, r: string)
    requires |p| > 0 && !Contains(rest, p)
    requires forall i :: 0 <= i < |a| ==> !MatchesAt(Literal(p), (a + (p + rest))[i..])
    ensures ReplaceAll(a + (p + rest), p, r) == a + (r + rest)
  {
    RewriteSkip(a, p + rest, Literal(p), r);
    ReplaceAllPrefix(p, rest, r);
  }

  /** After `s.replace(p, r)` of an occurring `p`, the replacement occurs in the text. */
  lemma {:induction false} ReplaceAllInserts(s: string, p: string, r: string)
    requires |p| > 0 && Contains(s, p)
    ensures Contains(ReplaceAll(s, p, r), r)
    decreases |s|
  {
    if StartsWith(s, p) {
      assert MatchesAt(Literal(p), s);
      assert StartsWith(ReplaceAll(s, p, r), r);
    } else {
      assert !MatchesAt(Literal(p), s);
      ReplaceAllInserts(s[1..], p, r);
      ContainsSuffix(ReplaceAll(s, p, r), r, 1);
    }
  }

  /** `re.findall` for a pattern without groups: the matched texts, left to right. */
  function FindAll(s: string, m: Matcher): (r: seq<string>)
    ensures |r| == MatchCount(s, m)
    ensures forall x :: x in r ==> |x| > 0 && Contains(s, x)
    decreases |s|
  {
    if |s| == 0 then []
    else if MatchesAt(m, s) then
      var x := s[..m(s)];
      assert StartsWith(s, x);
      var rest := FindAll(s[m(s)..], m);
      forall w | w in rest
        ensures Contains(s, w)
      {
        ContainsSuffix(s, w, m(s));
      }
      [x] + rest
    else
      var rest := FindAll(s[1..], m);
      forall w | w in rest
        ensures Contains(s, w)
      {
        ContainsSuffix(s, w, 1);
      }
      rest
  }

  /** Each text `re.findall` finds is the match at some position of the text. */
  lemma {:induction false} FindAllAt(s: string, m: Matcher, j: nat) returns (i: nat)
    requires j < |FindAll(s, m)|
    ensures i < |s| && MatchesAt(m, s[i..])
    ensures FindAll(s, m)[j] == s[i..][..m(s[i..])]
    decreases |s|
  {
    if MatchesAt(m, s) {
      var n := m(s);
      var rest := FindAll(s[n..], m);
      assert FindAll(s, m) == [s[..n]] + rest;
      if j == 0 {
        i := 0;
        assert s[0..] == s;
      } else {
        var i' := FindAllAt(s[n..], m, j - 1);
        i := n + i';
        assert s[n..][i'..] == s[i..];
        assert FindAll(s, m)[j] == rest[j - 1];
      }
    } else {
      var rest := FindAll(s[1..], m);
      assert FindAll(s, m) == rest;
      var i' := FindAllAt(s[1..], m, j);
      i := i' + 1;
      assert s[1..][i'..] == s[i..];
    }
  }

  /** A match anywhere in the text means `re.findall` finds something. */
  lemma FindAllSome(s: string, m: Matcher, i: nat)
    requires i < |s| && MatchesAt(m, s[i..])
    ensures |FindAll(s, m)| > 0
  {
    var r := Search(s, m);
  }

  /** A match-free stretch at the front adds nothing to what `re.findall` finds. */
  lemma {:induction false} FindAllSkip(a: string, x: string, m: Matcher)
    requires forall i :: 0 <= i < |a| ==> !MatchesAt(m, (a + x)[i..])
    ensures FindAll(a + x, m) == FindAll(x, m)
    decreases |a|
  {
    if |a| == 0 {
      assert a + x == x;
    } else {
      assert (a + x)[0..] == a + x;
      assert (a + x)[1..] == a[1..] + x;
      forall i | 0 <= i < |a[1..]|
        ensures !MatchesAt(m, (a[1..] + x)[i..])
      {
        assert (a[1..] + x)[i..] == (a + x)[i + 1..];
      }
      FindAllSkip(a[1..], x, m);
    }
  }

  /** Behind a match-free stretch, a single match followed by a match-free rest is all `re.findall` finds. */
  lemma FindAllOne(a: string, x: string, rest: string, m: Matcher)
    requires forall i :: 0 <= i < |a| ==> !MatchesAt(m, (a + (x + rest))[i..])
    requires m(x + rest) == |x| > 0
    requires forall i :: 0 <= i < |rest| ==> !MatchesAt(m, rest[i..])
    ensures FindAll(a + (x + rest), m) == [x]
  {
    FindAllSkip(a, x + rest, m);
    var s := x + rest;
    assert s[..|x|] == x && s[|x|..] == rest;
    FindAllNone(rest, m);
    assert FindAll(s, m) == [x] + FindAll(rest, m);
  }

  /** Where nothing matches at the front, `re.findall` goes on from the next character. */
  lemma FindAllNoFront(s: string, m: Matcher)
    requires |s| > 0 && !MatchesAt(m, s)
    ensures FindAll(s, m) == FindAll(s[1..], m)
  {
  }

  /** A text in which no match starts anywhere has none to find. */
  lemma FindAllNone(s: string, m: Matcher)
    requires forall i :: 0 <= i < |s| ==> !MatchesAt(m, s[i..])
    ensures FindAll(s, m) == [] && MatchCount(s, m) == 0
  {
    assert s + "" == s;
    FindAllSkip(s, "", m);
  }

  /** No `c1` in `a` is followed by `c2`, and `a` does not end with `c1`. */
  predicate NoPair(a: string, c1: char, c2: char) {
    forall i :: 0 <= i < |a| && a[i] == c1 ==> i + 1 < |a| && a[i + 1] != c2
  }

  /** A text without `c1` has no pair. */
  lemma NoPairAbsent(a: string, c1: char, c2: char)
    requires c1 !in a
    ensures NoPair(a, c1, c2)
  {
    forall i | 0 <= i < |a|
      ensures a[i] != c1
    {
      assert a[i] in a;
    }
  }

  /** Two texts without the pair have none where they meet. */
  lemma NoPairCat(a: string, b: string, c1: char, c2: char)
    requires NoPair(a, c1, c2) && NoPair(b, c1, c2)
    ensures NoPair(a + b, c1, c2)
  {
    forall i | 0 <= i < |a + b| && (a + b)[i] == c1
      ensures i + 1 < |a + b| && (a + b)[i + 1] != c2
    {
      if i < |a| {
        assert a[i] == c1;
      } else {
        assert b[i - |a|] == c1;
      }
    }
  }

  /**
   * Where every match starts with `c1` followed by `c2`, none starts in a
   * stretch `a` without that pair.
   */
  lemma NoMatchIn(a: string, x: string, m: Matcher, c1: char, c2: char)
    requires forall t :: MatchesAt(m, t) ==> |t| >= 2 && t[0] == c1 && t[1] == c2
    requires NoPair(a, c1, c2)
    ensures forall i :: 0 <= i < |a| ==> !MatchesAt(m, (a + x)[i..])
  {
    forall i | 0 <= i < |a|
      ensures !MatchesAt(m, (a + x)[i..])
    {
      var t := (a + x)[i..];
      assert t[0] == a[i];
      if i + 1 < |a| {
        assert t[1] == a[i + 1];
      }
    }
  }

  /** A literal pattern of two characters at least begins with its first two. */
  lemma LiteralStarts(p: string)
    requires |p| >= 2
    ensures forall t :: MatchesAt(Literal(p), t) ==> |t| >= 2 && t[0] == p[0] && t[1] == p[1]
  {
    forall t | MatchesAt(Literal(p), t)
      ensures |t| >= 2 && t[0] == p[0] && t[1] == p[1]
    {
      assert t[..|p|] == p;
      assert t[0] == t[..|p|][0] && t[1] == t[..|p|][1];
    }
  }

  /** `re.search`: the position of the leftmost match, if any. */
  function Search(s: string, m: Matcher): (r: Option<nat>)
    ensures r.Some? ==> r.value < |s| && MatchesAt(m, s[r.value..])
    ensures r.Some? ==> forall j :: 0 <= j < r.value ==> !MatchesAt(m, s[j..])
    ensures r.None? ==> forall j :: 0 <= j < |s| ==> !MatchesAt(m, s[j..])
    ensures r.None? <==> MatchCount(s, m) == 0
    decreases |s|
  {
    if |s| == 0 then None
    else if MatchesAt(m, s) then Some(0)
    else
      assert forall j :: 1 <= j <= |s| ==> s[j..] == s[1..][j - 1..];
      match Search(s[1..], m)
      case None => None
      case Some(i) => Some(i + 1)
  }

  /** Deleting every match shortens a text exactly when something matches. */
  lemma {:induction false} DeleteShortens(s: string, m: Matcher)
    ensures |Rewrite(s, m, "")| <= |s|
    ensures |Rewrite(s, m, "")| == |s| <==> MatchCount(s, m) == 0
    decreases |s|
  {
    if |s| > 0 {
      if MatchesAt(m, s) {
        DeleteShortens(s[m(s)..], m);
      } else {
        DeleteShortens(s[1..], m);
      }
    }
  }
}
