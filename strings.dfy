/**
 * Basic string operations of Python's `str` type that the repair and
 * validation scripts rely on, over Dafny strings (`seq<char>`).
 */
module Strings {

  datatype Option<T> = None | Some(value: T)

  /** Python's `s.startswith(p)`. */
  predicate StartsWith(s: string, p: string) {
    |p| <= |s| && s[..|p|] == p
  }

  /** Python's `s.endswith(p)`. */
  predicate EndsWith(s: string, p: string) {
    |p| <= |s| && s[|s| - |p|..] == p
  }

  /** Python's `p in s`. */
  predicate Contains(s: string, p: string)
    decreases |s|
  {
    StartsWith(s, p) || (|s| > 0 && Contains(s[1..], p))
  }

  /** An occurrence in a suffix is an occurrence in the whole string. */
  lemma {:induction false} ContainsSuffix(s: string, p: string, k: nat)
    requires k <= |s|
    requires Contains(s[k..], p)
    ensures Contains(s, p)
    decreases k
  {
    if k > 0 {
      assert s[1..][k - 1..] == s[k..];
      ContainsSuffix(s[1..], p, k - 1);
    }
  }

  /** A string shorter than a non-empty pattern cannot contain it. */
  lemma {:induction false} ShortNoContains(s: string, p: string)
    requires |s| < |p|
    ensures !Contains(s, p)
    decreases |s|
  {
    if |s| > 0 {
      ShortNoContains(s[1..], p);
    }
  }

  /** The occurrence of `p` found in `s` at an explicit position. */
  lemma {:induction false} ContainsAt(s: string, p: string, i: nat)
    requires i + |p| <= |s| && s[i..i + |p|] == p
    ensures Contains(s, p)
    decreases i
  {
    if i == 0 {
      assert s[..|p|] == p;
    } else {
      assert s[1..][i - 1..i - 1 + |p|] == s[i..i + |p|];
      ContainsAt(s[1..], p, i - 1);
    }
  }

  /** Every character of a contained string is a character of the container. */
  lemma {:induction false} ContainsChars(s: string, p: string)
    requires Contains(s, p)
    ensures forall c :: c in p ==> c in s
    decreases |s|
  {
    if StartsWith(s, p) {
      assert forall i :: 0 <= i < |p| ==> p[i] == s[i];
    } else {
      ContainsChars(s[1..], p);
    }
  }

  /** An occurrence of `p` inside an occurrence of `q` is an occurrence in `s`. */
  lemma {:induction false} ContainsTrans(s: string, q: string, p: string)
    requires Contains(s, q) && Contains(q, p)
    ensures Contains(s, p)
    decreases |s|
  {
    if StartsWith(s, q) {
      ContainsPrefix(q, p, s);
    } else {
      ContainsTrans(s[1..], q, p);
      ContainsSuffix(s, p, 1);
    }
  }

  /** An occurrence in `q` is an occurrence in every text that starts with `q`. */
  lemma {:induction false} ContainsPrefix(q: string, p: string, s: string)
    requires Contains(q, p) && StartsWith(s, q)
    ensures Contains(s, p)
    decreases |q|
  {
    if StartsWith(q, p) {
      assert s[..|p|] == q[..|p|];
    } else {
      assert StartsWith(s[1..], q[1..]) by {
        assert s[1..][..|q| - 1] == s[..|q|][1..];
      }
      ContainsPrefix(q[1..], p, s[1..]);
    }
  }

  /** The first position at which `p` occurs, when it does. */
  function IndexOf(s: string, p: string): (r: Option<nat>)
    ensures r.Some? <==> Contains(s, p)
    ensures r.Some? ==> r.value + |p| <= |s| && s[r.value..r.value + |p|] == p
    ensures r.Some? ==> forall j :: 0 <= j < r.value ==> !StartsWith(s[j..], p)
    decreases |s|
  {
    if StartsWith(s, p) then Some(0)
    else if |s| == 0 then None
    else
      match IndexOf(s[1..], p)
      case None => None
      case Some(i) =>
        IndexOfShift(s, p, i);
        Some(i + 1)
  }

  /** A first occurrence at `i` in `s[1..]` is a first occurrence at `i + 1` in `s`, when `s` does not start with it. */
  lemma IndexOfShift(s: string, p: string, i: nat)
    requires |s| > 0 && !StartsWith(s, p)
    requires i + |p| <= |s[1..]| && s[1..][i..i + |p|] == p
    requires forall j :: 0 <= j < i ==> !StartsWith(s[1..][j..], p)
    ensures i + 1 + |p| <= |s| && s[i + 1..i + 1 + |p|] == p
    ensures forall j :: 0 <= j < i + 1 ==> !StartsWith(s[j..], p)
  {
    assert s[1..][i..i + |p|] == s[i + 1..i + 1 + |p|];
    forall j | 0 <= j < i + 1
      ensures !StartsWith(s[j..], p)
    {
      if j > 0 {
        assert s[j..] == s[1..][j - 1..];
      }
    }
  }

  /** ASCII lower-casing of one character. */
  function LowerChar(c: char): (d: char)
    ensures 'A' <= c <= 'Z' ==> d as int == c as int + 32
    ensures !('A' <= c <= 'Z') ==> d == c
  {
    if 'A' <= c <= 'Z' then (c as int + 32) as char else c
  }

  /** Python's `s.lower()`, restricted to ASCII letters. */
  function Lower(s: string): (r: string)
    ensures |r| == |s|
    ensures forall i :: 0 <= i < |s| ==> r[i] == LowerChar(s[i])
  {
    seq(|s|, i requires 0 <= i < |s| => LowerChar(s[i]))
  }

  /**
   * The characters Python's `str.isspace()` accepts, which are the ones
   * `str.strip()` removes and the regex class `\s` matches: the ASCII tab,
   * line feed, vertical tab, form feed, carriage return and the four
   * separators 0x1C-0x1F, the space, NEL, the no-break space, the Unicode
   * spaces U+1680, U+2000-U+200A, U+202F, U+205F, U+3000 and the line and
   * paragraph separators U+2028, U+2029.
   */
  predicate IsSpace(c: char) {
    ('\t' <= c <= '\r') || ('\U{001C}' <= c <= ' ') || c == '\U{0085}' || c == '\U{00A0}'
    || c == '\U{1680}' || ('\U{2000}' <= c <= '\U{200A}') || c == '\U{2028}' || c == '\U{2029}'
    || c == '\U{202F}' || c == '\U{205F}' || c == '\U{3000}'
  }

  function StripLeft(s: string): (r: string)
    ensures |r| <= |s| && r == s[|s| - |r|..]
    ensures |r| > 0 ==> !IsSpace(r[0])
    ensures forall i :: 0 <= i < |s| - |r| ==> IsSpace(s[i])
    decreases |s|
  {
    if |s| > 0 && IsSpace(s[0]) then StripLeft(s[1..]) else s
  }

  function StripRight(s: string): (r: string)
    ensures |r| <= |s| && r == s[..|r|]
    ensures |r| > 0 ==> !IsSpace(r[|r| - 1])
    ensures forall i :: |r| <= i < |s| ==> IsSpace(s[i])
    decreases |s|
  {
    if |s| > 0 && IsSpace(s[|s| - 1]) then StripRight(s[..|s| - 1]) else s
  }

  /**
   * Python's `s.strip()`: the slice of `s` that starts after its leading
   * white space (`k` characters) and ends before its trailing white space,
   * so that everything removed is white space and neither end of the
   * result is.
   */
  function Strip(s: string): (r: string)
    ensures var k := |s| - |StripLeft(s)|; k + |r| <= |s| && r == s[k..k + |r|]
    ensures forall i :: 0 <= i < |s| - |StripLeft(s)| ==> IsSpace(s[i])
    ensures forall i :: |s| - |StripLeft(s)| + |r| <= i < |s| ==> IsSpace(s[i])
    ensures |r| > 0 ==> !IsSpace(r[0]) && !IsSpace(r[|r| - 1])
    ensures Contains(s, r)
  {
    var l := StripLeft(s);
    var r := StripRight(l);
    TrimmedSlice(s, l, r);
    r
  }

  /** A prefix `r` of a suffix `l` of `s` is a slice of `s`, and what follows `r` in `l` follows it in `s`. */
  lemma TrimmedSlice(s: string, l: string, r: string)
    requires |l| <= |s| && l == s[|s| - |l|..]
    requires |r| <= |l| && r == l[..|r|]
    requires forall i :: |r| <= i < |l| ==> IsSpace(l[i])
    ensures var k := |s| - |l|; r == s[k..k + |r|] && Contains(s, r)
    ensures forall i :: |s| - |l| + |r| <= i < |s| ==> IsSpace(s[i])
  {
    var k := |s| - |l|;
    assert s[k..][..|r|] == s[k..k + |r|];
    forall i | k + |r| <= i < |s|
      ensures IsSpace(s[i])
    {
      assert s[i] == l[i - k];
    }
    ContainsAt(s, r, k);
  }

  /** Python's `s.split(sep)` for a one-character separator. */
  function Split(s: string, sep: char): (parts: seq<string>)
    ensures |parts| > 0
    ensures forall i :: 0 <= i < |parts| ==> sep !in parts[i]
    decreases |s|
  {
    if |s| == 0 then [""]
    else
      var rest := Split(s[1..], sep);
      if s[0] == sep then [""] + rest
      else [[s[0]] + rest[0]] + rest[1..]
  }

  /** The text after the last `sep` (all of `s` when there is none): Python's `s.split(sep)[-1]`. */
  function AfterLast(s: string, sep: char): (r: string)
    ensures sep !in r
    ensures EndsWith(s, r)
    ensures |r| < |s| ==> s[|s| - |r| - 1] == sep
    decreases |s|
  {
    if |s| == 0 then ""
    else if s[|s| - 1] == sep then ""
    else
      var r := AfterLast(s[..|s| - 1], sep);
      assert s[..|s| - 1][|s| - 1 - |r|..] == s[|s| - 1 - |r|..|s| - 1];
      r + [s[|s| - 1]]
  }

  /** `os.path.basename`: the text after the last '/'. */
  function Basename(path: string): (r: string)
    ensures '/' !in r && EndsWith(path, r)
  {
    AfterLast(path, '/')
  }

  /** `os.path.dirname`: the text before the last '/' (empty when there is none). */
  function Dirname(path: string): (r: string)
    ensures |Basename(path)| < |path| ==> r + "/" + Basename(path) == path
    ensures |Basename(path)| == |path| ==> r == ""
  {
    var b := Basename(path);
    if |b| == |path| then ""
    else
      var r := path[..|path| - |b| - 1];
      assert path == r + "/" + b by {
        assert path[|path| - |b| - 1] == '/';
        assert path[|path| - |b|..] == b;
      }
      r
  }

  /**
   * `os.path.join(dir, p)` (and pathlib's `/`): an absolute `p` replaces
   * `dir`. Python adds no '/' after a `dir` that already ends in one,
   * where this gives `dir//p`. The scripts join only their directory
   * constants, which have no trailing '/', and the `Dirname` of a page,
   * and every existence test or copy looks the path up through
   * `Paths.Normalize`, which folds `//` into `/`, so no lookup differs.
   */
  function PathJoin(dir: string, p: string): (r: string)
    ensures StartsWith(p, "/") || dir == "" ==> r == p
    ensures !StartsWith(p, "/") && dir != "" ==> r == dir + "/" + p
  {
    if StartsWith(p, "/") || dir == "" then p else dir + "/" + p
  }

  /** Python's string order: lexicographic by code point, a proper prefix first. */
  predicate LexLessEq(a: string, b: string)
    decreases |a|
  {
    |a| == 0 || (|b| > 0 && (a[0] < b[0] || (a[0] == b[0] && LexLessEq(a[1..], b[1..]))))
  }

  /** Any two strings are ordered one way or the other. */
  lemma {:induction false} LexTotal(a: string, b: string)
    ensures LexLessEq(a, b) || LexLessEq(b, a)
    decreases |a|
  {
    if |a| > 0 && |b| > 0 && a[0] == b[0] {
      LexTotal(a[1..], b[1..]);
    }
  }

  /** Each string is in order after its predecessor. */
  predicate Sorted(s: seq<string>) {
    forall i :: 0 <= i < |s| - 1 ==> LexLessEq(s[i], s[i + 1])
  }

  /** Inserting into a sorted sequence at the first larger element. */
  function Insert(x: string, s: seq<string>): (r: seq<string>)
    requires Sorted(s)
    ensures Sorted(r) && multiset(r) == multiset(s) + multiset{x}
    ensures |r| > 0 && (r[0] == x || (|s| > 0 && r[0] == s[0]))
    decreases |s|
  {
    if |s| == 0 then [x]
    else if LexLessEq(x, s[0]) then [x] + s
    else
      LexTotal(x, s[0]);
      var rest := Insert(x, s[1..]);
      assert s == [s[0]] + s[1..];
      [s[0]] + rest
  }

  /** Python's `sorted` on strings. */
  function Sort(s: seq<string>): (r: seq<string>)
    ensures Sorted(r) && multiset(r) == multiset(s)
    decreases |s|
  {
    if |s| == 0 then []
    else
      assert s == [s[0]] + s[1..];
      Insert(s[0], Sort(s[1..]))
  }

  /** The decimal digits of `n`, as `str(n)` prints them. */
  function NatToString(n: nat): (r: string)
    ensures |r| > 0 && forall i :: 0 <= i < |r| ==> '0' <= r[i] <= '9'
    decreases n
  {
    var d := [(48 + n % 10) as char];
    if n < 10 then d else NatToString(n / 10) + d
  }

  /** No string occurs twice. */
  predicate Distinct(s: seq<string>) {
    forall i, j :: 0 <= i < j < |s| ==> s[i] != s[j]
  }

  lemma InsertMembers(x: string, s: seq<string>, y: string)
    requires Sorted(s)
    ensures y in Insert(x, s) <==> y == x || y in s
  {
    var r := Insert(x, s);
    assert y in r <==> y in multiset(r);
    assert y in s <==> y in multiset(s);
  }

  lemma {:induction false} InsertDistinct(x: string, s: seq<string>)
    requires Sorted(s) && Distinct(s) && x !in s
    ensures Distinct(Insert(x, s))
    decreases |s|
  {
    if |s| > 0 && !LexLessEq(x, s[0]) {
      assert s == [s[0]] + s[1..];
      InsertDistinct(x, s[1..]);
      var rest := Insert(x, s[1..]);
      var r := [s[0]] + rest;
      assert Insert(x, s) == r;
      forall i, j | 0 <= i < j < |r|
        ensures r[i] != r[j]
      {
        if i == 0 {
          assert r[j] == rest[j - 1];
          InsertMembers(x, s[1..], rest[j - 1]);
        } else {
          assert r[i] == rest[i - 1] && r[j] == rest[j - 1];
        }
      }
    }
  }

  /** Sorting a sequence of distinct strings keeps them distinct. */
  lemma {:induction false} SortDistinct(s: seq<string>)
    requires Distinct(s)
    ensures Distinct(Sort(s))
    decreases |s|
  {
    if |s| > 0 {
      assert s == [s[0]] + s[1..];
      SortDistinct(s[1..]);
      var t := Sort(s[1..]);
      assert s[0] !in multiset(t);
      InsertDistinct(s[0], t);
    }
  }

  /** `[x for x in s if keep(x)]`. */
  function Filter(s: seq<string>, keep: string -> bool): (r: seq<string>)
    ensures |r| <= |s|
    ensures forall x :: x in r <==> x in s && keep(x)
    decreases |s|
  {
    if |s| == 0 then []
    else (if keep(s[0]) then [s[0]] else []) + Filter(s[1..], keep)
  }

  /** `s[:n]`: the first `n` elements, or all of them when there are fewer. */
  function Take<T>(s: seq<T>, n: nat): (r: seq<T>)
    ensures |r| == (if |s| < n then |s| else n) && r == s[..|r|]
  {
    if |s| < n then s else s[..n]
  }

  /** An element of a non-empty sequence is its last element or an element of the sequence without it, and conversely. */
  lemma InInit<T>(s: seq<T>, x: T)
    requires |s| > 0
    ensures x in s <==> x in s[..|s| - 1] || x == s[|s| - 1]
  {
    assert s == s[..|s| - 1] + [s[|s| - 1]];
  }

  /** The elements of a non-empty sequence: those of the sequence without its last element, and that element. */
  lemma InInitAll<T>(s: seq<T>)
    requires |s| > 0
    ensures forall x :: x in s <==> x in s[..|s| - 1] || x == s[|s| - 1]
  {
    assert s == s[..|s| - 1] + [s[|s| - 1]];
  }
}
