/**
 * The Python `str` primitives the crawler and the sitemap builders rely on,
 * written on `seq<char>`: `startswith` (also with a tuple of prefixes),
 * `endswith`, the `in` substring test, `lstrip`/`rstrip` with a set of
 * characters, and the no-argument `strip()` over `Whitespace`.
 */
module PyStr {

  /**
   * The characters `str.strip()` removes when given no argument: those for
   * which `str.isspace()` holds.
   */
  const Whitespace: set<char> := {
    '\t', '\n', '\U{0B}', '\U{0C}', '\r', '\U{1C}', '\U{1D}', '\U{1E}', '\U{1F}', ' ',
    '\U{85}', '\U{A0}', '\U{1680}',
    '\U{2000}', '\U{2001}', '\U{2002}', '\U{2003}', '\U{2004}', '\U{2005}',
    '\U{2006}', '\U{2007}', '\U{2008}', '\U{2009}', '\U{200A}',
    '\U{2028}', '\U{2029}', '\U{202F}', '\U{205F}', '\U{3000}'}

  /** `s.startswith(p)` */
  predicate StartsWith(s: string, p: string) {
    |p| <= |s| && s[..|p|] == p
  }

  /** `s.startswith(ps)` for a tuple `ps`: true when any member is a prefix. */
  predicate StartsWithAny(s: string, ps: seq<string>) {
    exists i :: 0 <= i < |ps| && StartsWith(s, ps[i])
  }

  /** A string that starts with `p` does not start with a `q` that differs from `p` at position `i`. */
  lemma StartsWithExcludes(s: string, p: string, q: string, i: nat)
    requires StartsWith(s, p) && i < |p| && i < |q| && p[i] != q[i]
    ensures !StartsWith(s, q)
  {
    assert s[i] == s[..|p|][i];
  }

  /** `s.endswith(t)` */
  predicate EndsWith(s: string, t: string) {
    |t| <= |s| && s[|s| - |t|..] == t
  }

  /** `sub in s` */
  predicate Contains(s: string, sub: string) {
    exists i :: 0 <= i <= |s| && sub <= s[i..]
  }

  /** `endswith` holds exactly when `s` is some string followed by `t`. */
  lemma EndsWithConcat(pre: string, t: string)
    ensures EndsWith(pre + t, t)
  {
    assert (pre + t)[|pre|..] == t;
  }

  /** A string that ends with `t` is its first part followed by `t`. */
  lemma EndsWithSplit(s: string, t: string)
    requires EndsWith(s, t)
    ensures s == s[..|s| - |t|] + t
  {
  }

  /** `sub in s` holds for a `sub` placed between any two strings. */
  lemma ContainsConcat(a: string, sub: string, b: string)
    ensures Contains(a + sub + b, sub)
  {
    var s := a + sub + b;
    assert s[|a|..] == sub + b;
  }

  /** `s.lstrip(chars)`: drops the longest prefix made only of characters in `chars`. */
  function LStrip(s: string, chars: set<char>): (r: string)
    ensures |r| <= |s| && r == s[|s| - |r|..]
    ensures forall i :: 0 <= i < |s| - |r| ==> s[i] in chars
    ensures r == [] || r[0] !in chars
  {
    if |s| > 0 && s[0] in chars then LStrip(s[1..], chars) else s
  }

  /** `lstrip` stops at the first character outside `chars`. */
  lemma {:induction false} LStripAt(s: string, chars: set<char>, k: nat)
    requires k <= |s|
    requires forall j :: 0 <= j < k ==> s[j] in chars
    requires k == |s| || s[k] !in chars
    ensures LStrip(s, chars) == s[k..]
  {
    if k > 0 {
      assert s[1..][k - 1..] == s[k..];
      LStripAt(s[1..], chars, k - 1);
    }
  }

  /** `s.rstrip(chars)`: drops the longest suffix made only of characters in `chars`. */
  function RStrip(s: string, chars: set<char>): (r: string)
    ensures |r| <= |s| && r == s[..|r|]
    ensures forall i :: |r| <= i < |s| ==> s[i] in chars
    ensures r == [] || r[|r| - 1] !in chars
  {
    if |s| > 0 && s[|s| - 1] in chars then RStrip(s[..|s| - 1], chars) else s
  }

  /** `s.strip()` */
  function Strip(s: string): string {
    RStrip(LStrip(s, Whitespace), Whitespace)
  }

  /** A string with non-whitespace at both ends is its own `strip()`. */
  lemma StripUnchanged(s: string)
    requires s != [] && s[0] !in Whitespace && s[|s| - 1] !in Whitespace
    ensures Strip(s) == s
  {
  }

  /** `s.strip()` is empty (falsy) exactly when `s` is whitespace only. */
  lemma StripEmptyIff(s: string)
    ensures Strip(s) == [] <==> forall i :: 0 <= i < |s| ==> s[i] in Whitespace
  {
    var l := LStrip(s, Whitespace);
    if Strip(s) == [] {
      forall i | 0 <= i < |s|
        ensures s[i] in Whitespace
      {
        if i >= |s| - |l| {
          assert s[i] == l[i - (|s| - |l|)];
        }
      }
    }
  }

  /**
   * A string whose first `|p|` characters are a prefix `p` that ends in a
   * non-whitespace character keeps that prefix through `strip()`.
   */
  lemma StripKeepsPrefix(p: string, rest: string)
    requires p != [] && p[0] !in Whitespace && p[|p| - 1] !in Whitespace
    ensures StartsWith(Strip(p + rest), p)
  {
    var s := p + rest;
    assert s[0] == p[0] && s[|p| - 1] == p[|p| - 1];
    LStripAt(s, Whitespace, 0);
    RStripKeepsUpTo(s, Whitespace, |p|);
    RStripPrefix(s, Whitespace, |p|);
    assert s[..|p|] == p;
  }

  /** What `rstrip` keeps is a prefix of its input, so it shares the input's shorter prefixes. */
  lemma RStripPrefix(s: string, chars: set<char>, k: nat)
    requires k <= |RStrip(s, chars)|
    ensures RStrip(s, chars)[..k] == s[..k]
  {
    var r := RStrip(s, chars);
    assert r == s[..|r|];
  }

  /** `rstrip` never removes a character outside `chars`, nor anything before it. */
  lemma {:induction false} RStripKeepsUpTo(s: string, chars: set<char>, k: nat)
    requires 0 < k <= |s| && s[k - 1] !in chars
    ensures k <= |RStrip(s, chars)|
  {
    if s[|s| - 1] in chars {
      assert s[..|s| - 1][k - 1] == s[k - 1];
      RStripKeepsUpTo(s[..|s| - 1], chars, k);
    }
  }
}
