/**
 * The parsed-URL record `urllib.parse.urlparse` returns, the crawler's
 * cleaned form of it (`scheme + "://" + netloc + path`), and a splitter
 * that reads a cleaned string back into a record.
 */
module Urls {
  import opened Options
  import opened Seqs

  /**
   * The six components of the record `urlparse` returns. `path` is its
   * `.path`: the `;params` of the last segment are split off into `params`.
   */
  datatype Url = Url(scheme: string, netloc: string, path: string, params: string, query: string, fragment: string)

  /** The crawler's deduplication key: scheme, host and path, with params, query and fragment dropped. */
  function Cleaned(u: Url): string {
    u.scheme + "://" + u.netloc + u.path
  }

  /** The record with the components cleaning drops emptied. */
  function CleanRecord(u: Url): Url {
    u.(params := [], query := [], fragment := [])
  }

  /** A scheme character of `urlsplit`, after it lower-cases the scheme. */
  predicate SchemeChar(c: char) {
    'a' <= c <= 'z' || '0' <= c <= '9' || c == '+' || c == '-' || c == '.'
  }

  /**
   * What `urlsplit` takes as a scheme: the text before the first `:`, when it
   * is non-empty, starts with a letter and holds only scheme characters.
   */
  predicate IsScheme(s: string) {
    s != [] && 'a' <= s[0] <= 'z' && forall k :: 0 <= k < |s| ==> SchemeChar(s[k])
  }

  /**
   * Characters `urlsplit` never leaves in a host or a path: the query and
   * fragment delimiters, and the tab and line breaks it deletes.
   */
  const Delimiters: set<char> := {'?', '#', '\t', '\n', '\r'}

  predicate Avoids(s: string, cs: set<char>) {
    forall k :: 0 <= k < |s| ==> s[k] !in cs
  }

  /** The schemes for which `urlparse` splits `;params` off the path (`urllib.parse.uses_params`). */
  const UsesParams: set<string> := {
    "", "ftp", "hdl", "prospero", "http", "imap", "https", "shttp", "rtsp", "rtsps", "rtspu",
    "sip", "sips", "mms", "sftp", "tel"}

  /**
   * No `;` in the last segment of a path: for a scheme in `UsesParams`,
   * `urlparse` splits such a `;` off into `params`.
   */
  predicate NoParams(path: string) {
    forall k :: 0 <= k < |path| && path[k] == ';' ==> '/' in path[k + 1..]
  }

  /**
   * What `urlparse` guarantees of the records it returns for a URL with a
   * scheme and a `//` host part: a scheme as above, no `/` in the host, a
   * path that is empty or starts with `/`, no delimiter in host or path, and
   * no params left in the path when the scheme is one that splits them off.
   * Other schemes keep a `;` of the last segment in the path.
   */
  predicate WellFormed(u: Url) {
    && IsScheme(u.scheme)
    && '/' !in u.netloc
    && (u.path == [] || u.path[0] == '/')
    && Avoids(u.netloc + u.path, Delimiters)
    && (u.scheme in UsesParams ==> NoParams(u.path))
  }

  /**
   * Index of the first occurrence of `c` in `s`, or `|s|` when there is
   * none: the splitter's cut-point helper.
   */
  function Find(s: string, c: char): (k: nat)
    ensures k <= |s|
    ensures c !in s[..k]
    ensures k < |s| ==> s[k] == c
    ensures k == |s| <==> c !in s
  {
    if s == [] then 0
    else if s[0] == c then 0
    else
      var k := 1 + Find(s[1..], c);
      assert s[..k] == [s[0]] + s[1..][..k - 1];
      k
  }

  /**
   * Reads a cleaned URL string back as `urlparse` reads it, on the strings
   * with a lower-case scheme, a `//` host part, and nothing `urlparse` would
   * split off as params, query or fragment. Any other string gives `None`,
   * including some `urlparse` reads (an upper-case scheme, a query). Hosts
   * with unbalanced brackets, on which `urlparse` raises, are not checked.
   */
  function SplitCleaned(s: string): Option<Url> {
    var i := Find(s, ':');
    if i + 3 <= |s| && s[i..i + 3] == "://" && IsScheme(s[..i]) && Avoids(s[i + 3..], Delimiters) then
      var rest := s[i + 3..];
      var j := Find(rest, '/');
      if s[..i] in UsesParams ==> NoParams(rest[j..]) then Some(Url(s[..i], rest[..j], rest[j..], [], [], [])) else None
    else
      None
  }

  /** `Find` returns the first occurrence, so a known first occurrence is its answer. */
  lemma FindFirst(s: string, c: char, k: nat)
    requires k <= |s| && c !in s[..k] && (k < |s| ==> s[k] == c)
    ensures Find(s, c) == k
  {
  }

  /** A scheme holds no `:`. */
  lemma SchemeHasNoColon(s: string)
    requires IsScheme(s)
    ensures ':' !in s
  {
  }

  /**
   * A string that starts with `:` has an empty scheme, which `urlsplit`
   * refuses; the splitter reads no host out of it.
   */
  lemma SchemeRequired(s: string)
    requires s != [] && s[0] == ':'
    ensures SplitCleaned(s) == None
  {
    FindFirst(s, ':', 0);
  }

  /** The cleaned string is the scheme, then `://`, then host and path. */
  lemma CleanedParts(u: Url)
    ensures Cleaned(u) == u.scheme + ("://" + (u.netloc + u.path))
  {
  }

  /**
   * In `a + "://" + b` with no `:` in `a`, the first `:` ends `a`. The
   * separator is a parameter so that its literal does not get unrolled.
   */
  lemma SchemeCut(a: string, sep: string, b: string)
    requires ':' !in a && sep == "://"
    ensures Find(a + (sep + b), ':') == |a|
    ensures (a + (sep + b))[..|a|] == a && (a + (sep + b))[|a|..|a| + 3] == sep
    ensures (a + (sep + b))[|a| + 3..] == b
  {
    var s := a + (sep + b);
    SliceConcat(a, sep + b);
    SliceConcat(sep, b);
    assert s[|a|] == (sep + b)[0] == ':';
    FindFirst(s, ':', |a|);
    assert s[|a|..|a| + 3] == (sep + b)[..3];
    assert s[|a| + 3..] == (sep + b)[3..];
  }

  /** In a cleaned string the first `:` ends the scheme and starts `://`. */
  lemma CleanedSchemeCut(u: Url)
    requires ':' !in u.scheme
    ensures Find(Cleaned(u), ':') == |u.scheme|
    ensures |u.scheme| + 3 <= |Cleaned(u)| && Cleaned(u)[|u.scheme|..|u.scheme| + 3] == "://"
    ensures Cleaned(u)[..|u.scheme|] == u.scheme && Cleaned(u)[|u.scheme| + 3..] == u.netloc + u.path
  {
    CleanedParts(u);
    SchemeCut(u.scheme, "://", u.netloc + u.path);
  }

  /** In host followed by path the first `/` ends the host. */
  lemma HostPathCut(netloc: string, path: string)
    requires '/' !in netloc && (path == [] || path[0] == '/')
    ensures Find(netloc + path, '/') == |netloc|
    ensures (netloc + path)[..|netloc|] == netloc && (netloc + path)[|netloc|..] == path
  {
    SliceConcat(netloc, path);
    FindFirst(netloc + path, '/', |netloc|);
  }

  /** Splitting the cleaned string of a well-formed record gives back its cleaned record. */
  lemma SplitCleanedRoundTrip(u: Url)
    requires WellFormed(u)
    ensures SplitCleaned(Cleaned(u)) == Some(CleanRecord(u))
  {
    SchemeHasNoColon(u.scheme);
    CleanedSchemeCut(u);
    HostPathCut(u.netloc, u.path);
  }

  /** Putting the three pieces the splitter cuts back together gives the string. */
  lemma Reassemble(s: string, i: nat, j: nat)
    requires i + 3 <= |s| && s[i..i + 3] == "://" && j <= |s| - (i + 3)
    ensures s[..i] + "://" + s[i + 3..][..j] + s[i + 3..][j..] == s
  {
    var rest := s[i + 3..];
    SplitAt(rest, j);
    SplitAt(s[i..], 3);
    SplitAt(s, i);
    assert s[i..][..3] == "://" && s[i..][3..] == rest;
    ConcatAssoc(s[..i], "://", rest[..j], rest[j..]);
  }

  /**
   * Cleaning a cleaned URL changes nothing: reading the cleaned string of a
   * well-formed record back gives a record with no params, query or fragment,
   * whose cleaned string is the same string.
   */
  lemma CleanIdempotent(u: Url)
    requires WellFormed(u)
    ensures SplitCleaned(Cleaned(u)).Some?
    ensures var c := SplitCleaned(Cleaned(u)).value;
      c.params == [] && c.query == [] && c.fragment == [] && Cleaned(c) == Cleaned(u)
  {
    SplitCleanedRoundTrip(u);
  }

  /** Every string the splitter accepts is the cleaned string of the well-formed record it returns. */
  lemma SplitCleanedSound(s: string)
    requires SplitCleaned(s).Some?
    ensures WellFormed(SplitCleaned(s).value)
    ensures Cleaned(SplitCleaned(s).value) == s
    ensures SplitCleaned(s).value == CleanRecord(SplitCleaned(s).value)
  {
    var i := Find(s, ':');
    assert i + 3 <= |s| && s[i..i + 3] == "://";
    var rest := s[i + 3..];
    var j := Find(rest, '/');
    var r := Url(s[..i], rest[..j], rest[j..], [], [], []);
    assert SplitCleaned(s) == Some(r);
    assert '/' !in r.netloc;
    assert r.path == [] || r.path[0] == '/';
    SplitAt(rest, j);
    assert r.netloc + r.path == rest;
    Reassemble(s, i, j);
  }

  /**
   * Two well-formed records have the same cleaned string exactly when they
   * agree on scheme, host and path: the key identifies URLs that differ only
   * in params, query or fragment, and nothing else.
   */
  lemma CleanedKeyIff(u: Url, v: Url)
    requires WellFormed(u) && WellFormed(v)
    ensures Cleaned(u) == Cleaned(v) <==> CleanRecord(u) == CleanRecord(v)
  {
    if Cleaned(u) == Cleaned(v) {
      SplitCleanedRoundTrip(u);
      SplitCleanedRoundTrip(v);
    }
  }
}
