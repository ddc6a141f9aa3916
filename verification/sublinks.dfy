/**
 * `filter_sublinks` of `scripts/removebadsublinks.py`: a list comprehension
 * that keeps the sublinks passing four tests and strips their leading
 * slashes. The tests look at the sublink as given, before any slash is
 * stripped.
 */
module Sublinks {
  import opened PyStr
  import opened Seqs

  /** The `invalid_starts` tuple. */
  const InvalidStarts: seq<string> := ["#", "mailto:", "http://", "https://", "www.", "javascript:", "tel:", "{"]

  /** The comprehension's `if` clause. */
  predicate Keep(s: string) {
    && !StartsWithAny(s, InvalidStarts)
    && !Contains(s, "unm.edu")
    && Strip(s) != []
    && |s| > 1
  }

  /** `sublink.lstrip('/')` */
  function DropSlashes(s: string): string {
    LStrip(s, {'/'})
  }

  /** `filter_sublinks(sublinks)` */
  function FilterSublinks(sublinks: seq<string>): (r: seq<string>)
    ensures |r| <= |sublinks|
    ensures forall i :: 0 <= i < |r| ==> r[i] == [] || r[i][0] != '/'
  {
    Map(DropSlashes, Filter(sublinks, Keep))
  }

  /**
   * The output is the slash-stripped image of an order-preserving
   * subsequence of the input: the one at the indices of exactly the
   * sublinks that pass the tests.
   */
  lemma FilterSublinksSubsequence(sublinks: seq<string>)
    ensures |FilterSublinks(sublinks)| == |Positions(sublinks, Keep)|
    ensures StrictlyIncreasing(Positions(sublinks, Keep))
    ensures forall i :: 0 <= i < |FilterSublinks(sublinks)| ==>
      && Keep(sublinks[Positions(sublinks, Keep)[i]])
      && FilterSublinks(sublinks)[i] == DropSlashes(sublinks[Positions(sublinks, Keep)[i]])
    ensures forall k :: 0 <= k < |sublinks| && Keep(sublinks[k]) ==> k in Positions(sublinks, Keep)
  {
    var idx := Positions(sublinks, Keep);
    PositionsIncreasing(sublinks, Keep);
    forall i | 0 <= i < |idx|
      ensures Keep(sublinks[idx[i]])
      ensures FilterSublinks(sublinks)[i] == DropSlashes(sublinks[idx[i]])
    {
      PositionsSelect(sublinks, Keep, i);
    }
    forall k | 0 <= k < |sublinks| && Keep(sublinks[k])
      ensures k in idx
    {
      PositionsComplete(sublinks, Keep, k);
    }
  }

  /** The filter works sublink by sublink: it distributes over concatenation. */
  lemma FilterSublinksAppend(a: seq<string>, b: seq<string>)
    ensures FilterSublinks(a + b) == FilterSublinks(a) + FilterSublinks(b)
  {
    FilterAppend(a, b, Keep);
    MapAppend(DropSlashes, Filter(a, Keep), Filter(b, Keep));
  }

  /** A single sublink yields its slash-stripped self if it passes the tests, and nothing otherwise. */
  lemma FilterSublinksSingle(s: string)
    ensures Keep(s) ==> FilterSublinks([s]) == [DropSlashes(s)]
    ensures !Keep(s) ==> FilterSublinks([s]) == []
  {
    assert [s][1..] == [];
  }

  /** A sublink that fails the tests contributes nothing, wherever it sits. */
  lemma RejectedContributesNothing(pre: seq<string>, s: string, post: seq<string>)
    requires !Keep(s)
    ensures FilterSublinks(pre + [s] + post) == FilterSublinks(pre) + FilterSublinks(post)
  {
    FilterSublinksSingle(s);
    FilterSublinksAppend(pre, [s]);
    assert FilterSublinks(pre + [s]) == FilterSublinks(pre) + [];
    FilterSublinksAppend(pre + [s], post);
  }

  /**
   * The four rejection rules: an invalid start, an `unm.edu` anywhere, a
   * whitespace-only string, a string of length at most one.
   */
  lemma RejectionRules(s: string, a: string, b: string)
    ensures (exists i :: 0 <= i < |InvalidStarts| && StartsWith(s, InvalidStarts[i])) ==> !Keep(s)
    ensures !Keep(a + "unm.edu" + b)
    ensures (forall i :: 0 <= i < |s| ==> s[i] in Whitespace) ==> !Keep(s)
    ensures |s| <= 1 ==> !Keep(s)
  {
    ContainsConcat(a, "unm.edu", b);
    StripEmptyIff(s);
  }

  /** A string shorter than `sub` does not contain it. */
  lemma ShortDoesNotContain(s: string, sub: string)
    requires |s| < |sub|
    ensures !Contains(s, sub)
  {
  }

  /** A string whose first character begins none of the invalid starts does not start with one. */
  lemma FirstCharClearsInvalidStarts(s: string)
    requires s != [] && s[0] !in {'#', 'm', 'h', 'w', 'j', 't', '{'}
    ensures !StartsWithAny(s, InvalidStarts)
  {
    forall i | 0 <= i < |InvalidStarts|
      ensures !StartsWith(s, InvalidStarts[i])
    {
      assert InvalidStarts[i][0] in {'#', 'm', 'h', 'w', 'j', 't', '{'};
    }
  }

  // The lemmas below take their literal as a parameter pinned by `requires`,
  // so that the verifier does not unroll `LStrip` and `Strip` on a literal.

  lemma SlashTopPasses(s: string)
    requires s == "/#top"
    ensures Keep(s) && DropSlashes(s) == "#top"
  {
    FirstCharClearsInvalidStarts(s);
    ShortDoesNotContain(s, "unm.edu");
    StripUnchanged(s);
    LStripAt(s, {'/'}, 1);
    assert s[1..] == "#top";
  }

  lemma DoubleSlashPasses(s: string)
    requires s == "//"
    ensures Keep(s) && DropSlashes(s) == ""
  {
    FirstCharClearsInvalidStarts(s);
    ShortDoesNotContain(s, "unm.edu");
    StripUnchanged(s);
    LStripAt(s, {'/'}, 2);
  }

  /** `"#top"` starts with `#`, an invalid start. */
  lemma HashTopRejected(s: string)
    requires s == "#top"
    ensures !Keep(s)
  {
    assert StartsWith(s, InvalidStarts[0]);
  }

  /**
   * The tests see the sublink before its slashes go: `"/#top"` passes and
   * becomes `"#top"`, `"//"` passes and becomes the empty string.
   */
  lemma TestsPrecedeStripping()
    ensures FilterSublinks(["/#top"]) == ["#top"]
    ensures FilterSublinks(["//"]) == [""]
  {
    SlashTopPasses("/#top");
    FilterSublinksSingle("/#top");
    DoubleSlashPasses("//");
    FilterSublinksSingle("//");
  }

  /** Filtering the output of `"/#top"` again drops it: the filter is not idempotent. */
  lemma NotIdempotent()
    ensures FilterSublinks(FilterSublinks(["/#top"])) == []
    ensures FilterSublinks(["/#top"]) != []
  {
    TestsPrecedeStripping();
    HashTopRejected("#top");
    FilterSublinksSingle("#top");
  }
}
