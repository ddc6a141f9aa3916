/**
 * The sequence combinators behind Python list comprehensions and `zip`:
 * `[f(x) for x in xs if p(x)]` is `Map(f, Filter(xs, p))`, and `Positions`
 * names the indices `Filter` keeps, which is how the order-preserving
 * subsequence is stated.
 */
module Seqs {

  /** `[x for x in s if p(x)]` */
  function Filter<T>(s: seq<T>, p: T -> bool): (r: seq<T>)
    ensures |r| <= |s|
    ensures forall i :: 0 <= i < |r| ==> p(r[i])
    ensures forall x :: x in s && p(x) ==> x in r
  {
    if s == [] then []
    else
      var rest := Filter(s[1..], p);
      assert s == [s[0]] + s[1..];
      if p(s[0]) then [s[0]] + rest else rest
  }

  /** `[f(x) for x in s]` */
  function Map<A, B>(f: A -> B, s: seq<A>): (r: seq<B>)
    ensures |r| == |s|
    ensures forall i :: 0 <= i < |s| ==> r[i] == f(s[i])
  {
    seq(|s|, i requires 0 <= i < |s| => f(s[i]))
  }

  /** `zip(a, b)`: pairs up positions until the shorter sequence runs out. */
  function Zip<A, B>(a: seq<A>, b: seq<B>): (r: seq<(A, B)>)
    ensures |r| == if |a| <= |b| then |a| else |b|
    ensures forall i :: 0 <= i < |r| ==> r[i] == (a[i], b[i])
  {
    var n := if |a| <= |b| then |a| else |b|;
    seq(n, i requires 0 <= i < n => (a[i], b[i]))
  }

  /** Each index of `s` raised by `k`. */
  function Shift(s: seq<nat>, k: nat): (r: seq<nat>)
    ensures |r| == |s|
    ensures forall i :: 0 <= i < |s| ==> r[i] == s[i] + k
  {
    seq(|s|, i requires 0 <= i < |s| => s[i] + k)
  }

  ghost predicate StrictlyIncreasing(idx: seq<nat>) {
    forall i, j :: 0 <= i < j < |idx| ==> idx[i] < idx[j]
  }

  /**
   * The indices of `s` whose element satisfies `p`, in increasing order:
   * the positions `Filter(s, p)` keeps (see `PositionsSelect`).
   */
  function Positions<T>(s: seq<T>, p: T -> bool): (idx: seq<nat>)
    ensures |idx| == |Filter(s, p)|
    ensures forall i :: 0 <= i < |idx| ==> idx[i] < |s|
  {
    if s == [] then []
    else
      var rest := Shift(Positions(s[1..], p), 1);
      if p(s[0]) then [0] + rest else rest
  }

  /** `Filter(s, p)` is the subsequence of `s` at `Positions(s, p)`. */
  lemma {:induction false} PositionsSelect<T>(s: seq<T>, p: T -> bool, i: nat)
    requires i < |Positions(s, p)|
    ensures p(s[Positions(s, p)[i]])
    ensures Filter(s, p)[i] == s[Positions(s, p)[i]]
  {
    var rest := Positions(s[1..], p);
    if p(s[0]) {
      if i > 0 {
        PositionsSelect(s[1..], p, i - 1);
        assert s[1..][rest[i - 1]] == s[rest[i - 1] + 1];
      }
    } else {
      PositionsSelect(s[1..], p, i);
      assert s[1..][rest[i]] == s[rest[i] + 1];
    }
  }

  /** The kept indices are strictly increasing, so the subsequence keeps the order of `s`. */
  lemma {:induction false} PositionsIncreasing<T>(s: seq<T>, p: T -> bool)
    ensures StrictlyIncreasing(Positions(s, p))
  {
    if s != [] {
      PositionsIncreasing(s[1..], p);
    }
  }

  /** Every index whose element satisfies `p` is kept. */
  lemma {:induction false} PositionsComplete<T>(s: seq<T>, p: T -> bool, k: nat)
    requires k < |s| && p(s[k])
    ensures k in Positions(s, p)
  {
    var head := if p(s[0]) then [0] else [];
    var rest := Positions(s[1..], p);
    PositionsStep(s, p);
    if k == 0 {
      assert Positions(s, p)[0] == 0;
    } else {
      assert s[1..][k - 1] == s[k];
      PositionsComplete(s[1..], p, k - 1);
      var j :| 0 <= j < |rest| && rest[j] == k - 1;
      assert Positions(s, p)[|head| + j] == k;
    }
  }

  /** The `i`-th kept index is at least `i`: skipped elements only push it right. */
  lemma {:induction false} PositionsAtLeast<T>(s: seq<T>, p: T -> bool, i: nat)
    requires i < |Positions(s, p)|
    ensures Positions(s, p)[i] >= i
  {
    if i > 0 {
      PositionsAtLeast(s, p, i - 1);
      PositionsIncreasing(s, p);
    }
  }

  /** Every element of `s` up to and including position `i` satisfies `p`. */
  ghost predicate AllUpTo<T>(s: seq<T>, p: T -> bool, i: nat)
    requires i < |s|
  {
    forall j :: 0 <= j <= i ==> p(s[j])
  }

  /** With `p(s[0])`, "all of `s` up to `i`" is "all of `s[1..]` up to `i - 1`". */
  lemma AllUpToShift<T>(s: seq<T>, p: T -> bool, i: nat)
    requires 0 < i < |s| && p(s[0])
    ensures AllUpTo(s[1..], p, i - 1) <==> AllUpTo(s, p, i)
  {
    if AllUpTo(s[1..], p, i - 1) {
      forall j | 0 < j <= i
        ensures p(s[j])
      {
        assert s[1..][j - 1] == s[j];
      }
    }
  }

  /** One unfolding of `Positions`: the head's index if it is kept, then the tail's indices shifted by one. */
  lemma PositionsStep<T>(s: seq<T>, p: T -> bool)
    requires s != []
    ensures Positions(s, p) == (if p(s[0]) then [0] else []) + Shift(Positions(s[1..], p), 1)
  {
  }

  /**
   * The `i`-th kept index is `i` itself exactly when every element up to and
   * including position `i` satisfies `p`.
   */
  lemma {:induction false} PositionsAligned<T>(s: seq<T>, p: T -> bool, i: nat)
    requires i < |Positions(s, p)|
    ensures i < |s|
    ensures Positions(s, p)[i] == i <==> AllUpTo(s, p, i)
  {
    PositionsAtLeast(s, p, i);
    var rest := Positions(s[1..], p);
    PositionsStep(s, p);
    if !p(s[0]) {
      assert Positions(s, p)[i] == rest[i] + 1;
      PositionsAtLeast(s[1..], p, i);
      assert !AllUpTo(s, p, i);
    } else if i > 0 {
      assert Positions(s, p)[i] == rest[i - 1] + 1;
      PositionsAligned(s[1..], p, i - 1);
      AllUpToShift(s, p, i);
    } else {
      assert AllUpTo(s, p, 0);
    }
  }

  /** `Map` distributes over concatenation. */
  lemma MapAppend<A, B>(f: A -> B, a: seq<A>, b: seq<A>)
    ensures Map(f, a + b) == Map(f, a) + Map(f, b)
  {
    var l := Map(f, a + b);
    var r := Map(f, a) + Map(f, b);
    assert |l| == |r|;
    forall i | 0 <= i < |l|
      ensures l[i] == r[i]
    {
      if i < |a| {
        assert (a + b)[i] == a[i];
      } else {
        assert (a + b)[i] == b[i - |a|];
      }
    }
  }

  /** `Filter` distributes over concatenation. */
  lemma {:induction false} FilterAppend<T>(a: seq<T>, b: seq<T>, p: T -> bool)
    ensures Filter(a + b, p) == Filter(a, p) + Filter(b, p)
  {
    if a == [] {
      assert a + b == b;
    } else {
      assert (a + b)[1..] == a[1..] + b;
      FilterAppend(a[1..], b, p);
    }
  }

  /** The pieces of `a + b` are recovered by slicing at `|a|`. */
  lemma SliceConcat<T>(a: seq<T>, b: seq<T>)
    ensures (a + b)[..|a|] == a && (a + b)[|a|..] == b
  {
  }

  /** A sequence is its first `k` elements followed by the rest. */
  lemma SplitAt<T>(s: seq<T>, k: nat)
    requires k <= |s|
    ensures s[..k] + s[k..] == s
  {
  }

  lemma ConcatAssoc<T>(a: seq<T>, b: seq<T>, c: seq<T>, d: seq<T>)
    ensures a + b + c + d == a + (b + (c + d))
  {
  }
}
