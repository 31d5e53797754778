/** Sequence utilities: order-preserving filtering, lookup by position, removal. */
module Seqs {

  /** No element occurs twice. */
  predicate Distinct<T(==)>(s: seq<T>) {
    forall i, j :: 0 <= i < j < |s| ==> s[i] != s[j]
  }

  /** Strictly increasing natural numbers (positions picked out of a sequence, in order). */
  predicate Increasing(s: seq<nat>) {
    forall i, j :: 0 <= i < j < |s| ==> s[i] < s[j]
  }

  /** Position of the first occurrence of `x` in `s`. */
  function IndexOf<T(==)>(s: seq<T>, x: T): (i: nat)
    requires x in s
    ensures i < |s| && s[i] == x
    ensures forall j :: 0 <= j < i ==> s[j] != x
  {
    if s[0] == x then 0 else 1 + IndexOf(s[1..], x)
  }

  /** In a sequence without repetitions an element's position is its only one. */
  lemma IndexOfDistinct<T>(s: seq<T>, q: nat)
    requires Distinct(s) && q < |s|
    ensures IndexOf(s, s[q]) == q
  {
  }

  /** `s` with the element at position `k` taken out. */
  function RemoveAt<T>(s: seq<T>, k: nat): (r: seq<T>)
    requires k < |s|
    ensures |r| == |s| - 1
    ensures forall q :: 0 <= q < k ==> r[q] == s[q]
    ensures forall q :: k <= q < |r| ==> r[q] == s[q + 1]
  {
    s[..k] + s[k + 1..]
  }

  /** The elements of `s` that satisfy `p`, in their original order, each occurrence kept. */
  function Filter<T(!new)>(p: T -> bool, s: seq<T>): (r: seq<T>)
    ensures |r| <= |s|
    ensures forall x :: x in r <==> x in s && p(x)
    decreases |s|
  {
    if |s| == 0 then []
    else Filter(p, s[..|s| - 1]) + (if p(s[|s| - 1]) then [s[|s| - 1]] else [])
  }

  /** The positions of `s` whose element satisfies `p`, in increasing order. */
  ghost function Positions<T(!new)>(p: T -> bool, s: seq<T>): (idx: seq<nat>)
    ensures forall n :: 0 <= n < |idx| ==> idx[n] < |s|
    decreases |s|
  {
    if |s| == 0 then []
    else Positions(p, s[..|s| - 1]) + (if p(s[|s| - 1]) then [|s| - 1] else [])
  }

  /** `Filter` reads `s` at `Positions`, which increase: the result is a subsequence of `s`
      in `s`'s order, and only passing positions are read. */
  lemma {:induction false} FilterReadsPositions<T(!new)>(p: T -> bool, s: seq<T>)
    ensures |Positions(p, s)| == |Filter(p, s)|
    ensures Increasing(Positions(p, s))
    ensures forall n :: 0 <= n < |Filter(p, s)| ==> Filter(p, s)[n] == s[Positions(p, s)[n]]
    decreases |s|
  {
    if |s| > 0 {
      var last := |s| - 1;
      var init := s[..last];
      FilterReadsPositions(p, init);
      var pre, f := Positions(p, init), Filter(p, init);
      assert forall n :: 0 <= n < |pre| ==> pre[n] < last;
      assert forall n :: 0 <= n < |f| ==> f[n] == s[pre[n]];
    }
  }

  /** Every position whose element satisfies `p` is among `Positions`, and no other is. */
  lemma {:induction false} PositionsExact<T(!new)>(p: T -> bool, s: seq<T>, j: nat)
    requires j < |s|
    ensures j in Positions(p, s) <==> p(s[j])
    decreases |s|
  {
    var last := |s| - 1;
    var init := s[..last];
    if j < last {
      PositionsExact(p, init, j);
      assert init[j] == s[j];
      assert last !in Positions(p, init);
    } else {
      assert j !in Positions(p, init);
    }
  }

  /** Each occurrence is tested on its own: an element that passes keeps all its copies. */
  lemma {:induction false} FilterMultiplicity<T(!new)>(p: T -> bool, s: seq<T>, x: T)
    ensures multiset(Filter(p, s))[x] == if p(x) then multiset(s)[x] else 0
    decreases |s|
  {
    if |s| > 0 {
      var init := s[..|s| - 1];
      FilterMultiplicity(p, init, x);
      assert s == init + [s[|s| - 1]];
    }
  }

  /** Filtering a sequence whose elements all pass changes nothing. */
  lemma {:induction false} FilterAllPass<T(!new)>(p: T -> bool, s: seq<T>)
    requires forall x :: x in s ==> p(x)
    ensures Filter(p, s) == s
    decreases |s|
  {
    if |s| > 0 {
      var init := s[..|s| - 1];
      FilterAllPass(p, init);
      assert s == init + [s[|s| - 1]];
    }
  }

  /** Filtering twice with the same predicate is filtering once. */
  lemma FilterIdempotent<T(!new)>(p: T -> bool, s: seq<T>)
    ensures Filter(p, Filter(p, s)) == Filter(p, s)
  {
    FilterAllPass(p, Filter(p, s));
  }

  /** A strictly increasing sequence of positions below `n` has at most `n` entries. */
  lemma {:induction false} IncreasingBelow(s: seq<nat>, n: nat)
    requires Increasing(s)
    requires forall i :: 0 <= i < |s| ==> s[i] < n
    ensures |s| <= n
    decreases n
  {
    if |s| > 0 {
      var init := s[..|s| - 1];
      assert forall i :: 0 <= i < |init| ==> init[i] < s[|s| - 1] < n;
      IncreasingBelow(init, n - 1);
    }
  }
}
