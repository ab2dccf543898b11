/** Top-k selection in `buscar_resposta` (app/rag_engine.py): all indices
    sorted by descending score, then the first `top_c` of them taken.
    Scores are abstract integers; the sort is stable, so equal scores keep
    ascending index order. */
module Ranking {

  /** Index `a` comes before index `b` in the descending stable sort. */
  predicate Before(scores: seq<int>, a: nat, b: nat)
    requires a < |scores| && b < |scores|
  {
    scores[a] > scores[b] || (scores[a] == scores[b] && a < b)
  }

  predicate InRange(scores: seq<int>, xs: seq<nat>) {
    forall k | 0 <= k < |xs| :: xs[k] < |scores|
  }

  /** `xs` lists indices of `scores` in sort order (hence without repeats). */
  predicate Ranked(scores: seq<int>, xs: seq<nat>) {
    InRange(scores, xs) && forall a, b | 0 <= a < b < |xs| :: Before(scores, xs[a], xs[b])
  }

  /** Insert one more index into a ranked list. */
  function Insert(scores: seq<int>, xs: seq<nat>, x: nat): (r: seq<nat>)
    requires x < |scores| && Ranked(scores, xs) && x !in xs
    ensures Ranked(scores, r)
    ensures |r| == |xs| + 1
    ensures forall y :: y in r <==> y in xs || y == x
    decreases |xs|
  {
    if |xs| == 0 then [x]
    else if Before(scores, x, xs[0]) then [x] + xs
    else
      var rest := Insert(scores, xs[1..], x);
      assert forall y | y in xs[1..] :: Before(scores, xs[0], y);
      assert Before(scores, xs[0], x);
      [xs[0]] + rest
  }

  /** The indices below `n`, sorted by descending score. */
  function Rank(scores: seq<int>, n: nat): (r: seq<nat>)
    requires n <= |scores|
    ensures Ranked(scores, r)
    ensures |r| == n
    ensures forall y: nat :: y in r <==> y < n
  {
    if n == 0 then []
    else
      var prev := Rank(scores, n - 1);
      var r := Insert(scores, prev, n - 1);
      assert forall y: nat :: y in r <==> y < n;
      r
  }

  function Min(a: int, b: int): int {
    if a <= b then a else b
  }

  function Max(a: int, b: int): int {
    if a >= b then a else b
  }

  /** Length of the Python slice `xs[:k]` of a list of length `n`. */
  function SliceLength(n: nat, k: int): nat {
    if k >= 0 then Min(k, n) else Max(0, n + k)
  }

  /** The Python slice `xs[:k]`, negative `k` counting from the end. */
  function Take<T>(xs: seq<T>, k: int): (r: seq<T>)
    ensures |r| == SliceLength(|xs|, k)
    ensures r == xs[..|r|]
  {
    xs[..SliceLength(|xs|, k)]
  }

  /** A ranked list is determined by its elements: any correct sort of the
      same indices gives the same order. */
  lemma {:induction false} RankedUnique(scores: seq<int>, xs: seq<nat>, ys: seq<nat>)
    requires Ranked(scores, xs) && Ranked(scores, ys)
    requires forall y :: y in xs <==> y in ys
    requires |xs| == |ys|
    ensures xs == ys
    decreases |xs|
  {
    if |xs| > 0 {
      assert xs[0] in ys && ys[0] in xs;
      var m :| 0 <= m < |ys| && ys[m] == xs[0];
      var m' :| 0 <= m' < |xs| && xs[m'] == ys[0];
      assert m == 0 || m' == 0;
      assert xs[0] == ys[0];
      forall y
        ensures y in xs[1..] <==> y in ys[1..]
      {
        assert y in xs[1..] <==> y in xs && y != xs[0];
        assert y in ys[1..] <==> y in ys && y != ys[0];
      }
      RankedUnique(scores, xs[1..], ys[1..]);
      assert xs == [xs[0]] + xs[1..];
      assert ys == [ys[0]] + ys[1..];
    }
  }

  /** The indices of the `top_c` best scores, best first. */
  function TopIndices(scores: seq<int>, topC: int): (r: seq<nat>)
    ensures |r| == SliceLength(|scores|, topC)
    ensures Ranked(scores, r)
    ensures forall a, j | 0 <= a < |r| && 0 <= j < |scores| && j !in r :: Before(scores, r[a], j)
  {
    var all := Rank(scores, |scores|);
    var r := Take(all, topC);
    forall a, j | 0 <= a < |r| && 0 <= j < |scores| && j !in r
      ensures Before(scores, r[a], j)
    {
      assert j in all;
      var m :| 0 <= m < |all| && all[m] == j;
      assert r[a] == all[a];
      assert forall k | 0 <= k < |r| :: r[k] in r && r[k] == all[k];
      assert m >= |r|;
    }
    r
  }

  /** The selection is the prefix of the one sorted order of all indices,
      however that order is computed. */
  lemma TopIndicesIsPrefix(scores: seq<int>, topC: int, sorted: seq<nat>)
    requires Ranked(scores, sorted) && |sorted| == |scores|
    requires forall y: nat :: y in sorted <==> y < |scores|
    ensures TopIndices(scores, topC) == Take(sorted, topC)
  {
    RankedUnique(scores, Rank(scores, |scores|), sorted);
  }

  /** The selected indices are distinct, in range, scores never increase
      along the selection and equal scores appear in index order, and no
      index left out scores higher than one selected. */
  lemma TopIndicesProperties(scores: seq<int>, topC: int)
    ensures var r := TopIndices(scores, topC);
            && (0 <= topC ==> |r| == Min(topC, |scores|))
            && (forall k | 0 <= k < |r| :: r[k] < |scores|)
            && (forall a, b | 0 <= a < b < |r| :: r[a] != r[b])
            && (forall a, b | 0 <= a < b < |r| :: scores[r[a]] >= scores[r[b]])
            && (forall a, b | 0 <= a < b < |r| && scores[r[a]] == scores[r[b]] :: r[a] < r[b])
            && (forall a, j | 0 <= a < |r| && 0 <= j < |scores| && j !in r :: scores[r[a]] >= scores[j])
  {
    var r := TopIndices(scores, topC);
    assert Ranked(scores, r);
  }
}
