/**
 * Top-N recommendation by similarity (modules/recommender.py,
 * `recommend_by_cosine`).
 *
 * The cosine similarities between the new document and the stored ones are
 * an input sequence; only the selection `argsort(similarities)[::-1][:top_n]`
 * and the score lookup are modelled. `argsort` is not stable, so among equal
 * scores no order is promised: the model sorts with one fixed tie order, and
 * every contract below holds whatever order the ties take.
 */
module Recommender {
  import opened Wrappers

  /** The default `top_n`. */
  const DefaultTopN: int := 3

  /** The pair `recommend_by_cosine` returns: indices, then their scores. */
  datatype Recommendation = Recommendation(indices: seq<nat>, scores: seq<real>)

  /** Every entry is an index into `s`. */
  predicate ValidIndices(s: seq<real>, r: seq<nat>) {
    forall k :: 0 <= k < |r| ==> r[k] < |s|
  }

  predicate Distinct(r: seq<nat>) {
    forall a, b :: 0 <= a < b < |r| ==> r[a] != r[b]
  }

  /** The indices list their scores from highest to lowest. */
  predicate SortedDesc(s: seq<real>, r: seq<nat>)
    requires ValidIndices(s, r)
  {
    forall a, b :: 0 <= a < b < |r| ==> s[r[a]] >= s[r[b]]
  }

  /** Inserts index `i` into the descending order `l`, ahead of the scores it ties. */
  function Insert(s: seq<real>, i: nat, l: seq<nat>): (r: seq<nat>)
    requires i < |s| && ValidIndices(s, l)
    ensures |r| == |l| + 1 && ValidIndices(s, r)
    ensures forall x :: x in r <==> x in l || x == i
  {
    if l == [] then [i]
    else if s[l[0]] <= s[i] then [i] + l
    else
      var rest := Insert(s, i, l[1..]);
      assert forall x :: x in l <==> x == l[0] || x in l[1..];
      [l[0]] + rest
  }

  /** Insertion keeps the order descending. */
  lemma {:induction false} InsertSorted(s: seq<real>, i: nat, l: seq<nat>)
    requires i < |s| && ValidIndices(s, l) && SortedDesc(s, l)
    ensures SortedDesc(s, Insert(s, i, l))
  {
    if l != [] && s[l[0]] > s[i] {
      var rest := Insert(s, i, l[1..]);
      InsertSorted(s, i, l[1..]);
      var r := [l[0]] + rest;
      forall b | 0 < b < |r| ensures s[r[0]] >= s[r[b]] {
        assert r[b] == rest[b - 1] && rest[b - 1] in rest;
        if r[b] != i {
          var q :| 0 <= q < |l[1..]| && l[1..][q] == r[b];
          assert l[q + 1] == r[b];
        }
      }
    }
  }

  /** Insertion of an index not yet present keeps the indices distinct. */
  lemma {:induction false} InsertDistinct(s: seq<real>, i: nat, l: seq<nat>)
    requires i < |s| && ValidIndices(s, l)
    requires Distinct(l) && i !in l
    ensures Distinct(Insert(s, i, l))
  {
    if l != [] && s[l[0]] > s[i] {
      var rest := Insert(s, i, l[1..]);
      assert forall x :: x in l[1..] ==> x in l;
      InsertDistinct(s, i, l[1..]);
      assert l[0] !in l[1..];
      var r := [l[0]] + rest;
      forall b | 0 < b < |r| ensures r[0] != r[b] {
        assert r[b] == rest[b - 1] && rest[b - 1] in rest;
      }
    } else if l != [] {
      var r := [i] + l;
      forall b | 0 < b < |r| ensures r[0] != r[b] {
        assert r[b] == l[b - 1];
      }
    }
  }

  /** `np.argsort(s[..n])[::-1]`: the indices `0..n-1`, highest score first. */
  function ArgsortDesc(s: seq<real>, n: nat): (r: seq<nat>)
    requires n <= |s|
    ensures |r| == n && ValidIndices(s, r) && Distinct(r) && SortedDesc(s, r)
    ensures forall i :: 0 <= i < n ==> i in r
    ensures forall k :: 0 <= k < n ==> r[k] < n
  {
    if n == 0 then []
    else
      var last: nat := n - 1;
      var prev := ArgsortDesc(s, last);
      assert last !in prev;
      InsertDistinct(s, last, prev);
      InsertSorted(s, last, prev);
      var r := Insert(s, last, prev);
      assert forall k :: 0 <= k < |r| ==> r[k] in r;
      r
  }

  /** How many items the Python slice `[:topN]` keeps out of `len`. */
  function SliceLength(len: nat, topN: int): nat {
    if topN >= 0 then Min(topN, len) else Max(len + topN, 0)
  }

  /**
   * `recommend_by_cosine` on the similarity vector `similarities`: the indices of
   * the highest scores, highest first, and the scores at those indices.
   */
  function RecommendByCosine(similarities: seq<real>, topN: int := DefaultTopN): (r: Recommendation)
    ensures |r.indices| <= |similarities|
    ensures topN >= 0 ==> |r.indices| == Min(topN, |similarities|)
    ensures topN < 0 ==> |r.indices| == Max(|similarities| + topN, 0)
    ensures ValidIndices(similarities, r.indices) && Distinct(r.indices)
    ensures SortedDesc(similarities, r.indices)
    ensures forall i, k :: 0 <= i < |similarities| && i !in r.indices && 0 <= k < |r.indices| ==>
              similarities[i] <= similarities[r.indices[k]]
    ensures |r.scores| == |r.indices|
    ensures forall k :: 0 <= k < |r.indices| ==> r.scores[k] == similarities[r.indices[k]]
    ensures forall a, b :: 0 <= a < b < |r.scores| ==> r.scores[a] >= r.scores[b]
    ensures topN >= |similarities| ==> forall i :: 0 <= i < |similarities| ==> i in r.indices
  {
    var order := ArgsortDesc(similarities, |similarities|);
    var m := SliceLength(|similarities|, topN);
    var top := order[..m];
    PrefixKeepsOrder(similarities, order, m);
    PrefixIsTop(similarities, order, m);
    assert topN >= |similarities| ==> top == order;
    Recommendation(top, seq(m, k requires 0 <= k < m => similarities[top[k]]))
  }

  /** A prefix of a distinct descending order is itself one. */
  lemma PrefixKeepsOrder(s: seq<real>, order: seq<nat>, m: nat)
    requires ValidIndices(s, order) && Distinct(order) && SortedDesc(s, order) && m <= |order|
    ensures ValidIndices(s, order[..m]) && Distinct(order[..m]) && SortedDesc(s, order[..m])
  {
  }

  /** The first `m` entries of a complete descending order hold the `m` highest scores. */
  lemma PrefixIsTop(s: seq<real>, order: seq<nat>, m: nat)
    requires ValidIndices(s, order) && SortedDesc(s, order) && m <= |order|
    requires forall i :: 0 <= i < |s| ==> i in order
    ensures forall i, k :: 0 <= i < |s| && i !in order[..m] && 0 <= k < m ==> s[i] <= s[order[k]]
  {
    forall i, k | 0 <= i < |s| && i !in order[..m] && 0 <= k < m
      ensures s[i] <= s[order[k]]
    {
      assert i in order;
      var p :| 0 <= p < |order| && order[p] == i;
      assert p >= m;
    }
  }

  /** `top_n = 0` recommends nothing. */
  lemma RecommendNone(similarities: seq<real>)
    ensures RecommendByCosine(similarities, 0) == Recommendation([], [])
  {
  }

  /** Three stored documents scored 1.0, 0.0 and -1.0: `top_n=2` gives indices 0 and 1. */
  lemma RecommendExample(similarities: seq<real>)
    requires similarities == [1.0, 0.0, -1.0]
    ensures RecommendByCosine(similarities, 2) == Recommendation([0, 1], [1.0, 0.0])
  {
    assert ArgsortDesc(similarities, 1) == [0];
    assert Insert(similarities, 1, [0]) == [0, 1];
    assert ArgsortDesc(similarities, 2) == [0, 1];
    assert Insert(similarities, 2, [1]) == [1, 2];
    assert ArgsortDesc(similarities, 3) == [0, 1, 2];
    assert [0, 1, 2][..2] == [0, 1];
  }
}
