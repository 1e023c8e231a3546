/**
 * Cluster selection and post-processing (modules/clustering.py), and the
 * cluster -> documents view the app builds from a cluster map (app.py).
 *
 * A cluster map `{doc_id: cluster_id}` is a Python dict. Its iteration order
 * is insertion order, and `Counter.most_common` breaks ties by that order, so
 * the map is modelled as the sequence of its items.
 *
 * KMeans and the silhouette score are not modelled: the labels KMeans
 * produces are an input sequence, and the silhouette score of each k is an
 * input function.
 */
module Clustering {
  import opened Wrappers

  type DocId = string

  /** One `doc_id: cluster_id` item of a cluster map. */
  datatype Entry = Entry(doc: DocId, cluster: int)

  /** A cluster map: its items in iteration order. */
  type Assignment = seq<Entry>

  /** Dict keys are unique. */
  predicate DistinctDocs(a: Assignment) {
    forall i, j :: 0 <= i < j < |a| ==> a[i].doc != a[j].doc
  }

  /** The keys of the map, in order. */
  function Docs(a: Assignment): (docs: seq<DocId>)
    ensures |docs| == |a| && forall i :: 0 <= i < |a| ==> docs[i] == a[i].doc
  {
    seq(|a|, i requires 0 <= i < |a| => a[i].doc)
  }

  /** `cluster_map.values()`, in order. */
  function Labels(a: Assignment): (labels: seq<int>)
    ensures |labels| == |a| && forall i :: 0 <= i < |a| ==> labels[i] == a[i].cluster
  {
    seq(|a|, i requires 0 <= i < |a| => a[i].cluster)
  }

  /** `Counter(cluster_map.values())`: how many documents each cluster holds. */
  function Counts(a: Assignment): multiset<int> {
    multiset(Labels(a))
  }

  function Size(a: Assignment, c: int): nat {
    Counts(a)[c]
  }

  /** The cluster ids that occur in the map. */
  function ClusterIds(a: Assignment): set<int> {
    set c | c in Labels(a)
  }

  /** Where `doc` sits among the keys, or `|a|` when it is not a key. */
  function IndexOf(a: Assignment, doc: DocId): (i: nat)
    ensures i <= |a|
    ensures i < |a| ==> a[i].doc == doc
    ensures forall j :: 0 <= j < i ==> a[j].doc != doc
  {
    if a == [] then 0
    else if a[0].doc == doc then 0
    else 1 + IndexOf(a[1..], doc)
  }

  /** The value stored under `doc`, as `d[doc]` reads it, or nothing when `doc` is not a key. */
  function Lookup(a: Assignment, doc: DocId): Option<int> {
    var i := IndexOf(a, doc);
    if i == |a| then None else Some(a[i].cluster)
  }

  /** A lookup finds nothing exactly for a document that is not a key, and otherwise an item of the map. */
  lemma LookupSpec(a: Assignment, doc: DocId)
    ensures Lookup(a, doc).None? <==> doc !in Docs(a)
    ensures Lookup(a, doc).Some? ==> Entry(doc, Lookup(a, doc).value) in a
  {
    var i := IndexOf(a, doc);
    if doc in Docs(a) {
      var j :| 0 <= j < |a| && Docs(a)[j] == doc;
      assert a[j].doc == doc;
    }
    if i < |a| {
      assert a[i] == Entry(doc, a[i].cluster);
    }
  }

  // ---------------------------------------------------------------------------
  // determine_best_k
  // ---------------------------------------------------------------------------

  /** The default `k_range` of `determine_best_k`. */
  const DefaultKMin: int := 2
  const DefaultKMax: int := 10

  /** The default `fixed_k` of `cluster_embeddings`. */
  const DefaultFixedK: int := 5

  /**
   * `k` is what `determine_best_k` returns for the inclusive range `lo..hi`
   * when `score(k)` is the silhouette score of the k-cluster partition: the
   * first k whose score is the highest one, provided it beats the starting
   * bar of -1, and `lo` otherwise.
   */
  ghost predicate IsBestK(score: int -> real, lo: int, hi: int, k: int) {
    if exists j :: lo <= j <= hi && score(j) > -1.0 then
      && lo <= k <= hi
      && score(k) > -1.0
      && (forall j :: lo <= j <= hi ==> score(j) <= score(k))
      && (forall j :: lo <= j < k ==> score(j) < score(k))
    else
      k == lo
  }

  /** The scan over `range(k_range[0], k_range[1] + 1)` with a strict `>`. */
  method DetermineBestK(score: int -> real, lo: int := DefaultKMin, hi: int := DefaultKMax)
    returns (bestK: int)
    ensures IsBestK(score, lo, hi, bestK)
  {
    bestK := lo;
    var bestScore: real := -1.0;
    var k := lo;
    while k <= hi
      invariant lo <= k && (k == lo || k <= hi + 1)
      invariant forall j :: lo <= j < k ==> score(j) <= bestScore
      invariant (bestK == lo && bestScore == -1.0)
             || (lo <= bestK < k && bestScore == score(bestK) && bestScore > -1.0)
      invariant forall j :: lo <= j < bestK ==> score(j) < bestScore
    {
      var s := score(k);
      if s > bestScore {
        bestK := k;
        bestScore := s;
      }
      k := k + 1;
    }
    if bestScore == -1.0 {
      assert forall j :: lo <= j <= hi ==> score(j) <= -1.0;
    } else {
      assert lo <= bestK <= hi && score(bestK) > -1.0;
    }
  }

  /** Only one k satisfies `IsBestK`: the selection is deterministic. */
  lemma BestKUnique(score: int -> real, lo: int, hi: int, k1: int, k2: int)
    requires IsBestK(score, lo, hi, k1) && IsBestK(score, lo, hi, k2)
    ensures k1 == k2
  {
  }

  /** `k = determine_best_k(X) if auto_k else fixed_k`. */
  method ChooseClusterCount(score: int -> real, autoK: bool := true, fixedK: int := DefaultFixedK)
    returns (k: int)
    ensures autoK ==> IsBestK(score, DefaultKMin, DefaultKMax, k)
    ensures !autoK ==> k == fixedK
  {
    if autoK {
      k := DetermineBestK(score);
    } else {
      k := fixedK;
    }
  }

  // ---------------------------------------------------------------------------
  // cluster_embeddings
  // ---------------------------------------------------------------------------

  /** `d[doc] = cluster` on a dict: an existing key keeps its place, a new key goes last. */
  function Put(a: Assignment, doc: DocId, cluster: int): (r: Assignment)
    ensures Lookup(r, doc) == Some(cluster)
    ensures Lookup(a, doc).None? ==> r == a + [Entry(doc, cluster)]
    ensures Lookup(a, doc).Some? ==> |r| == |a|
  {
    var i := IndexOf(a, doc);
    var r := if i == |a| then a + [Entry(doc, cluster)] else a[i := Entry(doc, cluster)];
    IndexOfIs(r, doc, i);
    r
  }

  /** Unique keys stay unique. */
  lemma PutDistinct(a: Assignment, doc: DocId, cluster: int)
    requires DistinctDocs(a)
    ensures DistinctDocs(Put(a, doc, cluster))
  {
    var i, r := IndexOf(a, doc), Put(a, doc, cluster);
    if i < |a| {
      assert r == a[i := Entry(doc, cluster)];
      forall j | 0 <= j < |a| ensures r[j].doc == a[j].doc {
      }
    }
  }

  /**
   * Assigning a key keeps the order of the keys: a new key goes last, an
   * existing one stays where it was, and every other entry stays in its place.
   */
  lemma PutKeepsOrder(a: Assignment, doc: DocId, cluster: int)
    ensures Docs(Put(a, doc, cluster)) == (if Lookup(a, doc).None? then Docs(a) + [doc] else Docs(a))
    ensures forall j :: 0 <= j < |a| && a[j].doc != doc ==> Put(a, doc, cluster)[j] == a[j]
  {
    var i, r := IndexOf(a, doc), Put(a, doc, cluster);
    if i < |a| {
      assert r == a[i := Entry(doc, cluster)];
      assert Docs(r) == Docs(a);
    } else {
      assert Docs(r) == Docs(a) + [doc];
    }
  }

  /** Assigning one key leaves the value of every other key alone. */
  lemma PutOther(a: Assignment, doc: DocId, cluster: int, d: DocId)
    requires d != doc
    ensures Lookup(Put(a, doc, cluster), d) == Lookup(a, d)
  {
    var r, k := Put(a, doc, cluster), IndexOf(a, d);
    IndexOfIs(r, d, if k == |a| then |r| else k);
  }

  /** The position the scan stops at is determined by the keys before it. */
  lemma IndexOfIs(a: Assignment, doc: DocId, i: nat)
    requires i <= |a| && (i < |a| ==> a[i].doc == doc)
    requires forall j :: 0 <= j < i ==> a[j].doc != doc
    ensures IndexOf(a, doc) == i
  {
  }

  /**
   * `{doc_id: int(cluster_id) for doc_id, cluster_id in zip(doc_ids, labels)}`,
   * where `labels` is what KMeans returned.
   */
  function ClusterEmbeddings(docIds: seq<DocId>, labels: seq<int>): Assignment
    decreases |docIds|
  {
    var n := Min(|docIds|, |labels|);
    if n == 0 then [] else Put(ClusterEmbeddings(docIds[..n - 1], labels[..n - 1]), docIds[n - 1], labels[n - 1])
  }

  /** The map has unique keys, and its keys are the ids `zip` pairs with a label. */
  lemma {:induction false} ClusterEmbeddingsKeys(docIds: seq<DocId>, labels: seq<int>)
    ensures DistinctDocs(ClusterEmbeddings(docIds, labels))
    ensures forall d :: Lookup(ClusterEmbeddings(docIds, labels), d).Some? <==> d in docIds[..Min(|docIds|, |labels|)]
    decreases |docIds|
  {
    var n := Min(|docIds|, |labels|);
    if n > 0 {
      var ids, lbls := docIds[..n - 1], labels[..n - 1];
      ClusterEmbeddingsKeys(ids, lbls);
      var prefix := ClusterEmbeddings(ids, lbls);
      assert ids[..Min(n - 1, n - 1)] == ids;
      assert docIds[..n] == ids + [docIds[n - 1]];
      PutDistinct(prefix, docIds[n - 1], labels[n - 1]);
      forall d | d != docIds[n - 1] {
        PutOther(prefix, docIds[n - 1], labels[n - 1], d);
      }
    }
  }

  /** A document listed more than once takes the label of its last listing. */
  lemma {:induction false} ClusterEmbeddingsLastWins(docIds: seq<DocId>, labels: seq<int>, j: nat)
    requires j < |docIds| && j < |labels|
    requires forall j' :: j < j' < Min(|docIds|, |labels|) ==> docIds[j'] != docIds[j]
    ensures Lookup(ClusterEmbeddings(docIds, labels), docIds[j]) == Some(labels[j])
    decreases |docIds|
  {
    var n := Min(|docIds|, |labels|);
    var ids, lbls := docIds[..n - 1], labels[..n - 1];
    if j < n - 1 {
      assert Min(|ids|, |lbls|) == n - 1;
      assert ids[j] == docIds[j] && lbls[j] == labels[j];
      assert forall j' :: j < j' < n - 1 ==> ids[j'] == docIds[j'];
      ClusterEmbeddingsLastWins(ids, lbls, j);
      PutOther(ClusterEmbeddings(ids, lbls), docIds[n - 1], labels[n - 1], docIds[j]);
    }
  }


  /** With distinct ids the map pairs `doc_ids[i]` with `labels[i]`, in order. */
  lemma {:induction false} ClusterEmbeddingsZip(docIds: seq<DocId>, labels: seq<int>)
    requires forall i, j :: 0 <= i < j < Min(|docIds|, |labels|) ==> docIds[i] != docIds[j]
    ensures |ClusterEmbeddings(docIds, labels)| == Min(|docIds|, |labels|)
    ensures forall i :: 0 <= i < Min(|docIds|, |labels|) ==>
              ClusterEmbeddings(docIds, labels)[i] == Entry(docIds[i], labels[i])
    decreases |docIds|
  {
    var n := Min(|docIds|, |labels|);
    if n > 0 {
      var ids, lbls := docIds[..n - 1], labels[..n - 1];
      ClusterEmbeddingsZip(ids, lbls);
      var prefix := ClusterEmbeddings(ids, lbls);
      assert Min(|ids|, |lbls|) == n - 1;
      forall k | 0 <= k < |prefix| ensures prefix[k].doc != docIds[n - 1] {
        assert prefix[k] == Entry(docIds[k], labels[k]);
      }
      IndexOfIs(prefix, docIds[n - 1], |prefix|);
      assert Lookup(prefix, docIds[n - 1]) == None;
      var r := ClusterEmbeddings(docIds, labels);
      assert r == Put(prefix, docIds[n - 1], labels[n - 1]);
      assert r == prefix + [Entry(docIds[n - 1], labels[n - 1])];
      forall i | 0 <= i < n ensures r[i] == Entry(docIds[i], labels[i]) {
        if i < n - 1 {
          assert r[i] == prefix[i];
        }
      }
    }
  }

  // ---------------------------------------------------------------------------
  // merge_small_clusters
  // ---------------------------------------------------------------------------

  /** The keys of a Counter built from `s`, in the order it lists them: first occurrence. */
  function FirstSeen(s: seq<int>): (keys: seq<int>)
    ensures forall x :: x in keys <==> x in s
    ensures forall i, j :: 0 <= i < j < |keys| ==> keys[i] != keys[j]
  {
    if s == [] then []
    else
      assert s == s[..|s| - 1] + [s[|s| - 1]];
      var keys := FirstSeen(s[..|s| - 1]);
      if s[|s| - 1] in keys then keys else keys + [s[|s| - 1]]
  }

  /** The keys seen in a prefix are a prefix of the keys. */
  lemma {:induction false} FirstSeenPrefix(s: seq<int>, n: nat)
    requires n <= |s|
    ensures FirstSeen(s[..n]) <= FirstSeen(s)
    decreases |s|
  {
    if n < |s| {
      assert s[..|s| - 1][..n] == s[..n];
      FirstSeenPrefix(s[..|s| - 1], n);
    } else {
      assert s[..n] == s;
    }
  }

  /**
   * `counter.most_common(1)[0][0]`: `max` over the Counter's items by count,
   * which replaces its candidate only on a strictly larger count and so keeps
   * the first key that reaches the largest count.
   */
  function MostCommon(keys: seq<int>, counts: multiset<int>): (c: int)
    requires keys != []
    ensures c in keys
    ensures forall x :: x in keys ==> counts[x] <= counts[c]
  {
    if |keys| == 1 then keys[0]
    else
      var n := |keys| - 1;
      assert keys == keys[..n] + [keys[n]];
      var best := MostCommon(keys[..n], counts);
      if counts[keys[n]] > counts[best] then keys[n] else best
  }

  /** No key listed before the most common one reaches its count. */
  lemma {:induction false} MostCommonIsFirst(keys: seq<int>, counts: multiset<int>, i: nat)
    requires i < |keys|
    requires counts[keys[i]] == counts[MostCommon(keys, counts)]
    ensures MostCommon(keys, counts) in keys[..i + 1]
  {
    if |keys| > 1 {
      var n := |keys| - 1;
      var best := MostCommon(keys[..n], counts);
      assert keys == keys[..n] + [keys[n]];
      if counts[keys[n]] <= counts[best] && i < n {
        assert keys[..n][i] == keys[i];
        MostCommonIsFirst(keys[..n], counts, i);
        assert keys[..n][..i + 1] == keys[..i + 1];
      }
    }
  }

  /** `largest_cluster`: defined only for a non-empty map. */
  function LargestCluster(a: Assignment): int
    requires a != []
  {
    MostCommon(FirstSeen(Labels(a)), Counts(a))
  }

  /** `largest_cluster` is a cluster of the map, and no cluster has more members. */
  lemma LargestClusterIsMostCommon(a: Assignment)
    requires a != []
    ensures LargestCluster(a) in ClusterIds(a)
    ensures forall c :: Size(a, c) <= Size(a, LargestCluster(a))
  {
    var s := Labels(a);
    forall c ensures Size(a, c) <= Size(a, LargestCluster(a)) {
      if c in s {
        assert c in FirstSeen(s);
      }
    }
  }

  /**
   * Ties go to the cluster met first: a cluster with as many members as
   * `largest_cluster` never occurs in the map before `largest_cluster` does.
   */
  lemma LargestClusterComesFirst(a: Assignment, j: nat)
    requires j < |a|
    requires Size(a, a[j].cluster) == Size(a, LargestCluster(a))
    ensures exists i :: 0 <= i <= j && a[i].cluster == LargestCluster(a)
  {
    var s, largest := Labels(a), LargestCluster(a);
    MostCommonSeenBy(s, Counts(a), j);
    var i :| 0 <= i < j + 1 && s[..j + 1][i] == largest;
    assert a[i].cluster == largest;
  }

  /** The most common key of `s` occurs no later than any key of the same count. */
  lemma MostCommonSeenBy(s: seq<int>, counts: multiset<int>, j: nat)
    requires j < |s|
    requires counts[s[j]] == counts[MostCommon(FirstSeen(s), counts)]
    ensures MostCommon(FirstSeen(s), counts) in s[..j + 1]
  {
    var keys, p := FirstSeen(s), FirstSeen(s[..j + 1]);
    FirstSeenPrefix(s, j + 1);
    assert s[j] in p by {
      assert s[..j + 1][j] == s[j];
    }
    MostCommonInPrefix(keys, p, counts, s[j]);
  }

  /** A prefix of the keys holding a key of the top count holds the most common key. */
  lemma MostCommonInPrefix(keys: seq<int>, p: seq<int>, counts: multiset<int>, x: int)
    requires p <= keys && x in p
    requires counts[x] == counts[MostCommon(keys, counts)]
    ensures MostCommon(keys, counts) in p
  {
    var q :| 0 <= q < |p| && p[q] == x;
    assert keys[q] == x;
    MostCommonIsFirst(keys, counts, q);
    assert keys[..q + 1] == p[..q + 1];
  }

  /**
   * The map `merge_small_clusters` returns for a non-empty input: every
   * document of a cluster with fewer than `minSize` members moves to
   * `largest_cluster`, every other document keeps its cluster.
   */
  function Merged(a: Assignment, minSize: int): (r: Assignment)
    requires a != []
  {
    MergeWith(a, Counts(a), minSize, LargestCluster(a))
  }

  /** The rewrite of `merge_small_clusters` for given cluster sizes and target cluster. */
  function MergeWith(a: Assignment, counts: multiset<int>, minSize: int, largest: int): Assignment {
    seq(|a|, i requires 0 <= i < |a| =>
      if counts[a[i].cluster] < minSize then Entry(a[i].doc, largest) else a[i])
  }

  /** A map whose every document is in a large enough cluster or already in the target is left as it is. */
  lemma MergeWithIdentity(a: Assignment, counts: multiset<int>, minSize: int, largest: int)
    requires forall i :: 0 <= i < |a| ==> counts[a[i].cluster] >= minSize || a[i].cluster == largest
    ensures MergeWith(a, counts, minSize, largest) == a
  {
    var r := MergeWith(a, counts, minSize, largest);
    forall i | 0 <= i < |a| ensures r[i] == a[i] {
    }
  }

  /**
   * `merge_small_clusters`: count the clusters once, then rewrite a copy of the
   * map item by item. An empty map has no most common cluster; the source then
   * raises IndexError, modelled as `None`.
   */
  method MergeSmallClusters(clusterMap: Assignment, minSize: int := 2) returns (merged: Option<Assignment>)
    ensures clusterMap == [] <==> merged == None
    ensures clusterMap != [] ==> merged == Some(Merged(clusterMap, minSize))
  {
    if clusterMap == [] {
      return None;
    }
    var counter := Counts(clusterMap);
    var keys := FirstSeen(Labels(clusterMap));
    var smallClusters := set c | c in keys && counter[c] < minSize;
    var largest := MostCommon(keys, counter);
    ghost var spec := Merged(clusterMap, minSize);
    var result := clusterMap;
    for i := 0 to |clusterMap|
      invariant |result| == |clusterMap|
      invariant forall j :: 0 <= j < i ==> result[j] == spec[j]
      invariant forall j :: i <= j < |clusterMap| ==> result[j] == clusterMap[j]
    {
      assert Labels(clusterMap)[i] == clusterMap[i].cluster;
      assert clusterMap[i].cluster in keys;
      assert spec[i] == if Size(clusterMap, clusterMap[i].cluster) < minSize then Entry(clusterMap[i].doc, largest) else clusterMap[i];
      if clusterMap[i].cluster in smallClusters {
        result := result[i := Entry(clusterMap[i].doc, largest)];
      }
    }
    assert result == spec;
    return Some(result);
  }

  /** The merged map has the same keys, in the same order. */
  lemma MergeKeepsDocs(a: Assignment, minSize: int)
    requires a != []
    ensures Docs(Merged(a, minSize)) == Docs(a)
    ensures DistinctDocs(a) ==> DistinctDocs(Merged(a, minSize))
  {
  }

  /**
   * A document changes cluster exactly when its cluster is undersized and is
   * not the largest one; every document of an undersized cluster ends up in
   * the largest one.
   */
  lemma MergeMovesOnlySmallClusters(a: Assignment, minSize: int)
    requires a != []
    ensures forall i :: 0 <= i < |a| ==>
              (Merged(a, minSize)[i].cluster != a[i].cluster
               <==> Size(a, a[i].cluster) < minSize && a[i].cluster != LargestCluster(a))
    ensures forall i :: 0 <= i < |a| && Size(a, a[i].cluster) < minSize ==>
              Merged(a, minSize)[i].cluster == LargestCluster(a)
    ensures forall i :: 0 <= i < |a| && Size(a, a[i].cluster) >= minSize ==>
              Merged(a, minSize)[i] == a[i]
  {
  }

  /** Counting can only grow when every `c` of `s` stays a `c` in `t`. */
  lemma {:induction false} CountGrows(s: seq<int>, t: seq<int>, c: int)
    requires |s| == |t|
    requires forall j :: 0 <= j < |s| && s[j] == c ==> t[j] == c
    ensures multiset(s)[c] <= multiset(t)[c]
  {
    if s != [] {
      var n := |s| - 1;
      CountGrows(s[..n], t[..n], c);
      assert s == s[..n] + [s[n]];
      assert t == t[..n] + [t[n]];
    }
  }

  /**
   * After one pass, either every remaining cluster has at least `minSize`
   * members (the largest cluster was big enough), or every document sits in
   * the largest cluster (it was not).
   */
  lemma MergeShape(a: Assignment, minSize: int)
    requires a != []
    ensures Size(a, LargestCluster(a)) >= minSize ==>
              forall i :: 0 <= i < |a| ==> Size(Merged(a, minSize), Merged(a, minSize)[i].cluster) >= minSize
    ensures Size(a, LargestCluster(a)) < minSize ==>
              forall i :: 0 <= i < |a| ==> Merged(a, minSize)[i].cluster == LargestCluster(a)
  {
    var r, largest := Merged(a, minSize), LargestCluster(a);
    LargestClusterIsMostCommon(a);
    if Size(a, largest) >= minSize {
      forall i | 0 <= i < |a| ensures Size(r, r[i].cluster) >= minSize {
        var c := r[i].cluster;
        assert Size(a, a[i].cluster) < minSize ==> c == largest;
        assert Size(a, a[i].cluster) >= minSize ==> c == a[i].cluster;
        CountGrows(Labels(a), Labels(r), c);
      }
    }
  }

  /** No cluster id is invented, so the number of clusters never grows. */
  lemma MergeNoNewClusters(a: Assignment, minSize: int)
    requires a != []
    ensures ClusterIds(Merged(a, minSize)) <= ClusterIds(a)
    ensures |ClusterIds(Merged(a, minSize))| <= |ClusterIds(a)|
  {
    var r := Merged(a, minSize);
    LargestClusterIsMostCommon(a);
    forall c | c in ClusterIds(r) ensures c in ClusterIds(a) {
      var i :| 0 <= i < |r| && Labels(r)[i] == c;
      assert Labels(a)[i] == a[i].cluster;
    }
    SubsetCardinality(ClusterIds(r), ClusterIds(a));
  }

  lemma SubsetCardinality(x: set<int>, y: set<int>)
    requires x <= y
    ensures |x| <= |y|
  {
    assert y == x + (y - x);
  }

  /** When every cluster is undersized, all documents end up in one cluster. */
  lemma MergeAllSmall(a: Assignment, minSize: int)
    requires a != []
    requires forall c :: c in ClusterIds(a) ==> Size(a, c) < minSize
    ensures ClusterIds(Merged(a, minSize)) == {LargestCluster(a)}
  {
    var r, largest := Merged(a, minSize), LargestCluster(a);
    LargestClusterIsMostCommon(a);
    MergeShape(a, minSize);
    assert Labels(r)[0] == largest;
    forall c | c in ClusterIds(r) ensures c == largest {
      var i :| 0 <= i < |r| && Labels(r)[i] == c;
    }
  }

  /**
   * After merging, every cluster has at least `minSize` members unless it is
   * the only cluster left.
   */
  lemma MergeSurvivorsLargeEnough(a: Assignment, minSize: int)
    requires a != []
    ensures forall c :: c in ClusterIds(Merged(a, minSize)) ==>
              Size(Merged(a, minSize), c) >= minSize || ClusterIds(Merged(a, minSize)) == {c}
  {
    var r, largest := Merged(a, minSize), LargestCluster(a);
    MergeShape(a, minSize);
    forall c | c in ClusterIds(r) ensures Size(r, c) >= minSize || ClusterIds(r) == {c} {
      var i :| 0 <= i < |r| && Labels(r)[i] == c;
      if Size(a, largest) < minSize {
        forall c' | c' in ClusterIds(r) ensures c' == c {
          var i' :| 0 <= i' < |r| && Labels(r)[i'] == c';
        }
      }
    }
  }

  /** Merging twice with the same `minSize` changes nothing more. */
  lemma MergeIdempotent(a: Assignment, minSize: int)
    requires a != []
    ensures Merged(a, minSize) != []
    ensures Merged(Merged(a, minSize), minSize) == Merged(a, minSize)
  {
    var r, largest := Merged(a, minSize), LargestCluster(a);
    MergeShape(a, minSize);
    if Size(a, largest) < minSize {
      LargestClusterIsMostCommon(r);
      var i :| 0 <= i < |r| && Labels(r)[i] == LargestCluster(r);
      assert LargestCluster(r) == largest;
    }
    MergeWithIdentity(r, Counts(r), minSize, LargestCluster(r));
  }

  /** `{"a": 0, "b": 0, "c": 1}` with `min_size=2` becomes `{"a": 0, "b": 0, "c": 0}`. */
  lemma MergeExample(a: Assignment)
    requires a == [Entry("a", 0), Entry("b", 0), Entry("c", 1)]
    ensures Merged(a, 2) == [Entry("a", 0), Entry("b", 0), Entry("c", 0)]
  {
    ExampleSizes(a);
    var r := Merged(a, 2);
    assert r[0] == a[0] && r[1] == a[1] && r[2] == Entry("c", 0);
  }

  lemma ExampleSizes(a: Assignment)
    requires a == [Entry("a", 0), Entry("b", 0), Entry("c", 1)]
    ensures Size(a, 0) == 2 && Size(a, 1) == 1 && LargestCluster(a) == 0
  {
    assert Labels(a) == [0, 0, 1];
    ExampleCounts([0, 0, 1]);
  }

  lemma ExampleCounts(s: seq<int>)
    requires s == [0, 0, 1]
    ensures multiset(s)[0] == 2 && multiset(s)[1] == 1
    ensures MostCommon(FirstSeen(s), multiset(s)) == 0
  {
    assert s[..2] == [0, 0] && [0, 0][..1] == [0] && [0][..0] == [];
    assert FirstSeen(s) == [0, 1];
    assert [0, 1][..1] == [0];
  }

  /**
   * On a tie the cluster met first wins, not the lowest id:
   * `{"x": 1, "y": 0}` with `min_size=2` sends both documents to cluster 1.
   */
  lemma MergeTieGoesToFirstSeen(a: Assignment)
    requires a == [Entry("x", 1), Entry("y", 0)]
    ensures Merged(a, 2) == [Entry("x", 1), Entry("y", 1)]
  {
    TieSizes(a);
    var r := Merged(a, 2);
    assert r[0] == Entry("x", 1) && r[1] == Entry("y", 1);
  }

  lemma TieSizes(a: Assignment)
    requires a == [Entry("x", 1), Entry("y", 0)]
    ensures Size(a, 0) == 1 && Size(a, 1) == 1 && LargestCluster(a) == 1
  {
    assert Labels(a) == [1, 0];
    TieCounts([1, 0]);
  }

  lemma TieCounts(s: seq<int>)
    requires s == [1, 0]
    ensures multiset(s)[0] == 1 && multiset(s)[1] == 1
    ensures MostCommon(FirstSeen(s), multiset(s)) == 1
  {
    assert s[..1] == [1] && [1][..0] == [];
    assert FirstSeen(s) == [1, 0];
    assert [1, 0][..1] == [1];
  }

  // ---------------------------------------------------------------------------
  // Grouping by cluster (the app's `clusters[cluster_id].append(doc_id)` loop)
  // ---------------------------------------------------------------------------

  /** The documents of cluster `c`, in map order. */
  function Members(a: Assignment, c: int): seq<DocId>
  {
    if a == [] then []
    else
      var n := |a| - 1;
      Members(a[..n], c) + (if a[n].cluster == c then [a[n].doc] else [])
  }

  /** Cluster `c` lists as many documents as the counter gives it. */
  lemma {:induction false} MembersCount(a: Assignment, c: int)
    ensures |Members(a, c)| == Size(a, c)
  {
    if a != [] {
      var n := |a| - 1;
      MembersCount(a[..n], c);
      assert Labels(a) == Labels(a[..n]) + [a[n].cluster];
    }
  }

  /** The inverse view: cluster id -> its documents, in map order. */
  method GroupByCluster(clusterMap: Assignment) returns (clusters: map<int, seq<DocId>>)
    ensures clusters.Keys == ClusterIds(clusterMap)
    ensures forall c :: c in clusters ==> clusters[c] == Members(clusterMap, c)
  {
    clusters := map[];
    for i := 0 to |clusterMap|
      invariant clusters.Keys == ClusterIds(clusterMap[..i])
      invariant forall c :: c in clusters ==> clusters[c] == Members(clusterMap[..i], c)
    {
      var entry := clusterMap[i];
      ghost var before, after := clusterMap[..i], clusterMap[..i + 1];
      assert after[..i] == before;
      assert Labels(after) == Labels(before) + [entry.cluster];
      assert ClusterIds(after) == ClusterIds(before) + {entry.cluster};
      forall c ensures Members(after, c) == Members(before, c) + (if entry.cluster == c then [entry.doc] else []) {
        MembersExtend(clusterMap, i, c);
      }
      var docs := [];
      if entry.cluster in clusters {
        docs := clusters[entry.cluster];
      } else {
        MembersAbsent(before, entry.cluster);
      }
      assert docs == Members(before, entry.cluster);
      clusters := clusters[entry.cluster := docs + [entry.doc]];
    }
    assert clusterMap[..|clusterMap|] == clusterMap;
  }

  lemma MembersAbsent(a: Assignment, c: int)
    requires c !in ClusterIds(a)
    ensures Members(a, c) == []
  {
    assert c !in Labels(a);
    MembersCount(a, c);
  }

  lemma MembersExtend(a: Assignment, i: nat, c: int)
    requires i < |a|
    ensures Members(a[..i + 1], c) == Members(a[..i], c) + (if a[i].cluster == c then [a[i].doc] else [])
  {
    assert a[..i + 1][..i] == a[..i];
  }

  /** A document is listed under cluster `c` exactly when the map sends it to `c`. */
  lemma {:induction false} MembersExactly(a: Assignment, c: int, d: DocId)
    ensures d in Members(a, c) <==> exists i :: 0 <= i < |a| && a[i] == Entry(d, c)
  {
    if a != [] {
      var n := |a| - 1;
      MembersExactly(a[..n], c, d);
      if exists i :: 0 <= i < |a| && a[i] == Entry(d, c) {
        var i :| 0 <= i < |a| && a[i] == Entry(d, c);
        if i < n {
          assert a[..n][i] == Entry(d, c);
        }
      }
    }
  }

  /**
   * With unique keys, the groups partition the documents: each key is listed
   * under exactly one cluster, its own.
   */
  lemma GroupsPartitionDocs(a: Assignment, i: nat, c: int)
    requires DistinctDocs(a) && i < |a|
    ensures a[i].doc in Members(a, c) <==> c == a[i].cluster
  {
    MembersExactly(a, c, a[i].doc);
    if a[i].doc in Members(a, c) {
      var j :| 0 <= j < |a| && a[j] == Entry(a[i].doc, c);
      assert j == i;
    }
  }
}
