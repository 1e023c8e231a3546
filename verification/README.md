# Document clustering and recommendation core, in Dafny

This project models the pure core of a document-organising app. The app
embeds uploaded documents, clusters them, groups them for display and
recommends related documents. The model covers four Python modules:

- `modules/clustering.py`:
  - choosing the number of clusters from silhouette scores (`determine_best_k`);
  - building the `{doc_id: cluster_id}` map from the KMeans labels (`cluster_embeddings`);
  - folding undersized clusters into the largest one (`merge_small_clusters`);
  - the app's cluster -> documents grouping of that map (`app.py`).
- `modules/recommender.py`: `recommend_by_cosine`, which picks the `top_n`
  most similar stored documents.
- `modules/file_handler.py`: `split_chunks`. It splits a text into sentences
  after `.`, `!` and `?`, then greedily packs the sentences into chunks whose
  text counts at most `max_tokens` tokens, except that a sentence too long on
  its own becomes a chunk by itself.
- `modules/name_classifier.py`: `classify_by_filename`. It reads a category,
  a year and a month from the tokens of a file name.

Each module is one Dafny module. `wrappers.dfy` holds the `Option` type and
`Min`/`Max`.

- **Maps as sequences.** A Python dict iterates in insertion order, and
  `Counter.most_common` breaks ties by that order. Cluster maps are therefore
  sequences of `Entry(doc, cluster)` items, and `Put` gives `d[k] = v` its
  dict meaning: an existing key keeps its place, and a new key goes last.
- **Loops as methods.** The source's loops are methods, each proved against a
  specification function:
  - `DetermineBestK` against `IsBestK`;
  - `MergeSmallClusters` against `Merged`;
  - `GroupByCluster` against `Members`;
  - `SplitChunks` (through its loop `PackSentences`) against `GreedyPacking`/`ChunksOf`;
  - `ClassifyByFilename` against `Classify`.

  The lemmas then state what those functions guarantee.
- **Outside inputs as parameters.** The parts that come from outside
  libraries are parameters:
  - the silhouette score of each k (`score: int -> real`);
  - the labels KMeans assigns;
  - the cosine-similarity vector;
  - the tokenizer's count (`count: string -> nat`).

## Model

| member | source | states |
|---|---|---|
| `Clustering.LookupSpec` | clustering.py:54 | reading a key of the dict built here (`d[doc]`, or `None` when absent): nothing exactly when the document is not a key, otherwise an item of the map |
| `Clustering.Put` | clustering.py:83 | assigning a key sets its value; a new key is appended, and an existing key leaves the length unchanged |
| `Clustering.PutKeepsOrder` | clustering.py:83 | assigning a key keeps the order of the keys: a new key goes last, an existing key stays in place, and every other entry stays where it was |
| `Clustering.PutOther` | clustering.py:83 | assigning a key leaves every other key's value alone |
| `Clustering.PutDistinct` | clustering.py:83 | assigning a key keeps the keys unique |
| `Clustering.DetermineBestK` | clustering.py:9-24 | the scan returns the first k of `lo..hi` with the highest score above the starting bar -1, and `lo` when no score beats -1 or the range is empty (`IsBestK`) |
| `Clustering.BestKUnique` | clustering.py:13-22 | only one k meets `IsBestK`, so the choice is deterministic for given scores |
| `Clustering.ChooseClusterCount` | clustering.py:49 | with `auto_k` the best k over the default range 2..10, otherwise `fixed_k` (default 5) |
| `Clustering.ClusterEmbeddingsKeys` | clustering.py:54 | the map has unique keys, and a document is a key exactly when it is among the ids that `zip` pairs with a label |
| `Clustering.ClusterEmbeddingsLastWins` | clustering.py:54 | an id listed more than once gets the label of its last listing |
| `Clustering.ClusterEmbeddingsZip` | clustering.py:54 | with distinct ids the map has `min(len(ids), len(labels))` items, item i being `ids[i]: labels[i]` |
| `Clustering.FirstSeen` | clustering.py:74 | the Counter's keys: exactly the values that occur, each once |
| `Clustering.FirstSeenPrefix` | clustering.py:74 | the Counter of a prefix lists its keys as a prefix of the whole Counter's keys |
| `Clustering.MostCommon` | clustering.py:78 | `most_common(1)[0][0]` is a key whose count no other key exceeds |
| `Clustering.MostCommonIsFirst` | clustering.py:78 | on a tie the key listed first wins |
| `Clustering.LargestClusterIsMostCommon` | clustering.py:74-78 | `largest_cluster` occurs in the map and no cluster has more documents |
| `Clustering.MostCommonSeenBy` | clustering.py:74-78 | the most common value of a sequence occurs no later than any value with the same count |
| `Clustering.LargestClusterComesFirst` | clustering.py:78 | a cluster as large as `largest_cluster` never occurs in the map before it does |
| `Clustering.MergeSmallClusters` | clustering.py:58-85 | an empty map gives `None` (the source raises `IndexError`); otherwise the loop over the copy yields `Merged` |
| `Clustering.MergeWithIdentity` | clustering.py:80-83 | a map whose documents all sit in large-enough clusters or already in the target cluster is left unchanged |
| `Clustering.MergeKeepsDocs` | clustering.py:80-85 | the merged map has the same keys in the same order, and unique keys stay unique |
| `Clustering.MergeMovesOnlySmallClusters` | clustering.py:75-83 | a document changes cluster exactly when its cluster has fewer than `min_size` documents and is not the largest; undersized clusters go to the largest, the rest stay |
| `Clustering.CountGrows` | clustering.py:83 | rewriting other labels to `c` never lowers the count of `c` |
| `Clustering.MergeShape` | clustering.py:74-85 | after one pass either every cluster has at least `min_size` documents, or everything sits in the largest cluster |
| `Clustering.MergeNoNewClusters` | clustering.py:80-85 | no cluster id is invented, so the number of clusters never grows |
| `Clustering.MergeAllSmall` | clustering.py:75-83 | when every cluster is undersized, all documents end up in the largest one |
| `Clustering.MergeSurvivorsLargeEnough` | clustering.py:58-85 | every cluster left has at least `min_size` documents or is the only cluster left |
| `Clustering.MergeIdempotent` | clustering.py:58-85 | merging the merged map again with the same `min_size` changes nothing |
| `Clustering.MergeExample` | clustering.py:58-85 | `{"a": 0, "b": 0, "c": 1}` with `min_size=2` becomes `{"a": 0, "b": 0, "c": 0}` |
| `Clustering.MergeTieGoesToFirstSeen` | clustering.py:78 | `{"x": 1, "y": 0}` with `min_size=2` sends both documents to cluster 1, the one met first |
| `Clustering.MembersCount` | app.py:49-51 | a cluster lists as many documents as the Counter gives it |
| `Clustering.GroupByCluster` | app.py:49-51 | the grouping has one entry per cluster id of the map, listing that cluster's documents in map order |
| `Clustering.MembersExactly` | app.py:49-51 | a document is listed under cluster `c` exactly when the map has the item `doc: c` |
| `Clustering.GroupsPartitionDocs` | app.py:49-51 | with unique keys each document is listed under one cluster only, its own |
| `Recommender.Insert` | recommender.py:16 | inserting an index into an order adds exactly that index and nothing else |
| `Recommender.InsertSorted` | recommender.py:16 | insertion keeps the order descending by score |
| `Recommender.InsertDistinct` | recommender.py:16 | inserting a new index keeps the indices distinct |
| `Recommender.ArgsortDesc` | recommender.py:16 | `argsort(...)[::-1]` is a permutation of all indices, ordered by non-increasing score |
| `Recommender.RecommendByCosine` | recommender.py:11-17 | the result has at most n items: `min(top_n, n)` for `top_n >= 0` and `max(n + top_n, 0)` for a negative `top_n`, as Python's `[:top_n]` keeps; it holds distinct valid indices, highest score first; no index left out scores above one returned; scores are those at the indices, non-increasing; `top_n >= n` returns every index |
| `Recommender.PrefixIsTop` | recommender.py:16 | the first m entries of a descending order hold the m highest scores |
| `Recommender.RecommendNone` | recommender.py:16 | `top_n=0` recommends nothing |
| `Recommender.RecommendExample` | recommender.py:11-17 | similarities `[1.0, 0.0, -1.0]` with `top_n=2` give indices `[0, 1]` and scores `[1.0, 0.0]` |
| `FileHandler.FindBreak` | file_handler.py:44 | the first position where a space follows `.`, `!` or `?`, with no such position before it |
| `FileHandler.SpaceRun` | file_handler.py:44 | the end of the run of spaces that the separator ` +` consumes |
| `FileHandler.CutsGlue` | file_handler.py:44 | rejoining the sentences with their separating spaces gives back the text |
| `FileHandler.CutsWellCut` | file_handler.py:44 | every sentence but the last ends in `.`, `!` or `?`; each is followed by at least one space; no later sentence starts with a space; no sentence contains a break |
| `FileHandler.CutsUnique` | file_handler.py:44 | the split is the only well-formed cutting that glues back to the text |
| `FileHandler.TrimLeftSpec` | file_handler.py:54 | dropping leading whitespace leaves a suffix that is empty or starts with a non-space, with only spaces dropped |
| `FileHandler.TrimRightSpec` | file_handler.py:54 | dropping trailing whitespace leaves a prefix that is empty or ends with a non-space, with only spaces dropped |
| `FileHandler.StripSpec` | file_handler.py:54 | `strip()` returns a slice of the text with only whitespace removed around it, and the slice neither starts nor ends with whitespace |
| `FileHandler.AccIsJoin` | file_handler.py:49 | the text built from non-empty sentences is those sentences joined with single spaces |
| `FileHandler.AccNonEmpty` | file_handler.py:49 | one non-empty sentence makes the built text non-empty |
| `FileHandler.SplitChunks` | file_handler.py:40-60 | the chunks are the stripped texts of the groups of a greedy packing: consecutive sentences, each kept while it fits and a new chunk started exactly when it does not fit; empty texts are not emitted |
| `FileHandler.PackSentences` | file_handler.py:45-58 | the loop over the sentences and the final append yield `ChunksOf` a `GreedyPacking` of the sentences |
| `FileHandler.ChunkFits` | file_handler.py:50-55 | a chunk's text counts at most `max_tokens` tokens or is a single over-long sentence |
| `FileHandler.ClosedChunksNonEmpty` | file_handler.py:53-54 | every chunk closed inside the loop has non-empty text; only the final one can be dropped |
| `FileHandler.EmittedMembers` | file_handler.py:53-58 | the chunks are exactly the stripped texts of the groups whose text is non-empty |
| `FileHandler.CutsAgree` | file_handler.py:48-55 | two greedy packings of the same sentences agree on every cut they share |
| `FileHandler.PackingUnique` | file_handler.py:48-55 | the greedy packing is unique, so the chunks are determined by the sentences, the counter and `max_tokens` |
| `FileHandler.SentenceInAChunk` | file_handler.py:48-58 | every non-empty sentence lies in a group whose text is non-empty, so it is part of a chunk |
| `FileHandler.GroupsDisjoint` | file_handler.py:48-55 | a sentence lies in one group only |
| `NameClassifier.LastIndexOf` | name_classifier.py:20 | the position of the last dot, or none when there is none |
| `NameClassifier.BaseName` | name_classifier.py:20 | the name is cut just before its last dot, or kept whole when it has no dot |
| `NameClassifier.BaseNameCutsExtension` | name_classifier.py:20 | only the last extension is cut: `name + "." + ext` gives `name` for a dot-free `ext` |
| `NameClassifier.FindSeparator` | name_classifier.py:21 | the first `_`, `-` or space at or after a position |
| `NameClassifier.SeparatorRun` | name_classifier.py:21 | the end of a maximal run of separators |
| `NameClassifier.TokensWellSplit` | name_classifier.py:21 | the split yields at least one token; no token holds a separator, and only the first and last may be empty |
| `NameClassifier.TokensConcat` | name_classifier.py:21 | the tokens concatenated are the base name with every separator removed |
| `NameClassifier.TokensJoin` | name_classifier.py:21 | joining well-formed tokens with one separator and splitting again returns the tokens |
| `NameClassifier.TokensGlue` | name_classifier.py:21 | the split removes one non-empty run of separators between each pair of neighbouring tokens, and putting those runs back between the tokens gives the base name |
| `NameClassifier.TokensUnique` | name_classifier.py:21 | the split is the only well-formed one: well-formed tokens that glue back to a name with non-empty separator runs between them are that name's tokens |
| `NameClassifier.RemoveAll` | name_classifier.py:40 | the month value has no `월` left and keeps every other character as often as it occurs |
| `NameClassifier.RemoveAllAppend` | name_classifier.py:40 | removal works character by character, so the kept characters stay in their order |
| `NameClassifier.FirstWhere` | name_classifier.py:33-37 | the first token passing a test, and none only when no token passes |
| `NameClassifier.LastWhere` | name_classifier.py:39-41 | the last token passing a test, and none only when no token passes |
| `NameClassifier.ScanStep` | name_classifier.py:32-41 | one more token: category and year are set only while still unset, the month is overwritten by every month token |
| `NameClassifier.ClassifyByFilename` | name_classifier.py:7-43 | the loop over the tokens yields `Classify(filename)` |
| `NameClassifier.SummarizeCategory` | name_classifier.py:30-34 | the category is a known category and the first token that is one; it is unset exactly when no token is one |
| `NameClassifier.SummarizeYear` | name_classifier.py:36-37 | the year is the first token of exactly four digits; it is unset exactly when no token is one |
| `NameClassifier.SummarizeMonth` | name_classifier.py:39-41 | the month comes from the last token that ends in `월` or is one of 1 to 12, with every `월` removed; it is unset exactly when no token qualifies |
| `NameClassifier.ClassifyExample` | name_classifier.py:11 | `회의록_2023_3월.pdf` gives category `회의록`, year `2023` and month `3` |

## Left out

- KMeans, `silhouette_score` and `cosine_similarity` run in floating point inside scikit-learn. The labels, the per-k scores and the similarity vector are inputs here: the labels as integers, the per-k scores and the similarity vector as reals with no NaN.
- The OpenAI calls (embedding, cluster summaries, similarity explanations) and `config.py` are not part of this model.
- File loading, the Streamlit page, the session state and the printing of groups in `app.py` are left out.
- `tiktoken`'s token count is the parameter `count`.
- `DetermineBestK`: the scikit-learn errors for a k the data cannot support are not modelled. The scan simply uses the given scores.
- `ArgsortDesc`: `np.argsort` is not stable, so the order among equal scores is not fixed. The model fixes one tie order, and `RecommendByCosine`'s contract does not depend on it.
- `IsYear`: Python's `\d` also matches non-ASCII decimal digits. The model accepts only `0`-`9`.
- `GroupByCluster`: a Dafny `map` has no order. Each cluster's document list keeps map order, but the order of the clusters is not modelled.

### Choices the code makes

- **Ties for the largest cluster.** `Counter.most_common` keeps the cluster met first, not the lowest cluster id (`MergeTieGoesToFirstSeen`).
- **Order of equal similarities.** The code reverses an unstable `argsort`, so equal similarities come out in no promised order.
- **Too few vectors.** `cluster_embeddings` does not check the number of vectors itself; only the scikit-learn calls would fail.
- **No clamping of `top_n`.** The code slices with `[:top_n]`, so `top_n=0` gives nothing and a negative `top_n` drops items from the end (`RecommendByCosine`, `RecommendNone`).
- **No cascading merges.** One pass leaves every surviving cluster large enough or only one cluster, so a second merge changes nothing (`MergeIdempotent`).
