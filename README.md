# Verified model of the recsys recommender core

This project is a Dafny model of the decision logic of a small Python
recommender system (xl9211/recsys). It covers four groups of code:

- **Pairwise metrics** (`metric/pairwise.py`):
  - the Euclidean, Pearson and cosine similarities over 2-D numeric arrays;
  - the log-likelihood coefficient over arrays of item sets, with its inner
    helpers `safe_log`, `log_l` and `two_log_lambda`.
- **Candidate-neighbour strategies** (`recommender/knn/user_strategy.py`):
  - the "all other users" filter;
  - the nearest-user strategy. It caches a similarity object and rebuilds it
    only when the metric changes, then filters that object's (id, score)
    list.
- **Utility matrix** (`handler/utility_matrix.py`): the user-by-product 0/1
  matrix. It is built from a sequence of sales, keyed by `brand###product`.
- **Nearest-class selection** (`handler/classifier.py`): an argmin loop over
  the class rows with the sentinel 2.

The floating-point library calls are uninterpreted functions passed in as
parameters. These are scipy's `cdist` metrics, the square root inside them,
`np.log`, and the classifier's `cos_sim`. The only facts about them that the
proofs use are small law predicates in `numerics.dfy`:

- `SqrtLaws`: a square root is non-negative and zero exactly at zero.
- `LogLaws`: the tangent-line bound of the logarithm.
- `CorrelationLaws` and `CosineLaws`: these distances are symmetric, lie in
  [0, 2], and are 0 between a row and itself unless the row is degenerate.

Other modelling choices:

- A NaN score is `None` in an `Option<real>`.
- An exception is a `Failure` in a `Result`. The exceptions are
  `ValueError` on mismatched dimensions, `ZeroDivisionError` on a float
  division by zero, and `IndexError` for the classifier with no rows.
- Python's mutable state is modelled with classes:
  - `UtilityMatrix` has fields `samples` and `features` (sequences) and
    `matrix` (an `array2`).
  - `NearestUserStrategy` has one field, `similarity`.
  - The loops of `loglikehood_coefficient`, `load_data_from_db` and
    `classify` are `while` loops with invariants.

The main results:

- **Log-likelihood coefficient.** For item-set rows without repetition
  drawn from a universe of `n_items` items, each pair's score never raises
  and lies in [0, 1] (`LlrConsistentInUnitInterval`). So the whole call
  succeeds with every entry in [0, 1] (`LoglikehoodCoefficient`). Scores from the G2
  branch lie below 1 (`LlrG2BelowOne`). Under the logarithm's tangent-line bound,
  G2 is non-negative (`G2NonNegative`).
- **Utility matrix.** The lists hold each user and key once, in
  first-occurrence order. Each cell is 1 exactly when a sale links its row
  and column.
- **Classifier.** It returns the row at the lowest index whose defined score
  is the smallest one below 2, or row 0 when no score is below 2.
- **Nearest-user cache.** Only a change of metric invalidates it.

Three points of the code's behaviour that the model keeps as written:

- **Cache rebuild.** `_set_similarity` compares only the metric with the
  cached one (`recommender/knn/user_strategy.py:79`), so a new
  `nhood_size` alone reuses the old similarity. `Refresh`, `RefreshStable`
  and `NearestUserStrategy.SetSimilarity` state that behaviour.
- **Subset versus size test.** The log-likelihood 1-branch tests sizes,
  `n_x - overlap == 0`, where `n_x` counts repeated entries
  (`metric/pairwise.py:240-242`). `PairScore` follows the size test.
  `SubsetTest` proves that it coincides with the subset relation for rows
  without repetition.
- **Divisions that can raise.** In the G2 branch the code divides by
  `n1 + n2 = n_items` (`metric/pairwise.py:218-219`) and by `1 + G2`
  (`metric/pairwise.py:252`). The model keeps both failures. `LlrG2Branch`
  characterises exactly when they occur, and `LlrConsistentInUnitInterval`
  shows they cannot occur on consistent inputs.

## Model

| member | source | states |
|---|---|---|
| `Collections.IndexOf` | handler/utility_matrix.py:31-32 | `list.index`: the result is a position of the value, and no earlier position holds it |
| `Collections.IndexOfDistinct` | handler/utility_matrix.py:31-32 | in a list without repetitions, `index` finds the position the value came from |
| `Collections.IndexOfPrefix` | handler/utility_matrix.py:21-26 | appending to a list does not move the first occurrence of a value already in it |
| `Collections.ElementsCard` | metric/pairwise.py:235-241 | a row has at least as many entries as distinct values, and exactly as many when nothing repeats |
| `Pairwise.SqEuclidean` | metric/pairwise.py:60-61 | the exact squared Euclidean distance of two rows is never negative |
| `Pairwise.SqEuclideanZeroIff` | metric/pairwise.py:60-61 | the squared Euclidean distance is non-negative and zero exactly between equal rows |
| `Pairwise.SqEuclideanSymmetric` | metric/pairwise.py:60-61 | the squared distance is symmetric in its two rows |
| `Pairwise.EuclideanEntry` | metric/pairwise.py:60-64 | every entry is non-negative, and with `inverse` (and not `squared`) it lies in (0, 1] |
| `Pairwise.EuclideanDistances` | metric/pairwise.py:57-64 | fails with the dimension error exactly when the column counts differ; otherwise a rows(x) by rows(y) matrix whose entries are the squared distance, the distance or 1/(1+d), as the flags select |
| `Pairwise.SquaredIgnoresInverse` | metric/pairwise.py:60-61 | with `squared` the `inverse` flag changes nothing, and every entry is the exact, non-negative squared distance |
| `Pairwise.DistanceZeroIff` | metric/pairwise.py:63-64 | the plain distance is non-negative and zero exactly between equal rows |
| `Pairwise.InverseSimilarityBounds` | metric/pairwise.py:63-64 | the inverse similarity 1/(1+d) lies in (0, 1] and is 1 exactly between equal rows |
| `Pairwise.EuclideanSymmetric` | metric/pairwise.py:57-64 | swapping x and y fails in the same cases and otherwise transposes the matrix |
| `Pairwise.EuclideanSelfDiagonal` | metric/pairwise.py:36-40 | comparing an array with itself under the default flags succeeds with 1 on the diagonal |
| `Pairwise.OneMinus` | metric/pairwise.py:116 | `1 - d` is NaN exactly when d is, maps a distance in [0, 2] into [-1, 1], and maps distance 0 to similarity 1 |
| `Pairwise.OneMinusDistance` | metric/pairwise.py:111-116 | fails exactly when the column counts differ; otherwise a rows(x) by rows(y) matrix of 1 minus the library distance, with NaN kept as NaN |
| `Pairwise.PearsonCorrelation` | metric/pairwise.py:111-116 | fails, with the dimension error, exactly on differing column counts; otherwise the shape rows(x) by rows(y), and each entry is 1 minus the correlation distance of its rows |
| `Pairwise.CosineDistances` | metric/pairwise.py:163-166 | fails, with the dimension error, exactly on differing column counts; otherwise the shape rows(x) by rows(y), and each entry is 1 minus the cosine distance of its rows |
| `Pairwise.OneMinusDistanceLaws` | metric/pairwise.py:114-116 | over a lawful distance, every defined similarity is in [-1, 1], the matrix for (y, x) is the transpose, and a non-degenerate row has similarity 1 with itself |
| `Pairwise.PearsonLaws` | metric/pairwise.py:92-96 | Pearson similarities are in [-1, 1], symmetric, and 1 between identical rows of non-zero variance |
| `Pairwise.CosineLawsHold` | metric/pairwise.py:144-148 | cosine similarities are in [-1, 1], symmetric, and 1 between identical non-zero rows |
| `Pairwise.SafeLog` | metric/pairwise.py:209-213 | `safe_log` is 0 on non-positive arguments instead of the logarithm's NaN or minus infinity |
| `Pairwise.LogL` | metric/pairwise.py:215-216 | at p = 1 the failure term and at p = 0 the success term vanish, because `safe_log` takes 0 at 0 |
| `Pairwise.TwoLogLambda` | metric/pairwise.py:218-221 | `two_log_lambda` raises the zero-division error exactly when n1 + n2, n1 or n2 is zero |
| `Pairwise.LogLGain` | metric/pairwise.py:209-216 | for 0 < k <= n, the `log_l` log-likelihood of a binomial at its own ratio k/n is at least its log-likelihood at any ratio p in (0, 1], where p = 1 is allowed only when k = n |
| `Pairwise.G2NonNegative` | metric/pairwise.py:218-221 | for positive counts within positive totals, G2 is defined and non-negative |
| `Pairwise.SimilarityOfG2` | metric/pairwise.py:252 | 1 - 1/(1 + G2) does not divide by zero and lies in [0, 1) for G2 >= 0 |
| `Pairwise.Overlap` | metric/pairwise.py:235 | the `intersect1d` overlap is at most the size of either row |
| `Pairwise.PairScore` | metric/pairwise.py:235-252 | a pair's score raises only the zero-division error and only in the G2 branch; a successful G2-branch score is never exactly 1 |
| `Pairwise.OverlapBounds` | metric/pairwise.py:235-241 | the `intersect1d` overlap is at most the number of distinct values of either row, which is at most its size |
| `Pairwise.LlrDisjointIsZero` | metric/pairwise.py:235-238 | the overlap is empty exactly when the rows share no value, and then the score is 0.0 |
| `Pairwise.SubsetTest` | metric/pairwise.py:240-242 | for a row without repetitions, `n_x - overlap == 0` holds exactly when the row is a subset of the other |
| `Pairwise.LlrSubsetIsOne` | metric/pairwise.py:242-243 | a non-empty row without repetitions that is a subset of the other scores 1.0 |
| `Pairwise.LlrFullUniverseIsOne` | metric/pairwise.py:242-243 | with a non-empty overlap, a second row of `n_items` entries scores 1.0 |
| `Pairwise.LlrSelfIsOne` | metric/pairwise.py:189-194 | a non-empty row without repetitions scores 1.0 against itself, whatever `n_items` is |
| `Pairwise.LlrG2Branch` | metric/pairwise.py:242-252 | in the G2 branch both divisors n1 = n_y and n2 = n_items - n_y are non-zero, and the score raises exactly when `n_items` is 0 or G2 is -1 |
| `Pairwise.LlrG2BelowOne` | metric/pairwise.py:244-252 | in the G2 branch, for rows without repetitions from a universe of `n_items` items, the score never raises and lies in [0, 1) |
| `Pairwise.LlrConsistentInUnitInterval` | metric/pairwise.py:235-252 | for rows without repetitions from a universe of `n_items` items, the score never raises and lies in [0, 1] |
| `Pairwise.LlrDocSelf` | metric/pairwise.py:189-194 | the documented example over 7 items gives the identity matrix [[1, 0], [0, 1]] |
| `Pairwise.LlrDocAgainstRow` | metric/pairwise.py:195-198 | in the documented example, abcd against abck shares 3 items, takes the G2 branch and scores in [0, 1) |
| `Pairwise.LlrDocDisjointRow` | metric/pairwise.py:195-198 | in the documented example, efgh against abck scores 0 |
| `Pairwise.LoglikehoodCoefficient` | metric/pairwise.py:229-256 | on success, one row per row of x with one score per row of y, each equal to that pair's score; on failure, the error is the zero-division error and some pair's score raises it; for rows without repetitions drawn from `n_items` items, under the logarithm's law, the call succeeds and every entry lies in [0, 1] |
| `UserStrategy.Without` | recommender/knn/user_strategy.py:49 | `user_ids[user_ids != user_id]` holds exactly the ids other than the anchor, and is no longer than the input |
| `UserStrategy.WithoutCount` | recommender/knn/user_strategy.py:49 | the anchor occurs zero times; every other id occurs as often as in the input |
| `UserStrategy.WithoutAppend` | recommender/knn/user_strategy.py:49 | filtering distributes over concatenation, so the original order is kept |
| `UserStrategy.WithoutAbsent` | recommender/knn/user_strategy.py:49 | filtering out an id that does not occur returns the input unchanged |
| `UserStrategy.AllPossibleCandidates` | recommender/knn/user_strategy.py:48-49 | an empty id array gives [], and in every case the result is the filter that drops the anchor (whose members and order `Without`, `WithoutCount` and `WithoutAppend` state) |
| `UserStrategy.Neighbourhood` | recommender/knn/user_strategy.py:118-119 | the comprehension yields at most one id per entry of the similarity's list |
| `UserStrategy.NeighbourhoodMembers` | recommender/knn/user_strategy.py:118-119 | an id is in the neighbourhood exactly when some entry carries it with a non-NaN score at least the threshold and differs from the anchor; the anchor itself never is |
| `UserStrategy.NeighbourhoodAppend` | recommender/knn/user_strategy.py:118-119 | the comprehension distributes over concatenation, so the neighbourhood keeps the list's order |
| `UserStrategy.NeighbourhoodMonotone` | recommender/knn/user_strategy.py:119 | raising `minimal_similarity` can only remove neighbours |
| `UserStrategy.AdjustedSize` | recommender/knn/user_strategy.py:80 | a truthy size grows by one; None and 0 stay as they are |
| `UserStrategy.Refresh` | recommender/knn/user_strategy.py:78-81 | the resulting similarity always has the requested metric; a cached one with that metric is kept as it is; otherwise the data model and the adjusted size are used |
| `UserStrategy.RefreshStable` | recommender/knn/user_strategy.py:79 | a second refresh with the same metric changes nothing, even with another data model or size |
| `UserStrategy.RefreshRebuilds` | recommender/knn/user_strategy.py:79-81 | a refresh with a different metric always rebuilds with the adjusted size |
| `UserStrategy.MetricOrDefault` | recommender/knn/user_strategy.py:114-115 | a missing metric becomes `euclidean_distances`; a given one is used as it is |
| `UserStrategy.MinimalOrDefault` | recommender/knn/user_strategy.py:111 | a missing `minimal_similarity` becomes 0.0 |
| `UserStrategy.NearestUserStrategy.constructor` | recommender/knn/user_strategy.py:75-76 | a new strategy has no similarity |
| `UserStrategy.NearestUserStrategy.SetSimilarity` | recommender/knn/user_strategy.py:78-81 | the new cached similarity is the refresh of the old one |
| `UserStrategy.NearestUserStrategy.CandidateUsers` | recommender/knn/user_strategy.py:111-121 | the cache is refreshed with the defaulted metric, its metric is the one used in the call, and the result is the filtered neighbourhood of the refreshed similarity's list at the defaulted threshold |
| `UtilityMatrices.GenBpKey` | handler/utility_matrix.py:35-37 | the key is the brand, then "###", then the product |
| `UtilityMatrices.GenBpKeyInjective` | handler/utility_matrix.py:37 | for brands without '#', equal keys mean equal brand and product |
| `UtilityMatrices.GenBpKeyCollision` | handler/utility_matrix.py:37 | without that condition, two different (brand, product) pairs share a key |
| `UtilityMatrices.AddNew` | handler/utility_matrix.py:23-26 | after "append unless present" the value is in the list, and a list without repetitions stays so |
| `UtilityMatrices.AppendNew` | handler/utility_matrix.py:21-26 | the appending pass keeps the existing list as a prefix |
| `UtilityMatrices.AppendNewMembers` | handler/utility_matrix.py:21-26 | the appending pass holds exactly the old values and the new ones, and adds no duplicate |
| `UtilityMatrices.AppendNewFirstOccurrence` | handler/utility_matrix.py:21-26 | the values appended are new, come from the sales, and appear in the order of their first occurrence |
| `UtilityMatrices.UtilityMatrix.constructor` | handler/utility_matrix.py:12-15 | empty sample and feature lists, no matrix |
| `UtilityMatrices.UtilityMatrix.CollectKeys` | handler/utility_matrix.py:21-26 | the first loop appends each new key to the features and each new user to the samples |
| `UtilityMatrices.UtilityMatrix.MarkSales` | handler/utility_matrix.py:30-33 | the second loop sets a cell to 1 exactly when some sale has that row's user and that column's key, leaving the others 0 |
| `UtilityMatrices.UtilityMatrix.LoadData` | handler/utility_matrix.py:21-33 | the lists stay without repetitions and grow in first-occurrence order; a fresh matrix gets len(samples) rows and len(features) columns; each cell is 1 exactly when a sale links its row and column, and 0 otherwise; every sale's user and key are present, so each `index` succeeds |
| `Classifiers.Scores` | handler/classifier.py:24-25 | one score per class row: the score function applied to the user vector and that row |
| `Classifiers.FirstMinimumUnique` | handler/classifier.py:22-28 | the index selected by the first-minimum rule is unique |
| `Classifiers.FirstMinimumTies` | handler/classifier.py:26 | of two rows with the same best score, the later one is never selected |
| `Classifiers.Classifier.constructor` | handler/classifier.py:11-12 | the classifier keeps the class matrix it is given |
| `Classifiers.Classifier.Classify` | handler/classifier.py:19-30 | raises the index error exactly when there are no rows; otherwise returns the row at the first minimum: the lowest index of the smallest defined score below 2, or row 0 when no score is below 2 |

## Left out

- The database query in `load_data_from_db` (`handler/utility_matrix.py:18-19`) is I/O. The sales are passed in as a sequence.
- The `__main__` blocks only print, and are not modelled.
- The ORM, session, configuration, import script, clustering, SVD base and `main.py` files are not part of this model.
- scipy's `cdist` metrics, the square root inside them, and `np.log` are floating-point library numerics. They are uninterpreted functions that satisfy only the law predicates in `numerics.dfy`. As a result, the documented numbers 0.29429806, 0.39605902, 0.9606463 and 0.67668852 are not derived.
- Floating point is modelled by exact reals: rounding, infinities and overflow are not modelled. The Euclidean entries never produce NaN. A NaN from the correlation or cosine distance is `None`.
- The `x is y` aliasing test is left out: it changes only which numpy array object is used, not the values computed.
- Non-2-D numeric input is not modelled. The three vector metrics read `x.shape[1]`, which raises `IndexError` on a 1-D array (`metric/pairwise.py:57`, `:111`, `:163`). `Array2` cannot express such an array, so that error path is absent. Numeric arrays in the model are rectangular (`Rectangular`).
- Ragged item-set lists are not modelled faithfully. When the rows have different lengths, `np.asanyarray` (`metric/pairwise.py:224-227`) builds an object array of lists. `array_x.size` (`metric/pairwise.py:240`) then raises `AttributeError` at the first overlapping pair. `PairScore` and `LoglikehoodCoefficient` compute a score for such rows instead. Model and source agree on rows of equal length.
- `UserSimilarity` is not part of this model. It is a value that records the data model, the metric and the adjusted size it was built with. Its list for a user is given by the caller's `lookup` function. Sorting, truncation to `nhood_size` and unknown-user errors are therefore not modelled.
- Python compares metric functions by identity. The model compares values of a `Metric` datatype.
- The `ValueError` that `cos_sim` raises on vectors of different lengths is left out. The score function is total, with `None` for NaN.
- Integer widths are left out: counts and sizes are unbounded, as Python integers are.
- `UtilityMatrices.UtilityMatrix.CollectKeys` and `UtilityMatrices.UtilityMatrix.MarkSales` split the one source method into its two loops. `LoadData` runs them, with the allocation of the zero matrix between them.
- Pairwise.LlrDocAgainstRow: proves the documented score lies in [0, 1), not the open interval (0, 1), because the logarithm law used is non-strict.
- Pairwise.LlrConsistentInUnitInterval: assumes rows without repetitions whose union fits in `n_items`. For other inputs the model keeps the `Failure` cases that `LlrG2Branch` describes.
