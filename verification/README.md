# Decision tree and random forest classifier, modelled in Dafny

This project models the classifier in `actual.py`.

A **tree** is grown from labelled rows:
- `class_counts` makes a label histogram.
- A `Question` asks whether feature `f` is at least `v`.
- `partition` splits the rows by a question, keeping their order.
- `gini` and `info_gain` score a split.
- `find_best_split` tries every (column, observed value) question and keeps the best one. It skips questions that leave fewer than `stopping_criteria` rows on a side, and it updates the best on a non-strict `>=`.
- `build` recurses until no split gains anything.

Prediction works as follows:
- `classify` walks a row down to a leaf, and `top_pick` takes the first label with the most votes in that leaf.
- `score` is the fraction of rows classified correctly.

A **random forest** works as follows:
- `get_random_subsets` shuffles the rows and draws one bootstrap subset per tree.
- Each tree is fitted on its subset, restricted to a random choice of columns, and saves those column indices.
- `predict` lets every tree classify each row through its own saved columns. It then takes the plurality label, and among tied labels the smallest one wins (`np.unique` sorts, and the scan uses a strict `>`).

Modelling choices:
- **Numbers and labels.**
  - Features are `real`.
  - Impurities and gains are exact `real`s, not floats.
  - Labels are `int`: the source stores them in float arrays and compares them for equality and order. The one other use is `Tree.fit`'s broadcast of an empty feature row, which copies the label into the features; `DecisionTree.Merged` converts it with `as real`.
- **Dictionaries.** A histogram is a sequence of `(label, count)` bins in insertion order, as Python dicts keep it.
- **Python `set` order.** `find_best_split` walks each column's values through a Python `set`, whose order is unspecified. The model fixes columns ascending and values in order of first appearance.
  - `FindBestSplit`'s contract holds for every order: the gain returned is the maximum over all eligible candidates.
  - `FindBestSplitPicksLastMaximal` pins down the tie-break of `>=`: the last maximal candidate enumerated wins.
- **Randomness is input.**
  - the shuffle permutation `perm`;
  - the bootstrap draws `draws[t]`;
  - the feature indices `featureIdx[t]`.
- **Exceptions.** The source raises on these inputs; the model returns them as `Failure(...)` values of a `Result`:
  - no rows;
  - a missing label;
  - in `Tree.fit`, a feature row whose width is neither row 0's nor 0 (numpy cannot broadcast it into the merged row; an empty row is broadcast and the tree fit goes on);
  - in `RandomForest.fit`, feature rows that do not form a matrix, empty rows included (`np.shape(x)[1]`, actual.py:331);
  - a label/row count mismatch in the forest;
  - in the forest, a matrix without columns when some tree asks for feature indices (`np.random.choice` on an empty range, actual.py:342).

  Where the source would crash and there is nothing to model, the operation has a `requires` instead:
  - dividing by zero rows in `score`;
  - a missing label `y[i]` in either `score` (actual.py:262, 399), so `score` requires at least as many labels as rows;
  - a forest with no trees in `predict`, when there is at least one row to predict;
  - a feature index beyond the row in `x[:, idx]` in the forest's `predict`.

  `classify` is given a stronger `requires` than its crash: see `TreeBuilder.Classify` under "## Left out".
- **Stopping criterion.** When `stopping_criteria` is 0, `Tree.fit` uses `len(rows) / 10`. This is Python 3 true division, so it is a tenth of the row count, not rounded down (actual.py:226). `StoppingRows` models it.
- **No input validation.** The code validates neither configuration values nor matching lengths:
  - `Tree.fit` ignores labels beyond the rows;
  - a negative `stopping_criteria` is accepted.

  The model follows the code.

Modules, one per component:

| file | module | models |
|---|---|---|
| wrappers.dfy | `Wrappers` | `Option`, `Result` |
| dataset.dfy | `Dataset` | rows, labels, columns |
| tally.dfy | `Tally` | `class_counts`, `top_pick` |
| partitioning.dfy | `Partitioning` | `Question`, `match`, `partition` |
| impurity.dfy | `Impurity` | `gini`, `info_gain` |
| split_search.dfy | `SplitSearch` | `find_best_split` |
| tree_builder.dfy | `TreeBuilder` | `Node`, `build`, `classify` |
| scoring.dfy | `Scoring` | the counting loop of both `score`s |
| decision_tree.dfy | `DecisionTree` | `Tree.fit`, `random_forest_predict`, `Tree.score` |
| random_forest.dfy | `RandomForest` | `get_random_subsets`, `RandomForest.fit`, `predict`, `score` |

`TreeBuilder.Grown` is a declarative description of a correctly grown tree. It does not depend on the order in which candidates are tried:
- A leaf counts exactly the rows that reached it, and no eligible question has positive gain there.
- A decision node asks an eligible question of maximal, positive gain.
- Both sides of a decision node are non-empty, and each branch is grown from its side.

`Build` is proved to produce a `Grown` tree. The tree lemmas are stated about `Grown`.

## Model

| member | source | states |
|---|---|---|
| `Dataset.Labels` | actual.py:23 | The label column: entry `i` is the label of row `i`, one per row. |
| `Dataset.Column` | actual.py:189 | `[row[col] for row in rows]`: entry `i` is feature `col` of row `i`, one per row. |
| `Tally.ClassCounts` | actual.py:12-27 | `class_counts`: the label histogram of the rows, defined as `Tally` of the label column. It has no contract of its own: `Tally.Tally` states the histogram's keys and counts, and `Impurity.CountsOfRows` and `Impurity.SingleKeyIffSameLabel` state them for non-empty rows. |
| `Tally.Distinct` | actual.py:189 | The distinct elements of a sequence, each once, in order of first appearance. It stands for the column's value set, and for the key order of a dictionary filled from the sequence. |
| `Tally.TallyKeysInOrder` | actual.py:21-27 | Dictionary order over the whole `class_counts` loop: the histogram's keys are the labels in order of first appearance. So a leaf's tie-break picks, among the most frequent labels, the one that appears first among the leaf's training rows. |
| `Tally.Tally` | actual.py:21-27 | The histogram has each label of the rows as a key exactly once, and no other key. Each count is that label's number of occurrences, at least 1. The counts add up to the number of rows. |
| `Tally.Bump` | actual.py:24-26 | One `counts[label] += 1` step. The label's entry grows by one, and every other entry keeps its count and position. A new label is appended with count 1. The total grows by one. |
| `Tally.BumpKeySeq` | actual.py:24-26 | Dictionary insertion order: the key sequence is unchanged when the label is already a key, and otherwise the label is appended at the end. |
| `Tally.BumpKeys` | actual.py:24-26 | One step adds the label to the key set and removes none. |
| `Tally.BumpKeysMatch` | actual.py:22-26 | After one step, the keys are exactly the labels read so far. |
| `Tally.BumpDistinct` | actual.py:24-26 | One step keeps every key unique. |
| `Tally.BumpCounts` | actual.py:22-26 | After one step, every count is its key's number of occurrences among the labels read so far, and at least 1. |
| `Tally.BumpKeepsHistogram` | actual.py:22-26 | Each iteration of the counting loop keeps the histogram exact for the labels read so far. |
| `Tally.FirstMax` | actual.py:99-104 | The scan that starts at count 0 and moves only on a strictly larger count ends at a maximal count. Every earlier count is strictly smaller, so it is the first maximum. |
| `Tally.TopPick` | actual.py:98-105 | If some count is positive, the label returned is the key of the first entry, in insertion order, with the largest count. Otherwise it is 0, the initial `best_class`. |
| `Partitioning.Match` | actual.py:62-63 | `Question.match`: the row's feature reaches the threshold, non-strictly. It has no contract of its own: `Partitioning.Partition` and `Partitioning.PartitionSingle` state which side a row goes to by it. |
| `Partitioning.Partition` | actual.py:136-149 | The two sides together have as many rows as the input and the same multiset of rows. Every true-side row matches (`row[f] >= v`), and no false-side row does. If one side is empty, the other is the input. |
| `Partitioning.PartitionSides` | actual.py:143-149 | The loop's two lists are the rows that match, in input order, and the rows that do not, in input order. |
| `Partitioning.YesAppend` | actual.py:144-147 | The matching rows of `a + b` are those of `a` followed by those of `b`. |
| `Partitioning.NoAppend` | actual.py:144-148 | The non-matching rows of `a + b` are those of `a` followed by those of `b`. |
| `Partitioning.PartitionAppend` | actual.py:144-148 | Stability: partitioning `a + b` gives the partitions of `a` and `b` concatenated side by side, so each side keeps the input order. |
| `Partitioning.PartitionSnoc` | actual.py:144-148 | Appending one row appends it to the side its answer to the question selects. |
| `Partitioning.PartitionSingle` | actual.py:145-148 | A single row goes to the true side exactly when it matches. |
| `Impurity.SquaredSharesScaled` | actual.py:158-161 | The sum of squared shares `(count/n)**2`, multiplied by `n*n`, is the sum of squared counts. |
| `Impurity.SumSqBounds` | actual.py:159-161 | For positive counts, the sum of squares is at most the squared total. It equals the squared total exactly when there is at most one count. |
| `Impurity.SharesBounds` | actual.py:156-162 | The squared shares of a non-empty histogram lie in (0, 1]. They are 1 exactly for a single label. |
| `Impurity.SingleKeyIffSameLabel` | actual.py:21-27 | The histogram of non-empty rows has a single key exactly when all rows carry one label. |
| `Impurity.CountsOfRows` | actual.py:21-27 | The histogram of non-empty rows is non-empty, its counts are positive, and they add up to the rows. |
| `Impurity.Gini` | actual.py:152-162 | `gini`: one minus the sum of squared label shares, and 1 on no rows. It has no contract of its own: `Impurity.GiniRange` and `Impurity.GiniZeroIffPure` state its range and when it is 0. |
| `Impurity.GiniRange` | actual.py:152-162 | `gini` of a non-empty row set lies in [0, 1). |
| `Impurity.GiniZeroIffPure` | actual.py:152-162 | `gini` of a non-empty row set is 0 exactly when all rows share one label. |
| `Impurity.OneSidedSplitNoGain` | actual.py:165-174 | A split that leaves one side empty gains exactly 0. So a non-zero gain puts at least one row, and fewer than all rows, on each side. |
| `Impurity.InfoGain` | actual.py:165-174 | `info_gain`: the parent impurity minus the side impurities weighted by their shares of the rows. It has no contract of its own: `Impurity.InfoGainEmptyLeft`, `Impurity.InfoGainEmptyRight` and `Impurity.OneSidedSplitNoGain` state it on one-sided splits, and `SplitSearch.FindBestSplit` states the maximum over candidates. |
| `Impurity.InfoGainEmptyLeft` | actual.py:169-173 | With an empty true side, the weight of the false side is 1 and the gain is the parent's impurity minus that side's. |
| `Impurity.InfoGainEmptyRight` | actual.py:169-173 | With an empty false side, the weight of the true side is 1 and the gain is the parent's impurity minus that side's. |
| `SplitSearch.ColumnQuestions` | actual.py:191-192 | One question per value of the column, in the values' order, and nothing else. |
| `SplitSearch.CandidatesFrom` | actual.py:187-192 | The candidate questions from a column on are exactly the (column, observed value) pairs in range, each once. |
| `SplitSearch.Candidates` | actual.py:186-192 | The candidates are exactly the questions on an existing column with a value seen in that column, each once. |
| `SplitSearch.Assess` | actual.py:193-200 | The loop body on one question. The question is skipped exactly when a side gets fewer than `stopping_criteria` rows. Measured against the parent's impurity, the gain it is scored with is the split gain. |
| `SplitSearch.AssessmentsReflect` | actual.py:184-200 | With the parent impurity computed once before the loop, there is one assessment per candidate, in order. It is scored exactly for eligible candidates, and then with their split gain. |
| `SplitSearch.Scan` | actual.py:182-205 | The bookkeeping over the assessments gives a result never worse than the best so far. The result is that best, or a scored question with its own gain, and no scored question has a larger gain. |
| `SplitSearch.ScanKeepsCandidate` | actual.py:182-207 | Read back over the candidates, the scan result has gain at least 0, and gain 0 when it has no question. A question it holds is an eligible candidate achieving the gain. |
| `SplitSearch.FindBestSplit` | actual.py:177-207 | The gain is at least 0, and it is 0 when no question is returned. A returned question is a candidate, leaves at least `stopping_criteria` rows on each side, and achieves the gain. No eligible candidate gains more. A non-zero gain puts rows on both sides. |
| `SplitSearch.ScanBeatsCandidates` | actual.py:187-205 | No eligible candidate has a larger gain than the split the search keeps. |
| `SplitSearch.ScanAppend` | actual.py:187-205 | Scanning two runs of assessments is scanning the second from where the first left off. |
| `SplitSearch.ScanPicksLastMaximal` | actual.py:203-205 | With the non-strict `>=` update, suppose a scored assessment is not beaten by earlier ones and strictly beats every later one. Then its question and gain are the result. |
| `SplitSearch.ReflectedPicksLastMaximal` | actual.py:187-205 | The same for assessments of a candidate run `pre + [q] + post`: if `q` is eligible, no candidate in `pre` beats it, and every candidate in `post` is strictly worse, the scan ends on `q` with its gain. |
| `SplitSearch.FindBestSplitPicksLastMaximal` | actual.py:182-207 | Among equally good eligible questions, `find_best_split` returns the last one enumerated. |
| `TreeBuilder.Build` | actual.py:232-255 | The tree built is `Grown`. It is a leaf exactly where no eligible split has positive gain, and otherwise a decision on a best question with both branches grown from non-empty sides. Recursion terminates because each side is strictly smaller. |
| `TreeBuilder.GrownLeavesPopulated` | actual.py:239-243 | Every leaf of a grown tree has a non-empty histogram with positive counts. |
| `TreeBuilder.GrownLeafTotal` | actual.py:239-255 | The leaf histograms of a grown tree add up to the number of training rows. |
| `TreeBuilder.GrownFeaturesBelow` | actual.py:239-255 | A grown tree only asks about columns the training rows have. |
| `TreeBuilder.GrownDepth` | actual.py:239-252 | The depth of a grown tree is less than the number of training rows. |
| `TreeBuilder.GrownRoutesTrainingRow` | actual.py:245-252 | Classifying a training row walks to a leaf whose histogram counts that row's label. |
| `TreeBuilder.Classify` | actual.py:282-293 | On a tree with populated leaves, the label is the key of the reached leaf with the largest count, and the first such key in insertion order. |
| `TreeBuilder.ClassifyInLeaf` | actual.py:282-293 | On a tree with populated leaves, the label returned is a key of the leaf the row reaches. |
| `DecisionTree.Broadcastable` | actual.py:219-221 | Every feature row has the width of row 0 or is empty, the shapes numpy can assign to a merged row. |
| `DecisionTree.Merged` | actual.py:219-221 | A merged row has row 0's width and the row's label. A full-width row keeps its features. An empty row is filled with copies of its label, as numpy broadcasts the one-element `np.append([], y[i])`. |
| `DecisionTree.TrainingRows` | actual.py:219-221 | One merged row per feature row, all of one width. On a rectangular matrix each row keeps its features. |
| `DecisionTree.MergeFrom` | actual.py:219-221 | The merge loop succeeds exactly when every row has a label and is full width or empty. It then holds each merged row. Otherwise it reports the first row that fails, and how. |
| `DecisionTree.NoBadRowIff` | actual.py:219-221 | No row fails the merge exactly when there are at least as many labels as rows and every row is full width or empty. |
| `DecisionTree.EmptyRowBroadcast` | actual.py:219-221 | On rows `[1, 2]` and `[]` labelled 0 and 1, the empty row merges as `[1, 1]` with label 1 and fitting succeeds. |
| `DecisionTree.StoppingRows` | actual.py:223-226 | A non-zero criterion is kept. A zero criterion becomes a tenth of the row count, by true division. |
| `DecisionTree.Fit` | actual.py:210-229 | Fitting fails on no rows, and otherwise exactly at the first row without a label or whose width is neither row 0's nor 0. Otherwise the root is grown from exactly the merged rows with the settled criterion, its leaves are populated, and it only asks about existing columns. |
| `DecisionTree.FitRoutesTrainingRows` | actual.py:210-229 | Fitting succeeds on labelled rows that are full width or empty, and the fitted tree routes every merged training row to a leaf that counted its label. |
| `DecisionTree.Predict` | actual.py:276-280 | One prediction per row, in row order, and prediction `i` is the tree's classification of row `i`. |
| `DecisionTree.PredictInLeaves` | actual.py:276-280 | On populated leaves, every prediction is a label of the leaf its row reaches. |
| `DecisionTree.Score` | actual.py:258-264 | The score is the number of rows classified correctly over the number of rows. It lies in [0, 1] and is 1 exactly when every row is classified correctly. |
| `Scoring.CorrectBounds` | actual.py:398-400 | The number of correct predictions is at most the number of predictions. It equals it exactly when all agree, and is 0 exactly when none does. |
| `Scoring.Accuracy` | actual.py:396-402 | The counting loop returns the number of correct predictions over their number. The result lies in [0, 1], is 1 exactly when all are right, and is 0 exactly when none is. |
| `RandomForest.ISqrt` | actual.py:333 | `int(np.sqrt(n))` is the largest `r` with `r*r <= n`. |
| `RandomForest.MaxFeatures` | actual.py:332-333 | The configured number of columns per tree is kept when non-zero. When it is zero, the integer square root of the width is used. |
| `RandomForest.RandomSubsets` | actual.py:29-50 | There is one subset per draw, of `n` rows with replacement or `n // 2` without. Row `k` of subset `t` is the original row `perm[draws[t][k]]`, so every subset row is a training row. |
| `RandomForest.Project` | actual.py:348 | The projected row has one entry per saved index, and entry `j` is feature `idx[j]` of the row. |
| `RandomForest.ProjectRows` | actual.py:348 | Column restriction of a subset yields a rectangular matrix of projected rows, one per subset row. |
| `RandomForest.SubsetProjection` | actual.py:339-351 | Merging a projected bootstrap subset back with its labels gives the tree's bag rows: original row `perm[draw[k]]` seen through the saved columns. |
| `RandomForest.FitMember` | actual.py:338-351 | Fitting one tree on a bootstrap subset always succeeds. The tree keeps its feature indices, is grown from exactly its bag rows, and only asks about its own columns. |
| `RandomForest.NoFeaturesExample` | actual.py:331-342 | Two rows without features and one tree asking for one feature index: the forest fit fails with `NoFeatures`. |
| `RandomForest.Fit` | actual.py:330-351 | The forest fit fails on no rows, on rows that are not a matrix, on a label count that differs from the row count, and on a matrix without columns when at least one tree asks for feature indices. Otherwise there is one member per tree. Member `t` keeps `featureIdx[t]` of the resolved size, is grown from its bag rows, and can classify any row of the training width. |
| `RandomForest.Insert` | actual.py:375 | Inserting into a strictly ascending sequence keeps it strictly ascending and adds exactly the new label. |
| `RandomForest.Unique` | actual.py:375 | `np.unique` gives the distinct votes, strictly ascending. |
| `RandomForest.VoteCounts` | actual.py:375 | The `return_counts` half of `np.unique`: count `j` is the number of votes for distinct label `j`. |
| `RandomForest.Vote` | actual.py:374-387 | The winner got a vote and no label got more. Among labels with as many votes it is the smallest. If all trees agree, it is their label. |
| `RandomForest.VoteWinner` | actual.py:379-386 | The strict-`>` scan over the counts of the ascending distinct labels picks a plurality label that is the smallest of the tied ones. |
| `RandomForest.VoteCharacterized` | actual.py:374-387 | Conversely, any voted label with the most votes that is the smallest of the tied ones is the vote. So the vote is the unique such label. |
| `RandomForest.Ballot` | actual.py:359-365 | Member `t` votes with its classification of the row seen through its own saved feature indices. |
| `RandomForest.Predict` | actual.py:353-389 | One label per row, each a plurality winner of the members' ballot for that row, and the smallest on ties. On no rows any forest, even one without members, predicts nothing. |
| `RandomForest.Score` | actual.py:394-402 | The fraction of rows whose forest prediction equals the expected label. It lies in [0, 1] and is 1 exactly when every prediction is right. |

## Left out

- The benchmark harness (actual.py:406-438) is not modelled. This covers cross-validation through sklearn, the dataset loaders, the timing and the printing, which are I/O and foreign libraries.
- `get_params` / `set_params` (actual.py:121-133, 316-327) are not modelled: they are reflective `setattr` plumbing.
- The print-only `Tree.predict` (actual.py:266-273) is not modelled: it only prints.
- The random number generator is not modelled:
  - `np.random.shuffle`;
  - `np.random.choice` for bootstrap rows and feature indices.

  Its outputs are parameters, and `RandomInputsFit` states the shapes numpy guarantees for them whenever the draws succeed. Where `np.random.choice` raises (feature indices requested from no columns), `RandomForest.Fit` returns `Failure(NoFeatures)` and asks nothing of the parameters.
- Float rounding is not modelled. Impurity and gain are exact rationals, so two questions whose float gains round to equal values may compare differently here.
- Calling `predict` or `score` on an unfitted model raises an attribute error in the source. The model has no unfitted state: a `Forest` or `Tree` value only exists fitted.
- `RandomForest.__init__` and the persistence of `max_features` are not modelled separately:
  - the forest size is the `nTrees` parameter of `RandomForest.Fit`;
  - the source overwrites `self.max_features` on the first fit, so a second fit on data of another width reuses the integer square root of the first fit's width. The caller passes the stored value as `maxFeatures`.
- RandomForest.Fit: rejects empty data whatever the number of trees. Given an empty 2-d numpy array and zero trees, the source would fit nothing and fail only later, at `predict`.
- RandomForest.ISqrt: states the exact integer square root. `int(np.sqrt(n))` goes through a float, which for widths beyond 2**52 may round differently.
- RandomForest.RandomSubsets: for draws without replacement it only states sizes and membership, not that no row is drawn twice. The forest always draws with replacement.
- TreeBuilder.Classify: requires every question in the tree to ask about a feature the row has. The source only evaluates the questions on the row's path (actual.py:282-293), so a row too short for a question off its path is classified there and excluded here.
- DecisionTree.Predict: inherits the whole-tree requirement of `TreeBuilder.Classify` for every row.
- DecisionTree.Score: inherits the whole-tree requirement of `TreeBuilder.Classify` for every row.
- RandomForest.Predict: inherits the whole-tree requirement of `TreeBuilder.Classify` for every member's projected row.
- RandomForest.Score: inherits the whole-tree requirement of `TreeBuilder.Classify` for every member's projected row.
