/**
  A fitted tree (`Tree.fit`, `Tree.random_forest_predict`, `Tree.score`):
  the training rows merged with their labels, the stopping criterion, and
  the root built from them.
 */
module DecisionTree {
  import opened Wrappers
  import opened Dataset
  import opened Tally
  import opened TreeBuilder
  import opened Scoring

  /** The stopping criterion in effect and the root node. */
  datatype Tree = Tree(minRows: real, root: Node)

  /** Why fitting fails: the source raises on these inputs. */
  datatype FitError =
    | EmptyData            // `x[0]` of no rows
    | MissingLabel(row: nat) // `y[row]` out of range
    | RaggedRow(row: nat)    // row `row` has features, but not as many as row 0
    | NotRectangular       // the feature rows do not form a matrix (forest only)
    | LengthMismatch       // feature rows and labels differ in number (forest only)
    | NoFeatures           // feature indices requested from no columns (forest only)

  /** Every feature row has the width of the first. */
  predicate Rectangular(xs: seq<seq<real>>) {
    forall i | 0 <= i < |xs| :: |xs[i]| == |xs[0]|
  }

  /**
    Every feature row has the width of the first or no features at all. The
    merged row has room for the features and the label; appending the label
    to an empty row gives one value, which numpy broadcasts over the whole
    merged row.
   */
  predicate Broadcastable(xs: seq<seq<real>>) {
    forall i | 0 <= i < |xs| :: |xs[i]| == |xs[0]| || xs[i] == []
  }

  /** Row `i` cannot be merged: it has no label, or it has features but not as many as row 0. */
  predicate BadRow(xs: seq<seq<real>>, ys: seq<Label>, i: nat)
    requires i < |xs|
  {
    i >= |ys| || (|xs[i]| != |xs[0]| && xs[i] != [])
  }

  /** No row fails the merge. */
  predicate Mergeable(xs: seq<seq<real>>, ys: seq<Label>) {
    forall i | 0 <= i < |xs| :: !BadRow(xs, ys, i)
  }

  /**
    Merged row `i`: the features with the label appended. An empty feature
    row is filled, features and label alike, with copies of its label.
   */
  function Merged(xs: seq<seq<real>>, ys: seq<Label>, i: nat): (r: Row)
    requires i < |xs| && !BadRow(xs, ys, i)
    ensures |r.features| == |xs[0]| && r.target == ys[i]
    ensures |xs[i]| == |xs[0]| ==> r.features == xs[i]
    ensures xs[i] == [] ==> forall j | 0 <= j < |r.features| :: r.features[j] == ys[i] as real
  {
    if |xs[i]| == |xs[0]| then Row(xs[i], ys[i])
    else Row(seq(|xs[0]|, _ => ys[i] as real), ys[i])
  }

  /** The rows the merge produces when nothing goes wrong, one per feature row, all of the first row's width. */
  function TrainingRows(xs: seq<seq<real>>, ys: seq<Label>): (rows: seq<Row>)
    requires Mergeable(xs, ys)
    ensures |rows| == |xs|
    ensures forall i | 0 <= i < |xs| :: rows[i] == Merged(xs, ys, i)
    ensures Rectangular(xs) ==> forall i | 0 <= i < |xs| :: rows[i].features == xs[i]
    ensures Uniform(rows)
  {
    var rows := seq(|xs|, i requires 0 <= i < |xs| && !BadRow(xs, ys, i) => Merged(xs, ys, i));
    assert rows != [] ==> |rows[0].features| == |xs[0]|;
    rows
  }

  /**
    The merge loop of `fit` from row `i` on: row by row, append the label to
    the features, stopping at the first row without a label or whose width
    neither matches row 0's nor is 0. It succeeds exactly when no remaining
    row is bad, and then holds each remaining merged row; otherwise it
    reports the first bad row.
   */
  function MergeFrom(xs: seq<seq<real>>, ys: seq<Label>, i: nat): (r: Result<seq<Row>, FitError>)
    requires i <= |xs|
    ensures r.Success? <==> forall j | i <= j < |xs| :: !BadRow(xs, ys, j)
    ensures r.Success? ==>
      && (i < |xs| ==> |ys| >= |xs|)
      && |r.value| == |xs| - i
      && forall k | 0 <= k < |r.value| :: !BadRow(xs, ys, i + k) && r.value[k] == Merged(xs, ys, i + k)
    ensures r.Failure? ==> exists j | i <= j < |xs| ::
      && BadRow(xs, ys, j)
      && (forall k | i <= k < j :: !BadRow(xs, ys, k))
      && r.error == (if j >= |ys| then MissingLabel(j) else RaggedRow(j))
    decreases |xs| - i
  {
    if i == |xs| then Success([])
    else if i >= |ys| then
      assert BadRow(xs, ys, i);
      Failure(MissingLabel(i))
    else if |xs[i]| != |xs[0]| && xs[i] != [] then
      assert BadRow(xs, ys, i);
      Failure(RaggedRow(i))
    else
      assert !BadRow(xs, ys, i);
      match MergeFrom(xs, ys, i + 1)
      case Failure(e) => Failure(e)
      case Success(rest) =>
        assert i + 1 < |xs| ==> !BadRow(xs, ys, |xs| - 1);
        Success([Merged(xs, ys, i)] + rest)
  }

  /** No row is bad exactly when every row has a label and each row is full width or empty. */
  lemma NoBadRowIff(xs: seq<seq<real>>, ys: seq<Label>)
    requires xs != []
    ensures Mergeable(xs, ys) <==> |ys| >= |xs| && Broadcastable(xs)
  {
    if Mergeable(xs, ys) {
      assert !BadRow(xs, ys, |xs| - 1);
      forall i | 0 <= i < |xs| ensures |xs[i]| == |xs[0]| || xs[i] == [] {
        assert !BadRow(xs, ys, i);
      }
    }
    if |ys| >= |xs| && Broadcastable(xs) {
      forall j | 0 <= j < |xs| ensures !BadRow(xs, ys, j) {
      }
    }
  }

  /** A zero-width row is merged by broadcasting its label, and fitting goes on. */
  lemma EmptyRowBroadcast()
    ensures Mergeable([[1.0, 2.0], []], [0, 1])
    ensures Merged([[1.0, 2.0], []], [0, 1], 1) == Row([1.0, 1.0], 1)
    ensures Fit([[1.0, 2.0], []], [0, 1], 0.0).Success?
  {
    var xs: seq<seq<real>> := [[1.0, 2.0], []];
    assert Broadcastable(xs);
    NoBadRowIff(xs, [0, 1]);
    assert Merged(xs, [0, 1], 1).features == [1.0, 1.0];
  }

  /**
    The stopping criterion `fit` settles on: the one given, or a tenth of the
    number of rows when it is 0 (true division, so not rounded).
   */
  function StoppingRows(stopping: real, n: nat): (m: real)
    ensures stopping != 0.0 ==> m == stopping
    ensures stopping == 0.0 ==> m * 10.0 == n as real && m >= 0.0
  {
    if stopping != 0.0 then stopping else n as real / 10.0
  }

  /**
    `Tree.fit`: merge features and labels, settle the stopping criterion and
    build the root. It fails on no rows, and otherwise at the first row
    without a label or of a width that is neither row 0's nor 0; it succeeds
    exactly when there are rows, each has a label and each is full width or
    empty. A fitted tree is grown from exactly the merged rows, its leaves
    are populated and it only asks about features of row 0's width.
   */
  function Fit(xs: seq<seq<real>>, ys: seq<Label>, stopping: real): (r: Result<Tree, FitError>)
    ensures xs == [] ==> r == Failure(EmptyData)
    ensures r.Success? <==> xs != [] && |ys| >= |xs| && Broadcastable(xs)
    ensures r.Failure? && xs != [] ==> exists j | 0 <= j < |xs| ::
      && BadRow(xs, ys, j)
      && (forall k | 0 <= k < j :: !BadRow(xs, ys, k))
      && r.error == (if j >= |ys| then MissingLabel(j) else RaggedRow(j))
    ensures r.Success? ==>
      && r.value.minRows == StoppingRows(stopping, |xs|)
      && Mergeable(xs, ys)
      && Grown(r.value.root, TrainingRows(xs, ys), r.value.minRows)
      && LeavesPopulated(r.value.root)
      && FeaturesBelow(r.value.root, |xs[0]|)
  {
    if xs == [] then Failure(EmptyData)
    else
      NoBadRowIff(xs, ys);
      match MergeFrom(xs, ys, 0)
      case Failure(e) => Failure(e)
      case Success(rows) =>
        assert rows == TrainingRows(xs, ys);
        var m := StoppingRows(stopping, |rows|);
        var root := Build(rows, m);
        GrownLeavesPopulated(root, rows, m);
        GrownFeaturesBelow(root, rows, m);
        Success(Tree(m, root))
  }

  /**
    Fitting succeeds on labelled rows that are full width or empty, and the
    fitted tree sends every merged training row to a leaf that counted that
    row's label; a full-width row is merged unchanged, so it is the feature
    row itself that reaches the leaf.
   */
  lemma FitRoutesTrainingRows(xs: seq<seq<real>>, ys: seq<Label>, stopping: real, i: nat)
    requires i < |xs| && |ys| >= |xs| && Broadcastable(xs)
    ensures Fit(xs, ys, stopping).Success? && Mergeable(xs, ys)
    ensures FeaturesBelow(Fit(xs, ys, stopping).value.root, |xs[0]|)
    ensures ys[i] in Keys(Reached(Merged(xs, ys, i).features, Fit(xs, ys, stopping).value.root))
  {
    var t := Fit(xs, ys, stopping).value;
    var rows := TrainingRows(xs, ys);
    assert rows[i] in rows;
    GrownRoutesTrainingRow(t.root, rows, t.minRows, rows[i]);
  }

  /**
    `Tree.random_forest_predict`: one label per row, in row order, each the
    tree's classification of that row.
   */
  function Predict(t: Tree, xs: seq<seq<real>>): (ps: seq<Label>)
    requires forall i | 0 <= i < |xs| :: FeaturesBelow(t.root, |xs[i]|)
    ensures |ps| == |xs|
    ensures forall i | 0 <= i < |xs| :: ps[i] == Classify(xs[i], t.root)
  {
    if xs == [] then []
    else
      var n := |xs| - 1;
      Predict(t, xs[..n]) + [Classify(xs[n], t.root)]
  }

  /** On populated leaves, each prediction is a label of the leaf its row reaches. */
  lemma PredictInLeaves(t: Tree, xs: seq<seq<real>>)
    requires forall i | 0 <= i < |xs| :: FeaturesBelow(t.root, |xs[i]|)
    requires LeavesPopulated(t.root)
    ensures forall i | 0 <= i < |xs| :: Predict(t, xs)[i] in Keys(Reached(xs[i], t.root))
  {
    forall i | 0 <= i < |xs| ensures Predict(t, xs)[i] in Keys(Reached(xs[i], t.root)) {
      ClassifyInLeaf(xs[i], t.root);
    }
  }

  /**
    `Tree.score`: the fraction of rows the tree classifies correctly. It lies
    in [0, 1] and is 1 exactly when every row is classified correctly.
   */
  method Score(t: Tree, xs: seq<seq<real>>, ys: seq<Label>) returns (s: real)
    requires |xs| > 0 && |ys| >= |xs|
    requires forall i | 0 <= i < |xs| :: FeaturesBelow(t.root, |xs[i]|)
    ensures s == Correct(Predict(t, xs), ys) as real / |xs| as real
    ensures 0.0 <= s <= 1.0
    ensures s == 1.0 <==> forall i | 0 <= i < |xs| :: Classify(xs[i], t.root) == ys[i]
  {
    s := Accuracy(Predict(t, xs), ys);
  }
}
