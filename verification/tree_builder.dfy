/**
  Tree nodes (`Node`), the recursive builder (`Tree.build`) and the
  classification walk (`Tree.classify` with `Node.top_pick`).
 */
module TreeBuilder {
  import opened Dataset
  import opened Tally
  import opened Partitioning
  import opened Impurity
  import opened SplitSearch

  /** A leaf holds the label histogram of the training rows that reached it;
      a decision node holds its question and both branches. */
  datatype Node =
    | Leaf(predictions: Histogram)
    | Decision(question: Question, trueBranch: Node, falseBranch: Node)

  /** Rows drawn from a rectangular set form a rectangular set. */
  lemma UniformSubset(rows: seq<Row>, sub: seq<Row>)
    requires rows != [] && Uniform(rows)
    requires forall r | r in sub :: r in rows
    ensures Uniform(sub)
    ensures sub != [] ==> |sub[0].features| == |rows[0].features|
  {
    if sub != [] {
      assert sub[0] in rows;
    }
  }

  /**
    What a built tree is, independently of the order in which candidates are
    tried: a leaf counts exactly the rows that reached it and stands where no
    eligible question has positive gain; a decision node asks an eligible
    candidate question of maximal, positive gain, both of its sides are
    non-empty, and each branch is grown from the rows on its side.
   */
  ghost predicate Grown(n: Node, rows: seq<Row>, minRows: real)
    requires rows != [] && Uniform(rows)
    decreases n
  {
    match n
    case Leaf(h) =>
      && h == ClassCounts(rows)
      && (forall p | IsCandidate(rows, p) && Eligible(rows, minRows, p) :: SplitGain(rows, p) <= 0.0)
    case Decision(q, tb, fb) =>
      && IsCandidate(rows, q)
      && Eligible(rows, minRows, q)
      && SplitGain(rows, q) > 0.0
      && (forall p | IsCandidate(rows, p) && Eligible(rows, minRows, p) :: SplitGain(rows, p) <= SplitGain(rows, q))
      && var (t, f) := Partition(rows, q);
         && t != [] && f != []
         && Uniform(t) && Uniform(f)
         && Grown(tb, t, minRows)
         && Grown(fb, f, minRows)
  }

  /**
    `Tree.build`: a leaf when the best split gains nothing, otherwise a
    decision on the best question with both sides built recursively. It
    terminates because a split with non-zero gain leaves rows on both sides,
    so each side is strictly smaller.
   */
  function Build(rows: seq<Row>, minRows: real): (n: Node)
    requires rows != [] && Uniform(rows)
    ensures Grown(n, rows, minRows)
    decreases |rows|
  {
    var s := FindBestSplit(rows, minRows);
    if s.gain == 0.0 then Leaf(ClassCounts(rows))
    else
      var q := s.question.value;
      var (t, f) := Partition(rows, q);
      UniformSubset(rows, t);
      UniformSubset(rows, f);
      Decision(q, Build(t, minRows), Build(f, minRows))
  }

  /** Every leaf holds a non-empty histogram with positive counts. */
  ghost predicate LeavesPopulated(n: Node) {
    match n
    case Leaf(h) => h != [] && PositiveCounts(h)
    case Decision(_, t, f) => LeavesPopulated(t) && LeavesPopulated(f)
  }

  /** Every question asks about a feature below `width`. */
  predicate FeaturesBelow(n: Node, width: nat) {
    match n
    case Leaf(_) => true
    case Decision(q, t, f) => q.feature < width && FeaturesBelow(t, width) && FeaturesBelow(f, width)
  }

  /** The number of training rows counted over all leaves. */
  function LeafTotal(n: Node): nat {
    match n
    case Leaf(h) => Total(h)
    case Decision(_, t, f) => LeafTotal(t) + LeafTotal(f)
  }

  /** Number of decision nodes on the longest path. */
  function Depth(n: Node): nat {
    match n
    case Leaf(_) => 0
    case Decision(_, t, f) => 1 + if Depth(t) < Depth(f) then Depth(f) else Depth(t)
  }

  /** The histogram of the leaf that `x` reaches by answering the questions on its way down. */
  function Reached(x: seq<real>, n: Node): Histogram
    requires FeaturesBelow(n, |x|)
  {
    match n
    case Leaf(h) => h
    case Decision(q, t, f) => if Match(q, x) then Reached(x, t) else Reached(x, f)
  }

  /** The leaves of a grown tree are never empty. */
  lemma {:induction false} GrownLeavesPopulated(n: Node, rows: seq<Row>, minRows: real)
    requires rows != [] && Uniform(rows) && Grown(n, rows, minRows)
    ensures LeavesPopulated(n)
    decreases n
  {
    match n
    case Leaf(h) =>
      CountsOfRows(rows);
    case Decision(q, tb, fb) =>
      var (t, f) := Partition(rows, q);
      GrownLeavesPopulated(tb, t, minRows);
      GrownLeavesPopulated(fb, f, minRows);
  }

  /** Every training row is counted in exactly one leaf: the leaf counts add up to the rows. */
  lemma {:induction false} GrownLeafTotal(n: Node, rows: seq<Row>, minRows: real)
    requires rows != [] && Uniform(rows) && Grown(n, rows, minRows)
    ensures LeafTotal(n) == |rows|
    decreases n
  {
    match n
    case Leaf(h) =>
      CountsOfRows(rows);
    case Decision(q, tb, fb) =>
      var (t, f) := Partition(rows, q);
      GrownLeafTotal(tb, t, minRows);
      GrownLeafTotal(fb, f, minRows);
  }

  /** A grown tree only asks about the features the training rows have. */
  lemma {:induction false} GrownFeaturesBelow(n: Node, rows: seq<Row>, minRows: real)
    requires rows != [] && Uniform(rows) && Grown(n, rows, minRows)
    ensures FeaturesBelow(n, |rows[0].features|)
    decreases n
  {
    match n
    case Leaf(h) =>
    case Decision(q, tb, fb) =>
      var (t, f) := Partition(rows, q);
      UniformSubset(rows, t);
      UniformSubset(rows, f);
      GrownFeaturesBelow(tb, t, minRows);
      GrownFeaturesBelow(fb, f, minRows);
  }

  /** Each split leaves fewer rows on both sides, so the depth stays below the row count. */
  lemma {:induction false} GrownDepth(n: Node, rows: seq<Row>, minRows: real)
    requires rows != [] && Uniform(rows) && Grown(n, rows, minRows)
    ensures Depth(n) < |rows|
    decreases n
  {
    match n
    case Leaf(h) =>
    case Decision(q, tb, fb) =>
      var (t, f) := Partition(rows, q);
      GrownDepth(tb, t, minRows);
      GrownDepth(fb, f, minRows);
  }

  /** Walking a grown tree with a training row ends in a leaf that counted that row's label. */
  lemma {:induction false} GrownRoutesTrainingRow(n: Node, rows: seq<Row>, minRows: real, r: Row)
    requires rows != [] && Uniform(rows) && Grown(n, rows, minRows)
    requires r in rows
    ensures FeaturesBelow(n, |r.features|)
    ensures r.target in Keys(Reached(r.features, n))
    decreases n
  {
    GrownFeaturesBelow(n, rows, minRows);
    match n
    case Leaf(h) =>
      var k :| 0 <= k < |rows| && rows[k] == r;
      assert Labels(rows)[k] == r.target;
    case Decision(q, tb, fb) =>
      var (t, f) := Partition(rows, q);
      assert multiset(rows)[r] > 0;
      if Match(q, r.features) {
        assert r !in f;
        assert multiset(t)[r] > 0;
        GrownRoutesTrainingRow(tb, t, minRows, r);
      } else {
        assert r !in t;
        assert multiset(f)[r] > 0;
        GrownRoutesTrainingRow(fb, f, minRows, r);
      }
  }

  /**
    `Tree.classify`: follow the questions down to a leaf and take its
    `top_pick`. On a tree whose leaves are populated the label is a key of
    the leaf reached, with the largest count, and the first such key in the
    leaf's insertion order, which is the order in which labels first appear
    among the leaf's training rows (`TallyKeysInOrder`).
   */
  function Classify(x: seq<real>, n: Node): (l: Label)
    requires FeaturesBelow(n, |x|)
    ensures LeavesPopulated(n) ==>
      exists i: nat :: FirstMaximal(Counts(Reached(x, n)), i) && Reached(x, n)[i].key == l
  {
    match n
    case Leaf(h) =>
      assert Reached(x, n) == h;
      assert LeavesPopulated(n) ==> 0 < |h| && h[0].count > 0;
      assert LeavesPopulated(n) ==> exists i :: 0 <= i < |h| && h[i].count > 0;
      var l := TopPick(h);
      assert LeavesPopulated(n) ==> exists i: nat :: FirstMaximal(Counts(h), i) && h[i].key == l;
      l
    case Decision(q, t, f) =>
      if Match(q, x) then
        assert Reached(x, n) == Reached(x, t);
        Classify(x, t)
      else
        assert Reached(x, n) == Reached(x, f);
        Classify(x, f)
  }

  /** On populated leaves, the label `Tree.classify` returns is a key of the leaf reached. */
  lemma ClassifyInLeaf(x: seq<real>, n: Node)
    requires FeaturesBelow(n, |x|) && LeavesPopulated(n)
    ensures Classify(x, n) in Keys(Reached(x, n))
  {
    var l := Classify(x, n);
    assert exists i: nat :: FirstMaximal(Counts(Reached(x, n)), i) && Reached(x, n)[i].key == l;
    var k: nat :| FirstMaximal(Counts(Reached(x, n)), k) && Reached(x, n)[k].key == l;
    assert Keys(Reached(x, n))[k] == l;
  }
}
