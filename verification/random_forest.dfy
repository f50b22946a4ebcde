/**
  The random forest (`get_random_subsets`, `RandomForest.fit`, `predict`,
  `score`). The random shuffle, the bootstrap draws and the feature-bagging
  indices are inputs: `perm` is the shuffle, `draws[t]` the row positions
  drawn for tree `t`, `featureIdx[t]` the columns tree `t` sees.
 */
module RandomForest {
  import opened Wrappers
  import opened Dataset
  import opened Tally
  import opened TreeBuilder
  import opened DecisionTree
  import opened Scoring

  // ---------------------------------------------------------------------
  // Feature bagging size
  // ---------------------------------------------------------------------

  function ISqrtFrom(n: nat, k: nat): (r: nat)
    requires k * k <= n
    ensures r * r <= n < (r + 1) * (r + 1)
    decreases n - k
  {
    if (k + 1) * (k + 1) > n then k
    else
      assert k + 1 <= (k + 1) * (k + 1);
      ISqrtFrom(n, k + 1)
  }

  /** `int(np.sqrt(n))`: the largest `r` with `r * r <= n`. */
  function ISqrt(n: nat): (r: nat)
    ensures r * r <= n < (r + 1) * (r + 1)
  {
    ISqrtFrom(n, 0)
  }

  /** Columns per tree: the configured number, or the integer square root of the width when it is 0. */
  function MaxFeatures(given: nat, width: nat): (k: nat)
    ensures given != 0 ==> k == given
    ensures given == 0 ==> k * k <= width < (k + 1) * (k + 1)
  {
    if given != 0 then given else ISqrt(width)
  }

  // ---------------------------------------------------------------------
  // Bootstrap subsets and column projection
  // ---------------------------------------------------------------------

  /** `perm` reorders positions `0 .. n-1`, each once. */
  predicate IsPermutation(perm: seq<nat>, n: nat) {
    && |perm| == n
    && (forall i | 0 <= i < n :: perm[i] < n)
    && (forall i, j | 0 <= i < j < n :: perm[i] != perm[j])
  }

  /** Rows per subset: all `n` when drawing with replacement, `n // 2` without. */
  function SubsampleSize(n: nat, replacements: bool): nat {
    if replacements then n else n / 2
  }

  /** Each draw has the subset size and picks positions below `n`. */
  predicate DrawsFit(draws: seq<seq<nat>>, n: nat, size: nat) {
    forall t | 0 <= t < |draws| ::
      |draws[t]| == size && forall k | 0 <= k < size :: draws[t][k] < n
  }

  /**
    `get_random_subsets`: shuffle the rows by `perm`, then for each draw take
    the shuffled rows at the drawn positions. There is one subset per draw,
    each of `n` rows (with replacement) or `n // 2` (without), and row `k` of
    subset `t` is the original row `perm[draws[t][k]]`.
   */
  function RandomSubsets(rows: seq<Row>, perm: seq<nat>, draws: seq<seq<nat>>, replacements: bool)
    : (subsets: seq<seq<Row>>)
    requires IsPermutation(perm, |rows|)
    requires DrawsFit(draws, |rows|, SubsampleSize(|rows|, replacements))
    ensures |subsets| == |draws|
    ensures forall t | 0 <= t < |draws| ::
      && |subsets[t]| == (if replacements then |rows| else |rows| / 2)
      && (forall k | 0 <= k < |subsets[t]| :: subsets[t][k] == rows[perm[draws[t][k]]])
    ensures forall t, r | 0 <= t < |draws| && r in subsets[t] :: r in rows
  {
    var shuffled := seq(|rows|, i requires 0 <= i < |rows| => rows[perm[i]]);
    var subsets := seq(|draws|, t requires 0 <= t < |draws| =>
      seq(|draws[t]|, k requires 0 <= k < |draws[t]| => shuffled[draws[t][k]]));
    assert forall t, r | 0 <= t < |draws| && r in subsets[t] :: r in rows by {
      forall t, r | 0 <= t < |draws| && r in subsets[t] ensures r in rows {
        var k :| 0 <= k < |subsets[t]| && subsets[t][k] == r;
        assert rows[perm[draws[t][k]]] == r;
      }
    }
    subsets
  }

  /** `x[idx]`: the features of `x` at the saved indices, in index order (repeats allowed). */
  function Project(x: seq<real>, idx: seq<nat>): (p: seq<real>)
    requires forall j | 0 <= j < |idx| :: idx[j] < |x|
    ensures |p| == |idx|
    ensures forall j | 0 <= j < |idx| :: p[j] == x[idx[j]]
  {
    seq(|idx|, j requires 0 <= j < |idx| => x[idx[j]])
  }

  /** The feature matrix of `rows` restricted to the columns `idx` (`x_subset[:, idx]`). */
  function ProjectRows(rows: seq<Row>, idx: seq<nat>): (xs: seq<seq<real>>)
    requires forall r, j | r in rows && 0 <= j < |idx| :: idx[j] < |r.features|
    ensures |xs| == |rows|
    ensures forall i | 0 <= i < |rows| :: xs[i] == Project(rows[i].features, idx)
    ensures Rectangular(xs)
  {
    seq(|rows|, i requires 0 <= i < |rows| => assert rows[i] in rows; Project(rows[i].features, idx))
  }

  // ---------------------------------------------------------------------
  // The forest and its fit
  // ---------------------------------------------------------------------

  /** A tree and the feature indices saved for it at fit time. */
  datatype Member = Member(featureIdx: seq<nat>, tree: Tree)

  datatype Forest = Forest(members: seq<Member>)

  /**
    What the random sources must deliver for data of `n` rows of `width`
    features: a shuffle of the rows, one full-size bootstrap draw per tree,
    and per tree `k` column indices below the width.
   */
  predicate RandomInputsFit(n: nat, width: nat, nTrees: nat, k: nat,
                            perm: seq<nat>, draws: seq<seq<nat>>, featureIdx: seq<seq<nat>>)
  {
    && IsPermutation(perm, n)
    && |draws| == nTrees
    && DrawsFit(draws, n, n)
    && |featureIdx| == nTrees
    && forall t | 0 <= t < nTrees ::
      && |featureIdx[t]| == k
      && forall j | 0 <= j < k :: featureIdx[t][j] < width
  }

  /**
    The training rows of tree `t` as an independent description: bootstrap
    row `k` is the original row `perm[draw[k]]`, restricted to the columns
    `idx`, with its label.
   */
  ghost function BagRows(xs: seq<seq<real>>, ys: seq<Label>, perm: seq<nat>, draw: seq<nat>, idx: seq<nat>)
    : (rows: seq<Row>)
    requires |ys| == |xs| && Rectangular(xs) && IsPermutation(perm, |xs|)
    requires forall k | 0 <= k < |draw| :: draw[k] < |xs|
    requires xs != [] ==> forall j | 0 <= j < |idx| :: idx[j] < |xs[0]|
  {
    seq(|draw|, k requires 0 <= k < |draw| => Row(Project(xs[perm[draw[k]]], idx), ys[perm[draw[k]]]))
  }

  /**
    One iteration of the `fit` loop: fit a tree to one bootstrap subset
    restricted to the tree's columns. The subset is never empty, so fitting
    succeeds; the tree is grown from exactly the bootstrap rows seen through
    its columns, has populated leaves and asks only about those columns.
   */
  function FitMember(xs: seq<seq<real>>, ys: seq<Label>, stopping: real,
                     perm: seq<nat>, subset: seq<Row>, draw: seq<nat>, idx: seq<nat>): (m: Member)
    requires xs != [] && |ys| == |xs| && Rectangular(xs) && IsPermutation(perm, |xs|)
    requires |draw| == |xs| && forall k | 0 <= k < |draw| :: draw[k] < |xs|
    requires forall j | 0 <= j < |idx| :: idx[j] < |xs[0]|
    requires |subset| == |draw|
    requires forall k | 0 <= k < |subset| :: subset[k] == TrainingRows(xs, ys)[perm[draw[k]]]
    ensures m.featureIdx == idx
    ensures m.tree.minRows == StoppingRows(stopping, |xs|)
    ensures Grown(m.tree.root, BagRows(xs, ys, perm, draw, idx), m.tree.minRows)
    ensures LeavesPopulated(m.tree.root) && FeaturesBelow(m.tree.root, |idx|)
  {
    SubsetWidths(xs, ys, perm, subset, draw);
    var px := ProjectRows(subset, idx);
    var py := Labels(subset);
    var fit := DecisionTree.Fit(px, py, stopping);
    SubsetProjection(xs, ys, perm, subset, draw, idx);
    Member(idx, fit.value)
  }

  /** Every row of a bootstrap subset has the width of the training rows. */
  lemma SubsetWidths(xs: seq<seq<real>>, ys: seq<Label>, perm: seq<nat>, subset: seq<Row>, draw: seq<nat>)
    requires xs != [] && |ys| == |xs| && Rectangular(xs) && IsPermutation(perm, |xs|)
    requires |draw| == |subset| && forall k | 0 <= k < |draw| :: draw[k] < |xs|
    requires forall k | 0 <= k < |subset| :: subset[k] == TrainingRows(xs, ys)[perm[draw[k]]]
    ensures forall r | r in subset :: |r.features| == |xs[0]|
  {
    forall r | r in subset ensures |r.features| == |xs[0]| {
      var k :| 0 <= k < |subset| && subset[k] == r;
    }
  }

  /** Merging a projected bootstrap subset back with its labels gives the bag rows. */
  lemma SubsetProjection(xs: seq<seq<real>>, ys: seq<Label>, perm: seq<nat>, subset: seq<Row>,
                         draw: seq<nat>, idx: seq<nat>)
    requires xs != [] && |ys| == |xs| && Rectangular(xs) && IsPermutation(perm, |xs|)
    requires |draw| == |subset| && forall k | 0 <= k < |draw| :: draw[k] < |xs|
    requires forall j | 0 <= j < |idx| :: idx[j] < |xs[0]|
    requires forall k | 0 <= k < |subset| :: subset[k] == TrainingRows(xs, ys)[perm[draw[k]]]
    requires forall r | r in subset :: |r.features| == |xs[0]|
    ensures TrainingRows(ProjectRows(subset, idx), Labels(subset)) == BagRows(xs, ys, perm, draw, idx)
  {
    var a := TrainingRows(ProjectRows(subset, idx), Labels(subset));
    var b := BagRows(xs, ys, perm, draw, idx);
    forall k | 0 <= k < |subset| ensures a[k] == b[k] {
      var o := perm[draw[k]];
      assert subset[k] == Row(xs[o], ys[o]);
    }
  }

  /**
    Feature indices can be drawn for every tree: there is a column to draw
    from, or no index is asked for, or there is no tree. `np.random.choice`
    raises on an empty population when samples are requested.
   */
  predicate CanDrawFeatures(width: nat, k: nat, nTrees: nat) {
    width > 0 || k == 0 || nTrees == 0
  }

  /**
    `RandomForest.fit`: fails on no rows, on rows that do not form a matrix,
    on labels that do not match the rows in number (the concatenation in
    `get_random_subsets` raises) and on a matrix without columns when some
    tree asks for feature indices; otherwise one member per tree, each
    keeping the feature indices drawn for it and grown from its bootstrap
    rows seen through those columns.
   */
  function Fit(xs: seq<seq<real>>, ys: seq<Label>, nTrees: nat, maxFeatures: nat, stopping: real,
               perm: seq<nat>, draws: seq<seq<nat>>, featureIdx: seq<seq<nat>>): (r: Result<Forest, FitError>)
    requires xs != [] && Rectangular(xs) && |ys| == |xs| && CanDrawFeatures(|xs[0]|, MaxFeatures(maxFeatures, |xs[0]|), nTrees) ==>
      RandomInputsFit(|xs|, |xs[0]|, nTrees, MaxFeatures(maxFeatures, |xs[0]|), perm, draws, featureIdx)
    ensures r.Success? <==> xs != [] && Rectangular(xs) && |ys| == |xs|
                            && CanDrawFeatures(|xs[0]|, MaxFeatures(maxFeatures, |xs[0]|), nTrees)
    ensures xs == [] ==> r == Failure(EmptyData)
    ensures xs != [] && !Rectangular(xs) ==> r == Failure(NotRectangular)
    ensures xs != [] && Rectangular(xs) && |ys| != |xs| ==> r == Failure(LengthMismatch)
    ensures xs != [] && Rectangular(xs) && |ys| == |xs| && !CanDrawFeatures(|xs[0]|, MaxFeatures(maxFeatures, |xs[0]|), nTrees) ==>
      r == Failure(NoFeatures)
    ensures r.Success? ==>
      && |r.value.members| == nTrees
      && forall t | 0 <= t < nTrees ::
        var m := r.value.members[t];
        && m.featureIdx == featureIdx[t]
        && |m.featureIdx| == MaxFeatures(maxFeatures, |xs[0]|)
        && m.tree.minRows == StoppingRows(stopping, |xs|)
        && Grown(m.tree.root, BagRows(xs, ys, perm, draws[t], featureIdx[t]), m.tree.minRows)
    ensures r.Success? ==> Predictable(r.value, |xs[0]|)
  {
    if xs == [] then Failure(EmptyData)
    else if !Rectangular(xs) then Failure(NotRectangular)
    else if |ys| != |xs| then Failure(LengthMismatch)
    else if !CanDrawFeatures(|xs[0]|, MaxFeatures(maxFeatures, |xs[0]|), nTrees) then Failure(NoFeatures)
    else
      var subsets := RandomSubsets(TrainingRows(xs, ys), perm, draws, true);
      var members := seq(nTrees, t requires 0 <= t < nTrees =>
        FitMember(xs, ys, stopping, perm, subsets[t], draws[t], featureIdx[t]));
      Success(Forest(members))
  }

  /** Two rows without features and one tree asking for one feature index: the fit fails. */
  lemma NoFeaturesExample(perm: seq<nat>, draws: seq<seq<nat>>, featureIdx: seq<seq<nat>>)
    ensures Fit([[], []], [0, 1], 1, 1, 0.0, perm, draws, featureIdx) == Failure(NoFeatures)
  {
    var xs: seq<seq<real>> := [[], []];
    assert Rectangular(xs);
  }

  // ---------------------------------------------------------------------
  // Voting and prediction
  // ---------------------------------------------------------------------

  predicate StrictlySorted(u: seq<Label>) {
    forall i, j | 0 <= i < j < |u| :: u[i] < u[j]
  }

  /** Insert `x` into a strictly ascending sequence, keeping it strictly ascending. */
  function Insert(u: seq<Label>, x: Label): (r: seq<Label>)
    requires StrictlySorted(u)
    ensures StrictlySorted(r)
    ensures forall l :: l in r <==> l in u || l == x
  {
    if u == [] then [x]
    else if x < u[0] then [x] + u
    else if x == u[0] then u
    else
      var rest := Insert(u[1..], x);
      InsertAfterHead(u, x, rest);
      [u[0]] + rest
  }

  /** Putting the head of `u` in front of the insertion into its tail keeps the order strict. */
  lemma InsertAfterHead(u: seq<Label>, x: Label, rest: seq<Label>)
    requires StrictlySorted(u) && u != [] && u[0] < x
    requires StrictlySorted(rest)
    requires forall l :: l in rest <==> l in u[1..] || l == x
    ensures StrictlySorted([u[0]] + rest)
    ensures forall l :: l in [u[0]] + rest <==> l in u || l == x
  {
    assert u == [u[0]] + u[1..];
    var r := [u[0]] + rest;
    forall i, j | 0 <= i < j < |r| ensures r[i] < r[j] {
      if i == 0 {
        assert r[j] == rest[j - 1];
        assert r[j] in rest;
        if r[j] != x {
          var k :| 0 <= k < |u[1..]| && u[1..][k] == r[j];
          assert u[k + 1] == r[j];
        }
      } else {
        assert r[i] == rest[i - 1] && r[j] == rest[j - 1];
      }
    }
  }

  /** `np.unique`: the distinct labels of `votes`, ascending. */
  function Unique(votes: seq<Label>): (u: seq<Label>)
    ensures StrictlySorted(u)
    ensures forall l :: l in u <==> l in votes
  {
    if votes == [] then []
    else
      var init := votes[..|votes| - 1];
      assert votes == init + [votes[|votes| - 1]];
      Insert(Unique(init), votes[|votes| - 1])
  }

  /** The counts `np.unique` returns alongside the labels. */
  function VoteCounts(votes: seq<Label>, u: seq<Label>): (c: seq<nat>)
    ensures |c| == |u|
    ensures forall j | 0 <= j < |u| :: c[j] == Occ(votes, u[j])
  {
    seq(|u|, j requires 0 <= j < |u| => Occ(votes, u[j]))
  }

  /** `w` got a vote, no label got more, and every label with as many votes is at least `w`. */
  predicate PluralityWinner(votes: seq<Label>, w: Label) {
    && w in votes
    && (forall l | l in votes :: Occ(votes, l) <= Occ(votes, w))
    && (forall l | l in votes && Occ(votes, l) == Occ(votes, w) :: w <= l)
  }

  /**
    The vote of `predict` for one row: the single label when all trees
    agree, otherwise the first label, in ascending order, with the most
    votes. The winner was voted for, no label has more votes, and among
    labels with as many votes it is the smallest.
   */
  function Vote(votes: seq<Label>): (w: Label)
    requires votes != []
    ensures PluralityWinner(votes, w)
    ensures (forall t | 0 <= t < |votes| :: votes[t] == votes[0]) ==> w == votes[0]
  {
    var u := Unique(votes);
    assert votes[0] in u;
    if |u| == 1 then
      VoteWinner(votes, u, 0);
      u[0]
    else
      var i := FirstMax(VoteCounts(votes, u));
      VoteWinner(votes, u, i);
      u[i]
  }

  /**
    The label at a first-maximal position of the counts over the ascending
    distinct labels is a plurality winner and the smallest of the tied ones.
   */
  lemma VoteWinner(votes: seq<Label>, u: seq<Label>, i: nat)
    requires votes != [] && u == Unique(votes) && i < |u|
    requires |u| == 1 || FirstMaximal(VoteCounts(votes, u), i)
    ensures PluralityWinner(votes, u[i])
  {
    var c := VoteCounts(votes, u);
    var w := u[i];
    assert w in u;
    OccPositive(votes, w);
    forall l ensures Occ(votes, l) <= Occ(votes, w) && (Occ(votes, l) == Occ(votes, w) ==> w <= l) {
      OccPositive(votes, l);
      if l in votes {
        var j :| 0 <= j < |u| && u[j] == l;
        if |u| == 1 {
          assert j == 0 && i == 0;
        } else {
          assert c[j] <= c[i];
          if Occ(votes, l) == Occ(votes, w) {
            assert !(j < i);
          }
        }
      }
    }
  }

  /** Conversely, a voted-for label with the most votes that is the smallest of the tied ones is the vote. */
  lemma VoteCharacterized(votes: seq<Label>, l: Label)
    requires votes != [] && PluralityWinner(votes, l)
    ensures Vote(votes) == l
  {
    var w := Vote(votes);
    assert Occ(votes, w) <= Occ(votes, l) && Occ(votes, l) <= Occ(votes, w);
  }

  /** Every member can classify rows of `width` features: its indices are in range and its tree asks only about them. */
  predicate Predictable(f: Forest, width: nat) {
    forall t | 0 <= t < |f.members| ::
      && (forall j | 0 <= j < |f.members[t].featureIdx| :: f.members[t].featureIdx[j] < width)
      && FeaturesBelow(f.members[t].tree.root, |f.members[t].featureIdx|)
  }

  /** The members' predictions for one row, each seeing the row through its saved feature indices. */
  function Ballot(f: Forest, x: seq<real>): (votes: seq<Label>)
    requires Predictable(f, |x|)
    ensures |votes| == |f.members|
    ensures forall t | 0 <= t < |f.members| ::
      votes[t] == Classify(Project(x, f.members[t].featureIdx), f.members[t].tree.root)
  {
    seq(|f.members|, t requires 0 <= t < |f.members| =>
      Classify(Project(x, f.members[t].featureIdx), f.members[t].tree.root))
  }

  /**
    `RandomForest.predict`: per row, the plurality label among the members'
    predictions (smallest label on ties). The source reads the first vote
    when all agree, so a forest without members cannot predict a row; on no
    rows neither loop runs and any forest predicts nothing.
   */
  function Predict(f: Forest, xs: seq<seq<real>>): (ps: seq<Label>)
    requires f.members != [] || xs == []
    requires forall i | 0 <= i < |xs| :: Predictable(f, |xs[i]|)
    ensures |ps| == |xs|
    ensures forall i | 0 <= i < |xs| :: PluralityWinner(Ballot(f, xs[i]), ps[i])
  {
    seq(|xs|, i requires 0 <= i < |xs| => Vote(Ballot(f, xs[i])))
  }

  /**
    `RandomForest.score`: the fraction of rows whose plurality label equals
    the expected one; in [0, 1], and 1 exactly when every row is predicted
    correctly.
   */
  method Score(f: Forest, xs: seq<seq<real>>, ys: seq<Label>) returns (s: real)
    requires f.members != []
    requires forall i | 0 <= i < |xs| :: Predictable(f, |xs[i]|)
    requires |xs| > 0 && |ys| >= |xs|
    ensures s == Correct(Predict(f, xs), ys) as real / |xs| as real
    ensures 0.0 <= s <= 1.0
    ensures s == 1.0 <==> forall i | 0 <= i < |xs| :: Predict(f, xs)[i] == ys[i]
  {
    s := Accuracy(Predict(f, xs), ys);
  }
}
