/** Gini impurity (`Tree.gini`) and information gain (`Tree.info_gain`) in exact arithmetic. */
module Impurity {
  import opened Dataset
  import opened Tally
  import opened Partitioning

  /** The sum of squared label shares, `sum (count / n)**2`, that `gini` subtracts from 1. */
  function SquaredShares(h: Histogram, n: real): real
    requires n > 0.0 || h == []
  {
    if h == [] then 0.0
    else (h[0].count as real / n) * (h[0].count as real / n) + SquaredShares(h[1..], n)
  }

  /**
    `Tree.gini`: one minus the sum of squared label shares. On no rows the loop
    body never runs and the impurity stays 1.
   */
  function Gini(rows: seq<Row>): real
  {
    var h := ClassCounts(rows);
    assert h != [] ==> Total(h) >= 1;
    1.0 - SquaredShares(h, |rows| as real)
  }

  /**
    `Tree.info_gain`: the parent's impurity minus the impurities of the two
    sides, each weighted by its share of the rows. The source divides by the
    number of rows, so both sides may not be empty at once.
   */
  function InfoGain(left: seq<Row>, right: seq<Row>, current: real): real
    requires |left| + |right| > 0
  {
    var pLeft := |left| as real / (|left| + |right|) as real;
    var pRight := 1.0 - pLeft;
    current - pLeft * Gini(left) - pRight * Gini(right)
  }

  /** The gain of splitting `rows` on `q`, measured against the impurity of `rows`. */
  function SplitGain(rows: seq<Row>, q: Question): real
    requires rows != [] && Covers(rows, q.feature)
  {
    var (t, f) := Partition(rows, q);
    InfoGain(t, f, Gini(rows))
  }

  /** Sum of squared counts. */
  function SumSq(h: Histogram): nat
  {
    if h == [] then 0 else h[0].count * h[0].count + SumSq(h[1..])
  }

  predicate PositiveCounts(h: Histogram) {
    forall i :: 0 <= i < |h| ==> h[i].count >= 1
  }

  /** Squaring a share and scaling back by the squared row count gives the squared count. */
  lemma ShareSquare(c: real, n: real)
    requires n > 0.0
    ensures (c / n) * (c / n) * (n * n) == c * c
  {
    var x := c / n;
    assert x * n == c;
    calc {
      x * x * (n * n);
      (x * n) * (x * n);
      c * c;
    }
  }

  /** The shares, scaled by the squared row count, are the sum of squared counts. */
  lemma {:induction false} SquaredSharesScaled(h: Histogram, n: real)
    requires n > 0.0
    ensures SquaredShares(h, n) * (n * n) == SumSq(h) as real
  {
    if h != [] {
      SquaredSharesScaled(h[1..], n);
      var c := h[0].count as real;
      ShareSquare(c, n);
      var x := (c / n) * (c / n);
      var rest := SquaredShares(h[1..], n);
      assert (x + rest) * (n * n) == x * (n * n) + rest * (n * n);
    }
  }

  /**
    For positive counts, the sum of squares is at most the squared total,
    with equality exactly when there is at most one count, and it is positive
    when there is any count.
   */
  lemma {:induction false} SumSqBounds(h: Histogram)
    requires PositiveCounts(h)
    ensures SumSq(h) <= Total(h) * Total(h)
    ensures SumSq(h) == Total(h) * Total(h) <==> |h| <= 1
    ensures h != [] ==> SumSq(h) >= 1
  {
    if h != [] {
      var c := h[0].count;
      var rest := h[1..];
      SumSqBounds(rest);
      var t := Total(rest);
      assert (c + t) * (c + t) == c * c + 2 * c * t + t * t;
      if rest != [] {
        assert t >= 1;
        assert c * t >= 1;
      } else {
        assert t == 0;
      }
    }
  }

  /** Non-empty rows have a single label in their histogram exactly when they all carry the same label. */
  lemma SingleKeyIffSameLabel(rows: seq<Row>)
    requires rows != []
    ensures |ClassCounts(rows)| == 1 <==> SameLabel(rows)
  {
    var h := ClassCounts(rows);
    var ls := Labels(rows);
    assert ls[0] in ls;
    if |h| == 1 {
      forall i | 0 <= i < |rows| ensures rows[i].target == h[0].key {
        assert ls[i] in ls;
      }
    }
    if SameLabel(rows) {
      forall i | 0 <= i < |h| ensures h[i].key == rows[0].target {
        assert Keys(h)[i] in Keys(h);
        var k :| 0 <= k < |ls| && ls[k] == h[i].key;
      }
      FirstTwoKeys(h);
    }
  }

  /** Distinct keys: the first two differ. */
  lemma FirstTwoKeys(h: Histogram)
    ensures DistinctKeys(h) && |h| > 1 ==> h[0].key != h[1].key
  {
  }

  /** The histogram of a non-empty row set is non-empty with positive counts adding up to the rows. */
  lemma CountsOfRows(rows: seq<Row>)
    requires rows != []
    ensures PositiveCounts(ClassCounts(rows)) && ClassCounts(rows) != []
    ensures Total(ClassCounts(rows)) == |rows|
  {
    assert Labels(rows)[0] in Keys(ClassCounts(rows));
  }

  lemma RealSquare(k: nat)
    ensures (k * k) as real == (k as real) * (k as real)
  {
  }

  /** Squared shares of positive counts over their total lie in (0, 1], and are 1 exactly for one count. */
  lemma SharesBounds(h: Histogram, k: nat)
    requires PositiveCounts(h) && h != [] && Total(h) == k
    ensures 0.0 < SquaredShares(h, k as real) <= 1.0
    ensures SquaredShares(h, k as real) == 1.0 <==> |h| == 1
  {
    var n := k as real;
    var s := SumSq(h);
    SumSqBounds(h);
    assert 1 <= s <= k * k;
    assert s == k * k <==> |h| == 1;
    RealSquare(k);
    var m := n * n;
    assert 1.0 <= s as real <= m;
    assert s as real == m <==> |h| == 1;
    SquaredSharesScaled(h, n);
    ScaledBounds(SquaredShares(h, n), m, s as real);
  }

  /** Squared label shares of a non-empty row set lie in (0, 1], and are 1 exactly for one label. */
  lemma SharesRange(rows: seq<Row>)
    requires rows != []
    ensures 0.0 < SquaredShares(ClassCounts(rows), |rows| as real) <= 1.0
    ensures SquaredShares(ClassCounts(rows), |rows| as real) == 1.0 <==> |ClassCounts(rows)| == 1
  {
    CountsOfRows(rows);
    SharesBounds(ClassCounts(rows), |rows|);
  }

  /** `gini` of a non-empty row set lies in [0, 1). */
  lemma GiniRange(rows: seq<Row>)
    requires rows != []
    ensures 0.0 <= Gini(rows) < 1.0
  {
    SharesRange(rows);
  }

  /** `gini` of a non-empty row set is 0 exactly when all rows share one label. */
  lemma GiniZeroIffPure(rows: seq<Row>)
    requires rows != []
    ensures Gini(rows) == 0.0 <==> SameLabel(rows)
  {
    SharesRange(rows);
    SingleKeyIffSameLabel(rows);
  }

  /** If `x * m == s` with `0 < s <= m`, then `0 < x <= 1`, and `x == 1` exactly when `s == m`. */
  lemma ScaledBounds(x: real, m: real, s: real)
    requires 0.0 < s <= m && x * m == s
    ensures 0.0 < x <= 1.0
    ensures x == 1.0 <==> s == m
  {
  }

  /**
    A split that leaves one side empty gains nothing: the empty side has
    weight 0 and the other side is the parent itself. So a split with
    non-zero gain has rows on both sides, each strictly fewer than the parent.
   */
  lemma OneSidedSplitNoGain(rows: seq<Row>, q: Question)
    requires rows != [] && Covers(rows, q.feature)
    ensures Partition(rows, q).0 == [] || Partition(rows, q).1 == [] ==> SplitGain(rows, q) == 0.0
    ensures SplitGain(rows, q) != 0.0 ==>
      0 < |Partition(rows, q).0| < |rows| && 0 < |Partition(rows, q).1| < |rows|
  {
    var (t, f) := Partition(rows, q);
    if t == [] {
      assert f == rows;
      InfoGainEmptyLeft(t, f, Gini(rows));
    } else if f == [] {
      assert t == rows;
      InfoGainEmptyRight(t, f, Gini(rows));
    }
  }

  lemma InfoGainEmptyLeft(left: seq<Row>, right: seq<Row>, current: real)
    requires left == [] && right != []
    ensures InfoGain(left, right, current) == current - Gini(right)
  {
    var p := |left| as real / (|left| + |right|) as real;
    assert p == 0.0;
    WeightedBy(current, p, Gini(left), Gini(right));
  }

  lemma InfoGainEmptyRight(left: seq<Row>, right: seq<Row>, current: real)
    requires left != [] && right == []
    ensures InfoGain(left, right, current) == current - Gini(left)
  {
    var n := |left| as real;
    assert (|left| + |right|) as real == n;
    DivSelf(n);
    var p := |left| as real / (|left| + |right|) as real;
    assert p == 1.0;
    WeightedBy(current, p, Gini(left), Gini(right));
  }

  /** Weighting by 1 and 0 keeps one side only. */
  lemma WeightedBy(c: real, p: real, a: real, b: real)
    requires p == 0.0 || p == 1.0
    ensures p == 0.0 ==> c - p * a - (1.0 - p) * b == c - b
    ensures p == 1.0 ==> c - p * a - (1.0 - p) * b == c - a
  {
  }

  lemma DivSelf(x: real)
    requires x > 0.0
    ensures x / x == 1.0
  {
    assert 1.0 * x == x;
  }
}
