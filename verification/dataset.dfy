/**
  A training set: each row is a numeric feature vector followed by its class
  label (the source appends the label as the last column of a merged matrix).
 */
module Dataset {

  /** Class labels. The source stores them in float arrays but only ever
      compares them for equality and order, so integers are used here. */
  type Label = int

  datatype Row = Row(features: seq<real>, target: Label)

  /** Every row has a feature in column `col`. */
  predicate Covers(rows: seq<Row>, col: nat) {
    forall r | r in rows :: col < |r.features|
  }

  /** Every row has exactly `width` features. */
  predicate HasWidth(rows: seq<Row>, width: nat) {
    forall r | r in rows :: |r.features| == width
  }

  /** The rows form a rectangular matrix (the shape of a numpy 2-d array). */
  predicate Uniform(rows: seq<Row>) {
    rows == [] || HasWidth(rows, |rows[0].features|)
  }

  /** The label column. */
  function Labels(rows: seq<Row>): (ls: seq<Label>)
    ensures |ls| == |rows|
    ensures forall i :: 0 <= i < |rows| ==> ls[i] == rows[i].target
  {
    seq(|rows|, i requires 0 <= i < |rows| => rows[i].target)
  }

  /** Column `col` of the feature matrix. */
  function Column(rows: seq<Row>, col: nat): (vs: seq<real>)
    requires Covers(rows, col)
    ensures |vs| == |rows|
    ensures forall i :: 0 <= i < |rows| ==> vs[i] == rows[i].features[col]
  {
    seq(|rows|, i requires 0 <= i < |rows| => rows[i].features[col])
  }

  /** All rows carry the same label. */
  predicate SameLabel(rows: seq<Row>) {
    forall i, j :: 0 <= i < |rows| && 0 <= j < |rows| ==> rows[i].target == rows[j].target
  }
}
