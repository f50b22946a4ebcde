/** Split questions (`Question`) and the stable two-way split of rows (`Tree.partition`). */
module Partitioning {
  import opened Dataset

  /** "Is feature `feature` at least `value`?" */
  datatype Question = Question(feature: nat, value: real)

  /** `Question.match`: the row's feature reaches the threshold (non-strict). */
  predicate Match(q: Question, x: seq<real>)
    requires q.feature < |x|
  {
    x[q.feature] >= q.value
  }

  /**
    `Tree.partition`: the rows answering yes, then the rows answering no, each
    in input order. Every row lands on exactly one side (the multisets add up),
    the yes side holds only matching rows and the no side none, and when one
    side is empty the other is the whole input.
   */
  function Partition(rows: seq<Row>, q: Question): (p: (seq<Row>, seq<Row>))
    requires Covers(rows, q.feature)
    ensures |p.0| + |p.1| == |rows|
    ensures multiset(p.0) + multiset(p.1) == multiset(rows)
    ensures forall r | r in p.0 :: r in rows && Match(q, r.features)
    ensures forall r | r in p.1 :: r in rows && !Match(q, r.features)
    ensures p.0 == [] ==> p.1 == rows
    ensures p.1 == [] ==> p.0 == rows
  {
    if rows == [] then ([], [])
    else
      var init := rows[..|rows| - 1];
      var r := rows[|rows| - 1];
      assert rows == init + [r];
      var (t, f) := Partition(init, q);
      if Match(q, r.features) then (t + [r], f) else (t, f + [r])
  }

  /** The rows answering yes, in input order (the true side alone). */
  function Yes(rows: seq<Row>, q: Question): seq<Row>
    requires Covers(rows, q.feature)
  {
    if rows == [] then []
    else
      var init := rows[..|rows| - 1];
      var r := rows[|rows| - 1];
      assert forall x | x in init :: x in rows;
      if Match(q, r.features) then Yes(init, q) + [r] else Yes(init, q)
  }

  /** The rows answering no, in input order (the false side alone). */
  function No(rows: seq<Row>, q: Question): seq<Row>
    requires Covers(rows, q.feature)
  {
    if rows == [] then []
    else
      var init := rows[..|rows| - 1];
      var r := rows[|rows| - 1];
      assert forall x | x in init :: x in rows;
      if Match(q, r.features) then No(init, q) else No(init, q) + [r]
  }

  /** The two sides of `partition` are the yes-rows and the no-rows. */
  lemma {:induction false} PartitionSides(rows: seq<Row>, q: Question)
    requires Covers(rows, q.feature)
    ensures Partition(rows, q) == (Yes(rows, q), No(rows, q))
  {
    if rows != [] {
      var init := rows[..|rows| - 1];
      assert forall x | x in init :: x in rows;
      PartitionSides(init, q);
    }
  }

  /** Dropping the last row of a concatenation with a non-empty tail. */
  lemma SplitLast(a: seq<Row>, b: seq<Row>)
    requires b != []
    ensures (a + b)[..|a + b| - 1] == a + b[..|b| - 1]
    ensures (a + b)[|a + b| - 1] == b[|b| - 1]
  {
  }

  lemma {:induction false} YesAppend(a: seq<Row>, b: seq<Row>, q: Question)
    requires Covers(a + b, q.feature)
    ensures Covers(a, q.feature) && Covers(b, q.feature)
    ensures Yes(a + b, q) == Yes(a, q) + Yes(b, q)
    decreases |b|
  {
    assert forall x | x in a :: x in a + b;
    assert forall x | x in b :: x in a + b;
    if b == [] {
      assert a + b == a;
    } else {
      var init := b[..|b| - 1];
      var r := b[|b| - 1];
      SplitLast(a, b);
      assert forall x | x in a + init :: x in a + b;
      YesAppend(a, init, q);
      if Match(q, r.features) {
        assert (Yes(a, q) + Yes(init, q)) + [r] == Yes(a, q) + (Yes(init, q) + [r]);
      }
    }
  }

  lemma {:induction false} NoAppend(a: seq<Row>, b: seq<Row>, q: Question)
    requires Covers(a + b, q.feature)
    ensures Covers(a, q.feature) && Covers(b, q.feature)
    ensures No(a + b, q) == No(a, q) + No(b, q)
    decreases |b|
  {
    assert forall x | x in a :: x in a + b;
    assert forall x | x in b :: x in a + b;
    if b == [] {
      assert a + b == a;
    } else {
      var init := b[..|b| - 1];
      var r := b[|b| - 1];
      SplitLast(a, b);
      assert forall x | x in a + init :: x in a + b;
      NoAppend(a, init, q);
      if !Match(q, r.features) {
        assert (No(a, q) + No(init, q)) + [r] == No(a, q) + (No(init, q) + [r]);
      }
    }
  }

  /**
    Stability: partitioning a concatenation is concatenating the partitions,
    so the relative order of rows on each side is their input order.
   */
  lemma PartitionAppend(a: seq<Row>, b: seq<Row>, q: Question)
    requires Covers(a + b, q.feature)
    ensures Covers(a, q.feature) && Covers(b, q.feature)
    ensures Partition(a + b, q) ==
      (Partition(a, q).0 + Partition(b, q).0, Partition(a, q).1 + Partition(b, q).1)
  {
    YesAppend(a, b, q);
    NoAppend(a, b, q);
    PartitionSides(a + b, q);
    PartitionSides(a, q);
    PartitionSides(b, q);
  }

  /** Appending one row extends the side its answer selects. */
  lemma PartitionSnoc(rows: seq<Row>, r: Row, q: Question)
    requires Covers(rows + [r], q.feature)
    ensures Covers(rows, q.feature)
    ensures Partition(rows + [r], q) ==
      if Match(q, r.features) then (Partition(rows, q).0 + [r], Partition(rows, q).1)
      else (Partition(rows, q).0, Partition(rows, q).1 + [r])
  {
    assert forall x | x in rows :: x in rows + [r];
    assert (rows + [r])[..|rows + [r]| - 1] == rows;
  }

  /** A single row goes to the side its answer selects. */
  lemma PartitionSingle(r: Row, q: Question)
    requires q.feature < |r.features|
    ensures Partition([r], q) == (if Match(q, r.features) then ([r], []) else ([], [r]))
  {
    assert [r][..0] == [];
  }
}
