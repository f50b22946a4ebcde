/**
  Label histograms (`class_counts`) and the first-maximum scan shared by a
  leaf's `top_pick` and the forest's vote count.
 */
module Tally {
  import opened Dataset

  /** Number of occurrences of `l` in `s`. */
  function Occ(s: seq<Label>, l: Label): nat
  {
    if s == [] then 0 else Occ(s[..|s| - 1], l) + (if s[|s| - 1] == l then 1 else 0)
  }

  lemma {:induction false} OccPositive(s: seq<Label>, l: Label)
    ensures Occ(s, l) > 0 <==> l in s
  {
    if s != [] {
      OccPositive(s[..|s| - 1], l);
      assert s == s[..|s| - 1] + [s[|s| - 1]];
    }
  }

  lemma {:induction false} OccAppend(s: seq<Label>, x: Label, l: Label)
    ensures Occ(s + [x], l) == Occ(s, l) + (if x == l then 1 else 0)
  {
    assert (s + [x])[..|s + [x]| - 1] == s;
  }

  /**
    The distinct elements of `vs`, each once, in order of first appearance:
    the keys of a Python dict filled from `vs`, or the values of a Python set
    enumerated in that order.
   */
  function Distinct<T(==, !new)>(vs: seq<T>): (d: seq<T>)
    ensures forall v :: v in d <==> v in vs
    ensures forall i, j :: 0 <= i < j < |d| ==> d[i] != d[j]
  {
    if vs == [] then []
    else
      var v := vs[|vs| - 1];
      assert vs == vs[..|vs| - 1] + [v];
      var d := Distinct(vs[..|vs| - 1]);
      if v in d then d else d + [v]
  }

  /** One dictionary entry: a label and how many rows carry it. */
  datatype Bin = Bin(key: Label, count: nat)

  /** A dictionary label -> count, kept in insertion order (as Python dicts are). */
  type Histogram = seq<Bin>

  function Keys(h: Histogram): (ks: seq<Label>)
    ensures |ks| == |h|
    ensures forall i :: 0 <= i < |h| ==> ks[i] == h[i].key
  {
    seq(|h|, i requires 0 <= i < |h| => h[i].key)
  }

  function Counts(h: Histogram): (cs: seq<nat>)
    ensures |cs| == |h|
    ensures forall i :: 0 <= i < |h| ==> cs[i] == h[i].count
  {
    seq(|h|, i requires 0 <= i < |h| => h[i].count)
  }

  /** Sum of all counts. */
  function Total(h: Histogram): nat
  {
    if h == [] then 0 else h[0].count + Total(h[1..])
  }

  /** No label appears twice (dictionary keys are unique). */
  predicate DistinctKeys(h: Histogram) {
    forall i, j :: 0 <= i < j < |h| ==> h[i].key != h[j].key
  }

  /**
    `counts[label] += 1`, inserting the label with count 1 when it is absent:
    the entry for `l` grows by one, every other entry keeps its count and
    position, and a new label goes to the end.
   */
  function Bump(h: Histogram, l: Label): (r: Histogram)
    requires DistinctKeys(h)
    ensures |r| == (if l in Keys(h) then |h| else |h| + 1)
    ensures forall i :: 0 <= i < |h| ==>
      r[i] == Bin(h[i].key, h[i].count + (if h[i].key == l then 1 else 0))
    ensures l !in Keys(h) ==> r[|h|] == Bin(l, 1)
    ensures Total(r) == Total(h) + 1
  {
    if h == [] then [Bin(l, 1)]
    else if h[0].key == l then
      assert forall i :: 1 <= i < |h| ==> h[i].key != l;
      assert l in Keys(h);
      [Bin(l, h[0].count + 1)] + h[1..]
    else
      assert Keys(h[1..]) == Keys(h)[1..];
      var r := [h[0]] + Bump(h[1..], l);
      assert r[1..] == Bump(h[1..], l);
      r
  }

  /** What `Tally` promises about the histogram `h` of `s`. */
  ghost predicate Histogrammed(h: Histogram, s: seq<Label>) {
    && DistinctKeys(h)
    && (forall l :: l in Keys(h) <==> l in s)
    && (forall i :: 0 <= i < |h| ==> h[i].count == Occ(s, h[i].key) && h[i].count >= 1)
    && Total(h) == |s|
  }

  /** The keys stay as they are when `x` is one of them, and otherwise `x` is appended. */
  lemma BumpKeySeq(h: Histogram, x: Label)
    requires DistinctKeys(h)
    ensures x in Keys(h) ==> Keys(Bump(h, x)) == Keys(h)
    ensures x !in Keys(h) ==> Keys(Bump(h, x)) == Keys(h) + [x]
  {
    var r := Bump(h, x);
    if x in Keys(h) {
      assert Keys(r) == Keys(h);
    } else {
      assert Keys(r) == Keys(h) + [x];
    }
  }

  /** Bumping adds `x` to the key set and nothing else. */
  lemma BumpKeys(h: Histogram, x: Label)
    requires DistinctKeys(h)
    ensures forall l :: l in Keys(Bump(h, x)) <==> l in Keys(h) || l == x
  {
    BumpKeySeq(h, x);
    var kh := Keys(h);
    assert forall l :: l in kh + [x] <==> l in kh || l == x;
  }

  /** Bumping keeps the keys unique. */
  lemma BumpDistinct(h: Histogram, x: Label)
    requires DistinctKeys(h)
    ensures DistinctKeys(Bump(h, x))
  {
    var r := Bump(h, x);
    forall i, j | 0 <= i < j < |r| ensures r[i].key != r[j].key {
      if j == |h| {
        assert x !in Keys(h);
        assert Keys(h)[i] == h[i].key;
      }
    }
  }

  /** One step of the `class_counts` loop keeps the histogram faithful. */
  lemma BumpKeepsHistogram(h: Histogram, s: seq<Label>, x: Label)
    requires Histogrammed(h, s)
    ensures Histogrammed(Bump(h, x), s + [x])
  {
    BumpDistinct(h, x);
    BumpKeysMatch(h, s, x);
    BumpCounts(h, s, x);
  }

  /** After a step, the keys are exactly the labels read so far. */
  lemma BumpKeysMatch(h: Histogram, s: seq<Label>, x: Label)
    requires Histogrammed(h, s)
    ensures forall l :: l in Keys(Bump(h, x)) <==> l in s + [x]
  {
    BumpKeys(h, x);
    forall l ensures l in s + [x] <==> l in s || l == x {
      assert l in s + [x] <==> l in s || l == x;
    }
  }

  /** After a step, every count is the number of occurrences of its key in the longer sequence. */
  lemma BumpCounts(h: Histogram, s: seq<Label>, x: Label)
    requires Histogrammed(h, s)
    ensures forall i :: 0 <= i < |Bump(h, x)| ==>
      Bump(h, x)[i].count == Occ(s + [x], Bump(h, x)[i].key) && Bump(h, x)[i].count >= 1
  {
    var r := Bump(h, x);
    forall i | 0 <= i < |r| ensures r[i].count == Occ(s + [x], r[i].key) && r[i].count >= 1 {
      OccAppend(s, x, r[i].key);
      if i == |h| {
        OccPositive(s, x);
      }
    }
  }

  /**
    The histogram of a label sequence, built left to right as `class_counts`
    does: its keys are exactly the labels present, each once, each with its
    number of occurrences, and the counts add up to the number of labels.
   */
  function Tally(s: seq<Label>): (h: Histogram)
    ensures Histogrammed(h, s)
  {
    if s == [] then []
    else
      var p := s[..|s| - 1];
      assert s == p + [s[|s| - 1]];
      BumpKeepsHistogram(Tally(p), p, s[|s| - 1]);
      Bump(Tally(p), s[|s| - 1])
  }

  /**
    Dictionary order over the whole loop: the keys of the histogram are the
    labels in order of first appearance.
   */
  lemma {:induction false} TallyKeysInOrder(s: seq<Label>)
    ensures Keys(Tally(s)) == Distinct(s)
  {
    if s != [] {
      var p := s[..|s| - 1];
      var x := s[|s| - 1];
      TallyKeysInOrder(p);
      BumpKeySeq(Tally(p), x);
      assert x in Keys(Tally(p)) <==> x in p;
    }
  }

  /** `class_counts(rows)`: the label histogram of a set of rows. */
  function ClassCounts(rows: seq<Row>): Histogram
  {
    Tally(Labels(rows))
  }

  /** Index `i` holds a maximal count and every earlier count is strictly smaller. */
  predicate FirstMaximal(c: seq<nat>, i: nat) {
    && i < |c|
    && (forall j :: 0 <= j < |c| ==> c[j] <= c[i])
    && (forall j :: 0 <= j < i ==> c[j] < c[i])
  }

  /**
    The scan of `top_pick` and of the forest vote: start from index 0 with a
    best count of 0 and move only on a strictly larger count. The result is
    the first position of the maximum.
   */
  function FirstMax(c: seq<nat>): (i: nat)
    ensures c == [] ==> i == 0
    ensures c != [] ==> FirstMaximal(c, i)
  {
    if |c| <= 1 then 0
    else
      var j := FirstMax(c[..|c| - 1]);
      if c[|c| - 1] > c[j] then |c| - 1 else j
  }

  /**
    `top_pick`: the label of the first entry (in insertion order) with the
    largest count; 0, the source's initial `best_class`, when no count is
    positive.
   */
  function TopPick(h: Histogram): (l: Label)
    ensures (exists i :: 0 <= i < |h| && h[i].count > 0) ==>
      exists i: nat :: FirstMaximal(Counts(h), i) && h[i].key == l
    ensures (forall i :: 0 <= i < |h| ==> h[i].count == 0) ==> l == 0
  {
    var i := FirstMax(Counts(h));
    if h != [] && h[i].count > 0 then h[i].key else 0
  }
}
