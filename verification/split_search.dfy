/**
  `Tree.find_best_split`: brute-force search over every (column, observed
  value) question for the largest information gain.

  The source walks each column's values through a Python `set`, whose order
  is unspecified. This model fixes the order to columns ascending and, within
  a column, values in order of first appearance. `FindBestSplit`'s contract
  does not depend on that order (the gain is the maximum over all eligible
  candidates); only which of several equally good questions wins does, and
  `FindBestSplitPicksLastMaximal` pins that down: the last one enumerated.
 */
module SplitSearch {
  import opened Wrappers
  import opened Dataset
  import opened Tally
  import opened Partitioning
  import opened Impurity

  /** One question per value, all on column `col`. */
  function ColumnQuestions(col: nat, vals: seq<real>): (qs: seq<Question>)
    ensures forall q :: q in qs <==> q.feature == col && q.value in vals
    ensures |qs| == |vals| && forall i | 0 <= i < |vals| :: qs[i] == Question(col, vals[i])
  {
    var qs := seq(|vals|, i requires 0 <= i < |vals| => Question(col, vals[i]));
    forall q: Question | q.feature == col && q.value in vals ensures q in qs {
      var i :| 0 <= i < |vals| && vals[i] == q.value;
      assert qs[i] == q;
    }
    qs
  }

  /** Candidate questions for columns `col` up to `width`, column by column. */
  function CandidatesFrom(rows: seq<Row>, col: nat, width: nat): (qs: seq<Question>)
    requires HasWidth(rows, width)
    ensures forall q :: q in qs <==>
      col <= q.feature < width && Covers(rows, q.feature) && q.value in Column(rows, q.feature)
    ensures forall i, j | 0 <= i < j < |qs| :: qs[i] != qs[j]
    decreases width - col
  {
    if col >= width then []
    else
      var here := ColumnQuestions(col, Distinct(Column(rows, col)));
      var rest := CandidatesFrom(rows, col + 1, width);
      forall i, j | 0 <= i < j < |here + rest| ensures (here + rest)[i] != (here + rest)[j] {
        if j >= |here| && i < |here| {
          assert (here + rest)[j] in rest;
        }
      }
      here + rest
  }

  /** `q` asks about a feature of the rows and a value observed in that feature's column. */
  predicate IsCandidate(rows: seq<Row>, q: Question) {
    && rows != []
    && q.feature < |rows[0].features|
    && Covers(rows, q.feature)
    && q.value in Column(rows, q.feature)
  }

  /** Every candidate of the search, each exactly once: each feature column and each value seen in it. */
  function Candidates(rows: seq<Row>): (qs: seq<Question>)
    requires rows != [] && Uniform(rows)
    ensures forall q | q in qs :: IsCandidate(rows, q)
    ensures forall q | IsCandidate(rows, q) :: q in qs
    ensures forall i, j | 0 <= i < j < |qs| :: qs[i] != qs[j]
  {
    CandidatesFrom(rows, 0, |rows[0].features|)
  }

  /** Both sides of the split get at least `minRows` rows (the source skips the question otherwise). */
  predicate Eligible(rows: seq<Row>, minRows: real, q: Question)
    requires Covers(rows, q.feature)
  {
    var (t, f) := Partition(rows, q);
    |t| as real >= minRows && |f| as real >= minRows
  }

  /** The search result: the best gain and the question achieving it, if any. */
  datatype Split = Split(gain: real, question: Option<Question>)

  /**
    What the inner loop body makes of one question: `Skipped` when a side
    gets fewer than `minRows` rows (the `continue`), otherwise `Scored` with
    the information gain of the split.
   */
  datatype Assessment =
    | Skipped(question: Question)
    | Scored(question: Question, gain: real)

  /**
    The loop body for question `q`: partition, check both sides against
    `minRows`, and measure the gain against the parent impurity `current`
    computed once before the loop. With the parent's own impurity, a scored
    question carries exactly its split gain, and it is scored exactly when it
    is eligible.
   */
  function Assess(rows: seq<Row>, minRows: real, current: real, q: Question): (a: Assessment)
    requires rows != [] && Covers(rows, q.feature)
    ensures a.question == q
    ensures a.Scored? <==> Eligible(rows, minRows, q)
    ensures a.Scored? && current == Gini(rows) ==> a.gain == SplitGain(rows, q)
  {
    var (t, f) := Partition(rows, q);
    if |t| as real < minRows || |f| as real < minRows then Skipped(q)
    else Scored(q, InfoGain(t, f, current))
  }

  /** The loop body applied to each candidate in enumeration order. */
  function Assessments(rows: seq<Row>, minRows: real, current: real, cands: seq<Question>): (s: seq<Assessment>)
    requires rows != []
    requires forall q | q in cands :: Covers(rows, q.feature)
  {
    seq(|cands|, i requires 0 <= i < |cands| => Assess(rows, minRows, current, cands[i]))
  }

  /**
    The bookkeeping of `find_best_split`'s loop over the remaining
    assessments, starting from the best split so far: a scored question
    replaces the best when its gain is at least the best gain. The result is
    never worse than `best`, is either `best` itself or a scored question with
    its own gain, and no scored question beats it.
   */
  function Scan(steps: seq<Assessment>, best: Split): (r: Split)
    ensures r.gain >= best.gain
    ensures r == best || exists i | 0 <= i < |steps| ::
      steps[i].Scored? && r == Split(steps[i].gain, Some(steps[i].question))
    ensures forall i | 0 <= i < |steps| && steps[i].Scored? :: steps[i].gain <= r.gain
    decreases |steps|
  {
    if steps == [] then best
    else
      var next :=
        match steps[0]
        case Skipped(_) => best
        case Scored(q, g) => if g >= best.gain then Split(g, Some(q)) else best;
      var r := Scan(steps[1..], next);
      assert forall i | 1 <= i < |steps| :: steps[i] == steps[1..][i - 1];
      assert r == next || exists i | 1 <= i < |steps| ::
        steps[i].Scored? && r == Split(steps[i].gain, Some(steps[i].question));
      r
  }

  /**
    `steps` are the assessments of `cands`, one per candidate in order: each
    names its candidate, is scored exactly when the candidate is eligible,
    and then carries the candidate's split gain.
   */
  ghost predicate Reflects(rows: seq<Row>, minRows: real, cands: seq<Question>, steps: seq<Assessment>)
    requires rows != []
    requires forall q | q in cands :: Covers(rows, q.feature)
  {
    && |steps| == |cands|
    && forall i | 0 <= i < |steps| ::
      && steps[i].question == cands[i]
      && (steps[i].Scored? <==> Eligible(rows, minRows, cands[i]))
      && (steps[i].Scored? ==> steps[i].gain == SplitGain(rows, cands[i]))
  }

  /** Assessing every candidate against the parent's own impurity reflects the candidates. */
  lemma AssessmentsReflect(rows: seq<Row>, minRows: real, cands: seq<Question>)
    requires rows != []
    requires forall q | q in cands :: Covers(rows, q.feature)
    ensures Reflects(rows, minRows, cands, Assessments(rows, minRows, Gini(rows), cands))
  {
    var steps := Assessments(rows, minRows, Gini(rows), cands);
    forall i | 0 <= i < |steps|
      ensures steps[i].question == cands[i]
      ensures steps[i].Scored? <==> Eligible(rows, minRows, cands[i])
      ensures steps[i].Scored? ==> steps[i].gain == SplitGain(rows, cands[i])
    {
      assert cands[i] in cands;
      assert steps[i] == Assess(rows, minRows, Gini(rows), cands[i]);
    }
  }

  /**
    `find_best_split`: the returned gain is the largest gain of any eligible
    candidate, or 0 when none is positive; a question is returned with
    exactly that gain, asks about an existing column and a value seen in it,
    and leaves at least `minRows` rows on each side. A non-zero gain always
    comes with a question that puts rows on both sides.
   */
  function FindBestSplit(rows: seq<Row>, minRows: real): (r: Split)
    requires rows != [] && Uniform(rows)
    ensures r.gain >= 0.0
    ensures r.question.None? ==> r.gain == 0.0
    ensures r.question.Some? ==>
      && IsCandidate(rows, r.question.value)
      && Eligible(rows, minRows, r.question.value)
      && SplitGain(rows, r.question.value) == r.gain
    ensures forall q | IsCandidate(rows, q) && Eligible(rows, minRows, q) :: SplitGain(rows, q) <= r.gain
    ensures r.gain != 0.0 ==> (
      && r.question.Some?
      && var (t, f) := Partition(rows, r.question.value);
         0 < |t| < |rows| && 0 < |f| < |rows|)
  {
    var cands := Candidates(rows);
    var steps := Assessments(rows, minRows, Gini(rows), cands);
    AssessmentsReflect(rows, minRows, cands);
    var r := Scan(steps, Split(0.0, None));
    ScanKeepsCandidate(rows, minRows, cands, steps, r);
    ScanBeatsCandidates(rows, minRows, cands, steps, r);
    if r.question.None? then r
    else
      OneSidedSplitNoGain(rows, r.question.value);
      r
  }

  /** The scan result, if it names a question at all, names an eligible candidate and carries its gain. */
  lemma ScanKeepsCandidate(rows: seq<Row>, minRows: real, cands: seq<Question>, steps: seq<Assessment>, r: Split)
    requires rows != []
    requires forall q | q in cands :: Covers(rows, q.feature)
    requires forall q | q in cands :: IsCandidate(rows, q)
    requires Reflects(rows, minRows, cands, steps)
    requires r == Scan(steps, Split(0.0, None))
    ensures r.gain >= 0.0
    ensures r.question.None? ==> r.gain == 0.0
    ensures r.question.Some? ==>
      && IsCandidate(rows, r.question.value)
      && Eligible(rows, minRows, r.question.value)
      && SplitGain(rows, r.question.value) == r.gain
  {
    if r != Split(0.0, None) {
      var i :| 0 <= i < |steps| && steps[i].Scored? && r == Split(steps[i].gain, Some(steps[i].question));
      assert cands[i] in cands;
    }
  }

  /** No eligible candidate has a larger gain than the scan result. */
  lemma ScanBeatsCandidates(rows: seq<Row>, minRows: real, cands: seq<Question>, steps: seq<Assessment>, r: Split)
    requires rows != []
    requires forall q | q in cands :: Covers(rows, q.feature)
    requires forall q | IsCandidate(rows, q) :: q in cands
    requires Reflects(rows, minRows, cands, steps)
    requires r == Scan(steps, Split(0.0, None))
    ensures forall q | IsCandidate(rows, q) && Eligible(rows, minRows, q) :: SplitGain(rows, q) <= r.gain
  {
    forall q | IsCandidate(rows, q) && Eligible(rows, minRows, q) ensures SplitGain(rows, q) <= r.gain {
      var i :| 0 <= i < |cands| && cands[i] == q;
      var step := steps[i];
      assert step.Scored? && step.gain == SplitGain(rows, q);
      assert step.gain <= r.gain;
    }
  }

  /** Scanning a concatenation is scanning the second part from where the first left off. */
  lemma {:induction false} ScanAppend(a: seq<Assessment>, b: seq<Assessment>, best: Split)
    ensures Scan(a + b, best) == Scan(b, Scan(a, best))
  {
    if a == [] {
      assert a + b == b;
    } else {
      assert (a + b)[0] == a[0];
      assert (a + b)[1..] == a[1..] + b;
      var next := Scan([a[0]], best);
      assert [a[0]][1..] == [];
      ScanAppend(a[1..], b, next);
    }
  }

  /**
    Tie-break of the non-strict `>=` update: when assessment `k` is scored,
    no earlier one beats it and every later one is strictly worse, the search
    ends on it — among equally good questions the last one enumerated wins.
   */
  lemma ScanPicksLastMaximal(steps: seq<Assessment>, k: nat, best: Split)
    requires k < |steps| && steps[k].Scored? && steps[k].gain >= best.gain
    requires forall i | 0 <= i < k && steps[i].Scored? :: steps[i].gain <= steps[k].gain
    requires forall i | k < i < |steps| && steps[i].Scored? :: steps[i].gain < steps[k].gain
    ensures Scan(steps, best) == Split(steps[k].gain, Some(steps[k].question))
  {
    var x := steps[k];
    var s := Split(x.gain, Some(x.question));
    var pre, post := steps[..k], steps[k + 1..];
    assert steps == pre + [x] + post;
    ScanAppend(pre + [x], post, best);
    ScanAppend(pre, [x], best);
    assert Scan(pre, best).gain <= x.gain;
    assert [x][1..] == [];
    assert Scan(pre + [x], best) == s;
    assert Scan(post, s) == s;
  }

  /** The tie-break over assessments that reflect a run of candidates `pre + [q] + post`. */
  lemma ReflectedPicksLastMaximal(rows: seq<Row>, minRows: real, steps: seq<Assessment>,
                                  pre: seq<Question>, q: Question, post: seq<Question>)
    requires rows != []
    requires forall p | p in pre + [q] + post :: Covers(rows, p.feature)
    requires Reflects(rows, minRows, pre + [q] + post, steps)
    requires Eligible(rows, minRows, q) && SplitGain(rows, q) >= 0.0
    requires forall p | p in pre && Eligible(rows, minRows, p) :: SplitGain(rows, p) <= SplitGain(rows, q)
    requires forall p | p in post && Eligible(rows, minRows, p) :: SplitGain(rows, p) < SplitGain(rows, q)
    ensures Scan(steps, Split(0.0, None)) == Split(SplitGain(rows, q), Some(q))
  {
    var k := |pre|;
    assert (pre + [q] + post)[k] == q;
    ReflectedBefore(rows, minRows, steps, pre, q, post);
    ReflectedAfter(rows, minRows, steps, pre, q, post);
    ScanPicksLastMaximal(steps, k, Split(0.0, None));
  }

  /** No assessment before `q`'s beats `q`'s gain. */
  lemma ReflectedBefore(rows: seq<Row>, minRows: real, steps: seq<Assessment>,
                        pre: seq<Question>, q: Question, post: seq<Question>)
    requires rows != []
    requires forall p | p in pre + [q] + post :: Covers(rows, p.feature)
    requires Reflects(rows, minRows, pre + [q] + post, steps)
    requires forall p | p in pre && Eligible(rows, minRows, p) :: SplitGain(rows, p) <= SplitGain(rows, q)
    ensures forall i | 0 <= i < |pre| && steps[i].Scored? :: steps[i].gain <= SplitGain(rows, q)
  {
    var cands := pre + [q] + post;
    forall i | 0 <= i < |pre| && steps[i].Scored? ensures steps[i].gain <= SplitGain(rows, q) {
      assert cands[i] == pre[i] && pre[i] in pre;
    }
  }

  /** Every scored assessment after `q`'s has a smaller gain than `q`'s. */
  lemma ReflectedAfter(rows: seq<Row>, minRows: real, steps: seq<Assessment>,
                       pre: seq<Question>, q: Question, post: seq<Question>)
    requires rows != []
    requires forall p | p in pre + [q] + post :: Covers(rows, p.feature)
    requires Reflects(rows, minRows, pre + [q] + post, steps)
    requires forall p | p in post && Eligible(rows, minRows, p) :: SplitGain(rows, p) < SplitGain(rows, q)
    ensures forall i | |pre| < i < |steps| && steps[i].Scored? :: steps[i].gain < SplitGain(rows, q)
  {
    forall i | |pre| < i < |steps| && steps[i].Scored? ensures steps[i].gain < SplitGain(rows, q) {
      IndexAfter(pre, q, post, i);
    }
  }

  /** Position `i` past `q` in `pre + [q] + post` holds an element of `post`. */
  lemma IndexAfter<T>(pre: seq<T>, q: T, post: seq<T>, i: nat)
    requires |pre| < i < |pre + [q] + post|
    ensures (pre + [q] + post)[i] == post[i - |pre| - 1]
    ensures (pre + [q] + post)[i] in post
  {
  }

  /**
    The same tie-break for the whole search: the question chosen is the last
    candidate, in enumeration order, that reaches the best gain.
   */
  lemma FindBestSplitPicksLastMaximal(rows: seq<Row>, minRows: real,
                                      pre: seq<Question>, q: Question, post: seq<Question>)
    requires rows != [] && Uniform(rows)
    requires Candidates(rows) == pre + [q] + post
    requires Eligible(rows, minRows, q) && SplitGain(rows, q) >= 0.0
    requires forall p | p in pre && Eligible(rows, minRows, p) :: SplitGain(rows, p) <= SplitGain(rows, q)
    requires forall p | p in post && Eligible(rows, minRows, p) :: SplitGain(rows, p) < SplitGain(rows, q)
    ensures FindBestSplit(rows, minRows) == Split(SplitGain(rows, q), Some(q))
  {
    var cands := Candidates(rows);
    var steps := Assessments(rows, minRows, Gini(rows), cands);
    AssessmentsReflect(rows, minRows, cands);
    ReflectedPicksLastMaximal(rows, minRows, steps, pre, q, post);
    assert FindBestSplit(rows, minRows) == Scan(steps, Split(0.0, None));
  }
}
