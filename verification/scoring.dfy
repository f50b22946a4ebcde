/** Accuracy: the fraction of predictions that equal the expected labels (`Tree.score`, `RandomForest.score`). */
module Scoring {
  import opened Dataset

  /** Number of positions `i < |preds|` where the prediction equals the expected label. */
  function Correct(preds: seq<Label>, ys: seq<Label>): nat
    requires |ys| >= |preds|
  {
    if preds == [] then 0
    else
      var i := |preds| - 1;
      Correct(preds[..i], ys) + if preds[i] == ys[i] then 1 else 0
  }

  /**
    At most every prediction is correct; all are exactly when every position
    agrees, and none are exactly when no position agrees.
   */
  lemma {:induction false} CorrectBounds(preds: seq<Label>, ys: seq<Label>)
    requires |ys| >= |preds|
    ensures Correct(preds, ys) <= |preds|
    ensures Correct(preds, ys) == |preds| <==> forall i | 0 <= i < |preds| :: preds[i] == ys[i]
    ensures Correct(preds, ys) == 0 <==> forall i | 0 <= i < |preds| :: preds[i] != ys[i]
  {
    if preds != [] {
      var n := |preds| - 1;
      var init := preds[..n];
      CorrectBounds(init, ys);
      assert forall i | 0 <= i < n :: init[i] == preds[i];
    }
  }

  /**
    The counting loop of `score`: the number of correct predictions over the
    number of predictions, so it lies in [0, 1], is 1 exactly when
    every prediction is right and 0 exactly when none is. The source divides
    by the number of predictions and indexes the labels by position, so there
    must be at least one prediction and a label for each.
   */
  method Accuracy(preds: seq<Label>, ys: seq<Label>) returns (s: real)
    requires |preds| > 0 && |ys| >= |preds|
    ensures s == Correct(preds, ys) as real / |preds| as real
    ensures 0.0 <= s <= 1.0
    ensures s == 1.0 <==> forall i | 0 <= i < |preds| :: preds[i] == ys[i]
    ensures s == 0.0 <==> forall i | 0 <= i < |preds| :: preds[i] != ys[i]
  {
    var correct := 0;
    for i := 0 to |preds|
      invariant correct == Correct(preds[..i], ys)
    {
      assert preds[..i + 1][..i] == preds[..i];
      if preds[i] == ys[i] {
        correct := correct + 1;
      }
    }
    assert preds[..|preds|] == preds;
    CorrectBounds(preds, ys);
    s := correct as real / |preds| as real;
    Fraction(correct, |preds|);
  }

  /** A count `c` out of `n > 0` gives a fraction in [0, 1] that is 1 only for `c == n` and 0 only for `c == 0`. */
  lemma Fraction(c: nat, n: nat)
    requires 0 < n && c <= n
    ensures 0.0 <= c as real / n as real <= 1.0
    ensures c as real / n as real == 1.0 <==> c == n
    ensures c as real / n as real == 0.0 <==> c == 0
  {
  }
}
