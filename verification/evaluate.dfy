/**
  The classifier side of hashing.cpp that is not floating point: a sample,
  `predict` as a threshold on the model's probability, and the confusion
  matrix `evaluate` tallies. The probability itself (the sigmoid of the dot
  product of the weights with the features) is a parameter: the weights and
  the training that sets them are not part of this model.
*/
module Classifier {
  /** A labelled text: its feature vector (the bucket counts) and its label,
      0 for ham and 1 for spam. The label is called `category` because `label`
      is a Dafny keyword; it is a `short int` and may hold any value. */
  datatype Sample = Sample(features: seq<nat>, category: int)

  /** The probability from which `predict` answers 1. */
  const Threshold: real := 0.53

  /** `predict`, given the probability `sigmoid(dot_product(weights, feats))`:
      the class is spam exactly when the probability reaches the threshold. */
  function Predict(p: real): (r: int)
    ensures r == 0 || r == 1
    ensures r == 1 <==> p >= Threshold
  {
    if p >= Threshold then 1 else 0
  }

  /** A higher probability never predicts a lower class. */
  lemma PredictMonotone(p: real, q: real)
    requires p <= q
    ensures Predict(p) <= Predict(q)
  {
    if Predict(p) == 1 {
      assert q >= Threshold;
    }
  }

  /** The number of samples of data with the given label for which the
      prediction is `predicted`. */
  function Count(data: seq<Sample>, prob: seq<nat> -> real, category: int, predicted: int): nat
  {
    if data == [] then 0
    else
      var s := data[|data| - 1];
      Count(data[..|data| - 1], prob, category, predicted)
        + (if s.category == category && Predict(prob(s.features)) == predicted then 1 else 0)
  }

  /** The sample has the given label and the given prediction. */
  predicate InCell(s: Sample, prob: seq<nat> -> real, category: int, predicted: int)
  {
    s.category == category && Predict(prob(s.features)) == predicted
  }

  /** The confusion matrix: true positives, true negatives, false positives
      and false negatives, spam being the positive class. */
  function Metrics(data: seq<Sample>, prob: seq<nat> -> real): (m: seq<nat>)
    ensures |m| == 4
  {
    [Count(data, prob, 1, 1), Count(data, prob, 0, 0), Count(data, prob, 0, 1), Count(data, prob, 1, 0)]
  }

  function Total(m: seq<nat>): nat
    requires |m| == 4
  {
    m[0] + m[1] + m[2] + m[3]
  }

  /** The samples labelled 0 or 1. */
  function Labelled(data: seq<Sample>): nat
  {
    if data == [] then 0
    else
      var s := data[|data| - 1];
      Labelled(data[..|data| - 1]) + (if s.category == 0 || s.category == 1 then 1 else 0)
  }

  /** A cell of the matrix is the number of indices of samples with its
      label and its prediction. */
  lemma {:induction false} CountIsCell(data: seq<Sample>, prob: seq<nat> -> real, category: int, predicted: int)
    ensures Count(data, prob, category, predicted)
      == |set i | 0 <= i < |data| && InCell(data[i], prob, category, predicted)|
    decreases |data|
  {
    var cell := set i | 0 <= i < |data| && InCell(data[i], prob, category, predicted);
    if data == [] {
      assert cell == {};
    } else {
      var init := data[..|data| - 1];
      CountIsCell(init, prob, category, predicted);
      var cell' := set i | 0 <= i < |init| && InCell(init[i], prob, category, predicted);
      if InCell(data[|data| - 1], prob, category, predicted) {
        assert cell == cell' + {|data| - 1};
      } else {
        assert cell == cell';
      }
    }
  }

  /** Labelled counts the indices of samples labelled 0 or 1. */
  lemma {:induction false} LabelledIsSize(data: seq<Sample>)
    ensures Labelled(data) == |set i | 0 <= i < |data| && (data[i].category == 0 || data[i].category == 1)|
    decreases |data|
  {
    var labelled := set i | 0 <= i < |data| && (data[i].category == 0 || data[i].category == 1);
    if data == [] {
      assert labelled == {};
    } else {
      var init := data[..|data| - 1];
      var s := data[|data| - 1];
      LabelledIsSize(init);
      var labelled' := set i | 0 <= i < |init| && (init[i].category == 0 || init[i].category == 1);
      if s.category == 0 || s.category == 1 {
        assert labelled == labelled' + {|data| - 1};
      } else {
        assert labelled == labelled';
      }
    }
  }

  /** Every sample labelled 0 or 1 lands in exactly one cell of the matrix and
      every other sample in none: the cells add up to the labelled samples,
      so to all of them when every label is 0 or 1. */
  lemma {:induction false} MetricsCover(data: seq<Sample>, prob: seq<nat> -> real)
    ensures Total(Metrics(data, prob)) == Labelled(data)
    ensures (forall i | 0 <= i < |data| :: data[i].category == 0 || data[i].category == 1) ==>
              Total(Metrics(data, prob)) == |data|
    decreases |data|
  {
    if data != [] {
      var init := data[..|data| - 1];
      MetricsCover(init, prob);
      if forall i | 0 <= i < |data| :: data[i].category == 0 || data[i].category == 1 {
        assert forall i | 0 <= i < |init| :: init[i].category == data[i].category;
      }
    }
  }

  /** The correct predictions are the true positives and the true
      negatives. */
  lemma {:induction false} MetricsCorrect(data: seq<Sample>, prob: seq<nat> -> real)
    ensures var m := Metrics(data, prob);
      m[0] + m[1] == |set i | 0 <= i < |data| && (data[i].category == 0 || data[i].category == 1)
                                               && Predict(prob(data[i].features)) == data[i].category|
    decreases |data|
  {
    var m := Metrics(data, prob);
    var right := set i | 0 <= i < |data| && (data[i].category == 0 || data[i].category == 1)
                                         && Predict(prob(data[i].features)) == data[i].category;
    if data == [] {
      assert right == {};
    } else {
      var init := data[..|data| - 1];
      var s := data[|data| - 1];
      MetricsCorrect(init, prob);
      var right' := set i | 0 <= i < |init| && (init[i].category == 0 || init[i].category == 1)
                                           && Predict(prob(init[i].features)) == init[i].category;
      if (s.category == 0 || s.category == 1) && Predict(prob(s.features)) == s.category {
        assert right == right' + {|data| - 1};
      } else {
        assert right == right';
      }
    }
  }

  /** `evaluate`: one pass over the samples, adding one to the cell of each
      sample's label and prediction. */
  method Evaluate(data: seq<Sample>, prob: seq<nat> -> real) returns (metrics: seq<nat>)
    ensures metrics == Metrics(data, prob)
  {
    metrics := [0, 0, 0, 0];
    for i := 0 to |data|
      invariant metrics == Metrics(data[..i], prob)
    {
      assert data[..i + 1][..i] == data[..i];
      var predicted := Predict(prob(data[i].features));
      var category := data[i].category;
      if category == 1 && predicted == 1 {
        metrics := metrics[0 := metrics[0] + 1];
      } else if category == 0 && predicted == 0 {
        metrics := metrics[1 := metrics[1] + 1];
      } else if category == 0 && predicted == 1 {
        metrics := metrics[2 := metrics[2] + 1];
      } else if category == 1 && predicted == 0 {
        metrics := metrics[3 := metrics[3] + 1];
      }
    }
    assert data[..|data|] == data;
  }
}
