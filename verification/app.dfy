/**
 * The decision rules of the Streamlit dashboard: the risk level, confidence,
 * action priority and recommendation shown for one prediction, the three
 * summary figures of a scored batch, and the best model of the comparison
 * table. Rendering (HTML, charts, widgets) is not modelled.
 */
module Dashboard {
  import opened Wrappers
  import opened Frames
  import Train
  import Predict

  // ---------------------------------------------------------------------------
  // One prediction
  // ---------------------------------------------------------------------------

  /** The three bands every rule of the single-prediction page uses. */
  datatype Band = High | Medium | Low

  /** The band of a churn probability: above 0.7, above 0.4, or the rest. */
  function BandOf(p: real): (b: Band)
    ensures b == High <==> p > 0.7
    ensures b == Medium <==> 0.4 < p <= 0.7
    ensures b == Low <==> p <= 0.4
  {
    if p > 0.7 then High else if p > 0.4 then Medium else Low
  }

  function Rank(b: Band): nat {
    match b
    case Low => 0
    case Medium => 1
    case High => 2
  }

  /** A higher churn probability never lands in a lower band. */
  lemma BandMonotone(p: real, q: real)
    requires p <= q
    ensures Rank(BandOf(p)) <= Rank(BandOf(q))
  {
  }

  /** The "Risk Level" card. */
  function RiskLevel(p: real): (r: string)
    ensures r == "\U{1F534} High Risk" <==> BandOf(p) == High
    ensures r == "\U{1F7E1} Medium Risk" <==> BandOf(p) == Medium
    ensures r == "\U{1F7E2} Low Risk" <==> BandOf(p) == Low
  {
    if p > 0.7 then "\U{1F534} High Risk"
    else if p > 0.4 then "\U{1F7E1} Medium Risk"
    else "\U{1F7E2} Low Risk"
  }

  /** The "Action Priority" card. */
  function ActionPriority(p: real): (r: string)
    ensures r == "\U{1F6A8} Urgent" <==> BandOf(p) == High
    ensures r == "\U{26A0}\U{FE0F} Monitor" <==> BandOf(p) == Medium
    ensures r == "\U{2705} Stable" <==> BandOf(p) == Low
  {
    if p > 0.7 then "\U{1F6A8} Urgent"
    else if p > 0.4 then "\U{26A0}\U{FE0F} Monitor"
    else "\U{2705} Stable"
  }

  /** The headline of the "Recommended Actions" panel. */
  function Recommendation(p: real): (r: string)
    ensures r == "\U{1F6A8} High Churn Risk - Immediate Action Required!" <==> BandOf(p) == High
    ensures r == "\U{26A0}\U{FE0F} Medium Churn Risk - Proactive Monitoring" <==> BandOf(p) == Medium
    ensures r == "\U{2705} Low Churn Risk - Customer Satisfaction Focus" <==> BandOf(p) == Low
  {
    if p > 0.7 then "\U{1F6A8} High Churn Risk - Immediate Action Required!"
    else if p > 0.4 then "\U{26A0}\U{FE0F} Medium Churn Risk - Proactive Monitoring"
    else "\U{2705} Low Churn Risk - Customer Satisfaction Focus"
  }

  /** The three cards never disagree: high risk, urgent action and the immediate-action panel go together. */
  lemma CardsAgree(p: real)
    ensures RiskLevel(p) == "\U{1F534} High Risk" <==> ActionPriority(p) == "\U{1F6A8} Urgent"
    ensures ActionPriority(p) == "\U{1F6A8} Urgent" <==>
            Recommendation(p) == "\U{1F6A8} High Churn Risk - Immediate Action Required!"
    ensures RiskLevel(p) == "\U{1F7E2} Low Risk" <==> ActionPriority(p) == "\U{2705} Stable"
    ensures ActionPriority(p) == "\U{2705} Stable" <==>
            Recommendation(p) == "\U{2705} Low Churn Risk - Customer Satisfaction Focus"
  {
  }

  /** The "Confidence" card: the distance of the churn probability from 0.5, as a percentage. */
  function Confidence(p: real): (r: real)
    ensures r >= 0.0
    ensures r == 0.0 <==> p == 0.5
  {
    Predict.Abs(p - 0.5) * 200.0
  }

  /**
   * For a probability the confidence is a percentage; it is 100 exactly at
   * the certain answers, and it does not depend on which class is named.
   */
  lemma ConfidenceRange(p: real)
    requires 0.0 <= p <= 1.0
    ensures 0.0 <= Confidence(p) <= 100.0
    ensures Confidence(p) == 100.0 <==> p == 0.0 || p == 1.0
    ensures Confidence(p) == Confidence(1.0 - p)
  {
  }

  /** A high-risk prediction always comes with a confidence above 40%. */
  lemma HighRiskIsConfident(p: real)
    requires BandOf(p) == High
    ensures Confidence(p) > 40.0
  {
  }

  // ---------------------------------------------------------------------------
  // Batch summary
  // ---------------------------------------------------------------------------

  /** `(predictions == 'Churn').sum()`. */
  function ChurnCount(labels: seq<Value>): (r: nat)
    ensures r <= |labels|
    ensures r == 0 <==> Text("Churn") !in labels
  {
    if |labels| == 0 then 0
    else
      assert labels == [labels[0]] + labels[1..];
      (if labels[0] == Text("Churn") then 1 else 0) + ChurnCount(labels[1..])
  }

  /** The count is the number of occurrences of the label. */
  lemma {:induction false} ChurnCountIsMultiplicity(labels: seq<Value>)
    ensures ChurnCount(labels) == multiset(labels)[Text("Churn")]
  {
    if |labels| > 0 {
      assert labels == [labels[0]] + labels[1..];
      ChurnCountIsMultiplicity(labels[1..]);
    }
  }

  /**
   * `(predictions == 'Churn').mean() * 100`: a percentage of the rows; the mean
   * of an empty column is NaN, here None.
   */
  function ChurnRate(labels: seq<Value>): (r: Option<real>)
    ensures r.None? <==> |labels| == 0
    ensures r.Some? ==> 0.0 <= r.value <= 100.0
    ensures r.Some? ==> (r.value == 0.0 <==> Text("Churn") !in labels)
    ensures r.Some? ==> (r.value == 100.0 <==> ChurnCount(labels) == |labels|)
  {
    if |labels| == 0 then None
    else
      PercentOf(ChurnCount(labels), |labels|);
      Some(ChurnCount(labels) as real * 100.0 / |labels| as real)
  }

  /** `c` out of `n` as a percentage: 0 exactly for none and 100 exactly for all. */
  lemma PercentOf(c: nat, n: nat)
    requires c <= n && n > 0
    ensures var r := c as real * 100.0 / n as real;
      0.0 <= r <= 100.0 && (r == 0.0 <==> c == 0) && (r == 100.0 <==> c == n)
  {
    var r := c as real * 100.0 / n as real;
    assert r * n as real == c as real * 100.0;
  }

  function Sum(xs: seq<real>): real {
    if |xs| == 0 then 0.0 else xs[0] + Sum(xs[1..])
  }

  /** A sum of probabilities lies between 0 and the number of terms. */
  lemma {:induction false} SumBounds(xs: seq<real>)
    requires forall i :: 0 <= i < |xs| ==> 0.0 <= xs[i] <= 1.0
    ensures 0.0 <= Sum(xs) <= |xs| as real
  {
    if |xs| > 0 {
      assert forall i :: 0 <= i < |xs[1..]| ==> xs[1..][i] == xs[i + 1];
      SumBounds(xs[1..]);
    }
  }

  /** `probabilities.mean() * 100`; None for an empty column. */
  function AvgProb(probs: seq<real>): (r: Option<real>)
    ensures r.None? <==> |probs| == 0
  {
    if |probs| == 0 then None else Some(Sum(probs) / |probs| as real * 100.0)
  }

  /** The average churn probability of a batch is a percentage. */
  lemma AvgProbRange(probs: seq<real>)
    requires forall i :: 0 <= i < |probs| ==> 0.0 <= probs[i] <= 1.0
    ensures AvgProb(probs).Some? ==> 0.0 <= AvgProb(probs).value <= 100.0
  {
    SumBounds(probs);
  }

  /** How many rows the classifier puts in class 1. */
  function ClassOneCount(model: Predict.Classifier, rows: seq<Row>): (r: nat)
    ensures r <= |rows|
  {
    if |rows| == 0 then 0
    else (if model.predict(rows[0]) == 1 then 1 else 0) + ClassOneCount(model, rows[1..])
  }

  lemma {:induction false} CountLabels(model: Predict.Classifier, labels: seq<Value>, rows: seq<Row>)
    requires |labels| == |rows|
    requires forall i :: 0 <= i < |rows| ==> labels[i] == Text(Predict.LabelOf(model.predict(rows[i])))
    ensures ChurnCount(labels) == ClassOneCount(model, rows)
  {
    if |rows| > 0 {
      assert labels[0] == Text("Churn") <==> model.predict(rows[0]) == 1;
      CountLabels(model, labels[1..], rows[1..]);
    }
  }

  /**
   * On a scored batch the "Predicted Churns" figure is the number of rows the
   * classifier puts in class 1.
   */
  lemma BatchChurnCount(model: Predict.Classifier, t: Table)
    ensures ChurnCount(ColumnValues(Predict.WithPredictions(model, t), "Churn_Prediction")) ==
            ClassOneCount(model, t.rows)
  {
    var labels := ColumnValues(Predict.WithPredictions(model, t), "Churn_Prediction");
    forall i | 0 <= i < |t.rows| ensures labels[i] == Text(Predict.LabelOf(model.predict(t.rows[i]))) {
      Predict.BatchAgreesWithSingle(model, t, i);
    }
    CountLabels(model, labels, t.rows);
  }

  /**
   * On a scored batch the "Avg Churn Probability" figure averages the
   * classifier's class-1 probabilities, and it is a percentage when those are
   * probabilities.
   */
  lemma BatchAverage(model: Predict.Classifier, t: Table, probs: seq<real>)
    requires |probs| == |t.rows|
    requires forall i :: 0 <= i < |t.rows| ==>
               ColumnValues(Predict.WithPredictions(model, t), "Churn_Probability")[i] == Num(probs[i])
    requires forall r :: 0.0 <= model.proba(r).churn <= 1.0
    ensures forall i :: 0 <= i < |probs| ==> probs[i] == model.proba(t.rows[i]).churn
    ensures AvgProb(probs).Some? ==> 0.0 <= AvgProb(probs).value <= 100.0
  {
    forall i | 0 <= i < |probs| ensures probs[i] == model.proba(t.rows[i]).churn {
      Predict.BatchAgreesWithSingle(model, t, i);
    }
    AvgProbRange(probs);
  }

  // ---------------------------------------------------------------------------
  // Model comparison
  // ---------------------------------------------------------------------------

  /** The "F1-Score" column of the comparison table, one row per results entry in dict order. */
  function F1Scores<F>(results: seq<Train.Entry<F>>): (r: seq<real>)
    ensures |r| == |results|
    ensures forall i :: 0 <= i < |results| ==> r[i] == results[i].metrics.f1
  {
    seq(|results|, i requires 0 <= i < |results| => results[i].metrics.f1)
  }

  /** `Series.idxmax()`: the first position of the largest value; None (a raise) when empty. */
  function IdxMax(xs: seq<real>): (r: Option<nat>)
    ensures r.None? <==> |xs| == 0
    ensures r.Some? ==> r.value < |xs|
    ensures r.Some? ==> forall j :: 0 <= j < |xs| ==> xs[j] <= xs[r.value]
    ensures r.Some? ==> forall j :: 0 <= j < r.value ==> xs[j] < xs[r.value]
  {
    if |xs| == 0 then None
    else if |xs| == 1 then Some(0)
    else
      var k := IdxMax(xs[1..]).value + 1;
      assert forall j :: 1 <= j < |xs| ==> xs[j] == xs[1..][j - 1];
      if xs[0] >= xs[k] then Some(0) else Some(k)
  }

  /**
   * The dashboard's best model is the one training selects: position `k` is
   * `idxmax` of the F1 column exactly when it is the first maximum by F1.
   */
  lemma BestModelAgrees<F>(results: seq<Train.Entry<F>>, k: nat)
    ensures IdxMax(F1Scores(results)) == Some(k) <==> Train.IsFirstMax(results, k)
  {
    var xs := F1Scores(results);
    if Train.IsFirstMax(results, k) {
      var m := IdxMax(xs).value;
      assert xs[m] == xs[k];
    }
  }
}
