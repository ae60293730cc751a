/**
 * Prediction wrapping: labelling one customer, scoring a whole table, building
 * the one-row table for a form-entered customer, ranking feature importances
 * and dropping the target before scoring. The fitted pipeline is a foreign
 * object; it enters as a deterministic per-row `Classifier`.
 */
module Predict {
  import opened Wrappers
  import opened Frames
  import opened Numbers
  import Features

  /** `predict_proba` of one row: the probabilities of class 0 and of class 1. */
  datatype Proba = Proba(noChurn: real, churn: real)

  /** A fitted pipeline as seen by the wrappers: the class and the probabilities it gives a row. */
  datatype Classifier = Classifier(predict: Row -> int, proba: Row -> Proba)

  /** Class 1 is churn; every other class reads as no churn. */
  function LabelOf(cls: int): (r: string)
    ensures r == "Churn" <==> cls == 1
    ensures r == "No Churn" <==> cls != 1
  {
    if cls == 1 then "Churn" else "No Churn"
  }

  datatype Prediction = Prediction(prediction: string, predictionLabel: int, churnProbability: real, noChurnProbability: real)

  /**
   * `predict_single`: the first row of the customer table is scored. The label
   * is "Churn" exactly when the class is 1, the code is the class itself, the
   * churn probability is the second probability and the no-churn one the first.
   * A table without rows makes the classifier raise.
   */
  function PredictSingle(model: Classifier, customer: Table): (r: Result<Prediction, Error>)
    ensures r.Failure? <==> |customer.rows| == 0
    ensures r.Failure? ==> r.error == NoRows
    ensures r.Success? ==> (r.value.prediction == "Churn" <==> r.value.predictionLabel == 1)
    ensures r.Success? ==> r.value.predictionLabel == model.predict(customer.rows[0])
    ensures r.Success? ==> r.value.churnProbability == model.proba(customer.rows[0]).churn
    ensures r.Success? ==> r.value.noChurnProbability == model.proba(customer.rows[0]).noChurn
  {
    if |customer.rows| == 0 then Failure(NoRows)
    else
      var row := customer.rows[0];
      var cls := model.predict(row);
      var p := model.proba(row);
      Success(Prediction(LabelOf(cls), cls, p.churn, p.noChurn))
  }

  // ---------------------------------------------------------------------------
  // predict_batch
  // ---------------------------------------------------------------------------

  const PredictionColumn := Column("Churn_Prediction", Object)
  const ProbabilityColumn := Column("Churn_Probability", Numeric)
  const NoChurnColumn := Column("No_Churn_Probability", Numeric)

  function Labels(model: Classifier, t: Table): (r: seq<Value>)
    ensures |r| == |t.rows|
  {
    seq(|t.rows|, i requires 0 <= i < |t.rows| => Text(LabelOf(model.predict(t.rows[i]))))
  }

  function ChurnProbabilities(model: Classifier, t: Table): (r: seq<Value>)
    ensures |r| == |t.rows|
  {
    seq(|t.rows|, i requires 0 <= i < |t.rows| => Num(model.proba(t.rows[i]).churn))
  }

  function NoChurnProbabilities(model: Classifier, t: Table): (r: seq<Value>)
    ensures |r| == |t.rows|
  {
    seq(|t.rows|, i requires 0 <= i < |t.rows| => Num(model.proba(t.rows[i]).noChurn))
  }

  /** The table `predict_batch` returns: the input with the three prediction columns assigned. */
  function WithPredictions(model: Classifier, t: Table): (r: Table)
    ensures |r.rows| == |t.rows|
    ensures WellFormed(t) ==> WellFormed(r)
  {
    var t1 := WithColumn(t, PredictionColumn, Labels(model, t));
    var t2 := WithColumn(t1, ProbabilityColumn, ChurnProbabilities(model, t));
    WithColumn(t2, NoChurnColumn, NoChurnProbabilities(model, t))
  }

  /**
   * `predict_batch`: the classifier scores the input, then a copy of the input
   * receives the label column and the two probability columns. The input
   * frame itself is not changed.
   */
  method PredictBatch(model: Classifier, data: Frame) returns (result: Frame)
    ensures fresh(result)
    ensures result.Snapshot() == WithPredictions(model, data.Snapshot())
  {
    var labels := Labels(model, data.Snapshot());
    var churn := ChurnProbabilities(model, data.Snapshot());
    var noChurn := NoChurnProbabilities(model, data.Snapshot());
    result := data.Copy();
    result.SetColumn(PredictionColumn, labels);
    result.SetColumn(ProbabilityColumn, churn);
    result.SetColumn(NoChurnColumn, noChurn);
  }

  predicate IsPredictionName(k: string) {
    k == "Churn_Prediction" || k == "Churn_Probability" || k == "No_Churn_Probability"
  }

  /** Every cell of the input outside the prediction columns is in the batch output, unchanged. */
  lemma BatchKeepsCells(model: Classifier, t: Table, i: nat, k: string)
    requires i < |t.rows| && k in t.rows[i] && !IsPredictionName(k)
    ensures k in WithPredictions(model, t).rows[i]
    ensures WithPredictions(model, t).rows[i][k] == t.rows[i][k]
  {
    var t1 := WithColumn(t, PredictionColumn, Labels(model, t));
    var t2 := WithColumn(t1, ProbabilityColumn, ChurnProbabilities(model, t));
    assert k in t1.rows[i] && t1.rows[i][k] == t.rows[i][k];
    assert k in t2.rows[i] && t2.rows[i][k] == t.rows[i][k];
  }

  /** The columns of the batch output, as placed by the three assignments. */
  lemma BatchColumnsPlaced(model: Classifier, t: Table)
    ensures WithPredictions(model, t).columns ==
              PlaceColumn(PlaceColumn(PlaceColumn(t.columns, PredictionColumn), ProbabilityColumn), NoChurnColumn)
  {
  }

  /** The three prediction columns are present in the batch output. */
  lemma BatchHasPredictionColumns(model: Classifier, t: Table)
    ensures HasColumn(WithPredictions(model, t), "Churn_Prediction")
    ensures HasColumn(WithPredictions(model, t), "Churn_Probability")
    ensures HasColumn(WithPredictions(model, t), "No_Churn_Probability")
  {
    BatchColumnsPlaced(model, t);
    var c1 := PlaceColumn(t.columns, PredictionColumn);
    var c2 := PlaceColumn(c1, ProbabilityColumn);
    var c3 := PlaceColumn(c2, NoChurnColumn);
    assert "Churn_Prediction" in Names(c2) by { PlacePreserves(c1, ProbabilityColumn, "Churn_Prediction"); }
    PlacePreserves(c2, NoChurnColumn, "Churn_Prediction");
    PlacePreserves(c2, NoChurnColumn, "Churn_Probability");
  }

  /** Outside the prediction columns, the batch output has exactly the input's columns. */
  lemma BatchKeepsColumns(model: Classifier, t: Table, c: Column)
    requires !IsPredictionName(c.name)
    ensures c in WithPredictions(model, t).columns <==> c in t.columns
  {
    BatchColumnsPlaced(model, t);
  }

  lemma SeqAppend3<T>(s: seq<T>, a: T, b: T, c: T)
    ensures s + [a] + [b] + [c] == s + [a, b, c]
  {
  }

  /** When the input has none of the prediction columns, they are appended on the right in this order. */
  lemma BatchAppendsColumns(model: Classifier, t: Table)
    requires !HasColumn(t, "Churn_Prediction") && !HasColumn(t, "Churn_Probability")
    requires !HasColumn(t, "No_Churn_Probability")
    ensures WithPredictions(model, t).columns == t.columns + [PredictionColumn, ProbabilityColumn, NoChurnColumn]
  {
    BatchColumnsPlaced(model, t);
    AppendThree(t.columns, PredictionColumn, ProbabilityColumn, NoChurnColumn);
  }

  /** Three columns under new, distinct names land on the right in assignment order. */
  lemma AppendThree(cols: seq<Column>, a: Column, b: Column, c: Column)
    requires a.name !in Names(cols) && b.name !in Names(cols) && c.name !in Names(cols)
    requires a.name != b.name && a.name != c.name && b.name != c.name
    ensures PlaceColumn(PlaceColumn(PlaceColumn(cols, a), b), c) == cols + [a, b, c]
  {
    PlaceNew(cols, a);
    var c1 := cols + [a];
    assert b.name !in Names(c1) && c.name !in Names(c1);
    PlaceNew(c1, b);
    var c2 := c1 + [b];
    assert c.name !in Names(c2);
    PlaceNew(c2, c);
    SeqAppend3(cols, a, b, c);
  }

  /** Placing a column under a new name appends it, and appends its name. */
  lemma PlaceNew(cols: seq<Column>, col: Column)
    requires col.name !in Names(cols)
    ensures PlaceColumn(cols, col) == cols + [col]
    ensures Names(cols + [col]) == Names(cols) + [col.name]
  {
    NamesAppend(cols, col);
  }

  /**
   * Batch and single agree: the label and probabilities a row gets in the batch
   * are what `predict_single` gives that row on its own.
   */
  lemma BatchAgreesWithSingle(model: Classifier, t: Table, i: nat)
    requires i < |t.rows|
    ensures PredictSingle(model, Features.Single(t, i)).Success?
    ensures var p := PredictSingle(model, Features.Single(t, i)).value;
      var row := WithPredictions(model, t).rows[i];
      "Churn_Prediction" in row && row["Churn_Prediction"] == Text(p.prediction) &&
      "Churn_Probability" in row && row["Churn_Probability"] == Num(p.churnProbability) &&
      "No_Churn_Probability" in row && row["No_Churn_Probability"] == Num(p.noChurnProbability)
  {
    var t1 := WithColumn(t, PredictionColumn, Labels(model, t));
    var t2 := WithColumn(t1, ProbabilityColumn, ChurnProbabilities(model, t));
    assert t1.rows[i]["Churn_Prediction"] == Text(LabelOf(model.predict(t.rows[i])));
    assert t2.rows[i]["Churn_Prediction"] == t1.rows[i]["Churn_Prediction"];
  }

  // ---------------------------------------------------------------------------
  // Target drop and scoring a file's table
  // ---------------------------------------------------------------------------

  /** `drop('Churn', axis=1)` when the engineered table has the target column. */
  function DropTarget(t: Table): (r: Table)
    ensures !HasColumn(r, "Churn")
    ensures |r.rows| == |t.rows|
    ensures forall c :: c in r.columns <==> c in t.columns && c.name != "Churn"
    ensures !HasColumn(t, "Churn") ==> r == t
    ensures HasColumn(t, "Churn") ==> forall i :: 0 <= i < |r.rows| ==> r.rows[i] == t.rows[i] - {"Churn"}
  {
    if HasColumn(t, "Churn") then WithoutColumn(t, "Churn") else t
  }

  /**
   * The pure half of `load_and_predict` (and of the dashboard's batch page):
   * engineer the features, drop the target, score the rest.
   */
  function ScoreTable(model: Classifier, t: Table): (r: Result<Table, Error>)
    ensures r.Success? <==> Features.EngineerFeatures(t).Success?
    ensures r.Success? ==> |r.value.rows| == |t.rows| && !HasColumn(r.value, "Churn")
    ensures r.Success? ==> HasColumn(r.value, "Churn_Prediction")
    ensures r.Success? ==> r.value == WithPredictions(model, DropTarget(Features.EngineerFeatures(t).value))
  {
    var engineered :- Features.EngineerFeatures(t);
    Features.EngineerFeaturesExtends(t);
    var features := DropTarget(engineered);
    BatchHasPredictionColumns(model, features);
    var scored := WithPredictions(model, features);
    assert !HasColumn(scored, "Churn") by {
      var t1 := WithColumn(features, PredictionColumn, Labels(model, features));
      var t2 := WithColumn(t1, ProbabilityColumn, ChurnProbabilities(model, features));
      WithColumnKeepsAbsent(features, PredictionColumn, Labels(model, features), "Churn");
      WithColumnKeepsAbsent(t1, ProbabilityColumn, ChurnProbabilities(model, features), "Churn");
      WithColumnKeepsAbsent(t2, NoChurnColumn, NoChurnProbabilities(model, features), "Churn");
    }
    Success(scored)
  }

  /** Dropping the target commutes with taking one row. */
  lemma DropTargetSingle(e: Table, i: nat)
    requires i < |e.rows|
    ensures DropTarget(Features.Single(e, i)) == Features.Single(DropTarget(e), i)
  {
    assert HasColumn(Features.Single(e, i), "Churn") == HasColumn(e, "Churn");
  }

  /**
   * Scoring a whole file agrees with scoring each customer alone: row `i` of
   * the scored table carries what `predict_single` gives the engineered,
   * target-free record of input row `i` by itself.
   */
  lemma ScoreTableAgreesWithSingle(model: Classifier, t: Table, i: nat)
    requires i < |t.rows| && ScoreTable(model, t).Success?
    ensures Features.EngineerFeatures(Features.Single(t, i)).Success?
    ensures var one := DropTarget(Features.EngineerFeatures(Features.Single(t, i)).value);
      PredictSingle(model, one).Success? &&
      var p := PredictSingle(model, one).value;
      var row := ScoreTable(model, t).value.rows[i];
      "Churn_Prediction" in row && row["Churn_Prediction"] == Text(p.prediction) &&
      "Churn_Probability" in row && row["Churn_Probability"] == Num(p.churnProbability) &&
      "No_Churn_Probability" in row && row["No_Churn_Probability"] == Num(p.noChurnProbability)
  {
    var e := Features.EngineerFeatures(t).value;
    Features.EngineerFeaturesRowwise(t, i);
    DropTargetSingle(e, i);
    BatchAgreesWithSingle(model, DropTarget(e), i);
  }

  // ---------------------------------------------------------------------------
  // prepare_customer_input
  // ---------------------------------------------------------------------------

  /** The record's fields, in the order of the dict literal. */
  const CustomerFields: seq<string> :=
    ["gender", "SeniorCitizen", "Partner", "Dependents", "tenure", "PhoneService", "MultipleLines",
     "InternetService", "OnlineSecurity", "OnlineBackup", "DeviceProtection", "TechSupport",
     "StreamingTV", "StreamingMovies", "Contract", "PaperlessBilling", "PaymentMethod",
     "MonthlyCharges", "TotalCharges"]

  lemma CustomerFieldsDistinct()
    ensures NoDuplicates(CustomerFields)
  {
    forall i, j | 0 <= i < j < |CustomerFields| ensures CustomerFields[i] != CustomerFields[j] {
      var a, b := CustomerFields[i], CustomerFields[j];
      assert |a| != |b| || a[0] != b[0];
    }
  }

  /** The dtype `pd.DataFrame([record])` infers for one value. */
  function KindOf(v: Value): Kind {
    if v.Num? then Numeric else Object
  }

  /** `pd.DataFrame([record])`: one row, one column per field in field order. */
  function RecordTable(names: seq<string>, values: seq<Value>): (r: Table)
    requires |names| == |values| && NoDuplicates(names)
    ensures |r.rows| == 1
    ensures Names(r.columns) == names
    ensures forall i :: 0 <= i < |names| ==> names[i] in r.rows[0] && r.rows[0][names[i]] == values[i]
    ensures WellFormed(r)
  {
    var cols := RecordColumns(names, values);
    var row := RecordRow(names, values);
    Table(cols, [row])
  }

  /** The columns of the one-row frame, typed by their values. */
  function RecordColumns(names: seq<string>, values: seq<Value>): (r: seq<Column>)
    requires |names| == |values| && NoDuplicates(names)
    ensures Names(r) == names && DistinctNames(r)
  {
    var cols := seq(|names|, i requires 0 <= i < |names| => Column(names[i], KindOf(values[i])));
    assert Names(cols) == names;
    cols
  }

  /** The record itself: each field maps to its value, and there is no other key. */
  function RecordRow(names: seq<string>, values: seq<Value>): (r: Row)
    requires |names| == |values| && NoDuplicates(names)
    ensures r.Keys == set n | n in names
    ensures forall i :: 0 <= i < |names| ==> names[i] in r && r[names[i]] == values[i]
  {
    var row := map i | 0 <= i < |names| :: names[i] := values[i];
    assert row.Keys == set n | n in names by {
      forall n | n in names ensures n in row.Keys {
        var i :| 0 <= i < |names| && names[i] == n;
      }
    }
    row
  }

  /** Every field of the record holds the value given for it. */
  ghost predicate HoldsFields(row: Row, values: seq<Value>)
    requires |values| == |CustomerFields|
  {
    forall i :: 0 <= i < |CustomerFields| ==> CustomerFields[i] in row && row[CustomerFields[i]] == values[i]
  }

  lemma CustomerFieldsNotDerived()
    ensures forall i :: 0 <= i < |CustomerFields| ==> CustomerFields[i] !in Features.DerivedNames
  {
  }

  /** What feature engineering keeps of a record table: the fields, and no other column but derived ones. */
  lemma RecordExtended(values: seq<Value>, t: Table, e: Table)
    requires |values| == |CustomerFields| && NoDuplicates(CustomerFields)
    requires t == RecordTable(CustomerFields, values) && Features.Extends(t, e)
    ensures |e.rows| == 1
    ensures HoldsFields(e.rows[0], values)
    ensures forall c :: c in e.columns ==> c.name in CustomerFields || c.name in Features.DerivedNames
  {
    CustomerFieldsNotDerived();
    forall i | 0 <= i < |CustomerFields|
      ensures CustomerFields[i] in e.rows[0] && e.rows[0][CustomerFields[i]] == values[i]
    {
      var k := CustomerFields[i];
      assert k in t.rows[0] && t.rows[0][k] == values[i];
      assert k !in Features.DerivedNames;
    }
    forall c | c in e.columns ensures c.name in CustomerFields || c.name in Features.DerivedNames {
      if c in t.columns {
        ColumnInNames(t.columns, c);
      }
    }
  }

  /**
   * The engineered one-row table for a record of the nineteen fields: each
   * field holds its value, and the only other columns are derived ones.
   */
  function CustomerRecord(values: seq<Value>): (r: Result<Table, Error>)
    requires |values| == |CustomerFields|
    ensures r.Success? ==> |r.value.rows| == 1
    ensures r.Success? ==> HoldsFields(r.value.rows[0], values)
    ensures r.Success? ==> forall c :: c in r.value.columns ==>
              c.name in CustomerFields || c.name in Features.DerivedNames
    ensures r.Success? ==> forall n :: n in Features.DerivedNames ==> HasColumn(r.value, n)
  {
    CustomerFieldsDistinct();
    var t := RecordTable(CustomerFields, values);
    var r := Features.EngineerFeatures(t);
    if r.Success? then
      Features.EngineerFeaturesExtends(t);
      RecordExtended(values, t, r.value);
      RecordHasInputs(values);
      Features.EngineerFeaturesAddsDerived(t);
      r
    else r
  }

  /** `prepare_customer_input`: the nineteen arguments as one engineered record. */
  function PrepareCustomerInput(gender: Value, seniorCitizen: Value, partner: Value, dependents: Value,
                                tenure: Value, phoneService: Value, multipleLines: Value,
                                internetService: Value, onlineSecurity: Value, onlineBackup: Value,
                                deviceProtection: Value, techSupport: Value, streamingTv: Value,
                                streamingMovies: Value, contract: Value, paperlessBilling: Value,
                                paymentMethod: Value, monthlyCharges: Value, totalCharges: Value): (r: Result<Table, Error>)
    ensures r.Success? ==> |r.value.rows| == 1
    ensures r.Success? ==> HoldsFields(r.value.rows[0],
              [gender, seniorCitizen, partner, dependents, tenure, phoneService, multipleLines,
               internetService, onlineSecurity, onlineBackup, deviceProtection, techSupport,
               streamingTv, streamingMovies, contract, paperlessBilling, paymentMethod,
               monthlyCharges, totalCharges])
    ensures r.Success? ==> forall c :: c in r.value.columns ==>
              c.name in CustomerFields || c.name in Features.DerivedNames
    ensures r.Success? ==> forall n :: n in Features.DerivedNames ==> HasColumn(r.value, n)
  {
    CustomerRecord([gender, seniorCitizen, partner, dependents, tenure, phoneService, multipleLines,
                    internetService, onlineSecurity, onlineBackup, deviceProtection, techSupport,
                    streamingTv, streamingMovies, contract, paperlessBilling, paymentMethod,
                    monthlyCharges, totalCharges])
  }

  /** The record has what every derivation step reads: tenure, charges and a service column. */
  lemma RecordHasInputs(values: seq<Value>)
    requires |values| == |CustomerFields| && NoDuplicates(CustomerFields)
    ensures var t := RecordTable(CustomerFields, values);
      HasColumn(t, "tenure") && HasColumn(t, "TotalCharges") && Features.AvailableServices(t) != []
  {
    var t := RecordTable(CustomerFields, values);
    assert Names(t.columns)[4] == "tenure" && Names(t.columns)[18] == "TotalCharges";
    assert Names(t.columns)[5] == "PhoneService";
    assert "PhoneService" in Features.ServiceColumns;
    assert "PhoneService" in Features.AvailableServices(t);
  }

  /** A record whose tenure and charges are numbers meets what feature engineering needs. */
  lemma FormRecordReady(values: seq<Value>)
    requires |values| == |CustomerFields| && NoDuplicates(CustomerFields)
    requires values[4].Num? && values[17].Num? && values[18].Num?
    ensures var t := RecordTable(CustomerFields, values);
      WellFormed(t) && Features.ChargeCellsNumeric(t) &&
      HasColumn(t, "tenure") && HasColumn(t, "MonthlyCharges") &&
      t.rows[0]["tenure"] == values[4]
  {
    var t := RecordTable(CustomerFields, values);
    var row := t.rows[0];
    assert CustomerFields[4] == "tenure" && CustomerFields[17] == "MonthlyCharges" && CustomerFields[18] == "TotalCharges";
    assert row["tenure"] == values[4] && row["MonthlyCharges"] == values[17] && row["TotalCharges"] == values[18];
    assert HasColumn(t, "tenure") && HasColumn(t, "MonthlyCharges") by {
      assert Names(t.columns)[4] == "tenure" && Names(t.columns)[17] == "MonthlyCharges";
    }
    forall i, k | 0 <= i < |t.rows| && k in {"tenure", "TotalCharges", "MonthlyCharges"} && k in t.rows[i]
      ensures !t.rows[i][k].Text?
    {
      assert i == 0;
    }
  }

  /**
   * A record from the dashboard form (tenure a number in 0..100, numeric
   * charges) is always engineered, and it always gets one of the five tenure
   * labels.
   */
  lemma FormInputIsBucketed(values: seq<Value>)
    requires |values| == |CustomerFields|
    requires values[4].Num? && 0.0 <= values[4].x <= 100.0
    requires values[17].Num? && values[18].Num?
    ensures CustomerRecord(values).Success?
    ensures var row := CustomerRecord(values).value.rows[0];
      "TenureGroup" in row && row["TenureGroup"].Text? && row["TenureGroup"].s in Features.TenureLabels
  {
    CustomerFieldsDistinct();
    var t := RecordTable(CustomerFields, values);
    FormRecordReady(values);
    Features.EngineerFeaturesSucceeds(t);
    Features.EngineerFeaturesTenureGroup(t, 0);
    Features.TenureBucketCases(values[4].x);
    assert CustomerRecord(values) == Features.EngineerFeatures(t);
  }

  // ---------------------------------------------------------------------------
  // get_feature_importance
  // ---------------------------------------------------------------------------

  /** What a fitted estimator exposes: tree importances, linear coefficients (one row per class), or neither. */
  datatype FittedModel = FittedModel(featureImportances: Option<seq<real>>, coef: Option<seq<seq<real>>>)

  datatype FeatureImportance = FeatureImportance(feature: string, importance: real)

  function Abs(x: real): (r: real)
    ensures r >= 0.0 && (r == x || r == -x)
  {
    if x < 0.0 then -x else x
  }

  /**
   * The raw importances: tree importances take precedence, then the absolute
   * values of the first coefficient row; None when the model has neither.
   * Indexing an empty coefficient matrix raises.
   */
  function RawImportances(m: FittedModel): (r: Result<Option<seq<real>>, Error>)
    ensures r == Success(None) <==> m.featureImportances.None? && m.coef.None?
    ensures m.featureImportances.Some? ==> r == Success(m.featureImportances)
    ensures m.featureImportances.None? && m.coef.Some? && r.Success? ==>
              r.value.Some? && |m.coef.value| > 0 && |r.value.value| == |m.coef.value[0]| &&
              forall j :: 0 <= j < |r.value.value| ==> r.value.value[j] == Abs(m.coef.value[0][j])
  {
    match m.featureImportances
    case Some(imp) => Success(Some(imp))
    case None =>
      match m.coef
      case None => Success(None)
      case Some(rows) =>
        if |rows| == 0 then Failure(NoRows)
        else Success(Some(seq(|rows[0]|, j requires 0 <= j < |rows[0]| => Abs(rows[0][j]))))
  }

  /** `[f'Feature_{i}' for i in range(n)]`: n names, all different. */
  function GeneratedNames(n: nat): (r: seq<string>)
    ensures |r| == n
    ensures forall i :: 0 <= i < n ==> r[i] == "Feature_" + NatToString(i)
    ensures NoDuplicates(r)
  {
    var r := seq(n, i requires 0 <= i < n => "Feature_" + NatToString(i));
    assert NoDuplicates(r) by {
      forall i, j | 0 <= i < j < n ensures r[i] != r[j] {
        if r[i] == r[j] {
          assert r[i][8..] == NatToString(i) && r[j][8..] == NatToString(j);
          NatToStringInjective(i, j);
        }
      }
    }
    r
  }

  function Pair(names: seq<string>, importances: seq<real>): (r: seq<FeatureImportance>)
    requires |names| == |importances|
    ensures |r| == |names|
    ensures forall i :: 0 <= i < |r| ==> r[i] == FeatureImportance(names[i], importances[i])
  {
    seq(|names|, i requires 0 <= i < |names| => FeatureImportance(names[i], importances[i]))
  }

  ghost predicate SortedByImportance(s: seq<FeatureImportance>) {
    forall i, j :: 0 <= i < j < |s| ==> s[i].importance >= s[j].importance
  }

  /** A sorted list stays sorted under a head no smaller than any of its elements. */
  lemma ConsSorted(h: FeatureImportance, s: seq<FeatureImportance>)
    requires SortedByImportance(s)
    requires forall y :: y in s ==> y.importance <= h.importance
    ensures SortedByImportance([h] + s)
  {
    var r := [h] + s;
    forall i, j | 0 <= i < j < |r| ensures r[i].importance >= r[j].importance {
      assert r[j] == s[j - 1];
      if i > 0 {
        assert r[i] == s[i - 1];
      }
    }
  }

  function Insert(x: FeatureImportance, s: seq<FeatureImportance>): (r: seq<FeatureImportance>)
    requires SortedByImportance(s)
    ensures forall y :: y in r ==> y == x || y in s
    ensures SortedByImportance(r)
    ensures multiset(r) == multiset(s) + multiset{x}
  {
    if |s| == 0 then [x]
    else if x.importance >= s[0].importance then
      ConsSorted(x, s);
      [x] + s
    else
      var rest := Insert(x, s[1..]);
      assert s == [s[0]] + s[1..];
      ConsSorted(s[0], rest);
      [s[0]] + rest
  }

  /** `sort_values('Importance', ascending=False)`. */
  function SortByImportance(s: seq<FeatureImportance>): (r: seq<FeatureImportance>)
    ensures SortedByImportance(r)
    ensures multiset(r) == multiset(s)
  {
    if |s| == 0 then []
    else
      assert s == [s[0]] + s[1..];
      Insert(s[0], SortByImportance(s[1..]))
  }

  /**
   * `get_feature_importance`: None when the model exposes no importances; a
   * name list of the wrong length makes the DataFrame constructor raise;
   * otherwise the (name, importance) pairs sorted by decreasing importance.
   */
  function GetFeatureImportance(m: FittedModel, featureNames: Option<seq<string>>): (r: Result<Option<seq<FeatureImportance>>, Error>)
    ensures r == Success(None) <==> m.featureImportances.None? && m.coef.None?
    ensures r.Success? && r.value.Some? ==> SortedByImportance(r.value.value)
    ensures r.Success? && r.value.Some? ==>
              RawImportances(m).Success? && RawImportances(m).value.Some? &&
              var imp := RawImportances(m).value.value;
              var names := if featureNames.Some? then featureNames.value else GeneratedNames(|imp|);
              |names| == |imp| && multiset(r.value.value) == multiset(Pair(names, imp))
    ensures featureNames.Some? && RawImportances(m).Success? && RawImportances(m).value.Some? ==>
              (r.Failure? <==> |featureNames.value| != |RawImportances(m).value.value|)
  {
    var raw :- RawImportances(m);
    match raw
    case None => Success(None)
    case Some(imp) =>
      var names := if featureNames.Some? then featureNames.value else GeneratedNames(|imp|);
      if |names| != |imp| then Failure(LengthMismatch)
      else
        Success(Some(SortByImportance(Pair(names, imp))))
  }

  /** Importances taken from linear coefficients are magnitudes: none is negative. */
  lemma LinearImportancesNonNegative(m: FittedModel, featureNames: Option<seq<string>>)
    requires m.featureImportances.None?
    requires GetFeatureImportance(m, featureNames).Success? && GetFeatureImportance(m, featureNames).value.Some?
    ensures forall e :: e in GetFeatureImportance(m, featureNames).value.value ==> e.importance >= 0.0
  {
    var imp := RawImportances(m).value.value;
    var names := if featureNames.Some? then featureNames.value else GeneratedNames(|imp|);
    var pairs := Pair(names, imp);
    var sorted := GetFeatureImportance(m, featureNames).value.value;
    forall e | e in sorted ensures e.importance >= 0.0 {
      assert e in multiset(sorted);
      assert e in multiset(pairs);
      var i :| 0 <= i < |pairs| && pairs[i] == e;
      assert e.importance == Abs(m.coef.value[0][i]);
    }
  }
}
