/**
 * Model training glue: the three candidate estimators, the pipeline stage
 * order, the results map filled by the training loop, and the choice of the
 * best model by F1-score. Fitting and scoring belong to scikit-learn and
 * XGBoost; they enter as the function parameters `fit` and `evaluate`.
 */
module Train {
  import opened Wrappers
  import opened Frames

  datatype ClassWeight = Balanced

  /** The estimators of `create_models`, with their hyper-parameters. */
  datatype Estimator =
    | LogisticRegression(randomState: int, maxIter: int, classWeight: ClassWeight)
    | RandomForest(nEstimators: int, randomState: int, maxDepth: int, classWeight: ClassWeight, nJobs: int)
    | XGBoost(nEstimators: int, randomState: int, maxDepth: int, learningRate: real,
              scalePosWeight: int, nJobs: int, evalMetric: string)

  datatype NamedModel = NamedModel(name: string, model: Estimator)

  function ModelNames(models: seq<NamedModel>): (r: seq<string>)
    ensures |r| == |models|
    ensures forall i :: 0 <= i < |models| ==> r[i] == models[i].name
  {
    seq(|models|, i requires 0 <= i < |models| => models[i].name)
  }

  /**
   * `create_models`: an insertion-ordered dict of three estimators, every one
   * seeded with 42 and weighted against the class imbalance.
   */
  function CreateModels(): (r: seq<NamedModel>)
    ensures ModelNames(r) == ["Logistic Regression", "Random Forest", "XGBoost"]
    ensures NoDuplicates(ModelNames(r))
    ensures forall m :: m in r ==> m.model.randomState == 42
    ensures forall m :: m in r && !m.model.XGBoost? ==> m.model.classWeight == Balanced
    ensures forall m :: m in r && m.model.XGBoost? ==> m.model.scalePosWeight == 3
  {
    [ NamedModel("Logistic Regression", LogisticRegression(42, 1000, Balanced)),
      NamedModel("Random Forest", RandomForest(100, 42, 10, Balanced, -1)),
      NamedModel("XGBoost", XGBoost(100, 42, 6, 0.1, 3, -1, "logloss")) ]
  }

  // ---------------------------------------------------------------------------
  // create_pipeline
  // ---------------------------------------------------------------------------

  /** The stages a pipeline can hold; `P` is the column transformer, built elsewhere. */
  datatype Stage<P> = Preprocessor(pre: P) | Smote(randomState: int) | Model(est: Estimator)

  datatype Step<P> = Step(name: string, stage: Stage<P>)

  /** `Pipeline` from scikit-learn, or the SMOTE-capable one from imbalanced-learn. */
  datatype Flavor = SkLearn | ImbLearn

  datatype Pipeline<P> = Pipeline(flavor: Flavor, steps: seq<Step<P>>)

  /**
   * `create_pipeline`: the preprocessor always comes first and the model
   * always last; SMOTE, when asked for, sits between them.
   */
  function CreatePipeline<P>(pre: P, model: Estimator, useSmote: bool): (r: Pipeline<P>)
    ensures |r.steps| == (if useSmote then 3 else 2)
    ensures r.steps[0] == Step("preprocessor", Preprocessor(pre))
    ensures r.steps[|r.steps| - 1] == Step("model", Model(model))
    ensures useSmote <==> exists i :: 0 <= i < |r.steps| && r.steps[i].stage.Smote?
    ensures useSmote ==> r.steps[1] == Step("smote", Smote(42))
    ensures r.flavor == (if useSmote then ImbLearn else SkLearn)
  {
    if useSmote then
      var r := Pipeline(ImbLearn, [Step("preprocessor", Preprocessor(pre)), Step("smote", Smote(42)), Step("model", Model(model))]);
      assert r.steps[1].stage.Smote?;
      r
    else
      Pipeline(SkLearn, [Step("preprocessor", Preprocessor(pre)), Step("model", Model(model))])
  }

  // ---------------------------------------------------------------------------
  // The results map
  // ---------------------------------------------------------------------------

  /** The scores `evaluate_model` reports for one model. */
  datatype Metrics = Metrics(accuracy: real, precision: real, recall: real, f1: real, rocAuc: real)

  /** One entry of the results dict: a model name and its fitted pipeline and metrics. */
  datatype Entry<F> = Entry(name: string, pipeline: F, metrics: Metrics)

  function Keys<F>(results: seq<Entry<F>>): (r: seq<string>)
    ensures |r| == |results|
    ensures forall i :: 0 <= i < |results| ==> r[i] == results[i].name
  {
    seq(|results|, i requires 0 <= i < |results| => results[i].name)
  }

  /**
   * `results[e.name] = ...` on an insertion-ordered dict: an existing key keeps
   * its position and takes the new value, a new key goes to the end.
   */
  function Put<F>(results: seq<Entry<F>>, e: Entry<F>): (r: seq<Entry<F>>)
    ensures e.name !in Keys(results) ==> r == results + [e]
    ensures e.name in Keys(results) ==> |r| == |results| && Keys(r) == Keys(results)
    ensures e.name in Keys(results) ==>
              forall i :: 0 <= i < |results| ==> r[i] == if results[i].name == e.name then e else results[i]
    ensures e in r
  {
    if e.name in Keys(results) then
      var r := seq(|results|, i requires 0 <= i < |results| => if results[i].name == e.name then e else results[i]);
      var k :| 0 <= k < |results| && Keys(results)[k] == e.name;
      assert r[k] == e;
      r
    else results + [e]
  }

  /** `results[name]`: the entry stored under `name`, if any. */
  function Lookup<F>(results: seq<Entry<F>>, name: string): (r: Option<Entry<F>>)
    ensures r.None? <==> name !in Keys(results)
    ensures r.Some? ==> r.value in results && r.value.name == name
  {
    if |results| == 0 then None
    else if results[0].name == name then Some(results[0])
    else
      assert name in Keys(results) <==> name in Keys(results[1..]);
      Lookup(results[1..], name)
  }

  /** Dict keys are unique. */
  ghost predicate UniqueKeys<F>(results: seq<Entry<F>>) {
    forall i, j :: 0 <= i < j < |results| ==> results[i].name != results[j].name
  }

  /** With unique keys, looking a key up gives the entry at that key's position. */
  lemma {:induction false} LookupAt<F>(results: seq<Entry<F>>, k: nat)
    requires k < |results| && UniqueKeys(results)
    ensures Lookup(results, results[k].name) == Some(results[k])
  {
    if k > 0 {
      var rest := results[1..];
      assert results[0].name != results[k].name;
      assert rest[k - 1] == results[k];
      LookupAt(rest, k - 1);
    }
  }

  /** What the training loop stores for one model. */
  function Trained<P, F>(m: NamedModel, pre: P, useSmote: bool,
                         fit: Pipeline<P> -> F, evaluate: (F, string) -> Metrics): Entry<F> {
    var fitted := fit(CreatePipeline(pre, m.model, useSmote));
    Entry(m.name, fitted, evaluate(fitted, m.name))
  }

  /**
   * `train_and_evaluate_models`: one entry per model of `create_models`, in
   * its order, holding that model's fitted pipeline and its metrics. `fit`
   * stands for `pipeline.fit(X_train, y_train)` and `evaluate` for
   * `evaluate_model(pipeline, X_test, y_test, model_name)`.
   */
  method TrainAndEvaluate<P, F>(pre: P, useSmote: bool, fit: Pipeline<P> -> F, evaluate: (F, string) -> Metrics)
    returns (results: seq<Entry<F>>)
    ensures Keys(results) == ["Logistic Regression", "Random Forest", "XGBoost"]
    ensures |results| == |CreateModels()|
    ensures forall i :: 0 <= i < |results| ==> results[i] == Trained(CreateModels()[i], pre, useSmote, fit, evaluate)
    ensures UniqueKeys(results)
  {
    var models := CreateModels();
    ghost var names := ModelNames(models);
    results := [];
    for i := 0 to |models|
      invariant Keys(results) == names[..i]
      invariant forall j :: 0 <= j < i ==> results[j] == Trained(models[j], pre, useSmote, fit, evaluate)
    {
      var m := models[i];
      var pipeline := CreatePipeline(pre, m.model, useSmote);
      var fitted := fit(pipeline);
      var metrics := evaluate(fitted, m.name);
      var e := Entry(m.name, fitted, metrics);
      assert e == Trained(models[i], pre, useSmote, fit, evaluate);
      NotInPrefix(names, i);
      KeysAppend(results, e);
      ghost var before := results;
      results := Put(results, e);
      assert results == before + [e];
      assert names[..i + 1] == names[..i] + [names[i]];
    }
    assert names[..|models|] == names;
    UniqueFromKeys(results);
  }

  lemma NotInPrefix(s: seq<string>, i: nat)
    requires i < |s| && NoDuplicates(s)
    ensures s[i] !in s[..i]
  {
  }

  lemma KeysAppend<F>(results: seq<Entry<F>>, e: Entry<F>)
    ensures Keys(results + [e]) == Keys(results) + [e.name]
  {
  }

  lemma UniqueFromKeys<F>(results: seq<Entry<F>>)
    requires NoDuplicates(Keys(results))
    ensures UniqueKeys(results)
  {
    forall i, j | 0 <= i < j < |results| ensures results[i].name != results[j].name {
      assert Keys(results)[i] != Keys(results)[j];
    }
  }

  // ---------------------------------------------------------------------------
  // select_best_model
  // ---------------------------------------------------------------------------

  /** Entry `k` has the highest F1 of all, and every earlier entry has a strictly lower one. */
  ghost predicate IsFirstMax<F>(results: seq<Entry<F>>, k: int) {
    0 <= k < |results| &&
    (forall j :: 0 <= j < |results| ==> results[j].metrics.f1 <= results[k].metrics.f1) &&
    (forall j :: 0 <= j < k ==> results[j].metrics.f1 < results[k].metrics.f1)
  }

  datatype Choice<F> = Choice(name: string, pipeline: F, metrics: Metrics)

  /**
   * `select_best_model`: a scan from `best_f1 = 0` that replaces the best only
   * on a strictly higher F1. The chosen model has the highest F1 and is the
   * earliest such; its pipeline and metrics are the ones stored under its
   * name. When no F1 exceeds 0 nothing is chosen and `results[None]` raises.
   */
  method SelectBestModel<F>(results: seq<Entry<F>>) returns (r: Result<Choice<F>, Error>)
    requires UniqueKeys(results)
    ensures r.Success? <==> exists i :: 0 <= i < |results| && results[i].metrics.f1 > 0.0
    ensures r.Failure? ==> r.error == NoModelChosen
    ensures r.Success? ==>
              exists k :: IsFirstMax(results, k) && r.value == Choice(results[k].name, results[k].pipeline, results[k].metrics)
  {
    var bestF1 := 0.0;
    var bestName: Option<string> := None;
    ghost var bestIdx := -1;
    for i := 0 to |results|
      invariant bestName.None? <==> forall j :: 0 <= j < i ==> results[j].metrics.f1 <= 0.0
      invariant bestName.None? ==> bestF1 == 0.0
      invariant bestName.Some? ==> 0 <= bestIdx < i && bestName.value == results[bestIdx].name &&
                                   bestF1 == results[bestIdx].metrics.f1 && bestF1 > 0.0
      invariant bestName.Some? ==> forall j :: 0 <= j < i ==> results[j].metrics.f1 <= bestF1
      invariant bestName.Some? ==> forall j :: 0 <= j < bestIdx ==> results[j].metrics.f1 < bestF1
    {
      var f1 := results[i].metrics.f1;
      if f1 > bestF1 {
        bestF1 := f1;
        bestName := Some(results[i].name);
        bestIdx := i;
      }
    }
    if bestName.None? {
      r := Failure(NoModelChosen);
    } else {
      assert IsFirstMax(results, bestIdx);
      assert results[bestIdx].metrics.f1 > 0.0;
      LookupAt(results, bestIdx);
      var entry := Lookup(results, bestName.value).value;
      r := Success(Choice(bestName.value, entry.pipeline, entry.metrics));
    }
  }
}
