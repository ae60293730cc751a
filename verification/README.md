# Customer churn pipeline — a verified model of its deterministic glue

The churn-prediction repository cleans a telco customer table, derives a few
features, trains three classifiers, picks the best one by F1-score, scores new
customers and shows the results on a Streamlit dashboard. The classifiers
themselves are scikit-learn and XGBoost objects. This project models everything
around them in Dafny and proves what that code promises:

- **Tables** (`frames.dfy`, module `Frames`): a pandas DataFrame is a `Table` of
  ordered, typed columns and rows. Each row is a `map<string, Value>`, and a
  cell is `Num(real)`, `Text(string)` or `Missing` (NaN/None). The pandas edits
  the pipeline uses are pure functions:
  - column assignment, which keeps the position of an existing column or
    appends a new one;
  - `drop`, `fillna`, `drop_duplicates` and `select_dtypes`.

  The class `Frame` is the mutable DataFrame. Each of its methods performs one
  in-place edit, stated through the pure function on its `Snapshot()`.
- **Numbers** (`numbers.dfy`): the text-to-number parse behind
  `pd.to_numeric(errors='coerce')`, and the decimal rendering used for
  generated feature names.
- **Feature engineering** (`features.dfy`, `src/features.py`): tenure buckets,
  charge features, the service count, their composition, and the X/y split.
- **Cleaning** (`data_prep.dfy`, `src/data_prep.py`):
  - `clean_data` is a method over a copied `Frame`. Its steps are drop the id,
    coerce `TotalCharges`, relabel `SeniorCitizen`, drop duplicates, then a
    loop that fills object columns with their mode.
  - It is proved against the pure specification `CleanSpec`.
  - `get_feature_types` is also modelled.
- **Training glue** (`train.dfy`, `src/train.py`):
  - the model list and the pipeline stage order;
  - the loop that fills the results dict, with fitting and evaluation passed
    in as function parameters;
  - the best-model scan.
- **Prediction wrapping** (`predict.dfy`, `src/predict.py`):
  - single and batch scoring, with the fitted pipeline as a deterministic
    per-row `Classifier`;
  - the 19-field customer record;
  - the feature-importance ranking;
  - the target drop of `load_and_predict`.
- **Dashboard rules** (`app.dfy`, module `Dashboard`, `app/app.py`):
  - risk level, action priority, recommendation and confidence;
  - the batch summary figures;
  - the best model of the comparison table.

Some behaviours of the code worth knowing:

- Tenure bins are right-closed, and the first bin also includes 0. A tenure
  outside [0, 100] gets a missing bucket rather than an error.
- A failing `fit` aborts the whole training run; there is no per-model error
  handling.
- `predict_batch` assigns three columns: `Churn_Prediction`,
  `Churn_Probability` and `No_Churn_Probability`.
- A feature step whose input columns are absent returns the table unchanged.

## Model

| member | source | states |
|---|---|---|
| Frames.WithColumn | src/predict.py:95-97 | `df[name] = values`: same rows; the column holds the values in every row; every other cell is unchanged; an existing column keeps its position, a new one is appended; well-formedness (unique names, every row has exactly the columns) is kept |
| Frames.PlaceColumn | src/predict.py:95-97 | where an assigned column goes: in place when its name exists (same length), appended otherwise; the set of names gains exactly that name; unique names stay unique |
| Frames.WithoutColumn | src/data_prep.py:53-54 | `drop(name, axis=1)`: the column is gone, every other column and row cell stays, the row count is kept, well-formedness is kept |
| Frames.FillColumn | src/data_prep.py:84 | `fillna(v)` on one column: exactly the missing cells of that column become `v`; columns, keys and every other cell are unchanged |
| Frames.Distinct | src/data_prep.py:69 | `drop_duplicates()`: no more rows than before and exactly the same set of rows |
| Frames.ColumnValues | src/data_prep.py:83 | a column's cells top to bottom, one per row |
| Frames.NamesOfKinds | src/data_prep.py:111-112 | `select_dtypes(...).columns`: exactly the names of the columns of the given kinds; no duplicates when column names are unique |
| Frames.KindSelectionsDisjoint | src/features.py:209-210 | selections by disjoint dtype sets share no name |
| Frames.Frame.constructor | src/data_prep.py:50 | a frame holding the given table |
| Frames.Frame.Copy | src/data_prep.py:50 | `df.copy()`: a fresh frame with the same contents |
| Frames.Frame.SetColumn | src/data_prep.py:58 | in-place column assignment, as `WithColumn` |
| Frames.Frame.DropColumn | src/data_prep.py:54 | in-place drop, as `WithoutColumn` |
| Frames.Frame.FillMissing | src/data_prep.py:84 | in-place `fillna`, as `FillColumn` |
| Frames.Frame.DropDuplicates | src/data_prep.py:69 | in-place dedup: the columns stay, the rows become `Distinct` of the old rows |
| Numbers.NatToString | src/predict.py:176 | `str(i)`: non-empty, only digits, no leading zero |
| Numbers.NatToStringValue | src/predict.py:176 | the rendered digits read back as `i` |
| Numbers.NatToStringInjective | src/predict.py:176 | different numbers render differently |
| Numbers.ParseNumber | src/data_prep.py:58 | the number `to_numeric` reads from a text cell; text that parses always contains a digit |
| Numbers.DigitsParse | src/data_prep.py:58 | a run of digits parses to its value |
| Numbers.NegatedDigitsParse | src/data_prep.py:58 | a minus sign then digits parses to the negated value |
| Numbers.DecimalParse | src/data_prep.py:58 | digits, a point and digits (such as "29.85") parse to the whole part plus the fraction digits over ten to their count |
| Numbers.NegatedDecimalParse | src/data_prep.py:58 | a minus sign then such a decimal parses to the negated value |
| Numbers.TypicalChargeParses | src/data_prep.py:58 | the charge text "29.85" reads as 29.85 |
| Numbers.ParseNatRoundTrip | src/data_prep.py:58 | `to_numeric(str(n)) == n` |
| Numbers.ParseNegativeRoundTrip | src/data_prep.py:58 | `to_numeric("-" + str(n)) == -n` |
| Numbers.NoDigitNoNumber | src/data_prep.py:58 | text without any digit, a blank cell in particular, does not parse (it becomes NaN) |
| Features.MapRows | src/features.py:61-64 | `apply(f, axis=1)`: fails exactly when `f` fails on some row, with that row's error; otherwise one value per row, `f` of that row |
| Features.ApplyRowwise | src/features.py:61-70 | a row-wise column assignment: succeeds iff every row does; each row gains exactly the new cell; the column is placed as `df[...] =` places it; well-formedness is kept |
| Features.ApplyRowwiseSingle | src/features.py:61-68 | a row-wise step on a one-row table gives that row what it gets inside the whole table |
| Features.CutIndex | src/features.py:35 | `pd.cut(..., include_lowest=True)` with right-closed bins: the interval found for x is (edges[k], edges[k+1]], except that the first interval also holds its lower edge |
| Features.TenureBucket | src/features.py:33-35 | a bucket is always one of the five labels, and there is one only for a tenure in [0, 100] |
| Features.TenureBucketCases | src/features.py:33-35 | [0,12] is "0-1 year", (12,24] "1-2 years", (24,48] "2-4 years", (48,60] "4-5 years", (60,100] "5+ years"; outside [0,100] there is no bucket |
| Features.TenureGroupOf | src/features.py:35 | a row's bucket: raises exactly when the tenure is absent or text; NaN tenure gives NaN; otherwise NaN or one of the five labels |
| Features.CreateTenureGroups | src/features.py:29-39 | without a `tenure` column the table is returned unchanged; otherwise the row count is kept |
| Features.TenureGroupsSucceed | src/features.py:35 | on a well-formed table whose tenure cells are numbers or NaN, the bucketing does not raise |
| Features.AvgMonthlyChargeOf | src/features.py:61-64 | with numeric cells and tenure > 0 the result times tenure is `TotalCharges`; with tenure <= 0 or NaN it is the row's `MonthlyCharges`; no division by zero |
| Features.ChargeRatioOf | src/features.py:67-70 | with numeric cells and `MonthlyCharges` > 0 the result times `MonthlyCharges` is `TotalCharges`; with `MonthlyCharges` <= 0 or NaN it is 0 |
| Features.CreateChargeFeatures | src/features.py:59-70 | the charge features are added only when both `TotalCharges` and `tenure` exist, else the table is unchanged; the row count is kept (the values of the two new cells are stated by `ChargeFeaturesValues`) |
| Features.ChargeFeaturesValues | src/features.py:59-70 | every row's `AvgMonthlyCharges` and `ChargeRatio` cells are the two lambdas evaluated on that input row, and neither lambda raises on it |
| Features.RatioIgnoresAverage | src/features.py:62-68 | the ratio lambda reads only the charge cells, so adding `AvgMonthlyCharges` first does not change it |
| Features.AvgChargeRowSucceeds | src/features.py:62 | the average-charge lambda does not raise on a row whose charge cells are numbers or NaN |
| Features.ChargeRatioRowSucceeds | src/features.py:68 | the ratio lambda does not raise on a row whose charge cells are numbers or NaN |
| Features.ChargeFeaturesSucceed | src/features.py:59-70 | on a well-formed table with numeric or NaN charge cells (and `MonthlyCharges` present), the charge step does not raise |
| Features.AvailableServices | src/features.py:94-99 | the service columns present in the table: at most nine, no repeats, exactly those of the fixed list that are columns |
| Features.YesCount | src/features.py:102-104 | `sum(row == 'Yes')` never exceeds the number of columns counted |
| Features.YesCountIsSubscribedColumns | src/features.py:102-104 | over distinct columns, the count is exactly the number of columns whose cell is `'Yes'` |
| Features.CreateServiceFeatures | src/features.py:99-108 | never fails; with no service column the table is unchanged; the row count is kept |
| Features.ServiceCountBounds | src/features.py:94-104 | each row's `TotalServices` is the number of its available service columns holding `'Yes'`, between 0 and the number of available columns (at most 9) |
| Features.ApplyRowwiseExtends | src/features.py:61-70 | a row-wise step adding a derived column keeps every row and every other column and cell |
| Features.TenureGroupsExtend | src/features.py:29-39 | the tenure step keeps all rows, columns and cells and adds only `TenureGroup` |
| Features.ChargeFeaturesExtend | src/features.py:56-74 | the charge step keeps all rows, columns and cells and adds only derived columns |
| Features.ServiceFeaturesExtend | src/features.py:91-108 | the service step keeps all rows, columns and cells and adds only derived columns |
| Features.EngineerFeatures | src/features.py:111-144 | the three steps in order: the row count is kept, and a table without `tenure` and without service columns is returned unchanged |
| Features.ApplyRowwiseNames | src/features.py:61-70 | after a row-wise assignment the column names are the old ones plus the new one |
| Features.TenureGroupsNames | src/features.py:35 | the tenure step's column names are the input's plus `TenureGroup` |
| Features.ChargeFeaturesNames | src/features.py:61-70 | the charge step's column names are the input's plus `AvgMonthlyCharges` and `ChargeRatio` |
| Features.ServiceFeaturesNames | src/features.py:102-104 | with a service column present, the service step's column names are the input's plus `TotalServices` |
| Features.TenureAndChargeNames | src/features.py:132-135 | after the tenure and charge steps the three new columns are present and every input column is still there |
| Features.EngineerFeaturesAddsDerived | src/features.py:111-144 | with `tenure`, `TotalCharges` and a service column present, a successful `engineer_features` has all four derived columns |
| Features.EngineerFeaturesExtends | src/features.py:111-144 | `engineer_features` keeps the row count, every column and cell of its input, and adds nothing but `TenureGroup`, `AvgMonthlyCharges`, `ChargeRatio` and `TotalServices` |
| Features.EngineerFeaturesSucceeds | src/features.py:111-144 | on a well-formed table with numeric or NaN tenure and charge cells, feature engineering does not raise |
| Features.TenureGroupsRowwise | src/features.py:35 | bucketing a one-row table gives that row's bucket in the whole table |
| Features.ChargeFeaturesRowwise | src/features.py:61-68 | the charge features of a one-row table equal that row's in the whole table |
| Features.ServiceFeaturesRowwise | src/features.py:102-104 | the service count of a one-row table equals that row's in the whole table |
| Features.EngineerFeaturesRowwise | src/features.py:129-138 | engineering a single row alone gives exactly the row it gets inside any table |
| Features.ChargeFeaturesKeepCell | src/features.py:56-70 | the charge step changes no cell except its own two columns |
| Features.ServiceFeaturesKeepCell | src/features.py:91-104 | the service step changes no cell except `TotalServices` |
| Features.EngineerFeaturesTenureGroup | src/features.py:131-138 | a row's `TenureGroup` after all three steps is the bucket of that row's own tenure |
| Features.EncodeTargets | src/features.py:206 | `y.map({'Yes': 1, 'No': 0})`: 1 exactly for 'Yes', 0 exactly for 'No', NaN otherwise |
| Features.PrepareForModeling | src/features.py:185-218 | fails with KeyError exactly when the target is absent; otherwise X is the input without the target column, y is the encoded target column (one entry per row, 1/0 exactly for 'Yes'/'No'), the feature names are X's columns, `numerical` is exactly X's numeric columns and `categorical` exactly its object and category columns, disjoint when names are unique |
| DataPrep.DropCustomerId | src/data_prep.py:53-54 | no `customerID` column afterwards; the columns are exactly the other input columns; rows kept; without the column the table is returned as is, with it every row is the input row without its `customerID` cell |
| DataPrep.CoerceCharge | src/data_prep.py:57-61 | after coercion and `fillna(0)` every charge cell is a number |
| DataPrep.CoerceChargeCases | src/data_prep.py:57-61 | numbers are kept; NaN becomes 0; the text of a whole number, signed or not, becomes that number; a decimal such as "29.85", signed or not, becomes its value; text without digits (a blank) becomes 0 |
| DataPrep.CoerceNumeralCases | src/data_prep.py:58-61 | the text of a whole number, with or without a minus sign, is coerced to that number |
| DataPrep.CoerceTextCases | src/data_prep.py:58-61 | a decimal text, with or without a minus sign, is coerced to its value; text without digits to 0 |
| DataPrep.CoerceTotalCharges | src/data_prep.py:57-61 | without the column nothing changes; with it every row's `TotalCharges` is the coercion of that row's old cell, hence a number; no other cell changes; every other column is kept and no column is lost |
| DataPrep.SeniorLabel | src/data_prep.py:65 | `map({0: 'No', 1: 'Yes'})`: 'Yes' exactly for 1, 'No' exactly for 0, missing for anything else |
| DataPrep.MapSeniorCitizen | src/data_prep.py:64-65 | without the column nothing changes; with it every row's `SeniorCitizen` is the label of that row's old cell; no other cell changes; every other column is kept and no column is lost |
| DataPrep.DistinctKeepsFirstOccurrences | src/data_prep.py:68-69 | the deduplicated rows are pairwise different and appear in the order of their first occurrences |
| DataPrep.DistinctOfDistinct | src/data_prep.py:69 | dedup leaves rows that are already distinct as they are (so it is idempotent) |
| DataPrep.PreferredTotal | src/data_prep.py:84 | the order `mode()` ranks values by is total |
| DataPrep.PreferredTrans | src/data_prep.py:84 | that order is transitive |
| DataPrep.PreferredAntisymmetric | src/data_prep.py:84 | that order is antisymmetric, so the first mode is unique |
| DataPrep.ModeAmongSpec | src/data_prep.py:84 | the scan for the mode finds a non-missing candidate preferred to every other, and none exactly when all candidates are missing |
| DataPrep.ModeIsMostFrequent | src/data_prep.py:84 | `mode()[0]` is a non-missing value of the column that nothing occurs more often than, the smallest among equally frequent ones; there is none exactly when every cell is missing |
| DataPrep.ModeUnique | src/data_prep.py:84 | any value preferred to all others is the mode |
| DataPrep.UnfillableMeansAllMissing | src/data_prep.py:83-84 | `mode()[0]` raises on a column with missing cells exactly when the column has rows and all of them are missing |
| DataPrep.Mode | src/data_prep.py:84 | `mode()[0]`: none exactly when every value is missing; otherwise a non-missing value of the column |
| DataPrep.FirstUnfillable | src/data_prep.py:82-84 | the first object column, in column order, whose fill raises; none exactly when no fill raises |
| DataPrep.FillWithModes | src/data_prep.py:82-84 | the fills of the loop done at once: the missing cells of the named columns take their column's mode, every other cell stays |
| DataPrep.ModeFill | src/data_prep.py:76-84 | fails only with the no-mode error, naming an object column; on success the columns, the row count and every row's keys are unchanged |
| DataPrep.ModeFillSpec | src/data_prep.py:76-84 | the fill fails exactly when some object column is unfillable, and then names one; otherwise no object column keeps a missing cell, every present cell is unchanged, and every filled cell holds its column's mode |
| DataPrep.FillKeepsColumn | src/data_prep.py:82-84 | filling other columns does not change a column's cells, so the mode the loop computes is the one of the input |
| DataPrep.FillStep | src/data_prep.py:84 | one more `fillna` with the column's mode extends the fills done so far by that column |
| DataPrep.FillSkip | src/data_prep.py:83 | a column without missing cells is left as it is |
| DataPrep.PrepareColumns | src/data_prep.py:53-65 | the id drop, the coercion and the relabelling in place give `Prepared` of the old table |
| DataPrep.FillObjectColumns | src/data_prep.py:82-84 | the fill loop in place: on success the frame is the specified fill of the table it started from; on failure the column named is the one the specification fails on |
| DataPrep.CleanSpec | src/data_prep.py:36-88 | the steps of `clean_data` in order: fails only with the no-mode error; on success the columns are those left by the id drop and coercions, with one row per distinct prepared row |
| DataPrep.CleanData | src/data_prep.py:36-88 | `clean_data` works on a fresh copy and leaves its input untouched; it succeeds exactly when `CleanSpec` does, with its table or its error; `removed` is prepared rows minus deduplicated rows |
| DataPrep.CleanSpecProperties | src/data_prep.py:36-88 | the cleaned table is well formed, has no `customerID`, keeps every other input column, has no more rows than the input, has one row per distinct prepared row, has a numeric `TotalCharges` in every row when the column existed, has no missing cell in any object column, and each of its rows comes from an input row (`CleanedFrom`: same keys without `customerID`, `TotalCharges` coerced, `SeniorCitizen` relabelled, every other present cell unchanged) |
| DataPrep.CleanSpecTraces | src/data_prep.py:36-88 | every input column but `customerID` survives cleaning, and every cleaned row comes from an input row as `CleanedFrom` describes |
| DataPrep.CleanSpecFilled | src/data_prep.py:82-84 | every object column of the cleaned table holds a non-missing cell in every row |
| DataPrep.FillLeavesNoMissing | src/data_prep.py:82-84 | after a successful mode fill no object column has a missing cell |
| DataPrep.CleanRowOrigin | src/data_prep.py:50-84 | a cleaned row is some input row with `customerID` dropped, `TotalCharges` coerced, `SeniorCitizen` relabelled (unless the label was missing and the fill supplied the mode) and every other present cell unchanged |
| DataPrep.PreparedRow | src/data_prep.py:53-65 | each prepared row is its input row without `customerID`, with `TotalCharges` coerced and `SeniorCitizen` relabelled, and every other cell unchanged |
| DataPrep.PreparedKeepsColumns | src/data_prep.py:53-65 | every input column other than `customerID` survives the id drop, the coercion and the relabelling |
| DataPrep.CleanSpecShape | src/data_prep.py:50-73 | the cleaned table keeps the columns left after the id drop and coercions, and holds one row per distinct prepared row |
| DataPrep.CleanSpecCharges | src/data_prep.py:57-84 | when the input has `TotalCharges`, it is numeric in every cleaned row: neither dedup nor the fill undoes the coercion |
| DataPrep.FillKeepsPresent | src/data_prep.py:84 | the fill never changes a cell that is present |
| DataPrep.GetFeatureTypes | src/data_prep.py:91-123 | KeyError exactly when the target is absent; otherwise neither list holds the target, `numerical` is exactly the numeric columns and `categorical` exactly the object columns, disjoint when names are unique |
| Train.CreateModels | src/train.py:36-58 | three models in the order Logistic Regression, Random Forest, XGBoost, distinct names, all seeded with 42, class-balanced or `scale_pos_weight=3` |
| Train.CreatePipeline | src/train.py:81-93 | preprocessor first and model last; the SMOTE stage, seeded with 42, is present exactly when asked for and sits in the middle; the imbalanced-learn pipeline is used exactly with SMOTE |
| Train.Put | src/train.py:138-141 | `results[name] = entry` on an insertion-ordered dict: a new key is appended; an existing key keeps its place and takes the entry |
| Train.Lookup | src/train.py:173-174 | `results[name]`: absent exactly when the name is no key; otherwise an entry stored under that name |
| Train.LookupAt | src/train.py:173-174 | with unique keys, looking a key up gives the entry at its position |
| Train.TrainAndEvaluate | src/train.py:122-141 | one entry per model, in model order, under unique keys, each holding that model's fitted pipeline and its metrics |
| Train.SelectBestModel | src/train.py:164-174 | succeeds exactly when some F1 exceeds 0; the chosen entry has the highest F1 and every earlier one is strictly lower; the returned name, pipeline and metrics are those stored under it; otherwise `results[None]` fails |
| Predict.LabelOf | src/predict.py:64 | "Churn" exactly for class 1, "No Churn" otherwise |
| Predict.PredictSingle | src/predict.py:60-68 | fails exactly on a table without rows; the label is "Churn" exactly when the class code is 1; the code is the class of the first row; the churn probability is the second entry of `predict_proba`, the no-churn one the first |
| Predict.WithPredictions | src/predict.py:94-97 | the scored table keeps the row count and well-formedness |
| Predict.PredictBatch | src/predict.py:90-97 | returns a fresh frame holding the input with the three prediction columns assigned; the input frame is unchanged |
| Predict.BatchKeepsCells | src/predict.py:94-97 | every input cell outside the prediction columns is in the output, unchanged, in the same row |
| Predict.BatchColumnsPlaced | src/predict.py:95-97 | the output columns are the input columns with the three assignments placed in order |
| Predict.BatchHasPredictionColumns | src/predict.py:95-97 | the output has `Churn_Prediction`, `Churn_Probability` and `No_Churn_Probability` |
| Predict.BatchKeepsColumns | src/predict.py:94-97 | every input column other than the prediction columns is still in the output |
| Predict.BatchAppendsColumns | src/predict.py:95-97 | when the input has none of them, the three columns are appended on the right in this order |
| Predict.BatchAgreesWithSingle | src/predict.py:60-97 | the label and the probabilities of any row in the batch output equal `predict_single` on that row alone |
| Predict.DropTarget | src/predict.py:271-274 | `Churn` is dropped when present and nothing else changes; without it the table is returned as is |
| Predict.ScoreTable | src/predict.py:267-279 | engineer, drop the target, score: fails exactly when feature engineering does; the result is the prediction columns assigned to the engineered table without `Churn`, so it keeps the row count, has no `Churn` column, and has `Churn_Prediction` |
| Predict.DropTargetSingle | src/predict.py:271-274 | dropping the target from one row alone gives that row of the dropped table |
| Predict.ScoreTableAgreesWithSingle | src/predict.py:267-279 | the prediction and probabilities of any row of `load_and_predict`'s output equal `predict_single` on that customer's row engineered alone |
| Predict.CustomerFieldsDistinct | src/predict.py:203-223 | the nineteen field names of the record are all different |
| Predict.RecordTable | src/predict.py:226 | `pd.DataFrame([record])`: one well-formed row whose columns are the fields in order, each holding its value |
| Predict.CustomerRecord | src/predict.py:203-230 | the engineered record has one row; each of the nineteen fields holds the value given; every other column is a derived one, and all four derived columns are present |
| Predict.PrepareCustomerInput | src/predict.py:185-232 | the nineteen arguments, in order, are the fields of the one engineered row; the only other columns are derived ones, and all four derived columns are present |
| Predict.RecordHasInputs | src/predict.py:203-226 | the record table has `tenure`, `TotalCharges` and at least one service column, so every feature step applies |
| Predict.FormInputIsBucketed | app/app.py:1128-1133 | a record from the form (tenure a number in 0..100, numeric charges) is always engineered, and its `TenureGroup` is one of the five labels |
| Predict.RawImportances | src/predict.py:155-166 | tree importances take precedence; otherwise the absolute values of the first coefficient row; none exactly when the model has neither attribute |
| Predict.GeneratedNames | src/predict.py:176 | `Feature_0` … `Feature_{n-1}`, all different |
| Predict.Insert | src/predict.py:180 | inserting into a list sorted by decreasing importance keeps it sorted and adds exactly that element |
| Predict.SortByImportance | src/predict.py:180 | `sort_values('Importance', ascending=False)`: sorted by non-increasing importance and a permutation of its input |
| Predict.GetFeatureImportance | src/predict.py:139-182 | none exactly when the model has neither attribute; given names of the wrong length it raises; otherwise the (name, importance) pairs, given or generated names, sorted by non-increasing importance |
| Predict.LinearImportancesNonNegative | src/predict.py:161-163 | importances taken from linear coefficients are never negative |
| Dashboard.BandOf | app/app.py:1171-1172 | high exactly above 0.7, medium exactly in (0.4, 0.7], low exactly at or below 0.4 |
| Dashboard.BandMonotone | app/app.py:1171-1172 | a higher churn probability never gets a lower band |
| Dashboard.RiskLevel | app/app.py:1171-1172 | "High Risk" exactly for the high band, "Medium Risk" for the medium band, "Low Risk" for the low band |
| Dashboard.ActionPriority | app/app.py:1196-1197 | "Urgent", "Monitor" and "Stable" exactly for the high, medium and low bands |
| Dashboard.Recommendation | app/app.py:1245-1289 | the immediate-action, monitoring and satisfaction panels exactly for the high, medium and low bands |
| Dashboard.CardsAgree | app/app.py:1171-1289 | high risk, urgent action and the immediate-action panel always go together, and so do low risk, stable and the satisfaction panel |
| Dashboard.Confidence | app/app.py:1184 | never negative, and 0 exactly at p = 0.5 |
| Dashboard.ConfidenceRange | app/app.py:1184 | for p in [0,1] the confidence is in [0,100], 100 exactly at p = 0 or 1, and symmetric: p and 1-p give the same confidence |
| Dashboard.HighRiskIsConfident | app/app.py:1171-1184 | a high-risk prediction comes with a confidence above 40 |
| Dashboard.ChurnCount | app/app.py:1334 | never more than the number of rows; 0 exactly when no row is labelled "Churn" |
| Dashboard.ChurnCountIsMultiplicity | app/app.py:1334 | the count is the number of occurrences of "Churn" |
| Dashboard.ChurnRate | app/app.py:1338 | undefined exactly for an empty batch; otherwise in [0,100], 0 exactly when no row churns and 100 exactly when all do |
| Dashboard.AvgProb | app/app.py:1342 | undefined exactly for an empty batch |
| Dashboard.AvgProbRange | app/app.py:1342 | the average of probabilities, as a percentage, lies in [0,100] |
| Dashboard.BatchChurnCount | app/app.py:1326-1334 | on a scored batch the "Predicted Churns" figure is the number of rows the classifier puts in class 1 |
| Dashboard.BatchAverage | app/app.py:1326-1342 | on a scored batch the averaged probabilities are the classifier's class-1 probabilities, and their average is a percentage |
| Dashboard.F1Scores | app/app.py:1389-1401 | the F1 column of the comparison table: one entry per model, in results order |
| Dashboard.IdxMax | app/app.py:1432 | `idxmax()`: the first position holding the largest value; undefined exactly for an empty column |
| Dashboard.BestModelAgrees | app/app.py:1432-1433 | the displayed best model is exactly the first maximum by F1, the same characterisation `select_best_model` is proved to meet |

## Left out

- Input and output are not modelled: CSV reading and writing, joblib save and load, `mkdir`, console messages, and the Streamlit page rendering, charts and caching.
- The fitted estimators are not modelled. scikit-learn, XGBoost and SMOTE fitting and inference become function parameters: `fit` and `evaluate` in training, and a deterministic per-row `Classifier` in prediction. `StandardScaler`/`OneHotEncoder` are not modelled, and neither is `get_preprocessor`.
- SHAP explanations and `get_feature_names_after_preprocessing` are not modelled. Both depend on fitted library objects.
- The randomised `train_test_split` is not modelled, and neither is `src/eval.py`, whose metrics come from `sklearn.metrics`.
- Train.TrainAndEvaluate: a fit that raises aborts the run in the code. Here `fit` and `evaluate` are total functions, so that abort is not represented.
- Train.SelectBestModel: F1 is a real number, so a NaN F1 is not modelled.
- Floating point is not modelled: cells hold exact reals, so rounding in the charge divisions, the confidence and the percentages is not represented.
- Numbers.ParseNumber: it accepts blanks around an optional sign, then digits with at most one decimal point. Exponents, `inf`, `nan` and thousands separators are not modelled.
- DataPrep.ModeIsMostFrequent: ties are broken by the smallest value. Numbers come before text, and text is ordered by code point. That is how pandas sorts a mode of one type. The ordering pandas uses for a mode of mixed types is not modelled.
- DataPrep.CleanData: the `missing_summary.sum() > 0` guard is not modelled. When nothing is missing, the fill loop changes nothing anyway.
- DataPrep.CleanData: the chained in-place fills `df_clean['TotalCharges'].fillna(0, inplace=True)` (src/data_prep.py:61) and `df_clean[col].fillna(..., inplace=True)` in the mode loop (src/data_prep.py:84) are taken to update the frame, as they do without copy-on-write. The number of rows removed is returned rather than printed.
- Column kinds are the declared dtypes and are not tied to the cells: nothing checks that a `Numeric` column holds only numbers (a text `tenure` cell, for instance, is kept, and the feature steps then fail on it with `NotNumber`).
- DataPrep.CleanSpecProperties: the fill runs after deduplication, so it can make two kept rows equal again. The contract states distinctness of the deduplicated rows, not of the filled result, because that is what the code does.
- Predict.SortByImportance: the default `sort_values` sort is not stable. The contract states only order and permutation, and says nothing about how ties are ordered.
- Predict.PredictBatch: scikit-learn rejects an empty input. That error is not modelled, so a batch without rows is scored to a table without rows.
- Predict.PredictSingle: only the table form of `customer_data` is modelled. A dict is first turned into a one-row table by `RecordTable`.
- Dashboard.BestModelAgrees: `idxmax` names a best model even when every F1 is at or below 0. `select_best_model` fails in that case, so the two agree only when some F1 is positive.
