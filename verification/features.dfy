/**
 * Feature derivation: each step copies the table and adds one or two columns
 * computed from each row on its own. A cell that Python would fail on (a text
 * value compared with a number, a missing key) makes the step fail.
 */
module Features {
  import opened Wrappers
  import opened Frames

  // ---------------------------------------------------------------------------
  // Cells
  // ---------------------------------------------------------------------------

  /** `row[name]`: KeyError when the row has no such column. */
  function Cell(row: Row, name: string): Result<Value, Error> {
    if name in row then Success(row[name]) else Failure(MissingColumn(name))
  }

  /** `v / d` for a positive divisor: NaN stays NaN, text raises TypeError. */
  function DivideBy(v: Value, d: real, name: string): Result<Value, Error>
    requires d > 0.0
  {
    match v
    case Num(x) => Success(Num(x / d))
    case Missing => Success(Missing)
    case Text(_) => Failure(NotNumber(name))
  }

  /** The three numeric base columns the charge features read. */
  ghost predicate NumericCell(row: Row, name: string) {
    name in row && row[name].Num?
  }

  // ---------------------------------------------------------------------------
  // Row-wise application
  // ---------------------------------------------------------------------------

  /** `df.apply(f, axis=1)`: the first row on which `f` raises aborts the whole step. */
  function MapRows(rows: seq<Row>, f: Row -> Result<Value, Error>): (r: Result<seq<Value>, Error>)
    ensures r.Success? <==> forall i :: 0 <= i < |rows| ==> f(rows[i]).Success?
    ensures r.Success? ==> |r.value| == |rows|
    ensures r.Success? ==> forall i :: 0 <= i < |rows| ==> r.value[i] == f(rows[i]).value
    ensures r.Failure? ==> exists i :: 0 <= i < |rows| && f(rows[i]) == Failure(r.error)
  {
    if |rows| == 0 then Success([])
    else
      var v :- f(rows[0]);
      var vs :- MapRows(rows[1..], f);
      assert forall i :: 1 <= i < |rows| ==> rows[i] == rows[1..][i - 1];
      Success([v] + vs)
  }

  /** `df[col.name] = df.apply(f, axis=1)` on a copy of the table. */
  function ApplyRowwise(t: Table, col: Column, f: Row -> Result<Value, Error>): (r: Result<Table, Error>)
    ensures r.Success? <==> forall i :: 0 <= i < |t.rows| ==> f(t.rows[i]).Success?
    ensures r.Success? ==> |r.value.rows| == |t.rows|
    ensures r.Success? ==> forall i :: 0 <= i < |t.rows| ==>
              r.value.rows[i] == t.rows[i][col.name := f(t.rows[i]).value]
    ensures r.Success? ==> r.value.columns == PlaceColumn(t.columns, col)
    ensures r.Success? && WellFormed(t) ==> WellFormed(r.value)
  {
    var vs :- MapRows(t.rows, f);
    Success(WithColumn(t, col, vs))
  }

  /** The table holding only row `i` of `t`, with all of `t`'s columns. */
  function Single(t: Table, i: nat): Table
    requires i < |t.rows|
  {
    Table(t.columns, [t.rows[i]])
  }

  /** A row-wise step gives a one-row table the same row it gives that row inside the whole table. */
  lemma ApplyRowwiseSingle(t: Table, col: Column, f: Row -> Result<Value, Error>, i: nat)
    requires i < |t.rows|
    requires ApplyRowwise(t, col, f).Success?
    ensures ApplyRowwise(Single(t, i), col, f) == Success(Single(ApplyRowwise(t, col, f).value, i))
  {
    var s := Single(t, i);
    assert f(s.rows[0]).Success?;
    var r := ApplyRowwise(s, col, f);
    assert r.value.rows == [t.rows[i][col.name := f(t.rows[i]).value]];
  }

  // ---------------------------------------------------------------------------
  // Tenure groups
  // ---------------------------------------------------------------------------

  const TenureEdges: seq<real> := [0.0, 12.0, 24.0, 48.0, 60.0, 100.0]
  const TenureLabels: seq<string> := ["0-1 year", "1-2 years", "2-4 years", "4-5 years", "5+ years"]

  /** The interval `(edges[k], edges[k+1]]` holding `x`, searched from `k` on. */
  function CutFrom(x: real, edges: seq<real>, k: nat): (r: Option<nat>)
    decreases |edges| - k
    ensures r.Some? ==> k <= r.value && r.value + 1 < |edges| && edges[r.value] < x <= edges[r.value + 1]
  {
    if k + 1 >= |edges| then None
    else if edges[k] < x <= edges[k + 1] then Some(k)
    else CutFrom(x, edges, k + 1)
  }

  /**
   * `pd.cut(x, bins=edges, include_lowest=True)` as a bin index: intervals are
   * closed on the right and the first one is closed on the left too.
   */
  function CutIndex(x: real, edges: seq<real>): (r: Option<nat>)
    ensures r.Some? ==> r.value + 1 < |edges| && x <= edges[r.value + 1]
    ensures r.Some? ==> if r.value == 0 then edges[0] <= x else edges[r.value] < x
  {
    if |edges| >= 2 && edges[0] <= x <= edges[1] then Some(0) else CutFrom(x, edges, 1)
  }

  /** The tenure label of a number of months; None outside the binned range. */
  function TenureBucket(x: real): (r: Option<string>)
    ensures r.Some? ==> r.value in TenureLabels && 0.0 <= x <= 100.0
  {
    match CutIndex(x, TenureEdges)
    case Some(k) => Some(TenureLabels[k])
    case None => None
  }

  /** The five tenure intervals and the unbinned outside. */
  lemma TenureBucketCases(x: real)
    ensures 0.0 <= x <= 12.0 ==> TenureBucket(x) == Some("0-1 year")
    ensures 12.0 < x <= 24.0 ==> TenureBucket(x) == Some("1-2 years")
    ensures 24.0 < x <= 48.0 ==> TenureBucket(x) == Some("2-4 years")
    ensures 48.0 < x <= 60.0 ==> TenureBucket(x) == Some("4-5 years")
    ensures 60.0 < x <= 100.0 ==> TenureBucket(x) == Some("5+ years")
    ensures x < 0.0 || x > 100.0 ==> TenureBucket(x) == None
  {
    var e := TenureEdges;
    assert e[0] == 0.0 && e[1] == 12.0 && e[2] == 24.0 && e[3] == 48.0 && e[4] == 60.0 && e[5] == 100.0;
    if x < 0.0 || x > 100.0 {
      assert CutFrom(x, e, 5) == None;
      assert CutFrom(x, e, 4) == None;
      assert CutFrom(x, e, 3) == None;
      assert CutFrom(x, e, 2) == None;
      assert CutFrom(x, e, 1) == None;
    } else if x > 60.0 {
      assert CutFrom(x, e, 5 - 1) == Some(4);
      assert CutFrom(x, e, 3) == Some(4);
      assert CutFrom(x, e, 2) == Some(4);
    } else if x > 48.0 {
      assert CutFrom(x, e, 3) == Some(3);
      assert CutFrom(x, e, 2) == Some(3);
    } else if x > 24.0 {
      assert CutFrom(x, e, 2) == Some(2);
    }
  }

  /** The `TenureGroup` cell of one row: NaN tenure gives NaN, text tenure raises. */
  function TenureGroupOf(row: Row): (r: Result<Value, Error>)
    ensures r.Failure? <==> "tenure" !in row || row["tenure"].Text?
    ensures r.Success? ==> r.value == Missing || (r.value.Text? && r.value.s in TenureLabels)
    ensures "tenure" in row && row["tenure"] == Missing ==> r == Success(Missing)
  {
    var v :- Cell(row, "tenure");
    match v
    case Num(x) =>
      (match TenureBucket(x)
       case Some(group) => Success(Text(group))
       case None => Success(Missing))
    case Missing => Success(Missing)
    case Text(_) => Failure(NotNumber("tenure"))
  }

  /** `create_tenure_groups`: adds the categorical `TenureGroup` when `tenure` exists. */
  function CreateTenureGroups(t: Table): (r: Result<Table, Error>)
    ensures !HasColumn(t, "tenure") ==> r == Success(t)
    ensures r.Success? ==> |r.value.rows| == |t.rows|
  {
    if HasColumn(t, "tenure") then ApplyRowwise(t, Column("TenureGroup", Category), TenureGroupOf)
    else Success(t)
  }

  // ---------------------------------------------------------------------------
  // Charge features
  // ---------------------------------------------------------------------------

  /**
   * `TotalCharges / tenure if tenure > 0 else MonthlyCharges`. The division only
   * happens with a positive divisor, so it is never a division by zero.
   */
  function AvgMonthlyChargeOf(row: Row): (r: Result<Value, Error>)
    ensures NumericCell(row, "tenure") && NumericCell(row, "TotalCharges") && row["tenure"].x > 0.0 ==>
              r.Success? && r.value.Num? && r.value.x * row["tenure"].x == row["TotalCharges"].x
    ensures "tenure" in row && (row["tenure"] == Missing || (row["tenure"].Num? && row["tenure"].x <= 0.0)) ==>
              r == Cell(row, "MonthlyCharges")
  {
    var tenure :- Cell(row, "tenure");
    match tenure
    case Num(n) =>
      if n > 0.0 then
        var total :- Cell(row, "TotalCharges");
        DivideBy(total, n, "TotalCharges")
      else Cell(row, "MonthlyCharges")
    case Missing => Cell(row, "MonthlyCharges")
    case Text(_) => Failure(NotNumber("tenure"))
  }

  /** `TotalCharges / MonthlyCharges if MonthlyCharges > 0 else 0`. */
  function ChargeRatioOf(row: Row): (r: Result<Value, Error>)
    ensures NumericCell(row, "MonthlyCharges") && NumericCell(row, "TotalCharges") && row["MonthlyCharges"].x > 0.0 ==>
              r.Success? && r.value.Num? && r.value.x * row["MonthlyCharges"].x == row["TotalCharges"].x
    ensures "MonthlyCharges" in row && (row["MonthlyCharges"] == Missing ||
              (row["MonthlyCharges"].Num? && row["MonthlyCharges"].x <= 0.0)) ==>
              r == Success(Num(0.0))
  {
    var monthly :- Cell(row, "MonthlyCharges");
    match monthly
    case Num(m) =>
      if m > 0.0 then
        var total :- Cell(row, "TotalCharges");
        DivideBy(total, m, "TotalCharges")
      else Success(Num(0.0))
    case Missing => Success(Num(0.0))
    case Text(_) => Failure(NotNumber("MonthlyCharges"))
  }

  /** `create_charge_features`: both columns, and only when `TotalCharges` and `tenure` exist. */
  function CreateChargeFeatures(t: Table): (r: Result<Table, Error>)
    ensures !(HasColumn(t, "TotalCharges") && HasColumn(t, "tenure")) ==> r == Success(t)
    ensures r.Success? ==> |r.value.rows| == |t.rows|
  {
    if HasColumn(t, "TotalCharges") && HasColumn(t, "tenure") then
      var t1 :- ApplyRowwise(t, Column("AvgMonthlyCharges", Numeric), AvgMonthlyChargeOf);
      ApplyRowwise(t1, Column("ChargeRatio", Numeric), ChargeRatioOf)
    else Success(t)
  }

  // ---------------------------------------------------------------------------
  // Service count
  // ---------------------------------------------------------------------------

  const ServiceColumns: seq<string> := ["PhoneService", "MultipleLines", "InternetService",
                                        "OnlineSecurity", "OnlineBackup", "DeviceProtection",
                                        "TechSupport", "StreamingTV", "StreamingMovies"]

  /** The names of `names` that are columns of `t`, in the order of `names`. */
  function PresentColumns(names: seq<string>, cols: seq<Column>): (r: seq<string>)
    ensures |r| <= |names|
    ensures forall n :: n in r <==> n in names && n in Names(cols)
    ensures NoDuplicates(names) ==> NoDuplicates(r)
  {
    if |names| == 0 then []
    else
      var rest := PresentColumns(names[1..], cols);
      if names[0] in Names(cols) then
        assert forall j :: 0 <= j < |rest| ==> rest[j] in names[1..];
        [names[0]] + rest
      else rest
  }

  /** `available_cols`: the service columns the table has. */
  function AvailableServices(t: Table): (r: seq<string>)
    ensures |r| <= 9 && NoDuplicates(r)
    ensures forall n :: n in r <==> n in ServiceColumns && HasColumn(t, n)
  {
    PresentColumns(ServiceColumns, t.columns)
  }

  /** `sum(row == 'Yes')` over the given columns. */
  function YesCount(row: Row, cols: seq<string>): (n: nat)
    ensures n <= |cols|
  {
    if |cols| == 0 then 0
    else (if cols[0] in row && row[cols[0]] == Text("Yes") then 1 else 0) + YesCount(row, cols[1..])
  }

  function YesColumns(row: Row, cols: seq<string>): set<string> {
    set c | c in cols && c in row && row[c] == Text("Yes")
  }

  /** Over distinct columns the count is exactly the number of columns that hold `'Yes'`. */
  lemma {:induction false} YesCountIsSubscribedColumns(row: Row, cols: seq<string>)
    requires NoDuplicates(cols)
    ensures YesCount(row, cols) == |YesColumns(row, cols)|
  {
    if |cols| > 0 {
      var rest := cols[1..];
      assert NoDuplicates(rest);
      YesCountIsSubscribedColumns(row, rest);
      assert cols[0] !in rest;
      YesColumnsCons(row, cols);
    }
  }

  /** The `'Yes'` columns of a list: those of its tail, plus its head when that holds `'Yes'`. */
  lemma YesColumnsCons(row: Row, cols: seq<string>)
    requires |cols| > 0 && cols[0] !in cols[1..]
    ensures cols[0] in row && row[cols[0]] == Text("Yes") ==>
              YesColumns(row, cols) == YesColumns(row, cols[1..]) + {cols[0]} && cols[0] !in YesColumns(row, cols[1..])
    ensures !(cols[0] in row && row[cols[0]] == Text("Yes")) ==> YesColumns(row, cols) == YesColumns(row, cols[1..])
  {
    assert forall c :: c in cols <==> c == cols[0] || c in cols[1..] by {
      assert cols == [cols[0]] + cols[1..];
    }
  }

  function TotalServicesOf(cols: seq<string>): Row -> Result<Value, Error> {
    (row: Row) => Success(Num(YesCount(row, cols) as real))
  }

  /** `create_service_features`: `TotalServices` when at least one service column exists. */
  function CreateServiceFeatures(t: Table): (r: Result<Table, Error>)
    ensures r.Success?
    ensures AvailableServices(t) == [] ==> r == Success(t)
    ensures r.Success? ==> |r.value.rows| == |t.rows|
  {
    var available := AvailableServices(t);
    if |available| > 0 then ApplyRowwise(t, Column("TotalServices", Numeric), TotalServicesOf(available))
    else Success(t)
  }

  /** Every `TotalServices` cell counts the `'Yes'` cells among the available service columns. */
  lemma ServiceCountBounds(t: Table, i: nat)
    requires i < |t.rows| && AvailableServices(t) != []
    ensures var r := CreateServiceFeatures(t).value;
      && r.rows[i]["TotalServices"] == Num(|YesColumns(t.rows[i], AvailableServices(t))| as real)
      && |YesColumns(t.rows[i], AvailableServices(t))| <= |AvailableServices(t)| <= 9
  {
    var available := AvailableServices(t);
    YesCountIsSubscribedColumns(t.rows[i], available);
    assert TotalServicesOf(available)(t.rows[i]).value == Num(YesCount(t.rows[i], available) as real);
  }

  // ---------------------------------------------------------------------------
  // The whole derivation
  // ---------------------------------------------------------------------------

  const DerivedNames: set<string> := {"TenureGroup", "AvgMonthlyCharges", "ChargeRatio", "TotalServices"}

  /** `engineer_features`: tenure groups, then charge features, then the service count. */
  function EngineerFeatures(t: Table): (r: Result<Table, Error>)
    ensures r.Success? ==> |r.value.rows| == |t.rows|
    ensures !HasColumn(t, "tenure") && AvailableServices(t) == [] ==> r == Success(t)
  {
    var t1 :- CreateTenureGroups(t);
    var t2 :- CreateChargeFeatures(t1);
    CreateServiceFeatures(t2)
  }

  /** What a derived table keeps from its input, and what it may add. */
  ghost predicate Extends(t: Table, r: Table) {
    && |r.rows| == |t.rows|
    && (forall c :: c in t.columns && c.name !in DerivedNames ==> c in r.columns)
    && (forall c :: c in r.columns ==> c in t.columns || c.name in DerivedNames)
    && (forall i :: 0 <= i < |t.rows| ==> r.rows[i].Keys <= t.rows[i].Keys + DerivedNames)
    && (forall i :: 0 <= i < |t.rows| ==> t.rows[i].Keys <= r.rows[i].Keys)
    && (forall i, k :: 0 <= i < |t.rows| && k in t.rows[i] && k !in DerivedNames ==> r.rows[i][k] == t.rows[i][k])
    && (WellFormed(t) ==> WellFormed(r))
  }

  lemma ExtendsTransitive(t: Table, s: Table, r: Table)
    requires Extends(t, s) && Extends(s, r)
    ensures Extends(t, r)
  {
  }

  lemma ApplyRowwiseExtends(t: Table, col: Column, f: Row -> Result<Value, Error>)
    requires col.name in DerivedNames
    requires ApplyRowwise(t, col, f).Success?
    ensures Extends(t, ApplyRowwise(t, col, f).value)
  {
    var r := ApplyRowwise(t, col, f).value;
    assert WithColumn(t, col, MapRows(t.rows, f).value) == r;
  }

  /**
   * Row and column preservation: the derived table has the same rows, keeps
   * every existing column and cell, and adds nothing but the four derived columns.
   */
  lemma EngineerFeaturesExtends(t: Table)
    requires EngineerFeatures(t).Success?
    ensures Extends(t, EngineerFeatures(t).value)
  {
    var t1 := CreateTenureGroups(t).value;
    TenureGroupsExtend(t);
    var t2 := CreateChargeFeatures(t1).value;
    ChargeFeaturesExtend(t1);
    ServiceFeaturesExtend(t2);
    ExtendsTransitive(t, t1, t2);
    assert EngineerFeatures(t) == CreateServiceFeatures(t2);
    ExtendsTransitive(t, t2, EngineerFeatures(t).value);
  }

  lemma ChargeFeaturesExtend(t: Table)
    requires CreateChargeFeatures(t).Success?
    ensures Extends(t, CreateChargeFeatures(t).value)
  {
    if HasColumn(t, "TotalCharges") && HasColumn(t, "tenure") {
      var a := ApplyRowwise(t, Column("AvgMonthlyCharges", Numeric), AvgMonthlyChargeOf).value;
      ApplyRowwiseExtends(t, Column("AvgMonthlyCharges", Numeric), AvgMonthlyChargeOf);
      ApplyRowwiseExtends(a, Column("ChargeRatio", Numeric), ChargeRatioOf);
      ExtendsTransitive(t, a, CreateChargeFeatures(t).value);
    }
  }

  lemma ServiceFeaturesExtend(t: Table)
    ensures Extends(t, CreateServiceFeatures(t).value)
  {
    var available := AvailableServices(t);
    if |available| > 0 {
      ApplyRowwiseExtends(t, Column("TotalServices", Numeric), TotalServicesOf(available));
    }
  }

  lemma TenureGroupsRowwise(t: Table, i: nat)
    requires i < |t.rows| && CreateTenureGroups(t).Success?
    ensures CreateTenureGroups(Single(t, i)) == Success(Single(CreateTenureGroups(t).value, i))
  {
    if HasColumn(t, "tenure") {
      ApplyRowwiseSingle(t, Column("TenureGroup", Category), TenureGroupOf, i);
    }
  }

  lemma ChargeFeaturesRowwise(t: Table, i: nat)
    requires i < |t.rows| && CreateChargeFeatures(t).Success?
    ensures CreateChargeFeatures(Single(t, i)) == Success(Single(CreateChargeFeatures(t).value, i))
  {
    var s := Single(t, i);
    assert HasColumn(s, "TotalCharges") == HasColumn(t, "TotalCharges") && HasColumn(s, "tenure") == HasColumn(t, "tenure");
    if HasColumn(t, "TotalCharges") && HasColumn(t, "tenure") {
      var avg, ratio := Column("AvgMonthlyCharges", Numeric), Column("ChargeRatio", Numeric);
      var a := ApplyRowwise(t, avg, AvgMonthlyChargeOf).value;
      ApplyRowwiseSingle(t, avg, AvgMonthlyChargeOf, i);
      assert ApplyRowwise(s, avg, AvgMonthlyChargeOf) == Success(Single(a, i));
      ApplyRowwiseSingle(a, ratio, ChargeRatioOf, i);
      assert CreateChargeFeatures(t) == ApplyRowwise(a, ratio, ChargeRatioOf);
      assert CreateChargeFeatures(s) == ApplyRowwise(Single(a, i), ratio, ChargeRatioOf);
    }
  }

  lemma ServiceFeaturesRowwise(t: Table, i: nat)
    requires i < |t.rows|
    ensures CreateServiceFeatures(Single(t, i)) == Success(Single(CreateServiceFeatures(t).value, i))
  {
    var available := AvailableServices(t);
    assert AvailableServices(Single(t, i)) == available;
    if |available| > 0 {
      ApplyRowwiseSingle(t, Column("TotalServices", Numeric), TotalServicesOf(available), i);
    }
  }

  /** Row-wise derivation: a record engineered alone gets the row it gets inside any table. */
  lemma EngineerFeaturesRowwise(t: Table, i: nat)
    requires i < |t.rows|
    requires EngineerFeatures(t).Success?
    ensures EngineerFeatures(Single(t, i)) == Success(Single(EngineerFeatures(t).value, i))
  {
    var t1 := CreateTenureGroups(t).value;
    TenureGroupsRowwise(t, i);
    var t2 := CreateChargeFeatures(t1).value;
    ChargeFeaturesRowwise(t1, i);
    var t3 := CreateServiceFeatures(t2).value;
    ServiceFeaturesRowwise(t2, i);
    assert CreateTenureGroups(Single(t, i)) == Success(Single(t1, i));
    assert CreateChargeFeatures(Single(t1, i)) == Success(Single(t2, i));
    assert EngineerFeatures(t) == CreateServiceFeatures(t2);
  }

  /** A row-wise step adds exactly its column to the names of the table. */
  lemma ApplyRowwiseNames(t: Table, col: Column, f: Row -> Result<Value, Error>)
    requires ApplyRowwise(t, col, f).Success?
    ensures forall n :: HasColumn(ApplyRowwise(t, col, f).value, n) <==> HasColumn(t, n) || n == col.name
  {
    var r := ApplyRowwise(t, col, f).value;
    var a, b := set n | n in Names(r.columns), set n | n in Names(t.columns);
    assert a == b + {col.name};
    forall n ensures HasColumn(r, n) <==> HasColumn(t, n) || n == col.name {
      assert HasColumn(r, n) <==> n in a;
      assert HasColumn(t, n) <==> n in b;
    }
  }

  /**
   * With `tenure`, `TotalCharges` and at least one service column, a
   * successful derivation adds all four derived columns.
   */
  lemma EngineerFeaturesAddsDerived(t: Table)
    requires EngineerFeatures(t).Success?
    requires HasColumn(t, "tenure") && HasColumn(t, "TotalCharges") && AvailableServices(t) != []
    ensures forall n :: n in DerivedNames ==> HasColumn(EngineerFeatures(t).value, n)
  {
    assert CreateTenureGroups(t).Success?;
    var t1 := CreateTenureGroups(t).value;
    assert CreateChargeFeatures(t1).Success?;
    var t2 := CreateChargeFeatures(t1).value;
    var service := AvailableServices(t)[0];
    TenureAndChargeNames(t, service);
    assert service in AvailableServices(t2);
    ServiceFeaturesNames(t2);
    var r := CreateServiceFeatures(t2).value;
    assert HasColumn(r, "TenureGroup") && HasColumn(r, "AvgMonthlyCharges");
    assert HasColumn(r, "ChargeRatio") && HasColumn(r, "TotalServices");
    assert EngineerFeatures(t).value == r;
  }

  /** The tenure and charge steps add their three columns and keep the others. */
  lemma TenureAndChargeNames(t: Table, service: string)
    requires HasColumn(t, "tenure") && HasColumn(t, "TotalCharges") && HasColumn(t, service)
    requires CreateTenureGroups(t).Success? && CreateChargeFeatures(CreateTenureGroups(t).value).Success?
    ensures var t2 := CreateChargeFeatures(CreateTenureGroups(t).value).value;
      && HasColumn(t2, "TenureGroup") && HasColumn(t2, "AvgMonthlyCharges")
      && HasColumn(t2, "ChargeRatio") && HasColumn(t2, service)
  {
    var t1 := CreateTenureGroups(t).value;
    TenureGroupsNames(t);
    assert HasColumn(t1, "tenure") && HasColumn(t1, "TotalCharges") && HasColumn(t1, service);
    assert HasColumn(t1, "TenureGroup");
    ChargeFeaturesNames(t1);
  }

  lemma TenureGroupsNames(t: Table)
    requires HasColumn(t, "tenure") && CreateTenureGroups(t).Success?
    ensures forall n :: HasColumn(CreateTenureGroups(t).value, n) <==> HasColumn(t, n) || n == "TenureGroup"
  {
    ApplyRowwiseNames(t, Column("TenureGroup", Category), TenureGroupOf);
  }

  lemma ChargeFeaturesNames(t: Table)
    requires HasColumn(t, "tenure") && HasColumn(t, "TotalCharges") && CreateChargeFeatures(t).Success?
    ensures forall n :: HasColumn(CreateChargeFeatures(t).value, n) <==>
              HasColumn(t, n) || n == "AvgMonthlyCharges" || n == "ChargeRatio"
  {
    var avg, ratio := Column("AvgMonthlyCharges", Numeric), Column("ChargeRatio", Numeric);
    var a := ApplyRowwise(t, avg, AvgMonthlyChargeOf).value;
    ApplyRowwiseNames(t, avg, AvgMonthlyChargeOf);
    assert CreateChargeFeatures(t) == ApplyRowwise(a, ratio, ChargeRatioOf);
    ApplyRowwiseNames(a, ratio, ChargeRatioOf);
  }

  lemma ServiceFeaturesNames(t: Table)
    requires AvailableServices(t) != []
    ensures forall n :: HasColumn(CreateServiceFeatures(t).value, n) <==> HasColumn(t, n) || n == "TotalServices"
  {
    ApplyRowwiseNames(t, Column("TotalServices", Numeric), TotalServicesOf(AvailableServices(t)));
  }

  /**
   * The cells the charge step adds hold the two lambdas' values on the input
   * row: the ratio reads only the charge cells, which the first column leaves alone.
   */
  lemma ChargeFeaturesValues(t: Table, i: nat)
    requires i < |t.rows| && HasColumn(t, "TotalCharges") && HasColumn(t, "tenure")
    requires CreateChargeFeatures(t).Success?
    ensures AvgMonthlyChargeOf(t.rows[i]).Success? && ChargeRatioOf(t.rows[i]).Success?
    ensures "AvgMonthlyCharges" in CreateChargeFeatures(t).value.rows[i]
    ensures CreateChargeFeatures(t).value.rows[i]["AvgMonthlyCharges"] == AvgMonthlyChargeOf(t.rows[i]).value
    ensures "ChargeRatio" in CreateChargeFeatures(t).value.rows[i]
    ensures CreateChargeFeatures(t).value.rows[i]["ChargeRatio"] == ChargeRatioOf(t.rows[i]).value
  {
    var avg, ratio := Column("AvgMonthlyCharges", Numeric), Column("ChargeRatio", Numeric);
    var a := ApplyRowwise(t, avg, AvgMonthlyChargeOf).value;
    var row := t.rows[i];
    assert a.rows[i] == row["AvgMonthlyCharges" := AvgMonthlyChargeOf(row).value];
    RatioIgnoresAverage(row, AvgMonthlyChargeOf(row).value);
    assert CreateChargeFeatures(t) == ApplyRowwise(a, ratio, ChargeRatioOf);
  }

  /** The ratio reads only the charge cells, so writing the average first does not change it. */
  lemma RatioIgnoresAverage(row: Row, v: Value)
    ensures ChargeRatioOf(row["AvgMonthlyCharges" := v]) == ChargeRatioOf(row)
  {
    var arow := row["AvgMonthlyCharges" := v];
    assert Cell(arow, "MonthlyCharges") == Cell(row, "MonthlyCharges");
    assert Cell(arow, "TotalCharges") == Cell(row, "TotalCharges");
  }

  /** Rows whose tenure and charge cells are numbers or NaN. */
  ghost predicate ChargeCellsNumeric(t: Table) {
    forall i, k :: 0 <= i < |t.rows| && k in {"tenure", "TotalCharges", "MonthlyCharges"} && k in t.rows[i] ==>
      !t.rows[i][k].Text?
  }

  lemma ExtendsKeepsColumn(t: Table, r: Table, n: string)
    requires Extends(t, r) && n !in DerivedNames
    ensures HasColumn(t, n) <==> HasColumn(r, n)
  {
    if HasColumn(t, n) {
      var j := IndexOf(t.columns, n).value;
      assert t.columns[j] in t.columns;
      ColumnInNames(r.columns, t.columns[j]);
    }
    if HasColumn(r, n) {
      var j := IndexOf(r.columns, n).value;
      assert r.columns[j] in r.columns;
      ColumnInNames(t.columns, r.columns[j]);
    }
  }

  lemma RowHasColumn(t: Table, i: nat, n: string)
    requires WellFormed(t) && i < |t.rows| && HasColumn(t, n)
    ensures n in t.rows[i]
  {
    assert n in set m | m in Names(t.columns);
  }

  lemma ExtendsKeepsCharges(t: Table, r: Table)
    requires Extends(t, r) && ChargeCellsNumeric(t)
    ensures ChargeCellsNumeric(r)
  {
    forall i, k | 0 <= i < |r.rows| && k in {"tenure", "TotalCharges", "MonthlyCharges"} && k in r.rows[i]
      ensures !r.rows[i][k].Text?
    {
      assert k !in DerivedNames;
      assert k in t.rows[i];
    }
  }

  lemma TenureGroupsSucceed(t: Table)
    requires WellFormed(t) && ChargeCellsNumeric(t)
    ensures CreateTenureGroups(t).Success?
  {
    if HasColumn(t, "tenure") {
      forall i | 0 <= i < |t.rows| ensures TenureGroupOf(t.rows[i]).Success? {
        RowHasColumn(t, i, "tenure");
        assert "tenure" in {"tenure", "TotalCharges", "MonthlyCharges"};
      }
    }
  }

  lemma TenureGroupsExtend(t: Table)
    requires CreateTenureGroups(t).Success?
    ensures Extends(t, CreateTenureGroups(t).value)
  {
    if HasColumn(t, "tenure") {
      ApplyRowwiseExtends(t, Column("TenureGroup", Category), TenureGroupOf);
    }
  }

  lemma TenureGroupsKeepCharges(t: Table)
    requires WellFormed(t) && ChargeCellsNumeric(t)
    requires HasColumn(t, "TotalCharges") && HasColumn(t, "tenure") ==> HasColumn(t, "MonthlyCharges")
    requires CreateTenureGroups(t).Success?
    ensures WellFormed(CreateTenureGroups(t).value)
    ensures ChargeCellsNumeric(CreateTenureGroups(t).value)
    ensures var r := CreateTenureGroups(t).value;
      HasColumn(r, "TotalCharges") && HasColumn(r, "tenure") ==> HasColumn(r, "MonthlyCharges")
  {
    var r := CreateTenureGroups(t).value;
    TenureGroupsExtend(t);
    ExtendsKeepsCharges(t, r);
    ExtendsKeepsColumn(t, r, "TotalCharges");
    ExtendsKeepsColumn(t, r, "tenure");
    ExtendsKeepsColumn(t, r, "MonthlyCharges");
  }

  /** A row whose three charge cells are present and not text gets an average monthly charge. */
  lemma AvgChargeRowSucceeds(row: Row)
    requires "tenure" in row && "TotalCharges" in row && "MonthlyCharges" in row
    requires !row["tenure"].Text? && !row["TotalCharges"].Text? && !row["MonthlyCharges"].Text?
    ensures AvgMonthlyChargeOf(row).Success?
  {
  }

  /** A row whose two charge cells are present and not text gets a charge ratio. */
  lemma ChargeRatioRowSucceeds(row: Row)
    requires "TotalCharges" in row && "MonthlyCharges" in row
    requires !row["TotalCharges"].Text? && !row["MonthlyCharges"].Text?
    ensures ChargeRatioOf(row).Success?
  {
  }

  lemma ChargeCellOf(t: Table, i: nat, k: string)
    requires WellFormed(t) && ChargeCellsNumeric(t) && i < |t.rows| && HasColumn(t, k)
    requires k in {"tenure", "TotalCharges", "MonthlyCharges"}
    ensures k in t.rows[i] && !t.rows[i][k].Text?
  {
    RowHasColumn(t, i, k);
  }

  lemma ChargeFeaturesSucceed(t: Table)
    requires WellFormed(t) && ChargeCellsNumeric(t)
    requires HasColumn(t, "TotalCharges") && HasColumn(t, "tenure") ==> HasColumn(t, "MonthlyCharges")
    ensures CreateChargeFeatures(t).Success?
  {
    if HasColumn(t, "TotalCharges") && HasColumn(t, "tenure") {
      forall i | 0 <= i < |t.rows| ensures AvgMonthlyChargeOf(t.rows[i]).Success? {
        ChargeCellOf(t, i, "tenure");
        ChargeCellOf(t, i, "TotalCharges");
        ChargeCellOf(t, i, "MonthlyCharges");
        AvgChargeRowSucceeds(t.rows[i]);
      }
      var a := ApplyRowwise(t, Column("AvgMonthlyCharges", Numeric), AvgMonthlyChargeOf).value;
      forall i | 0 <= i < |a.rows| ensures ChargeRatioOf(a.rows[i]).Success? {
        ChargeCellOf(t, i, "TotalCharges");
        ChargeCellOf(t, i, "MonthlyCharges");
        assert a.rows[i] == t.rows[i]["AvgMonthlyCharges" := AvgMonthlyChargeOf(t.rows[i]).value];
        ChargeRatioRowSucceeds(a.rows[i]);
      }
    }
  }

  /**
   * On a well-formed table whose tenure and charge cells are numeric, and which
   * has `MonthlyCharges` whenever it has `TotalCharges` and `tenure`, the
   * derivation never raises.
   */
  lemma EngineerFeaturesSucceeds(t: Table)
    requires WellFormed(t) && ChargeCellsNumeric(t)
    requires HasColumn(t, "TotalCharges") && HasColumn(t, "tenure") ==> HasColumn(t, "MonthlyCharges")
    ensures EngineerFeatures(t).Success?
  {
    TenureGroupsSucceed(t);
    TenureGroupsKeepCharges(t);
    var t1 := CreateTenureGroups(t).value;
    ChargeFeaturesSucceed(t1);
    var t2 := CreateChargeFeatures(t1).value;
    assert EngineerFeatures(t) == CreateServiceFeatures(t2);
  }

  lemma ChargeFeaturesKeepCell(t: Table, i: nat, k: string)
    requires i < |t.rows| && k in t.rows[i] && k != "AvgMonthlyCharges" && k != "ChargeRatio"
    requires CreateChargeFeatures(t).Success?
    ensures k in CreateChargeFeatures(t).value.rows[i]
    ensures CreateChargeFeatures(t).value.rows[i][k] == t.rows[i][k]
  {
    if HasColumn(t, "TotalCharges") && HasColumn(t, "tenure") {
      var a := ApplyRowwise(t, Column("AvgMonthlyCharges", Numeric), AvgMonthlyChargeOf).value;
      assert a.rows[i][k] == t.rows[i][k];
    }
  }

  lemma ServiceFeaturesKeepCell(t: Table, i: nat, k: string)
    requires i < |t.rows| && k in t.rows[i] && k != "TotalServices"
    ensures k in CreateServiceFeatures(t).value.rows[i]
    ensures CreateServiceFeatures(t).value.rows[i][k] == t.rows[i][k]
  {
  }

  /** The `TenureGroup` cell of an engineered row is the bucket of that row's own tenure. */
  lemma EngineerFeaturesTenureGroup(t: Table, i: nat)
    requires i < |t.rows| && HasColumn(t, "tenure") && EngineerFeatures(t).Success?
    ensures TenureGroupOf(t.rows[i]).Success?
    ensures "TenureGroup" in EngineerFeatures(t).value.rows[i]
    ensures EngineerFeatures(t).value.rows[i]["TenureGroup"] == TenureGroupOf(t.rows[i]).value
  {
    var t1 := CreateTenureGroups(t).value;
    var t2 := CreateChargeFeatures(t1).value;
    assert EngineerFeatures(t) == CreateServiceFeatures(t2);
    assert t1.rows[i]["TenureGroup"] == TenureGroupOf(t.rows[i]).value;
    ChargeFeaturesKeepCell(t1, i, "TenureGroup");
    ServiceFeaturesKeepCell(t2, i, "TenureGroup");
  }

  // ---------------------------------------------------------------------------
  // Preparing X and y
  // ---------------------------------------------------------------------------

  /** `y.map({'Yes': 1, 'No': 0})`: anything else becomes NaN. */
  function EncodeTarget(v: Value): Value {
    if v == Text("Yes") then Num(1.0) else if v == Text("No") then Num(0.0) else Missing
  }

  /** The encoded target, row by row. */
  function EncodeTargets(t: Table, target: string): (y: seq<Value>)
    ensures |y| == |t.rows|
    ensures forall i :: 0 <= i < |t.rows| && target in t.rows[i] ==>
              (y[i] == Num(1.0) <==> t.rows[i][target] == Text("Yes")) &&
              (y[i] == Num(0.0) <==> t.rows[i][target] == Text("No"))
    ensures forall i :: 0 <= i < |y| ==> y[i] in {Num(1.0), Num(0.0), Missing}
  {
    seq(|t.rows|, i requires 0 <= i < |t.rows| => EncodeTarget(ColumnValues(t, target)[i]))
  }

  datatype Modeling = Modeling(x: Table, y: seq<Value>, featureNames: seq<string>,
                               numerical: seq<string>, categorical: seq<string>)

  /** `prepare_features_for_modeling`: KeyError when the target column is absent. */
  function PrepareForModeling(t: Table, target: string): (r: Result<Modeling, Error>)
    ensures r.Failure? <==> !HasColumn(t, target)
    ensures r.Failure? ==> r.error == MissingColumn(target)
    ensures r.Success? ==> r.value.x == WithoutColumn(t, target) && r.value.y == EncodeTargets(t, target)
    ensures r.Success? ==> r.value.numerical == NamesOfKinds(r.value.x.columns, {Numeric})
    ensures r.Success? ==> r.value.categorical == NamesOfKinds(r.value.x.columns, {Object, Category})
    ensures r.Success? ==> !HasColumn(r.value.x, target) && r.value.featureNames == Names(r.value.x.columns)
    ensures r.Success? ==> |r.value.y| == |t.rows| == |r.value.x.rows|
    ensures r.Success? ==> forall i :: 0 <= i < |t.rows| && target in t.rows[i] ==>
              (r.value.y[i] == Num(1.0) <==> t.rows[i][target] == Text("Yes")) &&
              (r.value.y[i] == Num(0.0) <==> t.rows[i][target] == Text("No"))
    ensures r.Success? ==> forall i :: 0 <= i < |r.value.y| ==> r.value.y[i] in {Num(1.0), Num(0.0), Missing}
    ensures r.Success? ==> forall n :: n in r.value.numerical || n in r.value.categorical ==> n in r.value.featureNames
    ensures r.Success? && DistinctNames(t.columns) ==>
              forall n :: n in r.value.numerical ==> n !in r.value.categorical
  {
    if !HasColumn(t, target) then Failure(MissingColumn(target))
    else
      var x := WithoutColumn(t, target);
      var m := Modeling(x, EncodeTargets(t, target), Names(x.columns), NamesOfKinds(x.columns, {Numeric}), NamesOfKinds(x.columns, {Object, Category}));
      assert forall c :: c in x.columns ==> c.name in m.featureNames by {
        forall c | c in x.columns ensures c.name in m.featureNames { ColumnInNames(x.columns, c); }
      }
      assert DistinctNames(t.columns) ==> DistinctNames(x.columns);
      KindSelectionsDisjoint(x.columns, {Numeric}, {Object, Category});
      Success(m)
  }
}
