/**
 * Cleaning of the raw customer table (`clean_data`) and the split of its
 * columns into numerical and categorical features (`get_feature_types`).
 */
module DataPrep {
  import opened Wrappers
  import opened Frames
  import opened Numbers

  // ---------------------------------------------------------------------------
  // Individual cleaning steps
  // ---------------------------------------------------------------------------

  /** Drops the identifier column when there is one. */
  function DropCustomerId(t: Table): (r: Table)
    ensures !HasColumn(r, "customerID")
    ensures |r.rows| == |t.rows|
    ensures forall c :: c in r.columns <==> c in t.columns && c.name != "customerID"
    ensures !HasColumn(t, "customerID") ==> r == t
    ensures HasColumn(t, "customerID") ==> forall i :: 0 <= i < |r.rows| ==> r.rows[i] == t.rows[i] - {"customerID"}
    ensures WellFormed(t) ==> WellFormed(r)
  {
    if HasColumn(t, "customerID") then WithoutColumn(t, "customerID") else t
  }

  /**
   * `pd.to_numeric(v, errors='coerce')` followed by `fillna(0)`: numbers are
   * kept, text is parsed, and whatever cannot be parsed becomes 0.
   */
  function CoerceCharge(v: Value): (r: Value)
    ensures r.Num?
  {
    match v
    case Num(_) => v
    case Text(s) =>
      (match ParseNumber(s)
       case Some(x) => Num(x)
       case None => Num(0.0))
    case Missing => Num(0.0)
  }

  /**
   * What the coercion does to the cells a `TotalCharges` column holds:
   * numbers and numeric text, whole or decimal, signed or not, keep their
   * value; text without a digit, a blank in particular, becomes 0.
   */
  lemma CoerceChargeCases(x: real, n: nat, s: string, k: nat)
    ensures CoerceCharge(Num(x)) == Num(x)
    ensures CoerceCharge(Missing) == Num(0.0)
    ensures CoerceCharge(Text(NatToString(n))) == Num(n as real)
    ensures CoerceCharge(Text("-" + NatToString(n))) == Num(-(n as real))
    ensures IsDecimal(s, k) ==> CoerceCharge(Text(s)) == Num(DecimalValue(s, k))
    ensures |s| > 0 && s[0] == '-' && IsDecimal(s[1..], k) ==> CoerceCharge(Text(s)) == Num(-DecimalValue(s[1..], k))
    ensures (forall i :: 0 <= i < |s| ==> !IsDigit(s[i])) ==> CoerceCharge(Text(s)) == Num(0.0)
  {
    CoerceNumeralCases(n);
    CoerceTextCases(s, k);
  }

  lemma CoerceNumeralCases(n: nat)
    ensures CoerceCharge(Text(NatToString(n))) == Num(n as real)
    ensures CoerceCharge(Text("-" + NatToString(n))) == Num(-(n as real))
  {
    ParseNatRoundTrip(n);
    ParseNegativeRoundTrip(n);
  }

  lemma CoerceTextCases(s: string, k: nat)
    ensures IsDecimal(s, k) ==> CoerceCharge(Text(s)) == Num(DecimalValue(s, k))
    ensures |s| > 0 && s[0] == '-' && IsDecimal(s[1..], k) ==> CoerceCharge(Text(s)) == Num(-DecimalValue(s[1..], k))
    ensures (forall i :: 0 <= i < |s| ==> !IsDigit(s[i])) ==> CoerceCharge(Text(s)) == Num(0.0)
  {
    if IsDecimal(s, k) {
      DecimalParse(s, k);
    }
    if |s| > 0 && s[0] == '-' && IsDecimal(s[1..], k) {
      NegatedDecimalParse(s, k);
    }
    if forall i :: 0 <= i < |s| ==> !IsDigit(s[i]) {
      NoDigitNoNumber(s);
    }
  }

  function CoercedCharges(t: Table): (r: seq<Value>)
    ensures |r| == |t.rows|
  {
    var old_ := ColumnValues(t, "TotalCharges");
    seq(|t.rows|, i requires 0 <= i < |t.rows| => CoerceCharge(old_[i]))
  }

  /** Replaces `TotalCharges`, when present, by its coerced numeric version. */
  function CoerceTotalCharges(t: Table): (r: Table)
    ensures |r.rows| == |t.rows|
    ensures !HasColumn(t, "TotalCharges") ==> r == t
    ensures HasColumn(t, "TotalCharges") ==>
              forall i :: 0 <= i < |r.rows| ==> "TotalCharges" in r.rows[i] && r.rows[i]["TotalCharges"].Num?
    ensures HasColumn(t, "TotalCharges") ==> forall i :: 0 <= i < |r.rows| ==>
              "TotalCharges" in r.rows[i] && r.rows[i]["TotalCharges"] == CoerceCharge(ColumnValues(t, "TotalCharges")[i])
    ensures forall i, k :: 0 <= i < |r.rows| && k != "TotalCharges" && k in t.rows[i] ==>
              k in r.rows[i] && r.rows[i][k] == t.rows[i][k]
    ensures forall c :: c in r.columns && c.name != "TotalCharges" ==> c in t.columns
    ensures forall c :: c in t.columns && c.name != "TotalCharges" ==> c in r.columns
    ensures forall n :: HasColumn(t, n) ==> HasColumn(r, n)
    ensures WellFormed(t) ==> WellFormed(r)
  {
    if HasColumn(t, "TotalCharges") then WithColumn(t, Column("TotalCharges", Numeric), CoercedCharges(t))
    else t
  }

  /** `map({0: 'No', 1: 'Yes'})`: any other value, text included, maps to NaN. */
  function SeniorLabel(v: Value): (r: Value)
    ensures r == Text("Yes") <==> v == Num(1.0)
    ensures r == Text("No") <==> v == Num(0.0)
    ensures r in {Text("Yes"), Text("No"), Missing}
  {
    if v == Num(0.0) then Text("No")
    else if v == Num(1.0) then Text("Yes")
    else Missing
  }

  function SeniorLabels(t: Table): (r: seq<Value>)
    ensures |r| == |t.rows|
  {
    var old_ := ColumnValues(t, "SeniorCitizen");
    seq(|t.rows|, i requires 0 <= i < |t.rows| => SeniorLabel(old_[i]))
  }

  /** Relabels `SeniorCitizen`, when present, as an object column of Yes/No. */
  function MapSeniorCitizen(t: Table): (r: Table)
    ensures |r.rows| == |t.rows|
    ensures !HasColumn(t, "SeniorCitizen") ==> r == t
    ensures HasColumn(t, "SeniorCitizen") ==> forall i :: 0 <= i < |r.rows| ==>
              "SeniorCitizen" in r.rows[i] && r.rows[i]["SeniorCitizen"] == SeniorLabel(ColumnValues(t, "SeniorCitizen")[i])
    ensures forall i, k :: 0 <= i < |r.rows| && k != "SeniorCitizen" && k in t.rows[i] ==>
              k in r.rows[i] && r.rows[i][k] == t.rows[i][k]
    ensures forall c :: c in r.columns && c.name != "SeniorCitizen" ==> c in t.columns
    ensures forall c :: c in t.columns && c.name != "SeniorCitizen" ==> c in r.columns
    ensures forall n :: HasColumn(t, n) ==> HasColumn(r, n)
    ensures WellFormed(t) ==> WellFormed(r)
  {
    if HasColumn(t, "SeniorCitizen") then WithColumn(t, Column("SeniorCitizen", Object), SeniorLabels(t))
    else t
  }

  /** The table just before duplicates are dropped. */
  function Prepared(t: Table): Table {
    MapSeniorCitizen(CoerceTotalCharges(DropCustomerId(t)))
  }

  // ---------------------------------------------------------------------------
  // drop_duplicates
  // ---------------------------------------------------------------------------

  /** Position of the first occurrence of `x` in `s`. */
  function FirstIndex(s: seq<Row>, x: Row): (r: nat)
    requires x in s
    ensures r < |s| && s[r] == x
    ensures forall j :: 0 <= j < r ==> s[j] != x
  {
    var front := s[..|s| - 1];
    assert s == front + [s[|s| - 1]];
    if x in front then FirstIndex(front, x) else |s| - 1
  }

  /**
   * `drop_duplicates()` keeps exactly one copy of every row, the first one, so
   * the kept rows appear in the order of their first occurrences.
   */
  lemma {:induction false} DistinctKeepsFirstOccurrences(rows: seq<Row>)
    ensures NoDuplicates(Distinct(rows))
    ensures forall i, j :: 0 <= i < j < |Distinct(rows)| ==>
              FirstIndex(rows, Distinct(rows)[i]) < FirstIndex(rows, Distinct(rows)[j])
  {
    if |rows| > 0 {
      var front := rows[..|rows| - 1];
      var last := rows[|rows| - 1];
      DistinctKeepsFirstOccurrences(front);
      var d := Distinct(front);
      assert rows == front + [last];
      forall x | x in front ensures FirstIndex(rows, x) == FirstIndex(front, x) {
        FirstIndexPrefix(front, last, x);
      }
      if last !in d {
        assert Distinct(rows) == d + [last];
        assert FirstIndex(rows, last) == |rows| - 1;
        forall i | 0 <= i < |d| ensures FirstIndex(rows, d[i]) < |rows| - 1 {
          assert d[i] in front;
        }
      }
    }
  }

  lemma FirstIndexPrefix(front: seq<Row>, last: Row, x: Row)
    requires x in front
    ensures FirstIndex(front + [last], x) == FirstIndex(front, x)
  {
    assert (front + [last])[..|front|] == front;
  }

  /** A row already present once is not duplicated by `drop_duplicates`. */
  lemma DistinctOfDistinct(rows: seq<Row>)
    requires NoDuplicates(rows)
    ensures Distinct(rows) == rows
  {
    if |rows| > 0 {
      var front := rows[..|rows| - 1];
      DistinctOfDistinct(front);
      assert rows == front + [rows[|rows| - 1]];
    }
  }

  // ---------------------------------------------------------------------------
  // mode()[0]
  // ---------------------------------------------------------------------------

  /** Lexicographic order on text, as Python compares `str` values. */
  predicate StrLe(a: string, b: string)
    decreases |a|
  {
    |a| == 0 || (|b| > 0 && (a[0] < b[0] || (a[0] == b[0] && StrLe(a[1..], b[1..]))))
  }

  lemma StrLeTotal(a: string, b: string)
    ensures StrLe(a, b) || StrLe(b, a)
    decreases |a|
  {
    if |a| > 0 && |b| > 0 && a[0] == b[0] {
      StrLeTotal(a[1..], b[1..]);
    }
  }

  lemma StrLeTrans(a: string, b: string, c: string)
    requires StrLe(a, b) && StrLe(b, c)
    ensures StrLe(a, c)
    decreases |a|
  {
    if |a| > 0 && a[0] == b[0] && b[0] == c[0] {
      StrLeTrans(a[1..], b[1..], c[1..]);
    }
  }

  lemma StrLeAntisymmetric(a: string, b: string)
    requires StrLe(a, b) && StrLe(b, a)
    ensures a == b
    decreases |a|
  {
    if |a| > 0 {
      StrLeAntisymmetric(a[1..], b[1..]);
      assert a == [a[0]] + a[1..] && b == [b[0]] + b[1..];
    }
  }

  /** The order `mode()` sorts its result in: numbers, then text; NaN never competes. */
  predicate ValueLe(a: Value, b: Value) {
    match a
    case Num(x) => !b.Num? || x <= b.x
    case Text(s) => b.Missing? || (b.Text? && StrLe(s, b.s))
    case Missing => b.Missing?
  }

  /** `a` comes before `b` in `mode()` of `vals`: more frequent, or as frequent and smaller. */
  predicate Preferred(a: Value, b: Value, vals: seq<Value>) {
    multiset(vals)[a] > multiset(vals)[b] || (multiset(vals)[a] == multiset(vals)[b] && ValueLe(a, b))
  }

  lemma StrLeReflexive(a: string)
    ensures StrLe(a, a)
    decreases |a|
  {
    if |a| > 0 {
      StrLeReflexive(a[1..]);
    }
  }

  lemma PreferredReflexive(a: Value, vals: seq<Value>)
    ensures Preferred(a, a, vals)
  {
    if a.Text? {
      StrLeReflexive(a.s);
    }
  }

  lemma PreferredTotal(a: Value, b: Value, vals: seq<Value>)
    ensures Preferred(a, b, vals) || Preferred(b, a, vals)
  {
    if a.Text? && b.Text? {
      StrLeTotal(a.s, b.s);
    }
  }

  lemma PreferredTrans(a: Value, b: Value, c: Value, vals: seq<Value>)
    requires Preferred(a, b, vals) && Preferred(b, c, vals)
    ensures Preferred(a, c, vals)
  {
    if a.Text? && b.Text? && c.Text? && StrLe(a.s, b.s) && StrLe(b.s, c.s) {
      StrLeTrans(a.s, b.s, c.s);
    }
  }

  lemma PreferredAntisymmetric(a: Value, b: Value, vals: seq<Value>)
    requires Preferred(a, b, vals) && Preferred(b, a, vals)
    ensures a == b
  {
    if a.Text? && b.Text? {
      StrLeAntisymmetric(a.s, b.s);
    }
  }

  /** The preferred non-missing value among `cands`, counting occurrences in `vals`. */
  function ModeAmong(cands: seq<Value>, vals: seq<Value>): Option<Value> {
    if |cands| == 0 then None
    else
      var rest := ModeAmong(cands[1..], vals);
      if cands[0] == Missing then rest
      else match rest
        case None => Some(cands[0])
        case Some(b) => if Preferred(cands[0], b, vals) then Some(cands[0]) else Some(b)
  }

  lemma {:induction false} ModeAmongSpec(cands: seq<Value>, vals: seq<Value>)
    ensures ModeAmong(cands, vals).None? <==> forall c :: c in cands ==> c == Missing
    ensures ModeAmong(cands, vals).Some? ==>
              ModeAmong(cands, vals).value in cands && ModeAmong(cands, vals).value != Missing
    ensures ModeAmong(cands, vals).Some? ==>
              forall c :: c in cands && c != Missing ==> Preferred(ModeAmong(cands, vals).value, c, vals)
  {
    if |cands| > 0 {
      var rest := ModeAmong(cands[1..], vals);
      ModeAmongSpec(cands[1..], vals);
      assert forall c :: c in cands <==> c == cands[0] || c in cands[1..];
      var c0 := cands[0];
      PreferredReflexive(c0, vals);
      if c0 != Missing {
        assert c0 in cands;
        if rest.Some? {
          var b := rest.value;
          PreferredTotal(c0, b, vals);
          if Preferred(c0, b, vals) {
            forall c | c in cands[1..] && c != Missing ensures Preferred(c0, c, vals) {
              PreferredTrans(c0, b, c, vals);
            }
          }
        }
      }
    }
  }

  /** `series.mode()[0]` ignoring NaN; None when there is no non-missing value. */
  function Mode(vals: seq<Value>): (r: Option<Value>)
    ensures r.None? <==> forall v :: v in vals ==> v == Missing
    ensures r.Some? ==> r.value in vals && r.value != Missing
  {
    ModeAmongSpec(vals, vals);
    ModeAmong(vals, vals)
  }

  /**
   * The mode is a non-missing value of the column that no other value occurs
   * more often than; among equally frequent values it is the smallest. There
   * is none exactly when every cell is missing.
   */
  lemma ModeIsMostFrequent(vals: seq<Value>)
    ensures Mode(vals).None? <==> forall v :: v in vals ==> v == Missing
    ensures Mode(vals).Some? ==> Mode(vals).value in vals && Mode(vals).value != Missing
    ensures Mode(vals).Some? ==> forall v :: v in vals && v != Missing ==>
              multiset(vals)[v] <= multiset(vals)[Mode(vals).value]
    ensures Mode(vals).Some? ==> forall v ::
              (v in vals && v != Missing && multiset(vals)[v] == multiset(vals)[Mode(vals).value]) ==>
                ValueLe(Mode(vals).value, v)
  {
    ModeAmongSpec(vals, vals);
  }

  /** Any value with the properties above is the mode: they define it. */
  lemma ModeUnique(vals: seq<Value>, m: Value)
    requires m in vals && m != Missing
    requires forall v :: v in vals && v != Missing ==> Preferred(m, v, vals)
    ensures Mode(vals) == Some(m)
  {
    ModeAmongSpec(vals, vals);
    var other := Mode(vals).value;
    PreferredAntisymmetric(m, other, vals);
  }

  // ---------------------------------------------------------------------------
  // Filling object columns with their mode
  // ---------------------------------------------------------------------------

  /** An object column with a missing cell and no mode: `mode()[0]` raises. */
  predicate Unfillable(t: Table, name: string) {
    var vals := ColumnValues(t, name);
    Missing in vals && Mode(vals).None?
  }

  /** A column is unfillable exactly when it has rows and all of them are missing. */
  lemma UnfillableMeansAllMissing(t: Table, name: string)
    ensures Unfillable(t, name) <==>
              |t.rows| > 0 && forall v :: v in ColumnValues(t, name) ==> v == Missing
  {
    var vals := ColumnValues(t, name);
    ModeIsMostFrequent(vals);
    if |t.rows| > 0 {
      assert vals[0] in vals;
    }
  }

  function FirstUnfillable(t: Table, names: seq<string>): (r: Option<string>)
    ensures r.Some? ==> r.value in names && Unfillable(t, r.value)
    ensures r.None? <==> forall n :: n in names ==> !Unfillable(t, n)
  {
    if |names| == 0 then None
    else if Unfillable(t, names[0]) then Some(names[0])
    else
      assert forall n :: n in names <==> n == names[0] || n in names[1..];
      FirstUnfillable(t, names[1..])
  }

  lemma FirstUnfillableAppend(t: Table, a: seq<string>, b: seq<string>)
    ensures FirstUnfillable(t, a + b) ==
              if FirstUnfillable(t, a).Some? then FirstUnfillable(t, a) else FirstUnfillable(t, b)
  {
    if |a| > 0 {
      assert (a + b)[1..] == a[1..] + b;
      FirstUnfillableAppend(t, a[1..], b);
    } else {
      assert a + b == b;
    }
  }

  function ModeOrMissing(t: Table, name: string): Value {
    match Mode(ColumnValues(t, name))
    case Some(m) => m
    case None => Missing
  }

  /** A cell after the fill: missing cells of the columns `names` take their column's mode in `t`. */
  function FilledCell(t: Table, names: seq<string>, k: string, v: Value): Value {
    if k in names && v == Missing then ModeOrMissing(t, k) else v
  }

  function FillWithModes(t: Table, names: seq<string>): (r: Table)
    ensures r.columns == t.columns && |r.rows| == |t.rows|
    ensures forall i :: 0 <= i < |r.rows| ==> r.rows[i].Keys == t.rows[i].Keys
    ensures forall i, k :: 0 <= i < |r.rows| && k in t.rows[i] ==>
              r.rows[i][k] == FilledCell(t, names, k, t.rows[i][k])
  {
    Table(t.columns, seq(|t.rows|, i requires 0 <= i < |t.rows| =>
      map k | k in t.rows[i] :: FilledCell(t, names, k, t.rows[i][k])))
  }

  /** The mode fill of every object column, which fails on the first column without a mode. */
  function ModeFill(t: Table): (r: Result<Table, Error>)
    ensures r.Failure? ==> r.error.NoMode? && r.error.name in NamesOfKinds(t.columns, {Object})
    ensures r.Success? ==> r.value.columns == t.columns && |r.value.rows| == |t.rows|
    ensures r.Success? ==> forall i :: 0 <= i < |t.rows| ==> r.value.rows[i].Keys == t.rows[i].Keys
  {
    var objects := NamesOfKinds(t.columns, {Object});
    match FirstUnfillable(t, objects)
    case Some(n) => Failure(NoMode(n))
    case None => Success(FillWithModes(t, objects))
  }

  /**
   * The fill fails only on an object column that has rows and nothing but
   * missing cells. Otherwise no object column keeps a missing cell, every
   * filled cell holds its column's mode, and every other cell is unchanged.
   */
  lemma ModeFillSpec(t: Table)
    requires WellFormed(t)
    ensures ModeFill(t).Failure? <==>
              exists c :: c in t.columns && c.kind == Object && Unfillable(t, c.name)
    ensures ModeFill(t).Failure? ==> ModeFill(t).error.NoMode? && Unfillable(t, ModeFill(t).error.name)
    ensures ModeFill(t).Success? ==>
              var r := ModeFill(t).value;
              r.columns == t.columns && |r.rows| == |t.rows| &&
              (forall i, c :: 0 <= i < |r.rows| && c in r.columns && c.kind == Object ==>
                 c.name in r.rows[i] && r.rows[i][c.name] != Missing) &&
              (forall i, k :: 0 <= i < |r.rows| && k in t.rows[i] && t.rows[i][k] != Missing ==>
                 k in r.rows[i] && r.rows[i][k] == t.rows[i][k]) &&
              (forall i, k ::
                 (0 <= i < |r.rows| && k in t.rows[i] && t.rows[i][k] == Missing && k in NamesOfKinds(t.columns, {Object})) ==>
                 Mode(ColumnValues(t, k)).Some? && k in r.rows[i] && r.rows[i][k] == Mode(ColumnValues(t, k)).value)
  {
    var objects := NamesOfKinds(t.columns, {Object});
    match FirstUnfillable(t, objects)
    case Some(n) =>
    case None =>
      var r := ModeFill(t).value;
      forall i, c | 0 <= i < |r.rows| && c in r.columns && c.kind == Object
        ensures c.name in r.rows[i] && r.rows[i][c.name] != Missing
      {
        ColumnInNames(t.columns, c);
        assert c.name in set n | n in Names(t.columns);
        FilledCellNotMissing(t, i, c.name, objects);
      }
      forall i, k | 0 <= i < |r.rows| && k in t.rows[i] && t.rows[i][k] == Missing && k in objects
        ensures Mode(ColumnValues(t, k)).Some? && k in r.rows[i] && r.rows[i][k] == Mode(ColumnValues(t, k)).value
      {
        FilledCellNotMissing(t, i, k, objects);
      }
  }

  lemma FilledCellNotMissing(t: Table, i: nat, k: string, names: seq<string>)
    requires i < |t.rows| && k in t.rows[i] && k in names && !Unfillable(t, k)
    ensures t.rows[i][k] == Missing ==> Mode(ColumnValues(t, k)).Some?
    ensures FillWithModes(t, names).rows[i][k] != Missing
  {
    var vals := ColumnValues(t, k);
    ModeIsMostFrequent(vals);
    if t.rows[i][k] == Missing {
      assert vals[i] == Missing;
    }
  }

  lemma FillKeepsColumn(t: Table, names: seq<string>, col: string)
    requires col !in names
    ensures ColumnValues(FillWithModes(t, names), col) == ColumnValues(t, col)
  {
  }

  lemma FillNothing(t: Table)
    ensures FillWithModes(t, []) == t
  {
    var a := FillWithModes(t, []);
    forall i | 0 <= i < |a.rows| ensures a.rows[i] == t.rows[i] {
    }
    assert a.rows == t.rows;
  }

  /** Filling one more column with a missing cell is `fillna(mode)` on that column. */
  lemma FillStep(t: Table, names: seq<string>, col: string)
    requires col !in names
    ensures FillColumn(FillWithModes(t, names), col, ModeOrMissing(t, col)) == FillWithModes(t, names + [col])
  {
    var a := FillColumn(FillWithModes(t, names), col, ModeOrMissing(t, col));
    var b := FillWithModes(t, names + [col]);
    forall i | 0 <= i < |a.rows| ensures a.rows[i] == b.rows[i] {
      FillStepRow(t, names, col, i);
    }
    assert a.rows == b.rows;
  }

  lemma FillStepRow(t: Table, names: seq<string>, col: string, i: nat)
    requires col !in names && i < |t.rows|
    ensures FillColumn(FillWithModes(t, names), col, ModeOrMissing(t, col)).rows[i] ==
            FillWithModes(t, names + [col]).rows[i]
  {
    var f := FillWithModes(t, names);
    var a := FillColumn(f, col, ModeOrMissing(t, col));
    var b := FillWithModes(t, names + [col]);
    assert a.rows[i].Keys == b.rows[i].Keys;
    forall k | k in t.rows[i] ensures a.rows[i][k] == b.rows[i][k] {
      FillStepKey(t, names, col, i, k);
    }
  }

  lemma FillStepKey(t: Table, names: seq<string>, col: string, i: nat, k: string)
    requires col !in names && i < |t.rows| && k in t.rows[i]
    ensures k in FillColumn(FillWithModes(t, names), col, ModeOrMissing(t, col)).rows[i]
    ensures k in FillWithModes(t, names + [col]).rows[i]
    ensures FillColumn(FillWithModes(t, names), col, ModeOrMissing(t, col)).rows[i][k] ==
            FillWithModes(t, names + [col]).rows[i][k]
  {
    var f := FillWithModes(t, names);
    var v := t.rows[i][k];
    assert f.rows[i][k] == FilledCell(t, names, k, v);
    FillStepCell(t, names, col, k, v);
  }

  /** Filling `col` after `names` fills one cell as filling `names + [col]` at once does. */
  lemma FillStepCell(t: Table, names: seq<string>, col: string, k: string, v: Value)
    requires col !in names
    ensures (var w := FilledCell(t, names, k, v);
             if k == col && w == Missing then ModeOrMissing(t, col) else w) == FilledCell(t, names + [col], k, v)
  {
    assert k in names + [col] <==> k in names || k == col;
  }

  /** A column without missing cells is left as it is. */
  lemma FillSkip(t: Table, names: seq<string>, col: string)
    requires Missing !in ColumnValues(t, col)
    ensures FillWithModes(t, names + [col]) == FillWithModes(t, names)
  {
    var a := FillWithModes(t, names + [col]);
    var b := FillWithModes(t, names);
    forall i | 0 <= i < |a.rows| ensures a.rows[i] == b.rows[i] {
      forall k | k in t.rows[i] ensures a.rows[i][k] == b.rows[i][k] {
        assert k in names + [col] <==> k in names || k == col;
        if k == col {
          assert ColumnValues(t, col)[i] == t.rows[i][col];
        }
      }
    }
    assert a.rows == b.rows;
  }

  // ---------------------------------------------------------------------------
  // clean_data
  // ---------------------------------------------------------------------------

  /** The cleaned table: the steps of `clean_data` in order. */
  function CleanSpec(t: Table): (r: Result<Table, Error>)
    ensures r.Failure? ==> r.error.NoMode?
    ensures r.Success? ==> r.value.columns == Prepared(t).columns
    ensures r.Success? ==> |r.value.rows| == |Distinct(Prepared(t).rows)|
  {
    var p := Prepared(t);
    ModeFill(Table(p.columns, Distinct(p.rows)))
  }

  /** The identifier drop, the `TotalCharges` coercion and the `SeniorCitizen` relabelling, in place. */
  method PrepareColumns(out: Frame)
    modifies out
    ensures out.Snapshot() == Prepared(old(out.Snapshot()))
  {
    if HasColumn(out.Snapshot(), "customerID") {
      out.DropColumn("customerID");
    }
    if HasColumn(out.Snapshot(), "TotalCharges") {
      out.SetColumn(Column("TotalCharges", Numeric), CoercedCharges(out.Snapshot()));
    }
    if HasColumn(out.Snapshot(), "SeniorCitizen") {
      out.SetColumn(Column("SeniorCitizen", Object), SeniorLabels(out.Snapshot()));
    }
  }

  /** One pass of the fill loop: what filling `objects[j]` does to the state and to the error. */
  lemma FillLoopStep(start: Table, objects: seq<string>, j: nat)
    requires j < |objects| && NoDuplicates(objects)
    requires FirstUnfillable(start, objects[..j]) == None
    ensures ColumnValues(FillWithModes(start, objects[..j]), objects[j]) == ColumnValues(start, objects[j])
    ensures objects[..j + 1] == objects[..j] + [objects[j]]
    ensures Unfillable(start, objects[j]) ==> FirstUnfillable(start, objects) == Some(objects[j])
    ensures !Unfillable(start, objects[j]) ==> FirstUnfillable(start, objects[..j + 1]) == None
  {
    var col := objects[j];
    assert col !in objects[..j];
    FillKeepsColumn(start, objects[..j], col);
    assert objects[..j + 1] == objects[..j] + [col];
    FirstUnfillableAppend(start, objects[..j], [col]);
    assert objects == objects[..j + 1] + objects[j + 1..];
    FirstUnfillableAppend(start, objects[..j + 1], objects[j + 1..]);
  }

  /**
   * The loop over the object columns: each column with a missing cell is
   * filled with its mode; a column without a mode stops the loop with an error.
   */
  method FillObjectColumns(out: Frame) returns (failed: Option<string>)
    requires DistinctNames(out.columns)
    modifies out
    ensures failed.None? ==> ModeFill(old(out.Snapshot())) == Success(out.Snapshot())
    ensures failed.Some? ==> ModeFill(old(out.Snapshot())) == Failure(NoMode(failed.value))
  {
    var objects := NamesOfKinds(out.columns, {Object});
    ghost var start := out.Snapshot();
    FillNothing(start);
    for j := 0 to |objects|
      invariant out.Snapshot() == FillWithModes(start, objects[..j])
      invariant FirstUnfillable(start, objects[..j]) == None
    {
      var col := objects[j];
      FillLoopStep(start, objects, j);
      var values := ColumnValues(out.Snapshot(), col);
      if Missing in values {
        var m := Mode(values);
        if m.None? {
          return Some(col);
        }
        out.FillMissing(col, m.value);
        FillStep(start, objects[..j], col);
      } else {
        FillSkip(start, objects[..j], col);
      }
    }
    assert objects[..|objects|] == objects;
    return None;
  }

  /**
   * `clean_data` on a copy of the frame. `removed` is the number of duplicate
   * rows dropped; the error is the `KeyError` of `mode()[0]` on an object
   * column whose cells are all missing.
   */
  method CleanData(df: Frame) returns (r: Result<Frame, Error>, removed: nat)
    requires WellFormed(df.Snapshot())
    ensures r.Success? <==> CleanSpec(df.Snapshot()).Success?
    ensures r.Success? ==> fresh(r.value) && r.value.Snapshot() == CleanSpec(df.Snapshot()).value
    ensures r.Failure? ==> r.error == CleanSpec(df.Snapshot()).error
    ensures removed == |Prepared(df.Snapshot()).rows| - |Distinct(Prepared(df.Snapshot()).rows)|
  {
    var out := df.Copy();
    PrepareColumns(out);
    ghost var prepared := out.Snapshot();
    assert DistinctNames(prepared.columns) by {
      assert WellFormed(prepared);
    }
    var initial := |out.rows|;
    out.DropDuplicates();
    removed := initial - |out.rows|;
    var failed := FillObjectColumns(out);
    if failed.Some? {
      r := Failure(NoMode(failed.value));
    } else {
      r := Success(out);
    }
  }

  /** The preparation steps keep the table well formed, drop the identifier and coerce every charge. */
  lemma PreparedFacts(t: Table)
    requires WellFormed(t)
    ensures WellFormed(Prepared(t))
    ensures |Prepared(t).rows| == |t.rows|
    ensures !HasColumn(Prepared(t), "customerID")
    ensures HasColumn(t, "TotalCharges") ==>
              forall i :: 0 <= i < |Prepared(t).rows| ==>
                "TotalCharges" in Prepared(t).rows[i] && Prepared(t).rows[i]["TotalCharges"].Num?
  {
    var d0 := DropCustomerId(t);
    var d1 := CoerceTotalCharges(d0);
    AbsentKept(d0, d1, "TotalCharges", "customerID");
    AbsentKept(d1, MapSeniorCitizen(d1), "SeniorCitizen", "customerID");
    if HasColumn(t, "TotalCharges") {
      PreparedCharges(t);
    }
  }

  lemma PreparedCharges(t: Table)
    requires HasColumn(t, "TotalCharges")
    ensures forall i :: 0 <= i < |Prepared(t).rows| ==>
              "TotalCharges" in Prepared(t).rows[i] && Prepared(t).rows[i]["TotalCharges"].Num?
  {
    var d0 := DropCustomerId(t);
    var j := IndexOf(t.columns, "TotalCharges").value;
    assert t.columns[j] in d0.columns;
    ColumnInNames(d0.columns, t.columns[j]);
    var d1 := CoerceTotalCharges(d0);
    var d2 := MapSeniorCitizen(d1);
    forall i | 0 <= i < |d2.rows| ensures "TotalCharges" in d2.rows[i] && d2.rows[i]["TotalCharges"].Num? {
      assert "TotalCharges" in d1.rows[i];
    }
  }

  /** Dropping duplicate rows keeps the table well formed. */
  lemma DedupWellFormed(p: Table)
    requires WellFormed(p)
    ensures WellFormed(Table(p.columns, Distinct(p.rows)))
  {
    var s := Table(p.columns, Distinct(p.rows));
    forall i | 0 <= i < |s.rows| ensures s.rows[i].Keys == set n | n in Names(s.columns) {
      assert s.rows[i] in p.rows;
    }
  }

  /**
   * What `clean_data` promises of its result: no identifier column, numeric
   * `TotalCharges` in every row, one row per distinct prepared row (duplicates
   * are dropped before the fill, so the fill itself may make rows equal), no
   * more rows than the input, and no missing cell left in any object column.
   */
  lemma CleanSpecProperties(t: Table)
    requires WellFormed(t)
    requires CleanSpec(t).Success?
    ensures WellFormed(CleanSpec(t).value)
    ensures !HasColumn(CleanSpec(t).value, "customerID")
    ensures |CleanSpec(t).value.rows| <= |t.rows|
    ensures NoDuplicates(Distinct(Prepared(t).rows))
    ensures |CleanSpec(t).value.rows| == |Distinct(Prepared(t).rows)|
    ensures HasColumn(t, "TotalCharges") ==>
              forall i :: 0 <= i < |CleanSpec(t).value.rows| ==>
                "TotalCharges" in CleanSpec(t).value.rows[i] && CleanSpec(t).value.rows[i]["TotalCharges"].Num?
    ensures forall i, c :: 0 <= i < |CleanSpec(t).value.rows| && c in CleanSpec(t).value.columns && c.kind == Object ==>
              c.name in CleanSpec(t).value.rows[i] && CleanSpec(t).value.rows[i][c.name] != Missing
    ensures forall n :: HasColumn(t, n) && n != "customerID" ==> HasColumn(CleanSpec(t).value, n)
    ensures forall i :: 0 <= i < |CleanSpec(t).value.rows| ==>
              exists j :: 0 <= j < |t.rows| && CleanedFrom(t.rows[j], CleanSpec(t).value.rows[i])
  {
    CleanSpecTraces(t);
    PreparedFacts(t);
    CleanSpecShape(t);
    if HasColumn(t, "TotalCharges") {
      CleanSpecCharges(t);
    }
    CleanSpecFilled(t);
    DistinctKeepsFirstOccurrences(Prepared(t).rows);
  }

  /** No object column of the cleaned table holds a missing cell. */
  lemma CleanSpecFilled(t: Table)
    requires WellFormed(t)
    requires CleanSpec(t).Success?
    ensures forall i, c :: 0 <= i < |CleanSpec(t).value.rows| && c in CleanSpec(t).value.columns && c.kind == Object ==>
              c.name in CleanSpec(t).value.rows[i] && CleanSpec(t).value.rows[i][c.name] != Missing
  {
    var p := Prepared(t);
    var s := Table(p.columns, Distinct(p.rows));
    PreparedFacts(t);
    DedupWellFormed(p);
    assert CleanSpec(t) == ModeFill(s);
    FillLeavesNoMissing(s);
  }

  lemma FillLeavesNoMissing(s: Table)
    requires WellFormed(s) && ModeFill(s).Success?
    ensures forall i, c :: 0 <= i < |ModeFill(s).value.rows| && c in ModeFill(s).value.columns && c.kind == Object ==>
              c.name in ModeFill(s).value.rows[i] && ModeFill(s).value.rows[i][c.name] != Missing
  {
    ModeFillSpec(s);
  }

  /** Every input column but the identifier survives cleaning, and every cleaned row comes from an input row. */
  lemma CleanSpecTraces(t: Table)
    requires WellFormed(t)
    requires CleanSpec(t).Success?
    ensures forall n :: HasColumn(t, n) && n != "customerID" ==> HasColumn(CleanSpec(t).value, n)
    ensures forall i :: 0 <= i < |CleanSpec(t).value.rows| ==>
              exists j :: 0 <= j < |t.rows| && CleanedFrom(t.rows[j], CleanSpec(t).value.rows[i])
  {
    forall i | 0 <= i < |CleanSpec(t).value.rows|
      ensures exists j :: 0 <= j < |t.rows| && CleanedFrom(t.rows[j], CleanSpec(t).value.rows[i])
    {
      CleanRowOrigin(t, i);
    }
    PreparedKeepsColumns(t);
  }

  /** The cleaned table is well formed, has the prepared columns and one row per distinct prepared row. */
  lemma CleanSpecShape(t: Table)
    requires WellFormed(t)
    requires CleanSpec(t).Success?
    ensures WellFormed(CleanSpec(t).value)
    ensures CleanSpec(t).value.columns == Prepared(t).columns
    ensures |CleanSpec(t).value.rows| == |Distinct(Prepared(t).rows)|
  {
    var p := Prepared(t);
    var s := Table(p.columns, Distinct(p.rows));
    var r := CleanSpec(t).value;
    PreparedFacts(t);
    DedupWellFormed(p);
    ModeFillSpec(s);
    forall i | 0 <= i < |r.rows| ensures r.rows[i].Keys == set n | n in Names(r.columns) {
      assert r.rows[i].Keys == s.rows[i].Keys;
    }
  }

  /** Every cleaned row holds a number under `TotalCharges` when the input has that column. */
  lemma CleanSpecCharges(t: Table)
    requires WellFormed(t)
    requires CleanSpec(t).Success?
    requires HasColumn(t, "TotalCharges")
    ensures forall i :: 0 <= i < |CleanSpec(t).value.rows| ==>
              "TotalCharges" in CleanSpec(t).value.rows[i] && CleanSpec(t).value.rows[i]["TotalCharges"].Num?
  {
    var p := Prepared(t);
    var s := Table(p.columns, Distinct(p.rows));
    PreparedFacts(t);
    DedupWellFormed(p);
    DedupCharges(p.rows);
    FillKeepsPresent(s);
  }

  /** Every kept row is one of the input rows, so a numeric `TotalCharges` survives the dedup. */
  lemma DedupCharges(rows: seq<Row>)
    requires forall i :: 0 <= i < |rows| ==> "TotalCharges" in rows[i] && rows[i]["TotalCharges"].Num?
    ensures forall i :: 0 <= i < |Distinct(rows)| ==>
              "TotalCharges" in Distinct(rows)[i] && Distinct(rows)[i]["TotalCharges"].Num?
  {
    forall i | 0 <= i < |Distinct(rows)|
      ensures "TotalCharges" in Distinct(rows)[i] && Distinct(rows)[i]["TotalCharges"].Num?
    {
      assert Distinct(rows)[i] in rows;
    }
  }

  /** The fill leaves every present cell as it was. */
  lemma FillKeepsPresent(t: Table)
    requires WellFormed(t) && ModeFill(t).Success?
    ensures |ModeFill(t).value.rows| == |t.rows|
    ensures forall i, k :: 0 <= i < |t.rows| && k in t.rows[i] && t.rows[i][k] != Missing ==>
              k in ModeFill(t).value.rows[i] && ModeFill(t).value.rows[i][k] == t.rows[i][k]
  {
    ModeFillSpec(t);
  }

  /** Every input column other than the identifier survives the preparation. */
  lemma PreparedKeepsColumns(t: Table)
    ensures forall n :: HasColumn(t, n) && n != "customerID" ==> HasColumn(Prepared(t), n)
  {
    var d0 := DropCustomerId(t);
    forall n | HasColumn(t, n) && n != "customerID" ensures HasColumn(d0, n) {
      var j := IndexOf(t.columns, n).value;
      assert t.columns[j] in d0.columns;
      ColumnInNames(d0.columns, t.columns[j]);
    }
  }

  /**
   * A cleaned row `r` comes from the input row `src`: the identifier is gone,
   * `TotalCharges` is the coerced input cell, a 0/1 `SeniorCitizen` is its
   * label, and every other present cell is the input cell. Only cells that
   * were missing may have been filled.
   */
  ghost predicate CleanedFrom(src: Row, r: Row) {
    && r.Keys == src.Keys - {"customerID"}
    && ("TotalCharges" in src ==> r["TotalCharges"] == CoerceCharge(src["TotalCharges"]))
    && ("SeniorCitizen" in src && SeniorLabel(src["SeniorCitizen"]) != Missing ==>
          r["SeniorCitizen"] == SeniorLabel(src["SeniorCitizen"]))
    && (forall k :: k in src && k != "customerID" && k != "TotalCharges" && k != "SeniorCitizen" && src[k] != Missing ==>
          r[k] == src[k])
  }

  /** A prepared row is its input row without the identifier, with the charge coerced and the flag relabelled. */
  ghost predicate PreparedFrom(src: Row, r: Row) {
    && r.Keys == src.Keys - {"customerID"}
    && ("TotalCharges" in src ==> r["TotalCharges"] == CoerceCharge(src["TotalCharges"]))
    && ("SeniorCitizen" in src ==> r["SeniorCitizen"] == SeniorLabel(src["SeniorCitizen"]))
    && (forall k :: k in src && k != "customerID" && k != "TotalCharges" && k != "SeniorCitizen" ==> r[k] == src[k])
  }

  lemma DropRow(t: Table, j: nat)
    requires WellFormed(t) && j < |t.rows|
    ensures DropCustomerId(t).rows[j] == t.rows[j] - {"customerID"}
  {
    if !HasColumn(t, "customerID") {
      assert "customerID" !in t.rows[j];
      assert t.rows[j] - {"customerID"} == t.rows[j];
    }
  }

  lemma CoerceRow(u: Table, j: nat)
    requires WellFormed(u) && j < |u.rows|
    ensures CoerceTotalCharges(u).rows[j].Keys == u.rows[j].Keys
    ensures "TotalCharges" in u.rows[j] ==> CoerceTotalCharges(u).rows[j]["TotalCharges"] == CoerceCharge(u.rows[j]["TotalCharges"])
    ensures forall k :: k in u.rows[j] && k != "TotalCharges" ==> CoerceTotalCharges(u).rows[j][k] == u.rows[j][k]
  {
    if HasColumn(u, "TotalCharges") {
      assert "TotalCharges" in u.rows[j];
    }
  }

  lemma SeniorRow(u: Table, j: nat)
    requires WellFormed(u) && j < |u.rows|
    ensures MapSeniorCitizen(u).rows[j].Keys == u.rows[j].Keys
    ensures "SeniorCitizen" in u.rows[j] ==> MapSeniorCitizen(u).rows[j]["SeniorCitizen"] == SeniorLabel(u.rows[j]["SeniorCitizen"])
    ensures forall k :: k in u.rows[j] && k != "SeniorCitizen" ==> MapSeniorCitizen(u).rows[j][k] == u.rows[j][k]
  {
    if HasColumn(u, "SeniorCitizen") {
      assert "SeniorCitizen" in u.rows[j];
    }
  }

  lemma PreparedRow(t: Table, j: nat)
    requires WellFormed(t) && j < |t.rows|
    ensures j < |Prepared(t).rows| && PreparedFrom(t.rows[j], Prepared(t).rows[j])
  {
    var d0 := DropCustomerId(t);
    var d1 := CoerceTotalCharges(d0);
    DropRow(t, j);
    CoerceRow(d0, j);
    SeniorRow(d1, j);
  }

  /** Every cleaned row comes from some input row, as `CleanedFrom` describes. */
  lemma CleanRowOrigin(t: Table, i: nat)
    requires WellFormed(t) && CleanSpec(t).Success? && i < |CleanSpec(t).value.rows|
    ensures exists j :: 0 <= j < |t.rows| && CleanedFrom(t.rows[j], CleanSpec(t).value.rows[i])
  {
    var p := Prepared(t);
    var s := Table(p.columns, Distinct(p.rows));
    var r := CleanSpec(t).value;
    PreparedFacts(t);
    DedupWellFormed(p);
    FillKeepsPresent(s);
    assert r == FillWithModes(s, NamesOfKinds(s.columns, {Object}));
    assert s.rows[i] in p.rows;
    var j :| 0 <= j < |p.rows| && p.rows[j] == s.rows[i];
    PreparedRow(t, j);
    assert r.rows[i].Keys == s.rows[i].Keys;
    assert CleanedFrom(t.rows[j], r.rows[i]);
  }

  // ---------------------------------------------------------------------------
  // get_feature_types
  // ---------------------------------------------------------------------------

  datatype FeatureTypes = FeatureTypes(numerical: seq<string>, categorical: seq<string>)

  /**
   * Numerical (int64/float64) and categorical (object) columns other than the
   * target. Dropping an absent target raises `KeyError`.
   */
  function GetFeatureTypes(t: Table, target: string): (r: Result<FeatureTypes, Error>)
    ensures r.Failure? <==> !HasColumn(t, target)
    ensures r.Failure? ==> r.error == MissingColumn(target)
    ensures r.Success? ==> target !in r.value.numerical && target !in r.value.categorical
    ensures r.Success? ==> forall n :: n in r.value.numerical <==>
              exists c :: c in t.columns && c.name == n && n != target && c.kind == Numeric
    ensures r.Success? ==> forall n :: n in r.value.categorical <==>
              exists c :: c in t.columns && c.name == n && n != target && c.kind == Object
    ensures r.Success? && DistinctNames(t.columns) ==>
              forall n :: n in r.value.numerical ==> n !in r.value.categorical
  {
    if !HasColumn(t, target) then Failure(MissingColumn(target))
    else
      var features := WithoutColumn(t, target);
      KindSelectionsDisjoint(features.columns, {Numeric}, {Object});
      Success(FeatureTypes(NamesOfKinds(features.columns, {Numeric}), NamesOfKinds(features.columns, {Object})))
  }
}
