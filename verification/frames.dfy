/**
 * A pandas DataFrame as far as the churn pipeline uses it: an ordered list of
 * typed columns and a sequence of rows, each row a map from column name to cell.
 * Values are the pure view (`Table`); `Frame` is the object that the cleaning and
 * batch-prediction code edits in place.
 */
module Frames {
  import opened Wrappers

  /** One cell: a number, a string, or NaN/None. */
  datatype Value = Num(x: real) | Text(s: string) | Missing

  type Row = map<string, Value>

  /** The dtype families that `select_dtypes` tells apart: int64/float64, object, category, anything else. */
  datatype Kind = Numeric | Object | Category | Other

  datatype Column = Column(name: string, kind: Kind)

  datatype Table = Table(columns: seq<Column>, rows: seq<Row>)

  /** The exceptions the modelled code can raise. */
  datatype Error =
    | MissingColumn(name: string)   // KeyError: df[name], row[name] or df.drop(name) on an absent column
    | NotNumber(name: string)       // TypeError: a text cell compared with or divided as a number
    | NoMode(name: string)          // mode()[0] on a column without any non-missing value
    | NoRows                        // [0] on the predictions of an empty frame
    | LengthMismatch                // a DataFrame built from columns of different lengths
    | NoModelChosen                 // results[None] when no model was selected

  function Names(cols: seq<Column>): (r: seq<string>)
    ensures |r| == |cols|
    ensures forall i :: 0 <= i < |cols| ==> r[i] == cols[i].name
  {
    seq(|cols|, i requires 0 <= i < |cols| => cols[i].name)
  }

  predicate HasColumn(t: Table, name: string) {
    name in Names(t.columns)
  }

  ghost predicate DistinctNames(cols: seq<Column>) {
    forall i, j :: 0 <= i < j < |cols| ==> cols[i].name != cols[j].name
  }

  ghost predicate NoDuplicates<T>(s: seq<T>) {
    forall i, j :: 0 <= i < j < |s| ==> s[i] != s[j]
  }

  /** Column names are unique and every row has exactly the table's columns. */
  ghost predicate WellFormed(t: Table) {
    && DistinctNames(t.columns)
    && forall i :: 0 <= i < |t.rows| ==> t.rows[i].Keys == set n | n in Names(t.columns)
  }

  /** Position of a column, the first one when names repeat. */
  function IndexOf(cols: seq<Column>, name: string): (r: Option<nat>)
    ensures r.Some? ==> r.value < |cols| && cols[r.value].name == name
    ensures r.Some? ==> forall j :: 0 <= j < r.value ==> cols[j].name != name
    ensures r.None? <==> name !in Names(cols)
  {
    if |cols| == 0 then None
    else if cols[0].name == name then Some(0)
    else
      NamesCons(cols);
      match IndexOf(cols[1..], name)
      case None => None
      case Some(k) =>
        assert forall j :: 1 <= j <= k + 1 ==> cols[j] == cols[1..][j - 1];
        Some(k + 1)
  }

  /** The cells of one column, top to bottom; absent cells read as missing. */
  function ColumnValues(t: Table, name: string): (r: seq<Value>)
    ensures |r| == |t.rows|
    ensures forall i :: 0 <= i < |t.rows| && name in t.rows[i] ==> r[i] == t.rows[i][name]
  {
    seq(|t.rows|, i requires 0 <= i < |t.rows| => if name in t.rows[i] then t.rows[i][name] else Missing)
  }

  /** Where `df[col.name] = ...` puts the column: in place when present, appended otherwise. */
  function PlaceColumn(cols: seq<Column>, col: Column): (r: seq<Column>)
    ensures col.name in Names(r)
    ensures col.name in Names(cols) ==> |r| == |cols|
    ensures col.name !in Names(cols) ==> r == cols + [col]
    ensures forall j :: 0 <= j < |cols| && cols[j].name != col.name ==> r[j] == cols[j]
    ensures forall c :: c in r ==> c in cols || c == col
    ensures (set n | n in Names(r)) == (set n | n in Names(cols)) + {col.name}
    ensures DistinctNames(cols) ==> DistinctNames(r)
  {
    var k := IndexOf(cols, col.name);
    if k.Some? then
      var r := cols[k.value := col];
      assert Names(r) == Names(cols)[k.value := col.name];
      assert Names(r)[k.value] == col.name;
      r
    else
      var r := cols + [col];
      assert Names(r) == Names(cols) + [col.name];
      r
  }

  /**
   * `df[col.name] = values`: an existing column keeps its position and takes the
   * new dtype and cells; a new column is appended on the right.
   */
  function WithColumn(t: Table, col: Column, values: seq<Value>): (r: Table)
    requires |values| == |t.rows|
    ensures |r.rows| == |t.rows|
    ensures HasColumn(r, col.name)
    ensures forall i :: 0 <= i < |r.rows| ==> col.name in r.rows[i] && r.rows[i][col.name] == values[i]
    ensures forall i, k :: 0 <= i < |r.rows| && k != col.name && k in t.rows[i] ==>
              k in r.rows[i] && r.rows[i][k] == t.rows[i][k]
    ensures forall i :: 0 <= i < |r.rows| ==> r.rows[i].Keys == t.rows[i].Keys + {col.name}
    ensures HasColumn(t, col.name) ==> |r.columns| == |t.columns|
    ensures !HasColumn(t, col.name) ==> r.columns == t.columns + [col]
    ensures forall j :: 0 <= j < |t.columns| && t.columns[j].name != col.name ==> t.columns[j] == r.columns[j]
    ensures forall c :: c in r.columns ==> c in t.columns || c == col
    ensures forall c :: c in t.columns && c.name != col.name ==> c in r.columns
    ensures WellFormed(t) ==> WellFormed(r)
  {
    Table(PlaceColumn(t.columns, col),
          seq(|t.rows|, i requires 0 <= i < |t.rows| => t.rows[i][col.name := values[i]]))
  }

  function RemoveName(cols: seq<Column>, name: string): (r: seq<Column>)
    ensures forall c :: c in r <==> c in cols && c.name != name
    ensures forall n :: n in Names(r) <==> n in Names(cols) && n != name
    ensures DistinctNames(cols) ==> DistinctNames(r)
  {
    if |cols| == 0 then []
    else
      var rest := RemoveName(cols[1..], name);
      NamesCons(cols);
      if cols[0].name == name then rest
      else
        var r := [cols[0]] + rest;
        NamesCons(r);
        assert r[1..] == rest;
        RemoveNameDistinct(cols, name, rest);
        r
  }

  lemma NamesCons(cols: seq<Column>)
    requires |cols| > 0
    ensures forall n :: n in Names(cols) <==> n == cols[0].name || n in Names(cols[1..])
  {
    assert Names(cols) == [cols[0].name] + Names(cols[1..]);
  }

  lemma RemoveNameDistinct(cols: seq<Column>, name: string, rest: seq<Column>)
    requires |cols| > 0
    requires forall c :: c in rest <==> c in cols[1..] && c.name != name
    requires DistinctNames(cols[1..]) ==> DistinctNames(rest)
    ensures DistinctNames(cols) ==> DistinctNames([cols[0]] + rest)
  {
    var r := [cols[0]] + rest;
    if DistinctNames(cols) {
      assert DistinctNames(cols[1..]);
      forall i, j | 0 <= i < j < |r| ensures r[i].name != r[j].name {
        if i == 0 {
          assert r[j] in cols[1..];
        }
      }
    }
  }

  /** Assigning one column never brings in a column of another name. */
  lemma WithColumnKeepsAbsent(t: Table, col: Column, values: seq<Value>, n: string)
    requires |values| == |t.rows| && n != col.name && !HasColumn(t, n)
    ensures !HasColumn(WithColumn(t, col, values), n)
  {
    var r := WithColumn(t, col, values);
    if HasColumn(r, n) {
      var j := IndexOf(r.columns, n).value;
      assert r.columns[j] in r.columns;
      ColumnInNames(t.columns, r.columns[j]);
    }
  }

  /** A derived table whose columns, apart from `x`, come from `t` has no column `t` lacks, `x` aside. */
  lemma AbsentKept(t: Table, r: Table, x: string, n: string)
    requires forall c :: c in r.columns && c.name != x ==> c in t.columns
    requires n != x && !HasColumn(t, n)
    ensures !HasColumn(r, n)
  {
    if HasColumn(r, n) {
      var j := IndexOf(r.columns, n).value;
      assert r.columns[j] in r.columns;
      ColumnInNames(t.columns, r.columns[j]);
    }
  }

  /** Appending a column appends its name. */
  lemma NamesAppend(cols: seq<Column>, col: Column)
    ensures Names(cols + [col]) == Names(cols) + [col.name]
  {
  }

  /** Placing one column keeps every other name. */
  lemma PlacePreserves(cols: seq<Column>, col: Column, n: string)
    requires n in Names(cols)
    ensures n in Names(PlaceColumn(cols, col))
  {
    assert n in (set m | m in Names(cols));
  }

  /** `df.drop(name, axis=1)` for a column that is present. */
  function WithoutColumn(t: Table, name: string): (r: Table)
    ensures |r.rows| == |t.rows|
    ensures !HasColumn(r, name)
    ensures forall c :: c in r.columns <==> c in t.columns && c.name != name
    ensures forall i :: 0 <= i < |r.rows| ==> r.rows[i] == t.rows[i] - {name}
    ensures WellFormed(t) ==> WellFormed(r)
    ensures DistinctNames(t.columns) ==> DistinctNames(r.columns)
  {
    var cols := RemoveName(t.columns, name);
    RemoveNameSet(t.columns, name);
    Table(cols, seq(|t.rows|, i requires 0 <= i < |t.rows| => t.rows[i] - {name}))
  }

  lemma RemoveNameSet(cols: seq<Column>, name: string)
    ensures (set n | n in Names(RemoveName(cols, name))) == (set n | n in Names(cols)) - {name}
  {
  }

  /** `df[name].fillna(v, inplace=True)`: missing cells of one column take `v`. */
  function FillColumn(t: Table, name: string, v: Value): (r: Table)
    ensures r.columns == t.columns && |r.rows| == |t.rows|
    ensures forall i :: 0 <= i < |r.rows| ==> r.rows[i].Keys == t.rows[i].Keys
    ensures forall i, k :: 0 <= i < |r.rows| && k in t.rows[i] ==>
              r.rows[i][k] == if k == name && t.rows[i][k] == Missing then v else t.rows[i][k]
    ensures WellFormed(t) ==> WellFormed(r)
  {
    Table(t.columns, seq(|t.rows|, i requires 0 <= i < |t.rows| =>
      if name in t.rows[i] && t.rows[i][name] == Missing then t.rows[i][name := v] else t.rows[i]))
  }

  /**
   * `drop_duplicates()`: the first occurrence of every distinct row, in input
   * order. Defined from the back so that each step looks at a prefix.
   */
  function Distinct(rows: seq<Row>): (r: seq<Row>)
    ensures |r| <= |rows|
    ensures forall x :: x in r <==> x in rows
  {
    if |rows| == 0 then []
    else
      var front := Distinct(rows[..|rows| - 1]);
      var last := rows[|rows| - 1];
      assert rows == rows[..|rows| - 1] + [last];
      if last in front then front else front + [last]
  }

  lemma ColumnInNames(cols: seq<Column>, c: Column)
    requires c in cols
    ensures c.name in Names(cols)
  {
    var j :| 0 <= j < |cols| && cols[j] == c;
    assert Names(cols)[j] == c.name;
  }

  /** `select_dtypes(include=kinds).columns`: names of the columns whose dtype is among `kinds`, in column order. */
  function NamesOfKinds(cols: seq<Column>, kinds: set<Kind>): (r: seq<string>)
    ensures |r| <= |cols|
    ensures forall n :: n in r <==> exists c :: c in cols && c.name == n && c.kind in kinds
    ensures DistinctNames(cols) ==> NoDuplicates(r)
  {
    if |cols| == 0 then []
    else
      var rest := NamesOfKinds(cols[1..], kinds);
      assert forall c :: c in cols <==> c == cols[0] || c in cols[1..];
      assert DistinctNames(cols) ==> DistinctNames(cols[1..]);
      assert DistinctNames(cols) ==> cols[0].name !in rest;
      if cols[0].kind in kinds then [cols[0].name] + rest else rest
  }

  lemma SameNameSameColumn(cols: seq<Column>, c: Column, d: Column)
    requires DistinctNames(cols) && c in cols && d in cols && c.name == d.name
    ensures c == d
  {
    var i :| 0 <= i < |cols| && cols[i] == c;
    var j :| 0 <= j < |cols| && cols[j] == d;
    assert !(i < j) && !(j < i);
  }

  /** Over distinct column names, selections of disjoint dtype sets share no name. */
  lemma KindSelectionsDisjoint(cols: seq<Column>, k1: set<Kind>, k2: set<Kind>)
    requires k1 !! k2
    ensures DistinctNames(cols) ==> forall n :: n in NamesOfKinds(cols, k1) ==> n !in NamesOfKinds(cols, k2)
  {
    forall n | DistinctNames(cols) && n in NamesOfKinds(cols, k1) ensures n !in NamesOfKinds(cols, k2) {
      var c :| c in cols && c.name == n && c.kind in k1;
      forall d | d in cols && d.name == n ensures d.kind !in k2 {
        SameNameSameColumn(cols, c, d);
      }
    }
  }

  /**
   * The mutable DataFrame. Each method performs one pandas edit in place; its
   * effect is stated with the pure operation on `Snapshot()`.
   */
  class Frame {
    var columns: seq<Column>
    var rows: seq<Row>

    function Snapshot(): Table
      reads this
    {
      Table(columns, rows)
    }

    constructor (t: Table)
      ensures Snapshot() == t
    {
      columns := t.columns;
      rows := t.rows;
    }

    /** `df.copy()`. */
    method Copy() returns (c: Frame)
      ensures fresh(c) && c.Snapshot() == Snapshot()
    {
      c := new Frame(Snapshot());
    }

    method SetColumn(col: Column, values: seq<Value>)
      requires |values| == |rows|
      modifies this
      ensures Snapshot() == WithColumn(old(Snapshot()), col, values)
    {
      var t := WithColumn(Snapshot(), col, values);
      columns, rows := t.columns, t.rows;
    }

    method DropColumn(name: string)
      modifies this
      ensures Snapshot() == WithoutColumn(old(Snapshot()), name)
    {
      var t := WithoutColumn(Snapshot(), name);
      columns, rows := t.columns, t.rows;
    }

    method FillMissing(name: string, v: Value)
      modifies this
      ensures Snapshot() == FillColumn(old(Snapshot()), name, v)
    {
      rows := FillColumn(Snapshot(), name, v).rows;
    }

    method DropDuplicates()
      modifies this
      ensures Snapshot() == Table(old(columns), Distinct(old(rows)))
    {
      rows := Distinct(rows);
    }
  }
}
