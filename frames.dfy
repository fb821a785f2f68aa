/** A pandas DataFrame as the ingestion scripts use it: an ordered list of column names and,
    per row, a map from column name to a cell that may be missing (NaN, NaT, NULL). */
module Frames {
  import opened Wrappers
  import opened Sequences

  datatype Date = Date(year: int, month: int, day: int)
  datatype Time = Time(hour: int, minute: int, second: int)

  /** The kinds of cell value the core handles: CSV text and numbers, booleans, parsed dates and times. */
  datatype Value = VStr(s: string) | VInt(i: int) | VBool(b: bool) | VDate(d: Date) | VTime(t: Time)

  /** One row: column name to cell; `None` is a null cell. */
  type Row = map<string, Option<Value>>

  datatype Frame = Frame(columns: seq<string>, rows: seq<Row>)

  /** The cell of `row` in column `c`; a column the row does not carry reads as null. */
  function Cell(row: Row, c: string): Option<Value> {
    if c in row then row[c] else None
  }

  /** Distinct column names, and every row carries exactly the frame's columns. */
  ghost predicate Wellformed(f: Frame) {
    NoDup(f.columns) &&
    forall k :: 0 <= k < |f.rows| ==> f.rows[k].Keys == set c | c in f.columns
  }

  /** `cols` with the names in `drop` removed, the rest in their original order. */
  function Without(cols: seq<string>, drop: set<string>): (r: seq<string>)
    ensures forall c :: c in r <==> c in cols && c !in drop
    ensures IsSubsequence(r, cols)
    ensures NoDup(cols) ==> NoDup(r)
  {
    if cols == [] then []
    else if cols[0] in drop then Without(cols[1..], drop)
    else
      var rest := Without(cols[1..], drop);
      assert NoDup(cols) ==> cols[0] !in cols[1..] && NoDup(cols[1..]);
      assert ([cols[0]] + rest)[1..] == rest;
      [cols[0]] + rest
  }

  /** Removing one set of names and then another is removing both at once. */
  lemma {:induction false} WithoutWithout(cols: seq<string>, a: set<string>, b: set<string>)
    ensures Without(Without(cols, a), b) == Without(cols, a + b)
  {
    if cols != [] {
      WithoutWithout(cols[1..], a, b);
      if cols[0] !in a {
        assert Without(cols, a) == [cols[0]] + Without(cols[1..], a);
        assert Without(cols, a)[1..] == Without(cols[1..], a);
      }
    }
  }

  lemma {:induction false} WithoutAbsent(cols: seq<string>, drop: set<string>)
    requires forall c :: c in cols ==> c !in drop
    ensures Without(cols, drop) == cols
  {
    if cols != [] {
      WithoutAbsent(cols[1..], drop);
      assert cols == [cols[0]] + cols[1..];
    }
  }

  /** Removes the columns in `drop` from the frame and from every row (DataFrame.drop). */
  function DropColumns(f: Frame, drop: set<string>): (r: Frame)
    ensures r.columns == Without(f.columns, drop)
    ensures forall c :: c in r.columns <==> c in f.columns && c !in drop
    ensures IsSubsequence(r.columns, f.columns)
    ensures |r.rows| == |f.rows|
    ensures forall k, c :: 0 <= k < |r.rows| ==>
              Cell(r.rows[k], c) == if c in drop then None else Cell(f.rows[k], c)
    ensures Wellformed(f) ==> Wellformed(r)
  {
    var r := Frame(Without(f.columns, drop), seq(|f.rows|, k requires 0 <= k < |f.rows| => f.rows[k] - drop));
    assert Wellformed(f) ==> forall k :: 0 <= k < |r.rows| ==> r.rows[k].Keys == set c | c in r.columns;
    r
  }

  /** Every cell of column `c` is null (vacuously so for a frame without rows). */
  predicate AllNull(f: Frame, c: string) {
    forall k :: 0 <= k < |f.rows| ==> Cell(f.rows[k], c).None?
  }

  function AllNullColumns(f: Frame): set<string> {
    set c | c in f.columns && AllNull(f, c)
  }

  /** `dropna(axis=1, how='all')`: removes exactly the columns whose every value is null and keeps
      the other columns in order, with every cell of every column as it was. */
  function DropAllNullColumns(f: Frame): (r: Frame)
    ensures r.columns == Without(f.columns, AllNullColumns(f))
    ensures forall c :: c in r.columns <==> c in f.columns && !AllNull(f, c)
    ensures IsSubsequence(r.columns, f.columns)
    ensures |r.rows| == |f.rows|
    ensures forall k, c :: 0 <= k < |r.rows| && c in f.columns ==> Cell(r.rows[k], c) == Cell(f.rows[k], c)
    ensures Wellformed(f) ==> Wellformed(r)
  {
    DropColumns(f, AllNullColumns(f))
  }

  /** `drop(columns=[name], errors='ignore')`: removes the column when it is there. */
  function DropColumn(f: Frame, name: string): (r: Frame)
    ensures r.columns == Without(f.columns, {name})
    ensures forall c :: c in r.columns <==> c in f.columns && c != name
    ensures IsSubsequence(r.columns, f.columns)
    ensures |r.rows| == |f.rows|
    ensures forall k, c :: 0 <= k < |r.rows| && c != name ==> Cell(r.rows[k], c) == Cell(f.rows[k], c)
    ensures forall k :: 0 <= k < |r.rows| ==> Cell(r.rows[k], name).None?
    ensures Wellformed(f) ==> Wellformed(r)
  {
    DropColumns(f, {name})
  }

  /** A column that is not there is no error: dropping it leaves a well-formed frame as it is. */
  lemma DropAbsentColumn(f: Frame, name: string)
    requires Wellformed(f) && name !in f.columns
    ensures DropColumn(f, name) == f
  {
    WithoutAbsent(f.columns, {name});
    var r := DropColumn(f, name);
    forall k | 0 <= k < |f.rows| ensures r.rows[k] == f.rows[k] {
      assert name !in f.rows[k].Keys;
      assert r.rows[k] == f.rows[k] - {name};
    }
  }

  function FillCell(row: Row, col: string, lit: Value): Row {
    if Cell(row, col).None? then row[col := Some(lit)] else row
  }

  /** `df[col].fillna(lit)`: the nulls of `col` become `lit`; nothing else changes. */
  function FillNull(f: Frame, col: string, lit: Value): (r: Frame)
    ensures r.columns == f.columns && |r.rows| == |f.rows|
    ensures forall k :: 0 <= k < |r.rows| ==> Cell(r.rows[k], col).Some?
    ensures forall k :: 0 <= k < |r.rows| && Cell(f.rows[k], col).None? ==> Cell(r.rows[k], col) == Some(lit)
    ensures forall k :: 0 <= k < |r.rows| && Cell(f.rows[k], col).Some? ==> Cell(r.rows[k], col) == Cell(f.rows[k], col)
    ensures forall k, c :: 0 <= k < |r.rows| && c != col ==> Cell(r.rows[k], c) == Cell(f.rows[k], c)
    ensures Wellformed(f) && col in f.columns ==> Wellformed(r)
  {
    Frame(f.columns, seq(|f.rows|, k requires 0 <= k < |f.rows| => FillCell(f.rows[k], col, lit)))
  }

  /** Filling replaces only nulls, so filling a second time changes nothing. */
  lemma FillNullIdempotent(f: Frame, col: string, lit: Value)
    ensures FillNull(FillNull(f, col, lit), col, lit) == FillNull(f, col, lit)
  {
    var once := FillNull(f, col, lit);
    var twice := FillNull(once, col, lit);
    forall k | 0 <= k < |f.rows| ensures twice.rows[k] == once.rows[k] {
      assert Cell(once.rows[k], col).Some?;
    }
  }

  /** Python truthiness, the rule `astype(bool)` applies to each cell: empty text and zero are false,
      a boolean is itself, and a null (NaN) is true, as it is for a float NaN. */
  function Truthy(v: Option<Value>): (b: bool)
    ensures !b <==> v == Some(VBool(false)) || v == Some(VInt(0)) || v == Some(VStr(""))
  {
    match v
    case None => true
    case Some(VBool(b)) => b
    case Some(VInt(i)) => i != 0
    case Some(VStr(s)) => s != ""
    case Some(_) => true
  }

  function CoerceCell(row: Row, col: string): Row {
    row[col := Some(VBool(Truthy(Cell(row, col))))]
  }

  /** `df[col] = df[col].astype(bool)`: the column holds only booleans, each the truthiness of the
      old cell; no other column is altered. */
  function CoerceBool(f: Frame, col: string): (r: Frame)
    ensures r.columns == f.columns && |r.rows| == |f.rows|
    ensures forall k :: 0 <= k < |r.rows| ==> Cell(r.rows[k], col).Some? && Cell(r.rows[k], col).value.VBool?
    ensures forall k :: 0 <= k < |r.rows| ==> Cell(r.rows[k], col) == Some(VBool(Truthy(Cell(f.rows[k], col))))
    ensures forall k, c :: 0 <= k < |r.rows| && c != col ==> Cell(r.rows[k], c) == Cell(f.rows[k], c)
    ensures Wellformed(f) && col in f.columns ==> Wellformed(r)
  {
    Frame(f.columns, seq(|f.rows|, k requires 0 <= k < |f.rows| => CoerceCell(f.rows[k], col)))
  }

  ghost predicate BoolColumn(f: Frame, col: string) {
    forall k :: 0 <= k < |f.rows| ==> Cell(f.rows[k], col).Some? && Cell(f.rows[k], col).value.VBool?
  }

  /** Coercing a column that already holds only booleans is the identity. */
  lemma CoerceBoolOnBooleans(f: Frame, col: string)
    requires BoolColumn(f, col)
    ensures CoerceBool(f, col) == f
  {
    var r := CoerceBool(f, col);
    forall k | 0 <= k < |f.rows| ensures r.rows[k] == f.rows[k] {
      assert col in f.rows[k];
      assert r.rows[k] == f.rows[k][col := f.rows[k][col]];
    }
  }

  /** The row restricted to `cols`, with a null for each column it does not carry. */
  function Project(row: Row, cols: seq<string>): (r: Row)
    ensures r.Keys == set c | c in cols
    ensures forall c :: Cell(r, c) == if c in cols then Cell(row, c) else None
  {
    map c | c in cols :: Cell(row, c)
  }
}
