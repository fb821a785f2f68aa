/** The `preprocess_data` pipeline shared by process_data.py and data_cleaning.py: prune all-null
    columns, drop `driver_age_raw`, fill nulls of `search_type` and `vehicle_number`, coerce the
    three flag columns to booleans, then parse `stop_date` and `stop_time`. The two scripts differ
    only in how a time cell is parsed, so the parsers are parameters here. */
module Normalizer {
  import opened Wrappers
  import opened Sequences
  import opened Frames
  import opened Columns

  /** The columns coerced to booleans, in the order the loop visits them. */
  const Flags: seq<string> := [SearchConducted, IsArrested, DrugsRelatedStop]
  const NoSearch := "None Conducted"
  const UnknownVehicle := "Unknown"

  /** Columns the pipeline reads after pruning; a missing one is a KeyError. */
  const Needed: set<string> := {SearchType, VehicleNumber, SearchConducted, IsArrested, DrugsRelatedStop, StopDate, StopTime}

  /** KeyError on a column the pipeline needs, or a date/time cell the parser rejects. */
  datatype PrepError = MissingColumn(column: string) | ParseError(column: string, row: nat, raw: Value)

  /** Steps 1 and 2: all-null columns and `driver_age_raw` removed, nothing else. */
  function Pruned(df: Frame): (r: Frame)
    ensures r.columns == Without(df.columns, AllNullColumns(df) + {DriverAgeRaw})
    ensures |r.rows| == |df.rows|
    ensures forall k, c :: 0 <= k < |r.rows| && c in df.columns && c != DriverAgeRaw ==> Cell(r.rows[k], c) == Cell(df.rows[k], c)
    ensures Wellformed(df) ==> Wellformed(r)
  {
    WithoutWithout(df.columns, AllNullColumns(df), {DriverAgeRaw});
    DropColumn(DropAllNullColumns(df), DriverAgeRaw)
  }

  /** Steps 3 and 4: `search_type` nulls become "None Conducted", `vehicle_number` nulls "Unknown". */
  function Filled(f: Frame): (r: Result<Frame, PrepError>)
    ensures r.Ok? <==> SearchType in f.columns && VehicleNumber in f.columns
    ensures r.Err? ==> r.error == MissingColumn(if SearchType !in f.columns then SearchType else VehicleNumber)
    ensures r.Ok? ==> r.value.columns == f.columns && |r.value.rows| == |f.rows|
    ensures r.Ok? ==> forall k :: 0 <= k < |f.rows| ==>
              Cell(r.value.rows[k], SearchType) == FilledWith(Cell(f.rows[k], SearchType), NoSearch) &&
              Cell(r.value.rows[k], VehicleNumber) == FilledWith(Cell(f.rows[k], VehicleNumber), UnknownVehicle)
    ensures r.Ok? ==> forall k, c :: 0 <= k < |f.rows| && c != SearchType && c != VehicleNumber ==>
              Cell(r.value.rows[k], c) == Cell(f.rows[k], c)
    ensures r.Ok? && Wellformed(f) ==> Wellformed(r.value)
  {
    if SearchType !in f.columns then Err(MissingColumn(SearchType))
    else
      var f1 := FillNull(f, SearchType, VStr(NoSearch));
      if VehicleNumber !in f1.columns then Err(MissingColumn(VehicleNumber))
      else Ok(FillNull(f1, VehicleNumber, VStr(UnknownVehicle)))
  }

  /** The cell after a fill: a null becomes the literal, a value stays. */
  function FilledWith(v: Option<Value>, lit: string): Option<Value> {
    if v.None? then Some(VStr(lit)) else v
  }

  /** Step 5, the loop over the flag columns: each must exist and becomes boolean. */
  function CoercedAll(f: Frame, cols: seq<string>): (r: Result<Frame, PrepError>)
    ensures r.Ok? <==> forall c :: c in cols ==> c in f.columns
    ensures r.Err? ==> r.error.MissingColumn? && r.error.column in cols && r.error.column !in f.columns
    ensures r.Ok? ==> r.value.columns == f.columns && |r.value.rows| == |f.rows|
    ensures r.Ok? ==> forall k, c :: 0 <= k < |f.rows| && c in cols ==>
              Cell(r.value.rows[k], c) == Some(VBool(Truthy(Cell(f.rows[k], c))))
    ensures r.Ok? ==> forall k, c :: 0 <= k < |f.rows| && c !in cols ==> Cell(r.value.rows[k], c) == Cell(f.rows[k], c)
    ensures r.Ok? && Wellformed(f) ==> Wellformed(r.value)
    decreases |cols|
  {
    if cols == [] then Ok(f)
    else if cols[0] !in f.columns then Err(MissingColumn(cols[0]))
    else
      var g := CoerceBool(f, cols[0]);
      var r := CoercedAll(g, cols[1..]);
      assert forall c :: c in cols <==> c == cols[0] || c in cols[1..];
      assert r.Ok? ==> forall k, c :: 0 <= k < |f.rows| && c in cols ==>
               Cell(r.value.rows[k], c) == Some(VBool(Truthy(Cell(f.rows[k], c)))) by {
        if r.Ok? {
          forall k, c | 0 <= k < |f.rows| && c in cols
            ensures Cell(r.value.rows[k], c) == Some(VBool(Truthy(Cell(f.rows[k], c))))
          {
            var t := Truthy(Cell(f.rows[k], c));
            if c == cols[0] {
              assert Cell(g.rows[k], c) == Some(VBool(t));
              if c in cols[1..] {
                assert Cell(r.value.rows[k], c) == Some(VBool(Truthy(Cell(g.rows[k], c))));
              } else {
                assert Cell(r.value.rows[k], c) == Cell(g.rows[k], c);
              }
            } else {
              assert c in cols[1..];
              assert Cell(g.rows[k], c) == Cell(f.rows[k], c);
            }
          }
        }
      }
      r
  }

  /** A cell the parser accepts: null (it becomes NaT) or a value the parser maps to some result. */
  predicate Parses(row: Row, col: string, parse: Value -> Option<Value>) {
    Cell(row, col).None? || parse(Cell(row, col).value).Some?
  }

  /** The index of the first row whose `col` cell the parser rejects. */
  function FirstUnparsable(rows: seq<Row>, col: string, parse: Value -> Option<Value>): (r: Option<nat>)
    ensures r.None? <==> forall k :: 0 <= k < |rows| ==> Parses(rows[k], col, parse)
    ensures r.Some? ==> r.value < |rows| && !Parses(rows[r.value], col, parse)
    ensures r.Some? ==> forall k :: 0 <= k < r.value ==> Parses(rows[k], col, parse)
  {
    if rows == [] then None
    else if !Parses(rows[0], col, parse) then Some(0)
    else
      var rest := FirstUnparsable(rows[1..], col, parse);
      assert forall k :: 0 < k < |rows| ==> rows[k] == rows[1..][k - 1];
      match rest
      case None => None
      case Some(k) => Some(k + 1)
  }

  function ParseCell(row: Row, col: string, parse: Value -> Option<Value>): Row
    requires Parses(row, col, parse)
  {
    if Cell(row, col).None? then row else row[col := parse(Cell(row, col).value)]
  }

  /** `df[col] = pd.to_datetime(df[col])...`: every non-null cell is replaced by its parse; the first
      cell that does not parse raises an error naming the row and the raw value. */
  function ParseColumn(f: Frame, col: string, parse: Value -> Option<Value>): (r: Result<Frame, PrepError>)
    ensures r.Ok? <==> forall k :: 0 <= k < |f.rows| ==> Parses(f.rows[k], col, parse)
    ensures r.Err? ==> r.error.ParseError? && r.error.column == col && r.error.row < |f.rows|
    ensures r.Err? ==> Cell(f.rows[r.error.row], col) == Some(r.error.raw) && parse(r.error.raw).None?
    ensures r.Ok? ==> r.value.columns == f.columns && |r.value.rows| == |f.rows|
    ensures r.Ok? ==> forall k :: 0 <= k < |f.rows| && Cell(f.rows[k], col).None? ==> Cell(r.value.rows[k], col).None?
    ensures r.Ok? ==> forall k :: 0 <= k < |f.rows| && Cell(f.rows[k], col).Some? ==>
              Cell(r.value.rows[k], col) == parse(Cell(f.rows[k], col).value) && Cell(r.value.rows[k], col).Some?
    ensures r.Ok? ==> forall k, c :: 0 <= k < |f.rows| && c != col ==> Cell(r.value.rows[k], c) == Cell(f.rows[k], c)
    ensures r.Ok? && Wellformed(f) && col in f.columns ==> Wellformed(r.value)
  {
    match FirstUnparsable(f.rows, col, parse)
    case Some(k) => Err(ParseError(col, k, Cell(f.rows[k], col).value))
    case None =>
      Ok(Frame(f.columns, seq(|f.rows|, k requires 0 <= k < |f.rows| => ParseCell(f.rows[k], col, parse))))
  }

  /** A date parser lifted to cells. */
  function AsDateCell(parseDate: Value -> Option<Date>): Value -> Option<Value> {
    v => if parseDate(v).Some? then Some(VDate(parseDate(v).value)) else None
  }

  /** A time parser lifted to cells. */
  function AsTimeCell(parseTime: Value -> Option<Time>): Value -> Option<Value> {
    v => if parseTime(v).Some? then Some(VTime(parseTime(v).value)) else None
  }

  /** A stop_date or stop_time column that is missing, or a cell of it that its parser rejects. */
  ghost predicate StampError(f: Frame, e: PrepError, parseDate: Value -> Option<Date>, parseTime: Value -> Option<Time>) {
    || (e.MissingColumn? && (e.column == StopDate || e.column == StopTime) && e.column !in f.columns)
    || (e.ParseError? && e.column == StopDate && StopDate in f.columns && e.row < |f.rows| &&
        Cell(f.rows[e.row], StopDate) == Some(e.raw) && parseDate(e.raw).None?)
    || (e.ParseError? && e.column == StopTime && StopTime in f.columns && e.row < |f.rows| &&
        Cell(f.rows[e.row], StopTime) == Some(e.raw) && parseTime(e.raw).None?)
  }

  /** A null date or time stays null; any other cell is replaced by what its parser makes of it. */
  ghost predicate StampedRow(before: Row, after: Row, parseDate: Value -> Option<Date>, parseTime: Value -> Option<Time>) {
    && (Cell(before, StopDate).None? ==> Cell(after, StopDate).None?)
    && (Cell(before, StopDate).Some? ==>
          parseDate(Cell(before, StopDate).value).Some? &&
          Cell(after, StopDate) == Some(VDate(parseDate(Cell(before, StopDate).value).value)))
    && (Cell(before, StopTime).None? ==> Cell(after, StopTime).None?)
    && (Cell(before, StopTime).Some? ==>
          parseTime(Cell(before, StopTime).value).Some? &&
          Cell(after, StopTime) == Some(VTime(parseTime(Cell(before, StopTime).value).value)))
  }

  /** Steps 6 and 7: `stop_date` and then `stop_time` must exist and parse. */
  function Stamped(f: Frame, parseDate: Value -> Option<Date>, parseTime: Value -> Option<Time>): (r: Result<Frame, PrepError>)
    ensures r.Ok? <==> (
      && StopDate in f.columns && StopTime in f.columns
      && (forall k :: 0 <= k < |f.rows| ==> Parses(f.rows[k], StopDate, AsDateCell(parseDate)))
      && (forall k :: 0 <= k < |f.rows| ==> Parses(f.rows[k], StopTime, AsTimeCell(parseTime))))
    ensures r.Err? ==> StampError(f, r.error, parseDate, parseTime)
    ensures r.Ok? ==> r.value.columns == f.columns && |r.value.rows| == |f.rows|
    ensures r.Ok? ==> forall k :: 0 <= k < |f.rows| ==> StampedRow(f.rows[k], r.value.rows[k], parseDate, parseTime)
    ensures r.Ok? ==> forall k, c :: 0 <= k < |f.rows| && c != StopDate && c != StopTime ==>
              Cell(r.value.rows[k], c) == Cell(f.rows[k], c)
    ensures r.Ok? && Wellformed(f) ==> Wellformed(r.value)
  {
    if StopDate !in f.columns then Err(MissingColumn(StopDate))
    else
      match ParseColumn(f, StopDate, AsDateCell(parseDate))
      case Err(e) => Err(e)
      case Ok(g) =>
        if StopTime !in g.columns then Err(MissingColumn(StopTime))
        else ParseColumn(g, StopTime, AsTimeCell(parseTime))
  }

  /** Steps 3 to 7, applied to the pruned frame. */
  function Normalized(p: Frame, parseDate: Value -> Option<Date>, parseTime: Value -> Option<Time>): Result<Frame, PrepError> {
    match Filled(p)
    case Err(e) => Err(e)
    case Ok(f1) =>
      match CoercedAll(f1, Flags)
      case Err(e) => Err(e)
      case Ok(f2) => Stamped(f2, parseDate, parseTime)
  }

  /** The whole pipeline of `preprocess_data`, as a function of its input frame. */
  function Preprocessed(df: Frame, parseDate: Value -> Option<Date>, parseTime: Value -> Option<Time>): (r: Result<Frame, PrepError>)
    ensures r.Ok? ==> |r.value.rows| == |df.rows|
    ensures r.Ok? ==> r.value.columns == Without(df.columns, AllNullColumns(df) + {DriverAgeRaw})
  {
    Normalized(Pruned(df), parseDate, parseTime)
  }

  /** How one output row of a successful run relates to its input row; `kept` are the output's columns. */
  ghost predicate CleanedRow(before: Row, after: Row, parseDate: Value -> Option<Date>, parseTime: Value -> Option<Time>,
                             kept: seq<string>) {
    && Cell(after, SearchType) == FilledWith(Cell(before, SearchType), NoSearch)
    && Cell(after, VehicleNumber) == FilledWith(Cell(before, VehicleNumber), UnknownVehicle)
    && (forall c :: c in Flags ==> Cell(after, c) == Some(VBool(Truthy(Cell(before, c)))))
    && StampedRow(before, after, parseDate, parseTime)
    && (forall c :: c in kept && c !in Needed ==> Cell(after, c) == Cell(before, c))
  }

  /** Every column the pipeline reads survives pruning. */
  ghost predicate NeededPresent(df: Frame) {
    forall c :: c in Needed ==> c in df.columns && !AllNull(df, c)
  }

  /** The column names the pipeline treats specially are pairwise different. */
  lemma NamesDistinct()
    ensures SearchType !in Flags && VehicleNumber !in Flags && StopDate !in Flags && StopTime !in Flags
    ensures forall c :: c in Flags ==> c != SearchType && c != VehicleNumber && c != StopDate && c != StopTime
    ensures SearchType != StopDate && SearchType != StopTime && VehicleNumber != StopDate && VehicleNumber != StopTime
    ensures SearchType != VehicleNumber && StopDate != StopTime && DriverAgeRaw !in Needed
  {
  }

  /** A needed column survives pruning exactly when the input has it with some non-null cell, and
      then it keeps its cells. */
  lemma PrunedNeeded(df: Frame)
    ensures PrunedFrom(Pruned(df), df)
  {
    NamesDistinct();
  }

  /** What pruning does to the needed columns. */
  ghost predicate PrunedFrom(p: Frame, df: Frame) {
    && |p.rows| == |df.rows|
    && (forall c :: c in Needed ==> (c in p.columns <==> c in df.columns && !AllNull(df, c)))
    && (forall k, c :: 0 <= k < |df.rows| && c in Needed && c in p.columns ==> Cell(p.rows[k], c) == Cell(df.rows[k], c))
  }

  lemma FilledKeeps(f: Frame, r: Frame, k: int, c: string)
    requires Filled(f) == Ok(r)
    requires 0 <= k < |f.rows| && c != SearchType && c != VehicleNumber
    ensures Cell(r.rows[k], c) == Cell(f.rows[k], c)
  {
  }

  lemma CoercedKeeps(f: Frame, r: Frame, k: int, c: string)
    requires CoercedAll(f, Flags) == Ok(r)
    requires 0 <= k < |f.rows| && c !in Flags
    ensures Cell(r.rows[k], c) == Cell(f.rows[k], c)
  {
  }

  lemma StampedKeeps(f: Frame, r: Frame, parseDate: Value -> Option<Date>, parseTime: Value -> Option<Time>, k: int, c: string)
    requires Stamped(f, parseDate, parseTime) == Ok(r)
    requires 0 <= k < |f.rows| && c != StopDate && c != StopTime
    ensures Cell(r.rows[k], c) == Cell(f.rows[k], c)
  {
  }

  /** The fills and the coercion leave the date and time cells, and the frame's shape, as they were. */
  lemma StampInputs(p: Frame, f1: Frame, f2: Frame, k: int)
    requires Filled(p) == Ok(f1) && CoercedAll(f1, Flags) == Ok(f2)
    requires 0 <= k < |p.rows|
    ensures f2.columns == p.columns && |f2.rows| == |p.rows|
    ensures Cell(f2.rows[k], StopDate) == Cell(p.rows[k], StopDate)
    ensures Cell(f2.rows[k], StopTime) == Cell(p.rows[k], StopTime)
  {
    NamesDistinct();
    CoercedKeeps(f1, f2, k, StopDate);
    CoercedKeeps(f1, f2, k, StopTime);
    FilledKeeps(p, f1, k, StopDate);
    FilledKeeps(p, f1, k, StopTime);
  }

  /** One row through all the stages. */
  lemma CleanedRowAt(df: Frame, f1: Frame, f2: Frame, r: Frame,
                     parseDate: Value -> Option<Date>, parseTime: Value -> Option<Time>, k: int)
    requires Filled(Pruned(df)) == Ok(f1) && CoercedAll(f1, Flags) == Ok(f2) && Stamped(f2, parseDate, parseTime) == Ok(r)
    requires 0 <= k < |df.rows|
    ensures CleanedRow(df.rows[k], r.rows[k], parseDate, parseTime, r.columns)
  {
    var p := Pruned(df);
    PrunedNeeded(df);
    NamesDistinct();
    var before, after := df.rows[k], r.rows[k];
    assert Needed == {SearchType, VehicleNumber, SearchConducted, IsArrested, DrugsRelatedStop, StopDate, StopTime};
    assert forall c :: c in Needed ==> c in p.columns;
    StampedKeeps(f2, r, parseDate, parseTime, k, SearchType);
    StampedKeeps(f2, r, parseDate, parseTime, k, VehicleNumber);
    CoercedKeeps(f1, f2, k, SearchType);
    CoercedKeeps(f1, f2, k, VehicleNumber);
    forall c | c in Flags ensures Cell(after, c) == Some(VBool(Truthy(Cell(before, c)))) {
      StampedKeeps(f2, r, parseDate, parseTime, k, c);
      FilledKeeps(p, f1, k, c);
    }
    StampInputs(Pruned(df), f1, f2, k);
    assert StampedRow(f2.rows[k], after, parseDate, parseTime);
    forall c | c in r.columns && c !in Needed ensures Cell(after, c) == Cell(before, c) {
      assert c in df.columns && c != DriverAgeRaw;
      StampedKeeps(f2, r, parseDate, parseTime, k, c);
      CoercedKeeps(f1, f2, k, c);
      FilledKeeps(p, f1, k, c);
    }
  }

  /** What a successful run produces: the columns are the input's minus the all-null ones and
      `driver_age_raw`, in order; the rows are the input's, one for one, with only the needed
      columns rewritten as the steps say. */
  lemma PreprocessedOutput(df: Frame, parseDate: Value -> Option<Date>, parseTime: Value -> Option<Time>)
    requires Preprocessed(df, parseDate, parseTime).Ok?
    ensures var r := Preprocessed(df, parseDate, parseTime).value;
      && r.columns == Without(df.columns, AllNullColumns(df) + {DriverAgeRaw})
      && |r.rows| == |df.rows|
      && (forall k :: 0 <= k < |df.rows| ==> CleanedRow(df.rows[k], r.rows[k], parseDate, parseTime, r.columns))
      && (Wellformed(df) ==> Wellformed(r))
  {
    var f1 := Filled(Pruned(df)).value;
    var f2 := CoercedAll(f1, Flags).value;
    var r := Stamped(f2, parseDate, parseTime).value;
    forall k | 0 <= k < |df.rows| ensures CleanedRow(df.rows[k], r.rows[k], parseDate, parseTime, r.columns) {
      CleanedRowAt(df, f1, f2, r, parseDate, parseTime, k);
    }
  }

  /** The steps before parsing succeed exactly when the five columns they look up are present. */
  lemma ReachesStamping(p: Frame)
    ensures (Filled(p).Ok? && CoercedAll(Filled(p).value, Flags).Ok?) <==>
            (SearchType in p.columns && VehicleNumber in p.columns && SearchConducted in p.columns &&
             IsArrested in p.columns && DrugsRelatedStop in p.columns)
  {
    assert forall c :: c in Flags <==> c == SearchConducted || c == IsArrested || c == DrugsRelatedStop;
  }

  /** Whether a column parses is decided by its cells alone. */
  lemma ParsesSameCells(a: seq<Row>, b: seq<Row>, col: string, parse: Value -> Option<Value>)
    requires |a| == |b| && forall k :: 0 <= k < |a| ==> Cell(a[k], col) == Cell(b[k], col)
    ensures (forall k :: 0 <= k < |a| ==> Parses(a[k], col, parse)) <==> (forall k :: 0 <= k < |b| ==> Parses(b[k], col, parse))
  {
  }

  /** In terms of the frame after pruning: the run succeeds exactly when the seven columns are
      there and every non-null date and time cell parses. */
  lemma PrunedSucceeds(p: Frame, parseDate: Value -> Option<Date>, parseTime: Value -> Option<Time>)
    ensures Normalized(p, parseDate, parseTime).Ok? <==> (
      && (forall c :: c in Needed ==> c in p.columns)
      && (forall k :: 0 <= k < |p.rows| ==> Parses(p.rows[k], StopDate, AsDateCell(parseDate)))
      && (forall k :: 0 <= k < |p.rows| ==> Parses(p.rows[k], StopTime, AsTimeCell(parseTime))))
  {
    ReachesStamping(p);
    assert Needed == {SearchType, VehicleNumber, SearchConducted, IsArrested, DrugsRelatedStop, StopDate, StopTime};
    if Filled(p).Ok? && CoercedAll(Filled(p).value, Flags).Ok? {
      var f1 := Filled(p).value;
      var f2 := CoercedAll(f1, Flags).value;
      forall k | 0 <= k < |p.rows|
        ensures k < |f2.rows| && Cell(f2.rows[k], StopDate) == Cell(p.rows[k], StopDate)
        ensures Cell(f2.rows[k], StopTime) == Cell(p.rows[k], StopTime)
      {
        StampInputs(p, f1, f2, k);
      }
      assert f2.columns == p.columns && |f2.rows| == |p.rows|;
      ParsesSameCells(f2.rows, p.rows, StopDate, AsDateCell(parseDate));
      ParsesSameCells(f2.rows, p.rows, StopTime, AsTimeCell(parseTime));
    }
  }

  lemma PrunedNeededPresent(df: Frame, p: Frame)
    requires PrunedFrom(p, df)
    ensures NeededPresent(df) <==> forall c :: c in Needed ==> c in p.columns
  {
  }

  lemma PrunedParses(df: Frame, p: Frame, parseDate: Value -> Option<Date>, parseTime: Value -> Option<Time>)
    requires PrunedFrom(p, df) && StopDate in p.columns && StopTime in p.columns
    ensures (forall k :: 0 <= k < |p.rows| ==> Parses(p.rows[k], StopDate, AsDateCell(parseDate))) <==>
            (forall k :: 0 <= k < |df.rows| ==> Parses(df.rows[k], StopDate, AsDateCell(parseDate)))
    ensures (forall k :: 0 <= k < |p.rows| ==> Parses(p.rows[k], StopTime, AsTimeCell(parseTime))) <==>
            (forall k :: 0 <= k < |df.rows| ==> Parses(df.rows[k], StopTime, AsTimeCell(parseTime)))
  {
    assert StopDate in Needed && StopTime in Needed;
    ParsesSameCells(p.rows, df.rows, StopDate, AsDateCell(parseDate));
    ParsesSameCells(p.rows, df.rows, StopTime, AsTimeCell(parseTime));
  }

  lemma NormalizedSucceeds(df: Frame, p: Frame, parseDate: Value -> Option<Date>, parseTime: Value -> Option<Time>)
    requires PrunedFrom(p, df)
    ensures Normalized(p, parseDate, parseTime).Ok? <==> (
      && NeededPresent(df)
      && (forall k :: 0 <= k < |df.rows| ==> Parses(df.rows[k], StopDate, AsDateCell(parseDate)))
      && (forall k :: 0 <= k < |df.rows| ==> Parses(df.rows[k], StopTime, AsTimeCell(parseTime))))
  {
    PrunedSucceeds(p, parseDate, parseTime);
    PrunedNeededPresent(df, p);
    if forall c :: c in Needed ==> c in p.columns {
      assert StopDate in Needed && StopTime in Needed;
      PrunedParses(df, p, parseDate, parseTime);
    }
  }

  /** The run succeeds exactly when every needed column survives pruning and every non-null date
      and time cell parses. */
  lemma PreprocessedSucceeds(df: Frame, parseDate: Value -> Option<Date>, parseTime: Value -> Option<Time>)
    ensures Preprocessed(df, parseDate, parseTime).Ok? <==> (
      && NeededPresent(df)
      && (forall k :: 0 <= k < |df.rows| ==> Parses(df.rows[k], StopDate, AsDateCell(parseDate)))
      && (forall k :: 0 <= k < |df.rows| ==> Parses(df.rows[k], StopTime, AsTimeCell(parseTime))))
  {
    PrunedNeeded(df);
    NormalizedSucceeds(df, Pruned(df), parseDate, parseTime);
  }

  /** In terms of the frame after pruning: a failure names a missing needed column or a rejected
      date or time cell. */
  lemma PrunedFails(p: Frame, parseDate: Value -> Option<Date>, parseTime: Value -> Option<Time>)
    requires Normalized(p, parseDate, parseTime).Err?
    ensures var e := Normalized(p, parseDate, parseTime).error;
      || (e.MissingColumn? && e.column in Needed && e.column !in p.columns)
      || StampError(p, e, parseDate, parseTime)
  {
    assert Needed == {SearchType, VehicleNumber, SearchConducted, IsArrested, DrugsRelatedStop, StopDate, StopTime};
    assert forall c :: c in Flags ==> c in Needed;
    if Filled(p).Ok? && CoercedAll(Filled(p).value, Flags).Ok? {
      var f1 := Filled(p).value;
      var f2 := CoercedAll(f1, Flags).value;
      var e := Stamped(f2, parseDate, parseTime).error;
      if e.ParseError? {
        StampInputs(p, f1, f2, e.row);
      } else {
        assert f2.columns == p.columns;
      }
    }
  }

  /** An error about the pruned frame is one about the input frame. */
  lemma PrunedErrorBefore(df: Frame, p: Frame, e: PrepError, parseDate: Value -> Option<Date>, parseTime: Value -> Option<Time>)
    requires PrunedFrom(p, df)
    requires || (e.MissingColumn? && e.column in Needed && e.column !in p.columns)
             || StampError(p, e, parseDate, parseTime)
    ensures || (e.MissingColumn? && e.column in Needed && (e.column !in df.columns || AllNull(df, e.column)))
            || StampError(df, e, parseDate, parseTime)
  {
    assert StopDate in Needed && StopTime in Needed;
  }

  lemma NormalizedFails(df: Frame, p: Frame, parseDate: Value -> Option<Date>, parseTime: Value -> Option<Time>)
    requires PrunedFrom(p, df) && Normalized(p, parseDate, parseTime).Err?
    ensures var e := Normalized(p, parseDate, parseTime).error;
      || (e.MissingColumn? && e.column in Needed && (e.column !in df.columns || AllNull(df, e.column)))
      || StampError(df, e, parseDate, parseTime)
  {
    PrunedFails(p, parseDate, parseTime);
    PrunedErrorBefore(df, p, Normalized(p, parseDate, parseTime).error, parseDate, parseTime);
  }

  /** A failed run names a needed column that pruning removed (or that was never there), or a
      date or time cell, by row and raw value, that its parser rejects. */
  lemma PreprocessedFails(df: Frame, parseDate: Value -> Option<Date>, parseTime: Value -> Option<Time>)
    requires Preprocessed(df, parseDate, parseTime).Err?
    ensures var e := Preprocessed(df, parseDate, parseTime).error;
      || (e.MissingColumn? && e.column in Needed && (e.column !in df.columns || AllNull(df, e.column)))
      || StampError(df, e, parseDate, parseTime)
  {
    PrunedNeeded(df);
    NormalizedFails(df, Pruned(df), parseDate, parseTime);
  }

  /** The needed columns the pipeline looks up before it parses anything: the two fills, the loop
      over the flags, then the date. `stop_time` is looked up only after the dates are parsed. */
  const LookupOrder: seq<string> := [SearchType, VehicleNumber, SearchConducted, IsArrested, DrugsRelatedStop, StopDate]

  /** A KeyError names the first needed column, in lookup order, that the input lacks or that
      pruning removed. */
  lemma PreprocessedFirstMissing(df: Frame, parseDate: Value -> Option<Date>, parseTime: Value -> Option<Time>, i: nat)
    requires i < |LookupOrder|
    requires forall j :: 0 <= j < i ==> LookupOrder[j] in df.columns && !AllNull(df, LookupOrder[j])
    requires LookupOrder[i] !in df.columns || AllNull(df, LookupOrder[i])
    ensures Preprocessed(df, parseDate, parseTime) == Err(MissingColumn(LookupOrder[i]))
  {
    PrunedNeeded(df);
    assert forall j :: 0 <= j < |LookupOrder| ==> LookupOrder[j] in Needed;
    NormalizedFirstMissing(Pruned(df), parseDate, parseTime, i);
  }

  /** The same in terms of the pruned frame. */
  lemma NormalizedFirstMissing(p: Frame, parseDate: Value -> Option<Date>, parseTime: Value -> Option<Time>, i: nat)
    requires i < |LookupOrder|
    requires forall j :: 0 <= j < i ==> LookupOrder[j] in p.columns
    requires LookupOrder[i] !in p.columns
    ensures Normalized(p, parseDate, parseTime) == Err(MissingColumn(LookupOrder[i]))
  {
    if i >= 2 {
      assert LookupOrder[0] in p.columns && LookupOrder[1] in p.columns;
      var f1 := Filled(p).value;
      assert f1.columns == p.columns;
      assert forall j :: 0 <= j < 3 ==> Flags[j] == LookupOrder[j + 2];
      if i < 5 {
        CoercedFirstMissing(f1, i - 2);
      } else {
        assert LookupOrder[2] in p.columns && LookupOrder[3] in p.columns && LookupOrder[4] in p.columns;
        assert i == 5;
        ReachesStamping(p);
        var f2 := CoercedAll(f1, Flags).value;
        assert f2.columns == p.columns;
      }
    }
  }

  /** The loop over the flags raises its KeyError at the first flag the frame lacks. */
  lemma CoercedFirstMissing(f: Frame, i: nat)
    requires i < |Flags|
    requires forall j :: 0 <= j < i ==> Flags[j] in f.columns
    requires Flags[i] !in f.columns
    ensures CoercedAll(f, Flags) == Err(MissingColumn(Flags[i]))
  {
    if i > 0 {
      var g1 := CoerceBool(f, Flags[0]);
      assert Flags[1..] == [IsArrested, DrugsRelatedStop];
      if i > 1 {
        var g2 := CoerceBool(g1, Flags[1]);
        assert Flags[1..][1..] == [DrugsRelatedStop];
      }
    }
  }

  /** Which row a parser rejects first depends only on the cells of its column. */
  lemma {:induction false} FirstUnparsableSameCells(a: seq<Row>, b: seq<Row>, col: string, parse: Value -> Option<Value>)
    requires |a| == |b| && forall k :: 0 <= k < |a| ==> Cell(a[k], col) == Cell(b[k], col)
    ensures FirstUnparsable(a, col, parse) == FirstUnparsable(b, col, parse)
  {
    if a != [] {
      FirstUnparsableSameCells(a[1..], b[1..], col, parse);
    }
  }

  /** Once the columns of `LookupOrder` are in place, the dates are parsed before `stop_time` is
      looked up and parsed: the error names the first date cell its parser rejects, by row and raw
      value; only when every date parses, a missing `stop_time`; and only then the first time
      cell its parser rejects. */
  lemma PreprocessedFirstParseError(df: Frame, parseDate: Value -> Option<Date>, parseTime: Value -> Option<Time>)
    requires forall j :: 0 <= j < |LookupOrder| ==> LookupOrder[j] in df.columns && !AllNull(df, LookupOrder[j])
    ensures var d := FirstUnparsable(df.rows, StopDate, AsDateCell(parseDate));
      d.Some? ==> Preprocessed(df, parseDate, parseTime) == Err(ParseError(StopDate, d.value, Cell(df.rows[d.value], StopDate).value))
    ensures FirstUnparsable(df.rows, StopDate, AsDateCell(parseDate)).None? && (StopTime !in df.columns || AllNull(df, StopTime)) ==>
      Preprocessed(df, parseDate, parseTime) == Err(MissingColumn(StopTime))
    ensures var d := FirstUnparsable(df.rows, StopDate, AsDateCell(parseDate));
      var t := FirstUnparsable(df.rows, StopTime, AsTimeCell(parseTime));
      d.None? && t.Some? && StopTime in df.columns && !AllNull(df, StopTime) ==>
      Preprocessed(df, parseDate, parseTime) == Err(ParseError(StopTime, t.value, Cell(df.rows[t.value], StopTime).value))
  {
    var p := Pruned(df);
    PrunedStampCells(df);
    NormalizedParseOrder(p, parseDate, parseTime);
    FirstUnparsableSameCells(p.rows, df.rows, StopDate, AsDateCell(parseDate));
    if StopTime in p.columns {
      FirstUnparsableSameCells(p.rows, df.rows, StopTime, AsTimeCell(parseTime));
    }
  }

  /** Pruning keeps the columns of `LookupOrder` when they hold values, and keeps the date and
      time cells. */
  lemma PrunedStampCells(df: Frame)
    requires forall j :: 0 <= j < |LookupOrder| ==> LookupOrder[j] in df.columns && !AllNull(df, LookupOrder[j])
    ensures forall j :: 0 <= j < |LookupOrder| ==> LookupOrder[j] in Pruned(df).columns
    ensures StopTime in Pruned(df).columns <==> StopTime in df.columns && !AllNull(df, StopTime)
    ensures forall k :: 0 <= k < |df.rows| ==> Cell(Pruned(df).rows[k], StopDate) == Cell(df.rows[k], StopDate)
    ensures StopTime in Pruned(df).columns ==>
              forall k :: 0 <= k < |df.rows| ==> Cell(Pruned(df).rows[k], StopTime) == Cell(df.rows[k], StopTime)
  {
    PrunedNeeded(df);
    assert forall j :: 0 <= j < |LookupOrder| ==> LookupOrder[j] in Needed;
    assert StopDate in Needed && StopTime in Needed;
  }

  /** The same in terms of the pruned frame. */
  lemma NormalizedParseOrder(p: Frame, parseDate: Value -> Option<Date>, parseTime: Value -> Option<Time>)
    requires forall j :: 0 <= j < |LookupOrder| ==> LookupOrder[j] in p.columns
    ensures var d := FirstUnparsable(p.rows, StopDate, AsDateCell(parseDate));
      d.Some? ==> Normalized(p, parseDate, parseTime) == Err(ParseError(StopDate, d.value, Cell(p.rows[d.value], StopDate).value))
    ensures FirstUnparsable(p.rows, StopDate, AsDateCell(parseDate)).None? && StopTime !in p.columns ==>
      Normalized(p, parseDate, parseTime) == Err(MissingColumn(StopTime))
    ensures var d := FirstUnparsable(p.rows, StopDate, AsDateCell(parseDate));
      var t := FirstUnparsable(p.rows, StopTime, AsTimeCell(parseTime));
      d.None? && t.Some? && StopTime in p.columns ==>
      Normalized(p, parseDate, parseTime) == Err(ParseError(StopTime, t.value, Cell(p.rows[t.value], StopTime).value))
  {
    assert LookupOrder[5] in p.columns;
    var f2 := StampStage(p, parseDate, parseTime);
    var d := FirstUnparsable(p.rows, StopDate, AsDateCell(parseDate));
    var t := FirstUnparsable(p.rows, StopTime, AsTimeCell(parseTime));
    FirstUnparsableSameCells(f2.rows, p.rows, StopDate, AsDateCell(parseDate));
    FirstUnparsableSameCells(f2.rows, p.rows, StopTime, AsTimeCell(parseTime));
    StampedParseOrder(f2, parseDate, parseTime);
    if d.Some? {
      assert Cell(f2.rows[d.value], StopDate) == Cell(p.rows[d.value], StopDate);
    }
    if t.Some? {
      assert Cell(f2.rows[t.value], StopTime) == Cell(p.rows[t.value], StopTime);
    }
  }

  /** With the five looked-up columns present, the run reaches parsing with the frame `f2`, which
      has the pruned frame's columns and date and time cells. */
  lemma StampStage(p: Frame, parseDate: Value -> Option<Date>, parseTime: Value -> Option<Time>) returns (f2: Frame)
    requires forall j :: 0 <= j < |LookupOrder| ==> LookupOrder[j] in p.columns
    ensures Normalized(p, parseDate, parseTime) == Stamped(f2, parseDate, parseTime)
    ensures f2.columns == p.columns && |f2.rows| == |p.rows|
    ensures forall k :: 0 <= k < |p.rows| ==>
              Cell(f2.rows[k], StopDate) == Cell(p.rows[k], StopDate) && Cell(f2.rows[k], StopTime) == Cell(p.rows[k], StopTime)
  {
    assert LookupOrder[0] in p.columns && LookupOrder[1] in p.columns && LookupOrder[2] in p.columns;
    assert LookupOrder[3] in p.columns && LookupOrder[4] in p.columns;
    ReachesStamping(p);
    var f1 := Filled(p).value;
    f2 := CoercedAll(f1, Flags).value;
    forall k | 0 <= k < |p.rows|
      ensures Cell(f2.rows[k], StopDate) == Cell(p.rows[k], StopDate)
      ensures Cell(f2.rows[k], StopTime) == Cell(p.rows[k], StopTime)
    {
      StampInputs(p, f1, f2, k);
    }
  }

  /** Parsing reports the first rejected date, else a missing `stop_time`, else the first
      rejected time. */
  lemma StampedParseOrder(f: Frame, parseDate: Value -> Option<Date>, parseTime: Value -> Option<Time>)
    requires StopDate in f.columns
    ensures var d := FirstUnparsable(f.rows, StopDate, AsDateCell(parseDate));
      d.Some? ==> Stamped(f, parseDate, parseTime) == Err(ParseError(StopDate, d.value, Cell(f.rows[d.value], StopDate).value))
    ensures FirstUnparsable(f.rows, StopDate, AsDateCell(parseDate)).None? && StopTime !in f.columns ==>
      Stamped(f, parseDate, parseTime) == Err(MissingColumn(StopTime))
    ensures var d := FirstUnparsable(f.rows, StopDate, AsDateCell(parseDate));
      var t := FirstUnparsable(f.rows, StopTime, AsTimeCell(parseTime));
      d.None? && t.Some? && StopTime in f.columns ==>
      Stamped(f, parseDate, parseTime) == Err(ParseError(StopTime, t.value, Cell(f.rows[t.value], StopTime).value))
  {
    var g := ParseColumn(f, StopDate, AsDateCell(parseDate));
    if g.Ok? {
      assert forall k :: 0 <= k < |f.rows| ==> Cell(g.value.rows[k], StopTime) == Cell(f.rows[k], StopTime);
      FirstUnparsableSameCells(g.value.rows, f.rows, StopTime, AsTimeCell(parseTime));
    }
  }

  /** A needed column that is null throughout is pruned first and then missed: the run fails
      instead of recreating it. */
  lemma AllNullNeededColumnFails(df: Frame, parseDate: Value -> Option<Date>, parseTime: Value -> Option<Time>, c: string)
    requires c in Needed && AllNull(df, c)
    ensures Preprocessed(df, parseDate, parseTime).Err?
  {
    PreprocessedSucceeds(df, parseDate, parseTime);
  }

  /** `preprocess_data`: the frame is rebound step by step and the two fills act in place; the
      flag columns are then reassigned by `CoerceFlags`. */
  method Preprocess(df: Frame, parseDate: Value -> Option<Date>, parseTime: Value -> Option<Time>)
    returns (r: Result<Frame, PrepError>)
    ensures r == Preprocessed(df, parseDate, parseTime)
  {
    var cleaned := DropAllNullColumns(df);
    cleaned := DropColumn(cleaned, DriverAgeRaw);
    if SearchType !in cleaned.columns {
      return Err(MissingColumn(SearchType));
    }
    cleaned := FillNull(cleaned, SearchType, VStr(NoSearch));
    if VehicleNumber !in cleaned.columns {
      return Err(MissingColumn(VehicleNumber));
    }
    cleaned := FillNull(cleaned, VehicleNumber, VStr(UnknownVehicle));
    var coerced := CoerceFlags(cleaned);
    if coerced.Err? {
      return Err(coerced.error);
    }
    r := Stamped(coerced.value, parseDate, parseTime);
  }

  /** The loop of `preprocess_data` over the flag columns: each is looked up (a KeyError when it is
      missing) and reassigned with its boolean coercion. */
  method CoerceFlags(f: Frame) returns (r: Result<Frame, PrepError>)
    ensures r == CoercedAll(f, Flags)
  {
    var cleaned := f;
    for i := 0 to |Flags|
      invariant CoercedAll(f, Flags) == CoercedAll(cleaned, Flags[i..])
    {
      var col := Flags[i];
      if col !in cleaned.columns {
        return Err(MissingColumn(col));
      }
      assert Flags[i..][1..] == Flags[i + 1..];
      cleaned := CoerceBool(cleaned, col);
    }
    assert Flags[|Flags|..] == [];
    r := Ok(cleaned);
  }
}
