/** process_data.py: `preprocess_data` (the shared pipeline, with the time parser inferred by pandas
    and so a parameter, as the date parser is) and `create_and_load_database`, which creates the
    table and bulk-loads the frame with its row index as `stop_id`. The script starts from a
    deleted database file and a frame fresh from `read_csv`, whose index is the row position;
    preprocessing drops no rows, so the index is still the position when the frame is loaded. */
module ProcessData {
  import opened Wrappers
  import opened Frames
  import opened Columns
  import opened Normalizer
  import opened StopStore

  /** CREATE TABLE IF NOT EXISTS, committed on its own, then `to_sql(..., if_exists='append',
      index=True, index_label='stop_id')`: the table exists afterwards whatever happens to the
      insert, and the insert stores every row with its position as id, or nothing. */
  method CreateAndLoadDatabase(db: Database, df: Frame) returns (r: Option<WriteError>)
    requires db.Valid()
    modifies db
    ensures db.Valid() && db.hasTable
    ensures r == BatchError(df, 0, IdSet(old(db.rows)))
    ensures r.None? ==> db.rows == old(db.rows) + Loaded(df, 0)
    ensures r.Some? ==> db.rows == old(db.rows)
  {
    db.CreateTableIfNotExists();
    r := db.InsertFrame(df, 0);
  }

  /** The script: the database file is deleted, the CSV frame is preprocessed (an error ends the
      script before the database is opened) and then loaded into a fresh table. */
  method InitializeDatabase(df: Frame, parseDate: Value -> Option<Date>, parseTime: Value -> Option<Time>)
    returns (db: Database, r: Result<Frame, PrepError>, e: Option<WriteError>)
    ensures fresh(db) && db.Valid()
    ensures r == Preprocessed(df, parseDate, parseTime)
    ensures r.Err? ==> !db.hasTable && db.rows == [] && e.None?
    ensures r.Ok? ==> db.hasTable && e == BatchError(r.value, 0, {})
    ensures r.Ok? && e.None? ==> db.rows == Loaded(r.value, 0)
    ensures r.Ok? && e.Some? ==> db.rows == []
  {
    db := new Database();
    r := Preprocess(df, parseDate, parseTime);
    e := None;
    if r.Ok? {
      assert IdSet(db.rows) == {};
      e := CreateAndLoadDatabase(db, r.value);
    }
  }

  /** Into the empty table of a fresh database file the load succeeds exactly when the frame has
      no rows, or when every column of the frame is a column of the table and every row fills the
      NOT NULL columns; the ids are then 0, ..., n - 1. */
  lemma FreshLoad(df: Frame)
    ensures BatchError(df, 0, {}).None? <==>
              (|df.rows| > 0 ==> forall c :: c in df.columns ==> c in DataColumns) &&
              (forall k :: 0 <= k < |df.rows| ==> Admissible(Project(df.rows[k], df.columns)))
    ensures forall x :: x in IdSet(Loaded(df, 0)) <==> 0 <= x < |df.rows|
  {
    BatchAccepts(df, 0, {});
    LoadedIds(df, 0);
  }

  /** After a successful preprocessing the three flag columns are present and hold a boolean in
      every row, so they never make the load fail. */
  lemma PreprocessedFlagsFilled(df: Frame, out: Frame, parseDate: Value -> Option<Date>, parseTime: Value -> Option<Time>, k: nat, c: string)
    requires Preprocessed(df, parseDate, parseTime) == Ok(out)
    requires k < |out.rows| && c in Flags
    ensures k < |df.rows| && Cell(Project(out.rows[k], out.columns), c).Some?
  {
    PreprocessedSucceeds(df, parseDate, parseTime);
    PreprocessedOutput(df, parseDate, parseTime);
    assert c in Needed;
    assert c in out.columns;
    assert CleanedRow(df.rows[k], out.rows[k], parseDate, parseTime, out.columns);
  }

  /** When a preprocessed frame is loaded into the empty table, a NOT NULL failure can only be
      a `stop_date`, `stop_time`, `country_name` or `violation` that was already null in some
      input row: the pipeline leaves those four nullable, and fills or coerces the others. */
  lemma PreprocessedLoadNulls(df: Frame, parseDate: Value -> Option<Date>, parseTime: Value -> Option<Time>)
    requires Wellformed(df) && Preprocessed(df, parseDate, parseTime).Ok?
    requires var out := Preprocessed(df, parseDate, parseTime).value;
      BatchError(out, 0, {}).Some? && BatchError(out, 0, {}).value.NotNull?
    ensures var c := BatchError(Preprocessed(df, parseDate, parseTime).value, 0, {}).value.column;
      && (c == StopDate || c == StopTime || c == CountryName || c == Violation)
      && exists k :: 0 <= k < |df.rows| && Cell(df.rows[k], c).None?
  {
    var out := Preprocessed(df, parseDate, parseTime).value;
    var c := BatchError(out, 0, {}).value.column;
    BatchErrorNull(out, 0, {});
    var k :| 0 <= k < |out.rows| && Cell(Project(out.rows[k], out.columns), c).None?;
    PreprocessedFlagsFilled(df, out, parseDate, parseTime, k, SearchConducted);
    PreprocessedFlagsFilled(df, out, parseDate, parseTime, k, IsArrested);
    PreprocessedFlagsFilled(df, out, parseDate, parseTime, k, DrugsRelatedStop);
    assert c in Required;
    NullableRequired(c, Project(out.rows[k], out.columns));
    NullBefore(df, out, parseDate, parseTime, k, c);
  }

  /** A null cell of the loaded row in one of the four nullable columns was null in the input. */
  lemma NullBefore(df: Frame, out: Frame, parseDate: Value -> Option<Date>, parseTime: Value -> Option<Time>, k: nat, c: string)
    requires Wellformed(df) && Preprocessed(df, parseDate, parseTime) == Ok(out)
    requires k < |df.rows| && k < |out.rows|
    requires c == StopDate || c == StopTime || c == CountryName || c == Violation
    requires Cell(Project(out.rows[k], out.columns), c).None?
    ensures Cell(df.rows[k], c).None?
  {
    PreprocessedOutput(df, parseDate, parseTime);
    assert CleanedRow(df.rows[k], out.rows[k], parseDate, parseTime, out.columns);
    CleanedNull(df, k, out.rows[k], parseDate, parseTime, out.columns, c);
  }

  lemma CleanedNull(df: Frame, k: nat, after: Row, parseDate: Value -> Option<Date>, parseTime: Value -> Option<Time>,
                    kept: seq<string>, c: string)
    requires Wellformed(df) && k < |df.rows|
    requires kept == Without(df.columns, AllNullColumns(df) + {DriverAgeRaw})
    requires CleanedRow(df.rows[k], after, parseDate, parseTime, kept)
    requires c == StopDate || c == StopTime || c == CountryName || c == Violation
    requires Cell(Project(after, kept), c).None?
    ensures Cell(df.rows[k], c).None?
  {
    NullableNames();
    if c in kept {
      assert Cell(after, c).None?;
    } else {
      assert c !in df.columns || c in AllNullColumns(df);
    }
  }

  /** A NOT NULL column that is null while the three flags are not is one of the other four. */
  lemma NullableRequired(c: string, cells: Row)
    requires c in Required && Cell(cells, c).None?
    requires Cell(cells, SearchConducted).Some? && Cell(cells, IsArrested).Some? && Cell(cells, DrugsRelatedStop).Some?
    ensures c == StopDate || c == StopTime || c == CountryName || c == Violation
  {
  }

  /** How the four nullable columns stand to the columns the pipeline treats specially. */
  lemma NullableNames()
    ensures CountryName !in Needed && Violation !in Needed && StopDate in Needed && StopTime in Needed
    ensures CountryName != DriverAgeRaw && Violation != DriverAgeRaw && StopDate != DriverAgeRaw && StopTime != DriverAgeRaw
  {
  }
}
