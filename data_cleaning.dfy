/** data_cleaning.py: the copy of `preprocess_data` whose time column is read with the fixed
    format `%H:%M:%S`. Dates are still inferred, so their parser stays a parameter. */
module DataCleaning {
  import opened Wrappers
  import opened Frames
  import opened Columns
  import opened Normalizer
  import opened TimeFormat

  /** The time parser applied to a cell: only text is matched against the format. */
  function TimeCell(v: Value): (r: Option<Time>)
    ensures r.Some? ==> v.VStr? && r == ParseHms(v.s)
  {
    if v.VStr? then ParseHms(v.s) else None
  }

  /** `preprocess_data` of data_cleaning.py. */
  method PreprocessData(df: Frame, parseDate: Value -> Option<Date>) returns (r: Result<Frame, PrepError>)
    ensures r == Preprocessed(df, parseDate, TimeCell)
  {
    r := Preprocess(df, parseDate, TimeCell);
  }

  /** A `stop_time` value that does not match the format makes the run fail. */
  lemma UnmatchedTimeFails(df: Frame, parseDate: Value -> Option<Date>, k: nat)
    requires k < |df.rows| && Cell(df.rows[k], StopTime).Some?
    requires TimeCell(Cell(df.rows[k], StopTime).value).None?
    ensures Preprocessed(df, parseDate, TimeCell).Err?
  {
    PreprocessedSucceeds(df, parseDate, TimeCell);
    assert !Parses(df.rows[k], StopTime, AsTimeCell(TimeCell));
  }

  /** After a successful run every time cell was a text matching the format, and holds the time it
      spells; a null time stays null. */
  lemma TimesReadExactly(df: Frame, parseDate: Value -> Option<Date>, k: nat)
    requires Preprocessed(df, parseDate, TimeCell).Ok? && k < |df.rows|
    ensures var out := Preprocessed(df, parseDate, TimeCell).value;
      && (Cell(df.rows[k], StopTime).None? ==> Cell(out.rows[k], StopTime).None?)
      && (Cell(df.rows[k], StopTime).Some? ==>
            && Cell(df.rows[k], StopTime).value.VStr?
            && ParseHms(Cell(df.rows[k], StopTime).value.s).Some?
            && Cell(out.rows[k], StopTime) == Some(VTime(ParseHms(Cell(df.rows[k], StopTime).value.s).value)))
  {
    PreprocessedOutput(df, parseDate, TimeCell);
  }
}
