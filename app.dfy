/** The logging form of app.py: the record built from a submitted form, and `log_new_stop`,
    which appends it to `traffic_stops` as a one-row frame without an index, so that SQLite
    chooses its `stop_id`. The widgets' messages are left out; the outcome is returned. */
module App {
  import opened Wrappers
  import opened Sequences
  import opened Frames
  import opened Columns
  import opened Normalizer
  import opened StopStore

  /** The three choices of the gender box. */
  datatype Gender = Male | Female | OtherGender

  function GenderChoice(g: Gender): string {
    match g
    case Male => "M"
    case Female => "F"
    case OtherGender => "Other"
  }

  /** What the form returns on submit. */
  datatype LogForm = LogForm(stopDate: Date, stopTime: Time, countryName: string, vehicleNumber: string,
                             driverGender: Gender, driverAge: int, violation: string, stopDuration: string,
                             searchConducted: bool, drugsRelatedStop: bool, isArrested: bool,
                             stopOutcome: string)

  /** A Python dict: its keys in insertion order and its entries. */
  datatype Record = Record(keys: seq<string>, entries: Row)

  ghost predicate IsDict(rec: Record) {
    NoDup(rec.keys) && rec.entries.Keys == set c | c in rec.keys
  }

  /** `pd.DataFrame([log_data])`: the keys become the columns and the dict the only row. */
  function RecordFrame(rec: Record): (f: Frame)
    ensures f.columns == rec.keys && |f.rows| == 1
    ensures f.rows[0] == rec.entries
    ensures IsDict(rec) ==> Wellformed(f)
  {
    Frame(rec.keys, [rec.entries])
  }

  /** The keys of `new_log`, in the order the dict literal lists them. */
  const LogKeys: seq<string> := [StopDate, StopTime, CountryName, VehicleNumber, DriverGender, DriverAge,
                                 Violation, ViolationRaw, SearchConducted, DrugsRelatedStop, IsArrested,
                                 StopOutcome, StopDuration, DriverRace, SearchType]

  const VehicleSearch := "Vehicle Search"
  const UnknownRace := "Unknown"

  /** The keys of `new_log` are pairwise different, as the keys of a dict literal are. */
  lemma LogKeysDistinct()
    ensures NoDup(LogKeys)
  {
  }

  /** The values of `new_log`, key by key: the form's fields, the first letter of the gender, the
      violation again as the raw violation, an unknown race, and the search type the search box
      implies. */
  function LogValues(form: LogForm): (v: seq<Option<Value>>)
    ensures |v| == |LogKeys| && forall i :: 0 <= i < |v| ==> v[i].Some?
  {
    [Some(VDate(form.stopDate)), Some(VTime(form.stopTime)), Some(VStr(form.countryName)),
     Some(VStr(form.vehicleNumber)), Some(VStr(GenderChoice(form.driverGender)[..1])), Some(VInt(form.driverAge)),
     Some(VStr(form.violation)), Some(VStr(form.violation)), Some(VBool(form.searchConducted)),
     Some(VBool(form.drugsRelatedStop)), Some(VBool(form.isArrested)), Some(VStr(form.stopOutcome)),
     Some(VStr(form.stopDuration)), Some(VStr(UnknownRace)),
     Some(VStr(if !form.searchConducted then NoSearch else VehicleSearch))]
  }

  /** `new_log`. */
  function NewLog(form: LogForm): (rec: Record)
    ensures rec.keys == LogKeys
    ensures forall i :: 0 <= i < |LogKeys| ==> Cell(rec.entries, LogKeys[i]) == LogValues(form)[i]
  {
    LogKeysDistinct();
    Record(LogKeys, map i | 0 <= i < |LogKeys| :: LogKeys[i] := LogValues(form)[i])
  }

  /** The derived fields of the record. */
  lemma NewLogDerived(form: LogForm)
    ensures var e := NewLog(form).entries;
      && (Cell(e, SearchType) == Some(VStr(NoSearch)) <==> !form.searchConducted)
      && (Cell(e, SearchType) == Some(VStr(VehicleSearch)) <==> form.searchConducted)
      && Cell(e, ViolationRaw) == Cell(e, Violation) == Some(VStr(form.violation))
      && Cell(e, DriverRace) == Some(VStr(UnknownRace))
      && Cell(e, DriverGender) == Some(VStr([GenderChoice(form.driverGender)[0]]))
  {
    assert NoSearch != VehicleSearch by {
      assert NoSearch[0] != VehicleSearch[0];
    }
    var v := LogValues(form);
    assert LogKeys[14] == SearchType && LogKeys[7] == ViolationRaw && LogKeys[6] == Violation;
    assert LogKeys[13] == DriverRace && LogKeys[4] == DriverGender;
    assert GenderChoice(form.driverGender)[..1] == [GenderChoice(form.driverGender)[0]];
  }

  /** The stored gender is one letter: M, F or O. */
  lemma NewLogGender(form: LogForm)
    ensures var c := Cell(NewLog(form).entries, DriverGender);
      c == Some(VStr("M")) || c == Some(VStr("F")) || c == Some(VStr("O"))
  {
    assert LogKeys[4] == DriverGender;
    match form.driverGender
    case Male => assert GenderChoice(Male)[..1] == "M";
    case Female => assert GenderChoice(Female)[..1] == "F";
    case OtherGender => assert GenderChoice(OtherGender)[..1] == "O";
  }

  /** The fields taken over from the form. */
  lemma NewLogCopied(form: LogForm)
    ensures var e := NewLog(form).entries;
      && Cell(e, StopDate) == Some(VDate(form.stopDate)) && Cell(e, StopTime) == Some(VTime(form.stopTime))
      && Cell(e, CountryName) == Some(VStr(form.countryName)) && Cell(e, VehicleNumber) == Some(VStr(form.vehicleNumber))
      && Cell(e, DriverAge) == Some(VInt(form.driverAge)) && Cell(e, Violation) == Some(VStr(form.violation))
      && Cell(e, SearchConducted) == Some(VBool(form.searchConducted))
      && Cell(e, DrugsRelatedStop) == Some(VBool(form.drugsRelatedStop))
      && Cell(e, IsArrested) == Some(VBool(form.isArrested))
      && Cell(e, StopOutcome) == Some(VStr(form.stopOutcome)) && Cell(e, StopDuration) == Some(VStr(form.stopDuration))
  {
    assert LogKeys[0] == StopDate && LogKeys[1] == StopTime && LogKeys[2] == CountryName && LogKeys[3] == VehicleNumber;
    assert LogKeys[5] == DriverAge && LogKeys[6] == Violation && LogKeys[8] == SearchConducted;
    assert LogKeys[9] == DrugsRelatedStop && LogKeys[10] == IsArrested && LogKeys[11] == StopOutcome;
    assert LogKeys[12] == StopDuration;
  }

  /** The keys of the record are the table's columns, all of them but `stop_id`. */
  lemma LogKeysColumns()
    ensures forall c :: c in LogKeys <==> c in DataColumns
  {
  }

  /** The record is a dict. */
  lemma NewLogIsDict(form: LogForm)
    ensures IsDict(NewLog(form))
  {
    var rec := NewLog(form);
    LogKeysDistinct();
    forall c ensures c in rec.entries <==> c in rec.keys {
      if c in rec.keys {
        var i :| 0 <= i < |LogKeys| && LogKeys[i] == c;
      }
    }
  }

  /** The record has a value for every column of the table but `stop_id`. */
  lemma NewLogNoNull(form: LogForm)
    ensures forall c :: c in DataColumns ==> Cell(NewLog(form).entries, c).Some?
  {
    var rec := NewLog(form);
    LogKeysColumns();
    forall c | c in DataColumns ensures Cell(rec.entries, c).Some? {
      var i :| 0 <= i < |LogKeys| && LogKeys[i] == c;
    }
  }

  /** So the record, as the one row of a frame, passes every constraint of the table. */
  lemma NewLogAdmissible(form: LogForm)
    ensures Admissible(Project(NewLog(form).entries, NewLog(form).keys))
  {
    NewLogNoNull(form);
    var rec := NewLog(form);
    AllCellsAdmissible(Project(rec.entries, rec.keys));
  }

  /** A row with a value in every column of the table meets the NOT NULL constraints. */
  lemma AllCellsAdmissible(cells: Row)
    requires forall c :: c in DataColumns ==> Cell(cells, c).Some?
    ensures Admissible(cells)
  {
    assert StopDate in DataColumns && StopTime in DataColumns && CountryName in DataColumns;
    assert Violation in DataColumns && SearchConducted in DataColumns && IsArrested in DataColumns;
    assert DrugsRelatedStop in DataColumns;
  }

  /** `log_new_stop`: one row appended with the next id, or, when the insert fails, nothing. */
  method LogNewStop(db: Database, logData: Record) returns (r: Result<int, WriteError>)
    requires db.Valid() && db.hasTable
    modifies db
    ensures db.Valid() && db.hasTable
    ensures r.Ok? <==> (forall c :: c in logData.keys ==> c in DataColumns) &&
                       Admissible(Project(logData.entries, logData.keys))
    ensures r.Ok? ==> r.value !in IdSet(old(db.rows)) &&
                      db.rows == old(db.rows) + [StoredRow(r.value, Project(logData.entries, logData.keys))]
    ensures r.Err? ==> db.rows == old(db.rows)
  {
    var f := RecordFrame(logData);
    NextIdFresh(db.rows);
    BatchAccepts(f, NextId(db.rows), IdSet(db.rows));
    r := db.AppendFrame(f);
    if r.Ok? {
      assert Loaded(f, r.value) == [StoredRow(r.value, Project(logData.entries, logData.keys))];
    }
  }

  /** Submitting the form: the log is always stored, as one new row holding the record. */
  method SubmitLog(db: Database, form: LogForm) returns (r: Result<int, WriteError>)
    requires db.Valid() && db.hasTable
    modifies db
    ensures db.Valid() && db.hasTable
    ensures r.Ok? && r.value !in IdSet(old(db.rows))
    ensures db.rows == old(db.rows) + [StoredRow(r.value, NewLog(form).entries)]
  {
    NewLogIsDict(form);
    LogKeysColumns();
    NewLogAdmissible(form);
    r := LogNewStop(db, NewLog(form));
    ProjectKeys(NewLog(form));
  }

  /** Projecting a dict onto its own keys gives the dict back. */
  lemma ProjectKeys(rec: Record)
    requires IsDict(rec)
    ensures Project(rec.entries, rec.keys) == rec.entries
  {
    var p := Project(rec.entries, rec.keys);
    forall c | c in p ensures p[c] == rec.entries[c] {
      assert Cell(p, c) == Cell(rec.entries, c);
    }
  }
}
