/** The SQLite table `traffic_stops` of process_data.py: its schema with the NOT NULL columns, the
    bulk insert of a frame whose index becomes `stop_id`, and the append of rows whose id SQLite
    chooses. An insert runs in one transaction: it stores every row or none. */
module StopStore {
  import opened Wrappers
  import opened Sequences
  import opened Frames
  import opened Columns

  /** The table's columns after the primary key `stop_id`, in declaration order. */
  const DataColumns: seq<string> := [StopDate, StopTime, CountryName, DriverGender, DriverAge, DriverRace,
                                     ViolationRaw, Violation, SearchConducted, SearchType, StopOutcome,
                                     IsArrested, StopDuration, DrugsRelatedStop, VehicleNumber]

  /** The NOT NULL columns, in declaration order, the order SQLite checks them in. */
  const Required: seq<string> := [StopDate, StopTime, CountryName, Violation, SearchConducted, IsArrested, DrugsRelatedStop]

  /** A stored row: its `stop_id` and a cell for every other column (NULL as `None`). */
  datatype StoredRow = StoredRow(id: int, cells: Row)

  /** A column the table does not have, a NULL in a NOT NULL column, or a `stop_id` already taken. */
  datatype WriteError = BadColumn(column: string) | NotNull(column: string) | DuplicateId(id: int)

  /** The first of `cols` that is not a data column of the table. */
  function FirstUnknown(cols: seq<string>): (r: Option<string>)
    ensures r.None? <==> forall c :: c in cols ==> c in DataColumns
    ensures r.Some? ==> r.value in cols && r.value !in DataColumns
    ensures r.Some? ==> exists i :: 0 <= i < |cols| && cols[i] == r.value && forall j :: 0 <= j < i ==> cols[j] in DataColumns
  {
    if cols == [] then None
    else if cols[0] !in DataColumns then Some(cols[0])
    else FirstUnknown(cols[1..])
  }

  /** Every NOT NULL column holds a value. */
  predicate Admissible(cells: Row) {
    && Cell(cells, StopDate).Some? && Cell(cells, StopTime).Some? && Cell(cells, CountryName).Some?
    && Cell(cells, Violation).Some? && Cell(cells, SearchConducted).Some? && Cell(cells, IsArrested).Some?
    && Cell(cells, DrugsRelatedStop).Some?
  }

  /** Admissible rows are exactly those with a value in each column of `Required`. */
  lemma AdmissibleRequired(cells: Row)
    ensures Admissible(cells) <==> forall c :: c in Required ==> Cell(cells, c).Some?
  {
  }

  /** The NOT NULL check of one row, column by column in declaration order: fails, naming the first
      NULL required column, exactly when the row is not admissible. */
  function RowError(cells: Row): (r: Option<WriteError>)
    ensures r.None? <==> Admissible(cells)
    ensures r.Some? ==> r.value.NotNull? && r.value.column in Required && Cell(cells, r.value.column).None?
    ensures r.Some? ==> exists i :: 0 <= i < |Required| && Required[i] == r.value.column &&
                                    forall j :: 0 <= j < i ==> Cell(cells, Required[j]).Some?
  {
    if Cell(cells, StopDate).None? then Some(NotNull(StopDate))
    else if Cell(cells, StopTime).None? then Some(NotNull(StopTime))
    else if Cell(cells, CountryName).None? then Some(NotNull(CountryName))
    else if Cell(cells, Violation).None? then Some(NotNull(Violation))
    else if Cell(cells, SearchConducted).None? then Some(NotNull(SearchConducted))
    else if Cell(cells, IsArrested).None? then Some(NotNull(IsArrested))
    else if Cell(cells, DrugsRelatedStop).None? then Some(NotNull(DrugsRelatedStop))
    else None
  }

  /** The rows of `f` as stored with the ids `base`, `base + 1`, ...: each keeps the frame's columns,
      and every other column of the table reads as NULL. */
  function Loaded(f: Frame, base: int): (r: seq<StoredRow>)
    ensures |r| == |f.rows|
    ensures forall k :: 0 <= k < |r| ==> r[k].id == base + k && r[k].cells == Project(f.rows[k], f.columns)
  {
    seq(|f.rows|, k requires 0 <= k < |f.rows| => StoredRow(base + k, Project(f.rows[k], f.columns)))
  }

  function IdSet(rows: seq<StoredRow>): set<int> {
    set i | 0 <= i < |rows| :: rows[i].id
  }

  ghost predicate IdsDistinct(rows: seq<StoredRow>) {
    forall i, j :: 0 <= i < j < |rows| ==> rows[i].id != rows[j].id
  }

  /** The check of row `k` of an insert with ids from `base`: NOT NULL first, then the primary key. */
  function RowFault(f: Frame, base: int, taken: set<int>, k: nat): (r: Option<WriteError>)
    requires k < |f.rows|
    ensures r.None? <==> Admissible(Project(f.rows[k], f.columns)) && base + k !in taken
    ensures r.Some? ==> || (r.value.NotNull? && r.value.column in Required)
                        || (r.value == DuplicateId(base + k) && base + k in taken)
    ensures r.Some? && r.value.NotNull? ==> Cell(Project(f.rows[k], f.columns), r.value.column).None?
  {
    match RowError(Project(f.rows[k], f.columns))
    case Some(e) => Some(e)
    case None => if base + k in taken then Some(DuplicateId(base + k)) else None
  }

  /** The first fault among rows `k`, `k + 1`, ... of the insert. */
  function RowsError(f: Frame, base: int, taken: set<int>, k: nat): (r: Option<WriteError>)
    requires k <= |f.rows|
    ensures r.None? <==> forall j :: k <= j < |f.rows| ==> RowFault(f, base, taken, j).None?
    ensures r.Some? ==> || (r.value.NotNull? && r.value.column in Required)
                        || (r.value.DuplicateId? && r.value.id in taken && base + k <= r.value.id < base + |f.rows|)
    decreases |f.rows| - k
  {
    if k == |f.rows| then None
    else
      match RowFault(f, base, taken, k)
      case Some(e) => Some(e)
      case None => RowsError(f, base, taken, k + 1)
  }

  /** The error of rows `k`, `k + 1`, ... is the fault of the first of them that has one. */
  lemma RowsErrorFirst(f: Frame, base: int, taken: set<int>, k: nat)
    requires k <= |f.rows|
    ensures var r := RowsError(f, base, taken, k);
      r.Some? ==> exists j :: k <= j < |f.rows| && RowFault(f, base, taken, j) == r &&
                              forall i :: k <= i < j ==> RowFault(f, base, taken, i).None?
  {
    var faults := Faults(f, base, taken);
    RowsErrorFirstSome(f, base, taken, k);
    FirstSomeIsFirst(faults, k);
  }

  /** The faults of the rows of an insert, in row order. */
  ghost function Faults(f: Frame, base: int, taken: set<int>): (r: seq<Option<WriteError>>)
    ensures |r| == |f.rows|
    ensures forall j :: 0 <= j < |r| ==> r[j] == RowFault(f, base, taken, j)
  {
    seq(|f.rows|, j requires 0 <= j < |f.rows| => RowFault(f, base, taken, j))
  }

  lemma {:induction false} RowsErrorFirstSome(f: Frame, base: int, taken: set<int>, k: nat)
    requires k <= |f.rows|
    ensures RowsError(f, base, taken, k) == FirstSome(Faults(f, base, taken), k)
    decreases |f.rows| - k
  {
    if k < |f.rows| {
      RowsErrorFirstSome(f, base, taken, k + 1);
    }
  }

  /** The error an insert of `f` with ids from `base` meets, when the ids in `taken` are in use.
      A frame without rows runs no INSERT at all and meets none; otherwise a column the table
      lacks, else the first row that fails its check: a NULL in a NOT NULL column or an id in
      use. `BatchAccepts` says when there is none. */
  function BatchError(f: Frame, base: int, taken: set<int>): (r: Option<WriteError>)
    ensures r.None? <==> (|f.rows| > 0 ==> forall c :: c in f.columns ==> c in DataColumns) &&
                         (forall k :: 0 <= k < |f.rows| ==> RowFault(f, base, taken, k).None?)
    ensures r.Some? ==> |f.rows| > 0
    ensures r.Some? && r.value.BadColumn? ==> r.value.column in f.columns && r.value.column !in DataColumns
    ensures r.Some? && !r.value.BadColumn? ==>
              || (r.value.NotNull? && r.value.column in Required)
              || (r.value.DuplicateId? && r.value.id in taken && base <= r.value.id < base + |f.rows|)
  {
    if f.rows == [] then None
    else
      match FirstUnknown(f.columns)
      case Some(c) => Some(BadColumn(c))
      case None => RowsError(f, base, taken, 0)
  }

  /** An insert is accepted exactly when it has no rows, or when every column is a column of the
      table, every row fills the NOT NULL columns and none of the new ids is in use. */
  lemma BatchAccepts(f: Frame, base: int, taken: set<int>)
    ensures BatchError(f, base, taken).None? <==> (
      && (|f.rows| > 0 ==> forall c :: c in f.columns ==> c in DataColumns)
      && (forall k :: 0 <= k < |f.rows| ==> Admissible(Project(f.rows[k], f.columns)))
      && (forall id :: id in taken ==> !(base <= id < base + |f.rows|)))
  {
    RowsFaultFree(f, base, taken);
  }

  lemma RowsFaultFree(f: Frame, base: int, taken: set<int>)
    ensures (forall k :: 0 <= k < |f.rows| ==> RowFault(f, base, taken, k).None?) <==>
            (forall k :: 0 <= k < |f.rows| ==> Admissible(Project(f.rows[k], f.columns))) &&
            (forall id :: id in taken ==> !(base <= id < base + |f.rows|))
  {
    if exists k :: 0 <= k < |f.rows| && !Admissible(Project(f.rows[k], f.columns)) {
      var k :| 0 <= k < |f.rows| && !Admissible(Project(f.rows[k], f.columns));
      assert RowFault(f, base, taken, k).Some?;
    }
    if exists id :: id in taken && base <= id < base + |f.rows| {
      var id :| id in taken && base <= id < base + |f.rows|;
      assert RowFault(f, base, taken, id - base).Some?;
    }
  }

  /** A NOT NULL failure of rows `k`, `k + 1`, ... names a column that is NULL in one of them. */
  lemma RowsErrorNull(f: Frame, base: int, taken: set<int>, k: nat, c: string)
    requires k <= |f.rows| && RowsError(f, base, taken, k) == Some(NotNull(c))
    ensures exists j :: k <= j < |f.rows| && Cell(Project(f.rows[j], f.columns), c).None?
  {
    RowsErrorFirst(f, base, taken, k);
    var j :| k <= j < |f.rows| && RowFault(f, base, taken, j) == Some(NotNull(c));
  }

  /** A NOT NULL failure of an insert names a column that is NULL in one of its rows. */
  lemma BatchErrorNull(f: Frame, base: int, taken: set<int>)
    requires BatchError(f, base, taken).Some? && BatchError(f, base, taken).value.NotNull?
    ensures exists k :: 0 <= k < |f.rows| && Cell(Project(f.rows[k], f.columns), BatchError(f, base, taken).value.column).None?
  {
    RowsErrorNull(f, base, taken, 0, BatchError(f, base, taken).value.column);
  }

  /** The id SQLite gives a row inserted without one: one more than the largest in use, 1 in an
      empty table. */
  function NextId(rows: seq<StoredRow>): (r: int)
    ensures forall i :: 0 <= i < |rows| ==> rows[i].id < r
    ensures rows == [] ==> r == 1
    ensures rows != [] ==> exists i :: 0 <= i < |rows| && rows[i].id == r - 1
  {
    if rows == [] then 1
    else
      var rest := NextId(rows[1..]);
      assert forall i :: 1 <= i < |rows| ==> rows[i] == rows[1..][i - 1];
      if rows[1..] == [] || rows[0].id >= rest then rows[0].id + 1 else rest
  }

  /** The ids of a bulk insert from `base` are `base`, ..., `base + n - 1`: all different. */
  lemma LoadedIds(f: Frame, base: int)
    ensures IdsDistinct(Loaded(f, base))
    ensures forall x :: x in IdSet(Loaded(f, base)) <==> base <= x < base + |f.rows|
  {
    var r := Loaded(f, base);
    forall x | base <= x < base + |f.rows| ensures x in IdSet(r) {
      assert r[x - base].id == x;
    }
  }

  /** Ids handed out from `NextId` on are above every id in use. */
  lemma NextIdFresh(rows: seq<StoredRow>)
    ensures forall x :: x in IdSet(rows) ==> x < NextId(rows)
  {
  }

  /** Appending ids that are distinct and not yet in use keeps ids distinct. */
  lemma AppendKeepsIdsDistinct(old_rows: seq<StoredRow>, added: seq<StoredRow>)
    requires IdsDistinct(old_rows) && IdsDistinct(added)
    requires forall k :: 0 <= k < |added| ==> added[k].id !in IdSet(old_rows)
    ensures IdsDistinct(old_rows + added)
  {
    var all := old_rows + added;
    forall i, j | 0 <= i < j < |all| ensures all[i].id != all[j].id {
      if i < |old_rows| && j >= |old_rows| {
        assert all[i].id in IdSet(old_rows);
        assert all[j] == added[j - |old_rows|];
      } else if i >= |old_rows| {
        assert all[i] == added[i - |old_rows|] && all[j] == added[j - |old_rows|];
      }
    }
  }

  class Database {
    /** Whether CREATE TABLE has run. */
    var hasTable: bool
    /** The stored rows, in insertion order. */
    var rows: seq<StoredRow>

    /** No rows without a table, distinct primary keys, and every row meets the NOT NULL constraints. */
    ghost predicate Valid()
      reads this
    {
      && (!hasTable ==> rows == [])
      && IdsDistinct(rows)
      && (forall i :: 0 <= i < |rows| ==> Admissible(rows[i].cells))
    }

    /** A database file without the table. */
    constructor ()
      ensures Valid() && !hasTable && rows == []
    {
      hasTable := false;
      rows := [];
    }

    /** CREATE TABLE IF NOT EXISTS: afterwards the table exists, and no row is touched; on an
        existing table it does nothing at all, so running it twice is running it once. */
    method CreateTableIfNotExists()
      requires Valid()
      modifies this
      ensures Valid() && hasTable && rows == old(rows)
      ensures old(hasTable) ==> unchanged(this)
    {
      hasTable := true;
    }

    /** `to_sql(..., if_exists='append')` of the rows of `f` with the ids `base`, `base + 1`, ...:
        in one transaction, so either every row is appended and the earlier rows are as they were,
        or the table is unchanged and the error is the first one `BatchError` names. */
    method InsertFrame(f: Frame, base: int) returns (r: Option<WriteError>)
      requires Valid() && hasTable
      modifies this
      ensures Valid() && hasTable
      ensures r == BatchError(f, base, IdSet(old(rows)))
      ensures r.None? ==> rows == old(rows) + Loaded(f, base)
      ensures r.Some? ==> rows == old(rows)
    {
      var taken := IdSet(rows);
      r := BatchError(f, base, taken);
      if r.None? {
        BatchAccepts(f, base, taken);
        LoadedIds(f, base);
        AppendKeepsIdsDistinct(rows, Loaded(f, base));
        rows := rows + Loaded(f, base);
      }
    }

    /** `to_sql(..., index=False)`: the rows get the ids SQLite chooses, starting at `NextId`. */
    method AppendFrame(f: Frame) returns (r: Result<int, WriteError>)
      requires Valid() && hasTable
      modifies this
      ensures Valid() && hasTable
      ensures r.Ok? <==> BatchError(f, NextId(old(rows)), IdSet(old(rows))).None?
      ensures r.Ok? ==> r.value == NextId(old(rows)) && rows == old(rows) + Loaded(f, r.value)
      ensures r.Err? ==> rows == old(rows) && r.error == BatchError(f, NextId(old(rows)), IdSet(old(rows))).value
      ensures r.Err? ==> !r.error.DuplicateId?
    {
      var base := NextId(rows);
      NextIdFresh(rows);
      BatchAccepts(f, base, IdSet(rows));
      var e := InsertFrame(f, base);
      if e.Some? {
        return Err(e.value);
      }
      r := Ok(base);
    }
  }
}
