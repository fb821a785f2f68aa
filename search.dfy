/** The "Real-time Logs and Quick Search" query of app.py: the latest fifty logs, optionally only
    those whose country name or vehicle number contains the search term, newest first. `LIKE
    '%term%'` is read as plain substring containment. */
module Search {
  import opened Wrappers
  import opened Sequences
  import opened Frames
  import opened Columns
  import opened TimeFormat
  import opened StopStore

  /** The nine selected columns of one log. */
  datatype LogLine = LogLine(stopId: int, stopDate: Option<Value>, stopTime: Option<Value>,
                             countryName: Option<Value>, vehicleNumber: Option<Value>,
                             violation: Option<Value>, stopOutcome: Option<Value>,
                             isArrested: Option<Value>, drugsRelatedStop: Option<Value>)

  function Line(r: StoredRow): LogLine {
    LogLine(r.id, Cell(r.cells, StopDate), Cell(r.cells, StopTime), Cell(r.cells, CountryName),
            Cell(r.cells, VehicleNumber), Cell(r.cells, Violation), Cell(r.cells, StopOutcome),
            Cell(r.cells, IsArrested), Cell(r.cells, DrugsRelatedStop))
  }

  /** `column LIKE '%term%'`: a text cell containing `term`; NULL never matches. */
  predicate Contains(v: Option<Value>, term: string)
    ensures Contains(v, term) <==> v.Some? && v.value.VStr? && exists k :: InfixAt(v.value.s, term, k)
  {
    v.Some? && v.value.VStr? && HasInfix(v.value.s, term)
  }

  /** The WHERE clause, present only for a non-empty term. */
  predicate Matches(term: string, r: StoredRow)
    ensures term == "" ==> Matches(term, r)
    ensures Matches(term, r) && term != "" ==>
              Cell(r.cells, CountryName).Some? || Cell(r.cells, VehicleNumber).Some?
  {
    term == "" || Contains(Cell(r.cells, CountryName), term) || Contains(Cell(r.cells, VehicleNumber), term)
  }

  function MatchesTerm(term: string): StoredRow -> bool {
    (r: StoredRow) => Matches(term, r)
  }

  /** A calendar date with a four-digit year, as the stored dates are. */
  predicate ValidDate(d: Date) {
    1 <= d.year <= 9999 && 1 <= d.month <= 12 && 1 <= d.day <= 31
  }

  /** The place of a `stop_date` cell in the order: NULL (and any cell that is no valid date)
      below every date, dates in calendar order. */
  function DateRank(v: Option<Value>): (n: nat)
    ensures n == 0 <==> !(v.Some? && v.value.VDate? && ValidDate(v.value.d))
  {
    if v.Some? && v.value.VDate? && ValidDate(v.value.d) then
      var d := v.value.d;
      1 + ((d.year - 1) * 12 + (d.month - 1)) * 31 + (d.day - 1)
    else 0
  }

  /** The same for a `stop_time` cell, below 86401. */
  function TimeRank(v: Option<Value>): (n: nat)
    ensures n <= 86400
    ensures n == 0 <==> !(v.Some? && v.value.VTime? && ValidTime(v.value.t))
  {
    if v.Some? && v.value.VTime? && ValidTime(v.value.t) then
      var t := v.value.t;
      1 + t.hour * 3600 + t.minute * 60 + t.second
    else 0
  }

  /** The sort key of `ORDER BY stop_date DESC, stop_time DESC`. */
  function StampKey(r: StoredRow): (k: real)
    ensures DateRank(Cell(r.cells, StopDate)) == 0 ==> 0.0 <= k <= 86400.0
    ensures DateRank(Cell(r.cells, StopDate)) > 0 ==> k >= 86401.0
  {
    (DateRank(Cell(r.cells, StopDate)) * 86401 + TimeRank(Cell(r.cells, StopTime))) as real
  }

  /** Dates compare by year, then month, then day. */
  ghost predicate DateBefore(a: Date, b: Date) {
    a.year < b.year || (a.year == b.year && (a.month < b.month || (a.month == b.month && a.day < b.day)))
  }

  ghost predicate TimeBefore(a: Time, b: Time) {
    a.hour < b.hour || (a.hour == b.hour && (a.minute < b.minute || (a.minute == b.minute && a.second < b.second)))
  }

  /** On valid dates the rank is the calendar order. */
  lemma DateRankOrder(a: Date, b: Date)
    requires ValidDate(a) && ValidDate(b)
    ensures DateRank(Some(VDate(a))) < DateRank(Some(VDate(b))) <==> DateBefore(a, b)
    ensures DateRank(Some(VDate(a))) == DateRank(Some(VDate(b))) <==> a == b
  {
    var ma := (a.year - 1) * 12 + (a.month - 1);
    var mb := (b.year - 1) * 12 + (b.month - 1);
    MixedRadix(a.year - 1, a.month - 1, b.year - 1, b.month - 1, 12);
    MixedRadix(ma, a.day - 1, mb, b.day - 1, 31);
  }

  /** On valid times the rank is the clock order. */
  lemma TimeRankOrder(a: Time, b: Time)
    requires ValidTime(a) && ValidTime(b)
    ensures TimeRank(Some(VTime(a))) < TimeRank(Some(VTime(b))) <==> TimeBefore(a, b)
    ensures TimeRank(Some(VTime(a))) == TimeRank(Some(VTime(b))) <==> a == b
  {
    MixedRadix(a.hour, a.minute, b.hour, b.minute, 60);
    MixedRadix(a.hour * 60 + a.minute, a.second, b.hour * 60 + b.minute, b.second, 60);
  }

  /** Two digits of a mixed-radix number compare lexicographically. */
  lemma MixedRadix(x: int, y: int, u: int, v: int, base: int)
    requires 0 <= y < base && 0 <= v < base
    ensures x * base + y < u * base + v <==> x < u || (x == u && y < v)
    ensures x * base + y == u * base + v <==> x == u && y == v
  {
    if x < u {
      assert x * base + y < (x + 1) * base <= u * base;
    } else if x > u {
      assert u * base + v < (u + 1) * base <= x * base;
    }
  }

  /** The key orders rows by date, and rows of one date by time: the two-column ORDER BY. */
  lemma StampKeyOrder(a: StoredRow, b: StoredRow)
    ensures StampKey(a) < StampKey(b) <==>
              || DateRank(Cell(a.cells, StopDate)) < DateRank(Cell(b.cells, StopDate))
              || (DateRank(Cell(a.cells, StopDate)) == DateRank(Cell(b.cells, StopDate)) &&
                  TimeRank(Cell(a.cells, StopTime)) < TimeRank(Cell(b.cells, StopTime)))
  {
    MixedRadix(DateRank(Cell(a.cells, StopDate)), TimeRank(Cell(a.cells, StopTime)),
               DateRank(Cell(b.cells, StopDate)), TimeRank(Cell(b.cells, StopTime)), 86401);
  }

  /** The rows the query returns, before projection. */
  function SearchRows(rows: seq<StoredRow>, term: string): (r: seq<StoredRow>)
    ensures |r| <= 50 && |r| <= |rows|
  {
    Take(SortDesc(Filter(rows, MatchesTerm(term)), StampKey), 50)
  }

  function Lines(rows: seq<StoredRow>): (r: seq<LogLine>)
    ensures |r| == |rows|
    ensures forall i :: 0 <= i < |r| ==> r[i] == Line(rows[i])
  {
    seq(|rows|, i requires 0 <= i < |rows| => Line(rows[i]))
  }

  /** The result of the query. */
  function SearchLogs(rows: seq<StoredRow>, term: string): (r: seq<LogLine>)
    ensures |r| <= 50 && |r| <= |rows|
  {
    Lines(SearchRows(rows, term))
  }

  /** At most fifty rows, each a stored row that matches the term, newest first; for a non-empty
      term each contains it in its country name or vehicle number. */
  lemma SearchRowsMatch(rows: seq<StoredRow>, term: string)
    ensures var r := SearchRows(rows, term);
      && |r| <= 50 && |r| <= |rows|
      && (forall i :: 0 <= i < |r| ==> r[i] in rows && Matches(term, r[i]))
      && (forall i :: 0 <= i < |r| && term != "" ==>
            || (Cell(r[i].cells, CountryName).Some? && Cell(r[i].cells, CountryName).value.VStr? &&
                exists k :: InfixAt(Cell(r[i].cells, CountryName).value.s, term, k))
            || (Cell(r[i].cells, VehicleNumber).Some? && Cell(r[i].cells, VehicleNumber).value.VStr? &&
                exists k :: InfixAt(Cell(r[i].cells, VehicleNumber).value.s, term, k)))
      && (forall i, j :: 0 <= i < j < |r| ==> StampKey(r[i]) >= StampKey(r[j]))
  {
    var matching := Filter(rows, MatchesTerm(term));
    var sorted := SortDesc(matching, StampKey);
    var r := SearchRows(rows, term);
    forall i | 0 <= i < |r| ensures r[i] in rows && Matches(term, r[i]) {
      assert r[i] == sorted[i] && sorted[i] in multiset(matching);
      assert MatchesTerm(term)(r[i]);
    }
  }

  /** The listed rows are matching rows, each listed at most as often as it is stored. */
  lemma SearchRowsFromMatching(rows: seq<StoredRow>, term: string)
    ensures multiset(SearchRows(rows, term)) <= multiset(Filter(rows, MatchesTerm(term)))
  {
    var sorted := SortDesc(Filter(rows, MatchesTerm(term)), StampKey);
    var r := SearchRows(rows, term);
    assert sorted == r + sorted[|r|..];
  }

  /** Each stored row is listed at most once: with distinct ids in the table, the listed ids are
      distinct too. */
  lemma SearchRowsIdsDistinct(rows: seq<StoredRow>, term: string)
    requires IdsDistinct(rows)
    ensures var r := SearchRows(rows, term);
      forall i, j :: 0 <= i < j < |r| ==> r[i].id != r[j].id
  {
    var r := SearchRows(rows, term);
    SearchRowsFromMatching(rows, term);
    FilterSubMultiset(rows, MatchesTerm(term));
    SubMultisetKeepsIds(rows, r, RowId);
  }

  function RowId(r: StoredRow): int {
    r.id
  }

  /** A matching row is left out only when fifty rows at least as new fill the result. */
  lemma SearchRowsComplete(rows: seq<StoredRow>, term: string, x: StoredRow)
    requires x in rows && Matches(term, x) && x !in SearchRows(rows, term)
    ensures |SearchRows(rows, term)| == 50
    ensures forall y :: y in SearchRows(rows, term) ==> StampKey(y) >= StampKey(x)
  {
    assert MatchesTerm(term)(x);
    TakeSortedOmits(Filter(rows, MatchesTerm(term)), StampKey, 50, x);
  }

  /** An empty term filters nothing: the query returns as many rows as the fifty newest of all
      rows, or all of them when there are fewer. */
  lemma EmptyTermNoFilter(rows: seq<StoredRow>)
    ensures Filter(rows, MatchesTerm("")) == rows
    ensures |SearchRows(rows, "")| == if |rows| < 50 then |rows| else 50
  {
    FilterAll(rows, MatchesTerm(""));
  }

  /** The search section: the base query, the WHERE clause only for a non-empty term, then the
      ordering and the limit. */
  method LatestLogs(db: Database, term: string) returns (r: seq<LogLine>)
    ensures r == SearchLogs(db.rows, term)
  {
    var selected := db.rows;
    if term != "" {
      selected := Filter(db.rows, MatchesTerm(term));
    } else {
      EmptyTermNoFilter(db.rows);
    }
    r := Lines(Take(SortDesc(selected, StampKey), 50));
  }
}
