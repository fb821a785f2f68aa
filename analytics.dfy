/** The three reports of `ANALYTICS_QUERIES` in app.py, as functions of the stored rows: the top
    ten vehicles in drug-related stops, the arrest rate per driver age group, and the search and
    arrest rates per violation. SQL's REAL arithmetic is exact `real` arithmetic here. */
module Analytics {
  import opened Wrappers
  import opened Sequences
  import opened Frames
  import opened Columns
  import opened StopStore

  /** `column = TRUE`: SQLite keeps a boolean as the integer 1 or 0, and NULL is never true. */
  predicate IsTrue(v: Option<Value>)
    ensures IsTrue(v) <==> v == Some(VBool(true)) || v == Some(VInt(1))
    ensures IsTrue(v) ==> v.Some?
    ensures v == Some(VBool(false)) || v == Some(VInt(0)) ==> !IsTrue(v)
  {
    v == Some(VBool(true)) || v == Some(VInt(1))
  }

  /** The distinct values of `key` over the rows: the groups of `GROUP BY`. */
  function GroupKeys<K(==,!new)>(rows: seq<StoredRow>, key: StoredRow -> K): (r: seq<K>)
    ensures NoDup(r)
    ensures forall g :: g in r <==> exists i :: 0 <= i < |rows| && key(rows[i]) == g
  {
    var all := seq(|rows|, i requires 0 <= i < |rows| => key(rows[i]));
    assert forall i :: 0 <= i < |rows| ==> all[i] == key(rows[i]);
    Distinct(all)
  }

  function InGroup<K(==)>(key: StoredRow -> K, g: K): StoredRow -> bool {
    (r: StoredRow) => key(r) == g
  }

  function InGroupWith<K(==)>(key: StoredRow -> K, g: K, flag: string): StoredRow -> bool {
    (r: StoredRow) => key(r) == g && IsTrue(Cell(r.cells, flag))
  }

  /** The groups are exactly the keys with at least one row. */
  lemma GroupKeysOccur<K(!new)>(rows: seq<StoredRow>, key: StoredRow -> K)
    ensures forall g :: g in GroupKeys(rows, key) <==> GroupSize(rows, key, g) >= 1
  {
    forall g ensures g in GroupKeys(rows, key) <==> GroupSize(rows, key, g) >= 1 {
      if GroupSize(rows, key, g) >= 1 {
        var j :| 0 <= j < |rows| && key(rows[j]) == g;
      }
    }
  }

  /** `COUNT(*)` of group `g`. */
  function GroupSize<K(==)>(rows: seq<StoredRow>, key: StoredRow -> K, g: K): (n: nat)
    ensures n >= 1 <==> exists i :: 0 <= i < |rows| && key(rows[i]) == g
  {
    CountIf(rows, InGroup(key, g))
  }

  /** `SUM(CASE WHEN flag = TRUE THEN 1 ELSE 0 END)` of group `g`: never more than its size. */
  function GroupHits<K(==)>(rows: seq<StoredRow>, key: StoredRow -> K, g: K, flag: string): (n: nat)
    ensures n <= GroupSize(rows, key, g)
  {
    CountIfMono(rows, InGroupWith(key, g, flag), InGroup(key, g));
    CountIf(rows, InGroupWith(key, g, flag))
  }

  /** `CAST(hits AS REAL) * 100 / total`: `hits` as a share of `total`, in percent. */
  function Percentage(hits: nat, total: nat): (r: real)
    requires total > 0
    ensures r * (total as real) == (hits as real) * 100.0
    ensures hits <= total ==> 0.0 <= r <= 100.0
  {
    (hits as real) * 100.0 / (total as real)
  }

  // ---- Top 10 vehicles in drug-related stops -------------------------------------------------

  datatype VehicleCount = VehicleCount(vehicle: Value, count: nat)

  /** The rows the WHERE clause keeps that carry vehicle number `v`. */
  function DrugStopOf(v: Value): StoredRow -> bool {
    (r: StoredRow) => IsTrue(Cell(r.cells, DrugsRelatedStop)) && Cell(r.cells, VehicleNumber) == Some(v)
  }

  /** How many drug-related stops vehicle `v` has. */
  function DrugStops(rows: seq<StoredRow>, v: Value): nat {
    CountIf(rows, DrugStopOf(v))
  }

  /** The vehicle numbers of the rows `WHERE drugs_related_stop = TRUE AND vehicle_number IS NOT NULL`. */
  function DrugVehicles(rows: seq<StoredRow>): (r: seq<Value>)
    ensures forall v :: v in r <==> DrugStops(rows, v) >= 1
  {
    if rows == [] then []
    else
      var rest := DrugVehicles(rows[1..]);
      assert forall i :: 0 < i < |rows| ==> rows[i] == rows[1..][i - 1];
      assert forall v :: DrugStops(rows, v) >= 1 <==> DrugStopOf(v)(rows[0]) || DrugStops(rows[1..], v) >= 1;
      if IsTrue(Cell(rows[0].cells, DrugsRelatedStop)) && Cell(rows[0].cells, VehicleNumber).Some?
      then [Cell(rows[0].cells, VehicleNumber).value] + rest
      else rest
  }

  function CountKey(g: VehicleCount): real {
    g.count as real
  }

  /** One row per vehicle with a drug-related stop, before ordering. */
  function VehicleCounts(rows: seq<StoredRow>, vs: seq<Value>): (r: seq<VehicleCount>)
    ensures |r| == |vs|
    ensures forall i :: 0 <= i < |r| ==> r[i] == VehicleCount(vs[i], DrugStops(rows, vs[i]))
  {
    seq(|vs|, i requires 0 <= i < |vs| => VehicleCount(vs[i], DrugStops(rows, vs[i])))
  }

  function VehicleOf(g: VehicleCount): Value {
    g.vehicle
  }

  /** The first query: the vehicles with a drug-related stop and their counts, ordered by count
      from the highest, the first ten of them. */
  function TopDrugVehicles(rows: seq<StoredRow>): (r: seq<VehicleCount>)
    ensures |r| <= 10
  {
    Take(SortDesc(VehicleCounts(rows, Distinct(DrugVehicles(rows))), CountKey), 10)
  }

  /** At most ten rows, each a vehicle with its true number of drug-related stops, at least one,
      in non-increasing order of the count. */
  lemma TopDrugVehiclesCounts(rows: seq<StoredRow>)
    ensures var r := TopDrugVehicles(rows);
      && |r| <= 10
      && (forall i :: 0 <= i < |r| ==> r[i].count == DrugStops(rows, r[i].vehicle) && r[i].count >= 1)
      && (forall i, j :: 0 <= i < j < |r| ==> r[i].count >= r[j].count)
  {
    var groups := VehicleCounts(rows, Distinct(DrugVehicles(rows)));
    var sorted := SortDesc(groups, CountKey);
    var r := Take(sorted, 10);
    forall i | 0 <= i < |r| ensures r[i].count == DrugStops(rows, r[i].vehicle) && r[i].count >= 1 {
      assert r[i] == sorted[i] && sorted[i] in multiset(groups);
    }
  }

  /** No vehicle is listed twice. */
  lemma TopDrugVehiclesDistinct(rows: seq<StoredRow>)
    ensures var r := TopDrugVehicles(rows);
      forall i, j :: 0 <= i < j < |r| ==> r[i].vehicle != r[j].vehicle
  {
    var groups := VehicleCounts(rows, Distinct(DrugVehicles(rows)));
    var sorted := SortDesc(groups, CountKey);
    PermutationKeepsIds(groups, sorted, VehicleOf);
  }

  /** A vehicle with a drug-related stop is left out only when ten vehicles with at least as many
      such stops fill the list. */
  lemma TopDrugVehiclesComplete(rows: seq<StoredRow>, v: Value)
    requires DrugStops(rows, v) >= 1
    requires forall i :: 0 <= i < |TopDrugVehicles(rows)| ==> TopDrugVehicles(rows)[i].vehicle != v
    ensures var r := TopDrugVehicles(rows);
      |r| == 10 && forall i :: 0 <= i < |r| ==> r[i].count >= DrugStops(rows, v)
  {
    var vs := Distinct(DrugVehicles(rows));
    var groups := VehicleCounts(rows, vs);
    var r := TopDrugVehicles(rows);
    var x := VehicleCount(v, DrugStops(rows, v));
    var k :| 0 <= k < |vs| && vs[k] == v;
    assert groups[k] == x;
    assert x !in r;
    TakeSortedOmits(groups, CountKey, 10, x);
    forall i | 0 <= i < |r| ensures r[i].count >= x.count {
      assert r[i] in r;
      assert CountKey(r[i]) >= CountKey(x);
    }
  }

  // ---- Arrest rate by driver age group -------------------------------------------------------

  /** The four groups of the CASE expression. */
  datatype AgeGroup = From16To25 | From26To35 | From36To45 | From46

  function Label(g: AgeGroup): string {
    match g
    case From16To25 => "16-25"
    case From26To35 => "26-35"
    case From36To45 => "36-45"
    case From46 => "46+"
  }

  /** The four labels are different, so every age gets exactly one of them. */
  lemma LabelsDistinct(g: AgeGroup, h: AgeGroup)
    ensures Label(g) == Label(h) <==> g == h
  {
    assert Label(From16To25)[0] == '1' && Label(From26To35)[0] == '2';
    assert Label(From36To45)[0] == '3' && Label(From46)[0] == '4';
  }

  /** The CASE over `driver_age`: the three closed ranges of BETWEEN, and ELSE for every other
      age, for a NULL and for a value that is no integer. */
  function AgeGroupOf(age: Option<Value>): (g: AgeGroup)
    ensures g == From16To25 <==> age.Some? && age.value.VInt? && 16 <= age.value.i <= 25
    ensures g == From26To35 <==> age.Some? && age.value.VInt? && 26 <= age.value.i <= 35
    ensures g == From36To45 <==> age.Some? && age.value.VInt? && 36 <= age.value.i <= 45
    ensures g == From46 <==> !(age.Some? && age.value.VInt? && 16 <= age.value.i <= 45)
  {
    match age
    case Some(VInt(a)) =>
      if 16 <= a <= 25 then From16To25
      else if 26 <= a <= 35 then From26To35
      else if 36 <= a <= 45 then From36To45
      else From46
    case _ => From46
  }

  function AgeOf(r: StoredRow): AgeGroup {
    AgeGroupOf(Cell(r.cells, DriverAge))
  }

  datatype AgeRate = AgeRate(group: AgeGroup, rate: real)

  function RateKey(a: AgeRate): real {
    a.rate
  }

  function GroupOf(a: AgeRate): AgeGroup {
    a.group
  }

  function AgeRates(rows: seq<StoredRow>, gs: seq<AgeGroup>): (r: seq<AgeRate>)
    requires forall g :: g in gs ==> GroupSize(rows, AgeOf, g) >= 1
    ensures |r| == |gs|
    ensures forall i :: 0 <= i < |r| ==>
              r[i] == AgeRate(gs[i], Percentage(GroupHits(rows, AgeOf, gs[i], IsArrested), GroupSize(rows, AgeOf, gs[i])))
  {
    seq(|gs|, i requires 0 <= i < |gs| =>
      AgeRate(gs[i], Percentage(GroupHits(rows, AgeOf, gs[i], IsArrested), GroupSize(rows, AgeOf, gs[i]))))
  }

  /** The second query: a row per age group that occurs, ordered by arrest rate from the highest. */
  function ArrestRateByAge(rows: seq<StoredRow>): (r: seq<AgeRate>)
    ensures rows != [] ==> |r| >= 1
  {
    var gs := GroupKeys(rows, AgeOf);
    SortDesc(AgeRates(rows, gs), RateKey)
  }

  /** Every row is an age group with stops, its rate the share of them that ended in arrest,
      between 0 and 100; the rates are non-increasing. */
  lemma ArrestRateByAgeRates(rows: seq<StoredRow>)
    ensures var r := ArrestRateByAge(rows);
      && (forall i :: 0 <= i < |r| ==>
            && GroupSize(rows, AgeOf, r[i].group) >= 1
            && r[i].rate == Percentage(GroupHits(rows, AgeOf, r[i].group, IsArrested), GroupSize(rows, AgeOf, r[i].group))
            && 0.0 <= r[i].rate <= 100.0)
      && (forall i, j :: 0 <= i < j < |r| ==> r[i].rate >= r[j].rate)
  {
    var groups := AgeRates(rows, GroupKeys(rows, AgeOf));
    var r := ArrestRateByAge(rows);
    forall i | 0 <= i < |r| ensures r[i] in groups {
      assert r[i] in multiset(groups);
    }
  }

  /** Exactly the age groups that occur are listed, each once. */
  lemma ArrestRateByAgeGroups(rows: seq<StoredRow>)
    ensures var r := ArrestRateByAge(rows);
      && (forall g :: (exists i :: 0 <= i < |r| && r[i].group == g) <==> GroupSize(rows, AgeOf, g) >= 1)
      && (forall i, j :: 0 <= i < j < |r| ==> r[i].group != r[j].group)
  {
    var gs := GroupKeys(rows, AgeOf);
    var r := ArrestRateByAge(rows);
    ReorderedKeys(AgeRates(rows, gs), r, GroupOf, gs);
    GroupKeysOccur(rows, AgeOf);
  }

  // ---- Violations with high search and arrest rates ------------------------------------------

  datatype ViolationRate = ViolationRate(violation: Option<Value>, searchRate: real, arrestRate: real, combinedRate: real)

  /** The GROUP BY key; a NULL violation would be a group of its own. */
  function ViolationOf(r: StoredRow): Option<Value> {
    Cell(r.cells, Violation)
  }

  function CombinedKey(v: ViolationRate): real {
    v.combinedRate
  }

  function ViolationKey(v: ViolationRate): Option<Value> {
    v.violation
  }

  /** The row of one violation: both rates, and their mean. */
  function ViolationRow(rows: seq<StoredRow>, g: Option<Value>): (r: ViolationRate)
    requires GroupSize(rows, ViolationOf, g) >= 1
    ensures r.violation == g
    ensures r.searchRate == Percentage(GroupHits(rows, ViolationOf, g, SearchConducted), GroupSize(rows, ViolationOf, g))
    ensures r.arrestRate == Percentage(GroupHits(rows, ViolationOf, g, IsArrested), GroupSize(rows, ViolationOf, g))
    ensures 2.0 * r.combinedRate == r.searchRate + r.arrestRate
    ensures 0.0 <= r.searchRate <= 100.0 && 0.0 <= r.arrestRate <= 100.0
    ensures r.searchRate <= r.combinedRate <= r.arrestRate || r.arrestRate <= r.combinedRate <= r.searchRate
  {
    var n := GroupSize(rows, ViolationOf, g);
    var search := Percentage(GroupHits(rows, ViolationOf, g, SearchConducted), n);
    var arrest := Percentage(GroupHits(rows, ViolationOf, g, IsArrested), n);
    ViolationRate(g, search, arrest, (search + arrest) / 2.0)
  }

  function ViolationRates(rows: seq<StoredRow>, gs: seq<Option<Value>>): (r: seq<ViolationRate>)
    requires forall g :: g in gs ==> GroupSize(rows, ViolationOf, g) >= 1
    ensures |r| == |gs|
    ensures forall i :: 0 <= i < |r| ==> r[i] == ViolationRow(rows, gs[i])
  {
    seq(|gs|, i requires 0 <= i < |gs| => ViolationRow(rows, gs[i]))
  }

  /** The third query: a row per violation that occurs, ordered by combined rate from the highest. */
  function ViolationRisk(rows: seq<StoredRow>): (r: seq<ViolationRate>)
    ensures rows != [] ==> |r| >= 1
  {
    SortDesc(ViolationRates(rows, GroupKeys(rows, ViolationOf)), CombinedKey)
  }

  /** Every row is a violation with stops and carries the search and arrest rates of its stops,
      both between 0 and 100, and their mean as the combined rate, which lies between the two;
      the combined rates are non-increasing. */
  lemma ViolationRiskRates(rows: seq<StoredRow>)
    ensures var r := ViolationRisk(rows);
      && (forall i :: 0 <= i < |r| ==>
            && GroupSize(rows, ViolationOf, r[i].violation) >= 1
            && r[i] == ViolationRow(rows, r[i].violation)
            && 0.0 <= r[i].searchRate <= 100.0 && 0.0 <= r[i].arrestRate <= 100.0
            && (r[i].searchRate <= r[i].combinedRate <= r[i].arrestRate ||
                r[i].arrestRate <= r[i].combinedRate <= r[i].searchRate))
      && (forall i, j :: 0 <= i < j < |r| ==> r[i].combinedRate >= r[j].combinedRate)
  {
    var groups := ViolationRates(rows, GroupKeys(rows, ViolationOf));
    var r := ViolationRisk(rows);
    forall i | 0 <= i < |r| ensures r[i] in groups {
      assert r[i] in multiset(groups);
    }
  }

  /** Exactly the violations that occur are listed, each once. */
  lemma ViolationRiskGroups(rows: seq<StoredRow>)
    ensures var r := ViolationRisk(rows);
      && (forall g :: (exists i :: 0 <= i < |r| && r[i].violation == g) <==> GroupSize(rows, ViolationOf, g) >= 1)
      && (forall i, j :: 0 <= i < j < |r| ==> r[i].violation != r[j].violation)
  {
    var gs := GroupKeys(rows, ViolationOf);
    var r := ViolationRisk(rows);
    ReorderedKeys(ViolationRates(rows, gs), r, ViolationKey, gs);
    GroupKeysOccur(rows, ViolationOf);
  }

}
