/**
 * The "Advanced Insights" query catalog: six fixed aggregate reports over
 * the whole traffic_logs table, chosen by title. Each report is modelled
 * by the integer columns of its result rows; row order is modelled only
 * where it decides which rows are returned (the top five).
 */
module Reports {
  import opened Wrappers
  import opened Records
  import opened Grouping

  /** The catalog entries, one constructor each. */
  datatype Report =
    | YearlyBreakdown
    | ViolationTrends
    | TimePeriodAnalysis
    | HighSearchArrestRates
    | DemographicsByCountry
    | TopArrestRates

  /** The title the select box shows for each report. */
  function Title(q: Report): string
  {
    match q
    case YearlyBreakdown => "Yearly Breakdown of Stops and Arrests by Country"
    case ViolationTrends => "Driver Violation Trends Based on Age and Race"
    case TimePeriodAnalysis => "Time Period Analysis of Stops (Year, Month, Hour)"
    case HighSearchArrestRates => "Violations with High Search and Arrest Rates"
    case DemographicsByCountry => "Driver Demographics by Country"
    case TopArrestRates => "Top 5 Violations with Highest Arrest Rates"
  }

  /** `query_options`, in the order the select box lists them. */
  const CATALOG: seq<Report> := [YearlyBreakdown, ViolationTrends, TimePeriodAnalysis,
                                 HighSearchArrestRates, DemographicsByCountry, TopArrestRates]

  /** The `if`/`elif` ladder on the selected title; an unknown title selects nothing. */
  function Lookup(title: string): (q: Option<Report>)
    ensures q.Some? ==> Title(q.value) == title
  {
    if title == Title(YearlyBreakdown) then Some(YearlyBreakdown)
    else if title == Title(ViolationTrends) then Some(ViolationTrends)
    else if title == Title(TimePeriodAnalysis) then Some(TimePeriodAnalysis)
    else if title == Title(HighSearchArrestRates) then Some(HighSearchArrestRates)
    else if title == Title(DemographicsByCountry) then Some(DemographicsByCountry)
    else if title == Title(TopArrestRates) then Some(TopArrestRates)
    else None
  }

  /** The titles have pairwise different lengths, which tells them apart cheaply. */
  lemma TitleLength(q: Report)
    ensures |Title(q)| == match q
      case YearlyBreakdown => 48 case ViolationTrends => 45 case TimePeriodAnalysis => 49
      case HighSearchArrestRates => 44 case DemographicsByCountry => 30 case TopArrestRates => 42
  {
    match q
    case YearlyBreakdown =>
    case ViolationTrends =>
    case TimePeriodAnalysis =>
    case HighSearchArrestRates =>
    case DemographicsByCountry =>
    case TopArrestRates =>
  }

  /** Every title selects its own report: the titles are pairwise different. */
  lemma LookupTitle(q: Report)
    ensures Lookup(Title(q)) == Some(q)
  {
    AllTitleLengths();
  }

  lemma AllTitleLengths()
    ensures |Title(YearlyBreakdown)| == 48 && |Title(ViolationTrends)| == 45 && |Title(TimePeriodAnalysis)| == 49
    ensures |Title(HighSearchArrestRates)| == 44 && |Title(DemographicsByCountry)| == 30 && |Title(TopArrestRates)| == 42
  {
    TitleLength(YearlyBreakdown);
    TitleLength(ViolationTrends);
    TitleLength(TimePeriodAnalysis);
    TitleLength(HighSearchArrestRates);
    TitleLength(DemographicsByCountry);
    TitleLength(TopArrestRates);
  }

  /** A title selects nothing exactly when it is no report's title. */
  lemma LookupNone(title: string)
    ensures Lookup(title) == None <==> forall q :: Title(q) != title
  {
  }

  /** The select box offers every report exactly once. */
  lemma CatalogComplete()
    ensures |CATALOG| == 6
    ensures forall q :: q in CATALOG
    ensures forall i, j :: 0 <= i < j < |CATALOG| ==> Title(CATALOG[i]) != Title(CATALOG[j])
  {
    AllTitleLengths();
    forall q ensures q in CATALOG {
      match q
      case YearlyBreakdown => assert CATALOG[0] == q;
      case ViolationTrends => assert CATALOG[1] == q;
      case TimePeriodAnalysis => assert CATALOG[2] == q;
      case HighSearchArrestRates => assert CATALOG[3] == q;
      case DemographicsByCountry => assert CATALOG[4] == q;
      case TopArrestRates => assert CATALOG[5] == q;
    }
  }

  /** `is_arrested = 1`. */
  function Arrested(r: StopRecord): bool { r.isArrested }

  /** `search_conducted = 1`. */
  function Searched(r: StopRecord): bool { r.searchConducted }

  /** The SQL threshold `HAVING total_stops > 50`. */
  const MIN_SUPPORT: nat := 50

  /** The SQL `LIMIT 5`. */
  const TOP_LIMIT: nat := 5

  // ---- Yearly Breakdown of Stops and Arrests by Country (lines 165-175)

  function CountryYear(r: StopRecord): (Option<string>, Option<int>)
  {
    (r.countryName, YearOf(r))
  }

  datatype YearlyRow = YearlyRow(country: Option<string>, year: Option<int>, totalStops: nat, totalArrests: nat)

  function YearlyStops(rows: seq<YearlyRow>): seq<nat>
  {
    seq(|rows|, i requires 0 <= i < |rows| => rows[i].totalStops)
  }

  /**
   * One row per (country, year) pair that occurs, NULL included; each row
   * counts its stops and, among them, its arrests; the rows' stops add up
   * to the number of records.
   */
  function YearlyBreakdownRows(rs: seq<StopRecord>): (rows: seq<YearlyRow>)
    ensures forall i :: 0 <= i < |rows| ==>
      && rows[i].totalStops == GroupSize(rs, CountryYear, (rows[i].country, rows[i].year)) > 0
      && rows[i].totalArrests == GroupFlagged(rs, CountryYear, (rows[i].country, rows[i].year), Arrested)
      && rows[i].totalArrests <= rows[i].totalStops
    ensures forall i, j :: 0 <= i < j < |rows| ==> (rows[i].country, rows[i].year) != (rows[j].country, rows[j].year)
    ensures forall k :: HasKey(rs, CountryYear, k) <==> exists i :: 0 <= i < |rows| && (rows[i].country, rows[i].year) == k
    ensures SumNat(YearlyStops(rows)) == |rs|
  {
    var ks := Keys(rs, CountryYear);
    var rows := seq(|ks|, i requires 0 <= i < |ks| =>
      YearlyRow(ks[i].0, ks[i].1, GroupSize(rs, CountryYear, ks[i]), GroupFlagged(rs, CountryYear, ks[i], Arrested)));
    assert forall i :: 0 <= i < |rows| ==> (rows[i].country, rows[i].year) == ks[i];
    forall i | 0 <= i < |rows| ensures rows[i].totalStops > 0 && rows[i].totalArrests <= rows[i].totalStops {
      assert ks[i] in ks;
      GroupSizePositive(rs, CountryYear, ks[i]);
      FlaggedAtMostSize(rs, CountryYear, ks[i], Arrested);
    }
    forall k | HasKey(rs, CountryYear, k) ensures exists i :: 0 <= i < |rows| && (rows[i].country, rows[i].year) == k {
      var i :| 0 <= i < |ks| && ks[i] == k;
    }
    SizesCoverAll(rs, CountryYear);
    assert YearlyStops(rows) == Sizes(rs, CountryYear, ks);
    rows
  }

  // ---- Driver Violation Trends Based on Age and Race (lines 177-188)

  /** `WHERE driver_age IS NOT NULL`. */
  function WithAge(rs: seq<StopRecord>): (kept: seq<StopRecord>)
    ensures forall i :: 0 <= i < |kept| ==> kept[i].driverAge.Some?
  {
    if rs == [] then []
    else (if rs[0].driverAge.Some? then [rs[0]] else []) + WithAge(rs[1..])
  }

  /** The records whose driver age is present. */
  function AgeKnown(rs: seq<StopRecord>): nat
  {
    if rs == [] then 0 else (if rs[0].driverAge.Some? then 1 else 0) + AgeKnown(rs[1..])
  }

  lemma {:induction false} WithAgeLength(rs: seq<StopRecord>)
    ensures |WithAge(rs)| == AgeKnown(rs)
  {
    if rs != [] {
      WithAgeLength(rs[1..]);
    }
  }

  function RaceAgeViolation(r: StopRecord): (Option<string>, Option<int>, Option<string>)
  {
    (r.driverRace, r.driverAge, r.violation)
  }

  datatype TrendRow = TrendRow(race: Option<string>, age: Option<int>, violation: Option<string>, count: nat)

  function TrendCounts(rows: seq<TrendRow>): seq<nat>
  {
    seq(|rows|, i requires 0 <= i < |rows| => rows[i].count)
  }

  /**
   * One row per (race, age, violation) triple among the records with an
   * age; no row has a NULL age; the counts add up to the records with an age.
   */
  function ViolationTrendRows(rs: seq<StopRecord>): (rows: seq<TrendRow>)
    ensures forall i :: 0 <= i < |rows| ==>
      && rows[i].age.Some?
      && rows[i].count == GroupSize(WithAge(rs), RaceAgeViolation, (rows[i].race, rows[i].age, rows[i].violation)) > 0
    ensures forall i, j :: 0 <= i < j < |rows| ==>
      (rows[i].race, rows[i].age, rows[i].violation) != (rows[j].race, rows[j].age, rows[j].violation)
    ensures forall k :: HasKey(WithAge(rs), RaceAgeViolation, k) <==>
      exists i :: 0 <= i < |rows| && (rows[i].race, rows[i].age, rows[i].violation) == k
    ensures SumNat(TrendCounts(rows)) == AgeKnown(rs)
  {
    var known := WithAge(rs);
    var ks := Keys(known, RaceAgeViolation);
    var rows := seq(|ks|, i requires 0 <= i < |ks| =>
      TrendRow(ks[i].0, ks[i].1, ks[i].2, GroupSize(known, RaceAgeViolation, ks[i])));
    assert forall i :: 0 <= i < |rows| ==> (rows[i].race, rows[i].age, rows[i].violation) == ks[i];
    forall i | 0 <= i < |rows| ensures rows[i].age.Some? && rows[i].count > 0 {
      assert ks[i] in ks;
      var k :| 0 <= k < |known| && RaceAgeViolation(known[k]) == ks[i];
      GroupSizePositive(known, RaceAgeViolation, ks[i]);
    }
    forall k | HasKey(known, RaceAgeViolation, k)
      ensures exists i :: 0 <= i < |rows| && (rows[i].race, rows[i].age, rows[i].violation) == k
    {
      var i :| 0 <= i < |ks| && ks[i] == k;
    }
    SizesCoverAll(known, RaceAgeViolation);
    WithAgeLength(rs);
    assert TrendCounts(rows) == Sizes(known, RaceAgeViolation, ks);
    rows
  }

  // ---- Time Period Analysis of Stops (Year, Month, Hour) (lines 190-200)

  function YearMonthHour(r: StopRecord): (Option<int>, Option<Month>, Option<Hour>)
  {
    (YearOf(r), MonthOf(r), HourOf(r))
  }

  datatype PeriodRow = PeriodRow(year: Option<int>, month: Option<Month>, hour: Option<Hour>, stopCount: nat)

  function PeriodCounts(rows: seq<PeriodRow>): seq<nat>
  {
    seq(|rows|, i requires 0 <= i < |rows| => rows[i].stopCount)
  }

  /**
   * One row per (year, month, hour) of the stop times, NULL included; the
   * counts add up to the number of records.
   */
  function TimePeriodRows(rs: seq<StopRecord>): (rows: seq<PeriodRow>)
    ensures forall i :: 0 <= i < |rows| ==>
      rows[i].stopCount == GroupSize(rs, YearMonthHour, (rows[i].year, rows[i].month, rows[i].hour)) > 0
    ensures forall i, j :: 0 <= i < j < |rows| ==>
      (rows[i].year, rows[i].month, rows[i].hour) != (rows[j].year, rows[j].month, rows[j].hour)
    ensures forall k :: HasKey(rs, YearMonthHour, k) <==> exists i :: 0 <= i < |rows| && (rows[i].year, rows[i].month, rows[i].hour) == k
    ensures SumNat(PeriodCounts(rows)) == |rs|
  {
    var ks := Keys(rs, YearMonthHour);
    var rows := seq(|ks|, i requires 0 <= i < |ks| =>
      PeriodRow(ks[i].0, ks[i].1, ks[i].2, GroupSize(rs, YearMonthHour, ks[i])));
    assert forall i :: 0 <= i < |rows| ==> (rows[i].year, rows[i].month, rows[i].hour) == ks[i];
    forall i | 0 <= i < |rows| ensures rows[i].stopCount > 0 {
      assert ks[i] in ks;
      GroupSizePositive(rs, YearMonthHour, ks[i]);
    }
    forall k | HasKey(rs, YearMonthHour, k) ensures exists i :: 0 <= i < |rows| && (rows[i].year, rows[i].month, rows[i].hour) == k {
      var i :| 0 <= i < |ks| && ks[i] == k;
    }
    SizesCoverAll(rs, YearMonthHour);
    assert PeriodCounts(rows) == Sizes(rs, YearMonthHour, ks);
    rows
  }

  // ---- Violations with High Search and Arrest Rates (lines 202-213)

  function ViolationOf(r: StopRecord): Option<string>
  {
    r.violation
  }

  datatype SearchArrestRow = SearchArrestRow(violation: Option<string>, totalStops: nat, totalSearches: nat, totalArrests: nat)

  /**
   * One row per violation (NULL included) with more than 50 stops, and
   * every such violation has a row; searches and arrests are each at most
   * the stops.
   */
  function HighSearchArrestRows(rs: seq<StopRecord>): (rows: seq<SearchArrestRow>)
    ensures forall i :: 0 <= i < |rows| ==>
      && rows[i].totalStops == GroupSize(rs, ViolationOf, rows[i].violation) > MIN_SUPPORT
      && rows[i].totalSearches == GroupFlagged(rs, ViolationOf, rows[i].violation, Searched) <= rows[i].totalStops
      && rows[i].totalArrests == GroupFlagged(rs, ViolationOf, rows[i].violation, Arrested) <= rows[i].totalStops
    ensures forall i, j :: 0 <= i < j < |rows| ==> rows[i].violation != rows[j].violation
    ensures forall v :: GroupSize(rs, ViolationOf, v) > MIN_SUPPORT <==> exists i :: 0 <= i < |rows| && rows[i].violation == v
  {
    var kept := SupportedViolations(rs);
    var rows := seq(|kept|, i requires 0 <= i < |kept| => SearchArrestOf(rs, kept[i]));
    SearchArrestFacts(rs, kept, rows);
    rows
  }

  lemma SearchArrestFacts(rs: seq<StopRecord>, kept: seq<Option<string>>, rows: seq<SearchArrestRow>)
    requires kept == SupportedViolations(rs)
    requires |rows| == |kept| && forall i :: 0 <= i < |rows| ==> rows[i] == SearchArrestOf(rs, kept[i])
    ensures forall i :: 0 <= i < |rows| ==>
      && rows[i].totalStops == GroupSize(rs, ViolationOf, rows[i].violation) > MIN_SUPPORT
      && rows[i].totalSearches == GroupFlagged(rs, ViolationOf, rows[i].violation, Searched) <= rows[i].totalStops
      && rows[i].totalArrests == GroupFlagged(rs, ViolationOf, rows[i].violation, Arrested) <= rows[i].totalStops
    ensures forall i, j :: 0 <= i < j < |rows| ==> rows[i].violation != rows[j].violation
    ensures forall v :: GroupSize(rs, ViolationOf, v) > MIN_SUPPORT <==> exists i :: 0 <= i < |rows| && rows[i].violation == v
  {
    forall i | 0 <= i < |rows|
      ensures rows[i].violation == kept[i]
      ensures rows[i].totalStops > MIN_SUPPORT
      ensures rows[i].totalSearches <= rows[i].totalStops && rows[i].totalArrests <= rows[i].totalStops
    {
      assert kept[i] in kept;
      FlaggedAtMostSize(rs, ViolationOf, kept[i], Searched);
      FlaggedAtMostSize(rs, ViolationOf, kept[i], Arrested);
    }
    forall v | GroupSize(rs, ViolationOf, v) > MIN_SUPPORT ensures exists i :: 0 <= i < |rows| && rows[i].violation == v {
      var i :| 0 <= i < |kept| && kept[i] == v;
      assert rows[i].violation == v;
    }
  }

  /** The row of violation `v`: its stops, searches and arrests. */
  function SearchArrestOf(rs: seq<StopRecord>, v: Option<string>): SearchArrestRow
  {
    SearchArrestRow(v, GroupSize(rs, ViolationOf, v), GroupFlagged(rs, ViolationOf, v, Searched), GroupFlagged(rs, ViolationOf, v, Arrested))
  }

  /**
   * `GROUP BY violation HAVING total_stops > 50`: the violations (NULL
   * included) with more than 50 stops, each once.
   */
  function SupportedViolations(rs: seq<StopRecord>): (kept: seq<Option<string>>)
    ensures Distinct(kept)
    ensures forall v :: v in kept <==> GroupSize(rs, ViolationOf, v) > MIN_SUPPORT
  {
    var kept := Having(rs, ViolationOf, Keys(rs, ViolationOf), MIN_SUPPORT);
    forall v ensures GroupSize(rs, ViolationOf, v) > MIN_SUPPORT ==> v in kept {
      GroupSizePositive(rs, ViolationOf, v);
    }
    kept
  }

  // ---- Driver Demographics by Country (lines 215-226)

  function CountryGenderRace(r: StopRecord): (Option<string>, Option<string>, Option<string>)
  {
    (r.countryName, r.driverGender, r.driverRace)
  }

  /** The sum of the present ages in group `k`: the numerator of AVG(driver_age). */
  function AgeTotal(rs: seq<StopRecord>, k: (Option<string>, Option<string>, Option<string>)): int
  {
    if rs == [] then 0
    else (if CountryGenderRace(rs[0]) == k && rs[0].driverAge.Some? then rs[0].driverAge.value else 0) + AgeTotal(rs[1..], k)
  }

  /** `driver_age IS NOT NULL`, the records AVG(driver_age) averages over. */
  function HasAge(r: StopRecord): bool { r.driverAge.Some? }

  /**
   * `avg_age` is AgeTotal / agesPresent, NULL when no age in the group is
   * present; ROUND(…, 1) is not modelled.
   */
  datatype DemographicRow = DemographicRow(
    country: Option<string>, gender: Option<string>, race: Option<string>,
    ageTotal: int, agesPresent: nat, count: nat)

  function DemographicCounts(rows: seq<DemographicRow>): seq<nat>
  {
    seq(|rows|, i requires 0 <= i < |rows| => rows[i].count)
  }

  /**
   * One row per (country, gender, race) triple, NULL included; the ages
   * averaged are at most the group's records; the counts add up to the
   * number of records.
   */
  function DemographicRows(rs: seq<StopRecord>): (rows: seq<DemographicRow>)
    ensures forall i :: 0 <= i < |rows| ==>
      && rows[i].count == GroupSize(rs, CountryGenderRace, (rows[i].country, rows[i].gender, rows[i].race)) > 0
      && rows[i].agesPresent == GroupFlagged(rs, CountryGenderRace, (rows[i].country, rows[i].gender, rows[i].race), HasAge)
      && rows[i].agesPresent <= rows[i].count
      && rows[i].ageTotal == AgeTotal(rs, (rows[i].country, rows[i].gender, rows[i].race))
    ensures forall i, j :: 0 <= i < j < |rows| ==>
      (rows[i].country, rows[i].gender, rows[i].race) != (rows[j].country, rows[j].gender, rows[j].race)
    ensures forall k :: HasKey(rs, CountryGenderRace, k) <==>
      exists i :: 0 <= i < |rows| && (rows[i].country, rows[i].gender, rows[i].race) == k
    ensures SumNat(DemographicCounts(rows)) == |rs|
  {
    var ks := Keys(rs, CountryGenderRace);
    var rows := seq(|ks|, i requires 0 <= i < |ks| =>
      DemographicRow(ks[i].0, ks[i].1, ks[i].2, AgeTotal(rs, ks[i]),
        GroupFlagged(rs, CountryGenderRace, ks[i], HasAge), GroupSize(rs, CountryGenderRace, ks[i])));
    assert forall i :: 0 <= i < |rows| ==> (rows[i].country, rows[i].gender, rows[i].race) == ks[i];
    forall i | 0 <= i < |rows| ensures rows[i].count > 0 && rows[i].agesPresent <= rows[i].count {
      assert ks[i] in ks;
      GroupSizePositive(rs, CountryGenderRace, ks[i]);
      FlaggedAtMostSize(rs, CountryGenderRace, ks[i], HasAge);
    }
    forall k | HasKey(rs, CountryGenderRace, k)
      ensures exists i :: 0 <= i < |rows| && (rows[i].country, rows[i].gender, rows[i].race) == k
    {
      var i :| 0 <= i < |ks| && ks[i] == k;
    }
    SizesCoverAll(rs, CountryGenderRace);
    assert DemographicCounts(rows) == Sizes(rs, CountryGenderRace, ks);
    rows
  }

  /**
   * When every present age lies in 16..100, the range the form's age input admits,
   * the average age of a group lies there too.
   */
  lemma {:induction false} AverageAgeBounds(rs: seq<StopRecord>, k: (Option<string>, Option<string>, Option<string>))
    requires forall i :: 0 <= i < |rs| && rs[i].driverAge.Some? ==> 16 <= rs[i].driverAge.value <= 100
    ensures 16 * GroupFlagged(rs, CountryGenderRace, k, HasAge) <= AgeTotal(rs, k) <= 100 * GroupFlagged(rs, CountryGenderRace, k, HasAge)
  {
    if rs != [] {
      assert forall i :: 0 <= i < |rs[1..]| ==> rs[1..][i] == rs[i + 1];
      AverageAgeBounds(rs[1..], k);
    }
  }

  // ---- Top 5 Violations with Highest Arrest Rates (lines 228-240)

  /** arrest_rate_percent is 100 * totalArrests / totalStops; ROUND(…, 2) is not modelled. */
  datatype ArrestRateRow = ArrestRateRow(violation: Option<string>, totalStops: nat, totalArrests: nat)

  /** `x`'s arrest rate is at least `y`'s, compared exactly as fractions. */
  predicate RateAtLeast(x: ArrestRateRow, y: ArrestRateRow)
  {
    x.totalArrests * y.totalStops >= y.totalArrests * x.totalStops
  }

  /** `ORDER BY arrest_rate_percent DESC`, each row's rate at least the next one's. */
  predicate RateDescending(s: seq<ArrestRateRow>)
  {
    forall i :: 0 <= i < |s| - 1 ==> RateAtLeast(s[i], s[i + 1])
  }

  function InsertByRate(e: ArrestRateRow, s: seq<ArrestRateRow>): (r: seq<ArrestRateRow>)
    ensures multiset(r) == multiset(s) + multiset{e}
    ensures |r| == |s| + 1 && (r[0] == e || (s != [] && r[0] == s[0]))
    ensures RateDescending(s) ==> RateDescending(r)
  {
    if s == [] || RateAtLeast(e, s[0]) then [e] + s
    else
      var t := InsertByRate(e, s[1..]);
      assert s == [s[0]] + s[1..];
      assert RateDescending(s) ==> RateDescending([s[0]] + t) by {
        if RateDescending(s) {
          assert RateDescending(s[1..]) by {
            assert forall i :: 0 <= i < |s[1..]| ==> s[1..][i] == s[i + 1];
          }
          assert RateAtLeast(s[0], t[0]);
          assert forall i :: 0 < i < |t| ==> ([s[0]] + t)[i + 1] == t[i];
        }
      }
      [s[0]] + t
  }

  function SortByRate(s: seq<ArrestRateRow>): (r: seq<ArrestRateRow>)
    ensures multiset(r) == multiset(s)
    ensures RateDescending(r)
  {
    if s == [] then []
    else
      assert s == [s[0]] + s[1..];
      InsertByRate(s[0], SortByRate(s[1..]))
  }

  /** The grouped rows before ordering and LIMIT: violations with more than 50 stops. */
  function SupportedRates(rs: seq<StopRecord>): seq<ArrestRateRow>
  {
    var kept := SupportedViolations(rs);
    seq(|kept|, i requires 0 <= i < |kept| =>
      ArrestRateRow(kept[i], GroupSize(rs, ViolationOf, kept[i]), GroupFlagged(rs, ViolationOf, kept[i], Arrested)))
  }

  /**
   * At most five rows, fewer exactly when fewer violations pass the
   * threshold (never an error), each a violation with more than 50 stops
   * whose arrests are at most its stops, in descending order of arrest rate.
   */
  function TopArrestRateRows(rs: seq<StopRecord>): (rows: seq<ArrestRateRow>)
    ensures |rows| <= TOP_LIMIT
    ensures |rows| == if |SupportedRates(rs)| < TOP_LIMIT then |SupportedRates(rs)| else TOP_LIMIT
    ensures forall i :: 0 <= i < |rows| ==>
      && rows[i].totalStops == GroupSize(rs, ViolationOf, rows[i].violation) > MIN_SUPPORT
      && rows[i].totalArrests == GroupFlagged(rs, ViolationOf, rows[i].violation, Arrested) <= rows[i].totalStops
    ensures forall i, j :: 0 <= i < j < |rows| ==> rows[i].violation != rows[j].violation
    ensures RateDescending(rows)
    ensures forall x, i :: x in SupportedRates(rs) && x !in rows && 0 <= i < |rows| ==> RateAtLeast(rows[i], x)
  {
    var supported := SupportedRates(rs);
    var sorted := SortByRate(supported);
    SupportedRatesQualify(rs);
    SortedQualify(rs, supported, sorted);
    DistinctViolations(supported, sorted, SupportedViolations(rs));
    DescendingAllPairs(sorted);
    var rows := if |sorted| <= TOP_LIMIT then sorted else sorted[..TOP_LIMIT];
    assert rows == sorted[..|rows|];
    PrefixDescending(sorted, |rows|);
    PrefixDominates(supported, sorted, |rows|);
    rows
  }

  /** Every row left out of a prefix of the rate-ordered rows has a rate no higher than the prefix's rows. */
  lemma PrefixDominates(supported: seq<ArrestRateRow>, sorted: seq<ArrestRateRow>, k: nat)
    requires k <= |sorted| && multiset(sorted) == multiset(supported)
    requires forall i, j :: 0 <= i < j < |sorted| ==> RateAtLeast(sorted[i], sorted[j])
    ensures forall x, i :: x in supported && x !in sorted[..k] && 0 <= i < k ==> RateAtLeast(sorted[i], x)
  {
    forall x, i | x in supported && x !in sorted[..k] && 0 <= i < k ensures RateAtLeast(sorted[i], x) {
      assert x in multiset(supported);
      var j :| 0 <= j < |sorted| && sorted[j] == x;
    }
  }

  /** Comparing rates by cross-multiplication is transitive through a row with stops. */
  lemma RateTransitive(x: ArrestRateRow, y: ArrestRateRow, z: ArrestRateRow)
    requires y.totalStops > 0
    requires RateAtLeast(x, y) && RateAtLeast(y, z)
    ensures RateAtLeast(x, z)
  {
    var a1, b1 := x.totalArrests, x.totalStops;
    var a2, b2 := y.totalArrests, y.totalStops;
    var a3, b3 := z.totalArrests, z.totalStops;
    MultiplyMonotone(a1 * b2, a2 * b1, b3);
    MultiplyMonotone(a2 * b3, a3 * b2, b1);
    Rearrange(a1, b2, b3);
    Rearrange(a2, b1, b3);
    Rearrange(a3, b2, b1);
    CancelPositive(a1 * b3, a3 * b1, b2);
  }

  lemma MultiplyMonotone(p: int, q: int, c: nat)
    requires p >= q
    ensures p * c >= q * c
  {
    assert p * c - q * c == (p - q) * c;
  }

  lemma Rearrange(p: int, q: int, r: int)
    ensures (p * q) * r == (p * r) * q
  {
  }

  lemma CancelPositive(p: int, q: int, c: int)
    requires c > 0 && p * c >= q * c
    ensures p >= q
  {
    assert (p - q) * c >= 0;
  }

  /** A rate-descending list of rows with stops has every row's rate at least every later row's. */
  lemma DescendingAllPairs(s: seq<ArrestRateRow>)
    requires RateDescending(s)
    requires forall i :: 0 <= i < |s| ==> s[i].totalStops > 0
    ensures forall i, j :: 0 <= i < j < |s| ==> RateAtLeast(s[i], s[j])
  {
    forall i, j | 0 <= i < j < |s| ensures RateAtLeast(s[i], s[j]) {
      DescendingFrom(s, i, j);
    }
  }

  lemma {:induction false} DescendingFrom(s: seq<ArrestRateRow>, i: nat, j: nat)
    requires RateDescending(s)
    requires forall k :: 0 <= k < |s| ==> s[k].totalStops > 0
    requires i < j < |s|
    ensures RateAtLeast(s[i], s[j])
    decreases j - i
  {
    if j > i + 1 {
      DescendingFrom(s, i + 1, j);
      RateTransitive(s[i], s[i + 1], s[j]);
    }
  }

  /** Each grouped row is a violation with more than 50 stops and no more arrests than stops. */
  predicate Qualifies(rs: seq<StopRecord>, x: ArrestRateRow)
  {
    && x.totalStops == GroupSize(rs, ViolationOf, x.violation) > MIN_SUPPORT
    && x.totalArrests == GroupFlagged(rs, ViolationOf, x.violation, Arrested) <= x.totalStops
  }

  lemma SupportedRatesQualify(rs: seq<StopRecord>)
    ensures forall x :: x in SupportedRates(rs) ==> Qualifies(rs, x)
  {
    var kept := SupportedViolations(rs);
    var supported := SupportedRates(rs);
    forall x | x in supported ensures Qualifies(rs, x) {
      var k :| 0 <= k < |supported| && supported[k] == x;
      assert kept[k] in kept;
      FlaggedAtMostSize(rs, ViolationOf, kept[k], Arrested);
    }
  }

  lemma SortedQualify(rs: seq<StopRecord>, supported: seq<ArrestRateRow>, sorted: seq<ArrestRateRow>)
    requires forall x :: x in supported ==> Qualifies(rs, x)
    requires multiset(sorted) == multiset(supported)
    ensures |sorted| == |supported|
    ensures forall i :: 0 <= i < |sorted| ==> Qualifies(rs, sorted[i])
  {
    assert |multiset(sorted)| == |multiset(supported)|;
    forall i | 0 <= i < |sorted| ensures Qualifies(rs, sorted[i]) {
      assert sorted[i] in multiset(sorted);
    }
  }

  lemma PrefixDescending(s: seq<ArrestRateRow>, n: nat)
    requires RateDescending(s) && n <= |s|
    ensures RateDescending(s[..n])
  {
    forall i | 0 <= i < n - 1 ensures RateAtLeast(s[..n][i], s[..n][i + 1]) {
      assert s[..n][i] == s[i] && s[..n][i + 1] == s[i + 1];
    }
  }

  /** The sorted rows have distinct violations, since the grouped rows do. */
  lemma DistinctViolations(supported: seq<ArrestRateRow>, sorted: seq<ArrestRateRow>, kept: seq<Option<string>>)
    requires Distinct(kept) && |supported| == |kept|
    requires forall i :: 0 <= i < |kept| ==> supported[i].violation == kept[i]
    requires multiset(sorted) == multiset(supported)
    ensures forall i, j :: 0 <= i < j < |sorted| ==> sorted[i].violation != sorted[j].violation
  {
    forall i, j | 0 <= i < j < |sorted| ensures sorted[i].violation != sorted[j].violation {
      assert sorted[i] in multiset(supported) && sorted[j] in multiset(supported);
      var a :| 0 <= a < |supported| && supported[a] == sorted[i];
      var b :| 0 <= b < |supported| && supported[b] == sorted[j];
      if a == b {
        var m := multiset(sorted);
        assert m[sorted[i]] >= 2 by {
          MultisetHasTwo(sorted, i, j);
        }
        MultisetAtMostOne(supported, kept, a);
      }
    }
  }

  lemma MultisetHasTwo(s: seq<ArrestRateRow>, i: nat, j: nat)
    requires i < j < |s| && s[i] == s[j]
    ensures multiset(s)[s[i]] >= 2
  {
    assert s == s[..i] + [s[i]] + s[i + 1..j] + [s[j]] + s[j + 1..];
  }

  lemma MultisetAtMostOne(supported: seq<ArrestRateRow>, kept: seq<Option<string>>, a: nat)
    requires Distinct(kept) && |supported| == |kept| && a < |supported|
    requires forall i :: 0 <= i < |kept| ==> supported[i].violation == kept[i]
    ensures multiset(supported)[supported[a]] == 1
  {
    var x := supported[a];
    assert supported == supported[..a] + [x] + supported[a + 1..];
    assert x !in supported[..a] by {
      forall i | 0 <= i < a ensures supported[..a][i] != x {
        assert supported[i].violation == kept[i] != kept[a];
      }
    }
    var tail := supported[a + 1..];
    assert x !in tail by {
      forall y | y in tail ensures y != x {
        var i :| a + 1 <= i < |supported| && supported[i] == y;
        assert supported[i].violation == kept[i] != kept[a];
      }
    }
  }

  // ---- Dispatch (line 242)

  /** The result of running a report: its rows, tagged by report. */
  datatype ReportRows =
    | Yearly(yearly: seq<YearlyRow>)
    | Trends(trends: seq<TrendRow>)
    | Periods(periods: seq<PeriodRow>)
    | SearchArrest(searchArrest: seq<SearchArrestRow>)
    | Demographics(demographics: seq<DemographicRow>)
    | TopRates(topRates: seq<ArrestRateRow>)

  /**
   * Running the selected report on the loaded table yields rows of that
   * report and no other kind: group counts that add up to the records they
   * group, flagged counts within their group's size, the minimum-support
   * threshold on the two ranked reports, and at most five rows, fewer only
   * when fewer violations qualify, for the top five.
   */
  function RunReport(q: Report, rs: seq<StopRecord>): (result: ReportRows)
    ensures q == YearlyBreakdown <==> result.Yearly?
    ensures q == ViolationTrends <==> result.Trends?
    ensures q == TimePeriodAnalysis <==> result.Periods?
    ensures q == HighSearchArrestRates <==> result.SearchArrest?
    ensures q == DemographicsByCountry <==> result.Demographics?
    ensures q == TopArrestRates <==> result.TopRates?
    ensures result.Yearly? ==>
      && SumNat(YearlyStops(result.yearly)) == |rs|
      && forall i :: 0 <= i < |result.yearly| ==> 0 < result.yearly[i].totalStops && result.yearly[i].totalArrests <= result.yearly[i].totalStops
    ensures result.Trends? ==>
      && SumNat(TrendCounts(result.trends)) == AgeKnown(rs)
      && forall i :: 0 <= i < |result.trends| ==> result.trends[i].age.Some? && result.trends[i].count > 0
    ensures result.Periods? ==>
      && SumNat(PeriodCounts(result.periods)) == |rs|
      && forall i :: 0 <= i < |result.periods| ==> result.periods[i].stopCount > 0
    ensures result.SearchArrest? ==>
      && (forall i :: 0 <= i < |result.searchArrest| ==>
        && result.searchArrest[i].totalStops > MIN_SUPPORT
        && result.searchArrest[i].totalSearches <= result.searchArrest[i].totalStops
        && result.searchArrest[i].totalArrests <= result.searchArrest[i].totalStops)
      && forall v :: GroupSize(rs, ViolationOf, v) > MIN_SUPPORT <==> exists i :: 0 <= i < |result.searchArrest| && result.searchArrest[i].violation == v
    ensures result.Demographics? ==>
      && SumNat(DemographicCounts(result.demographics)) == |rs|
      && forall i :: 0 <= i < |result.demographics| ==> 0 < result.demographics[i].count && result.demographics[i].agesPresent <= result.demographics[i].count
    ensures result.TopRates? ==>
      && |result.topRates| == (if |SupportedRates(rs)| < TOP_LIMIT then |SupportedRates(rs)| else TOP_LIMIT)
      && RateDescending(result.topRates)
      && forall i :: 0 <= i < |result.topRates| ==>
        result.topRates[i].totalStops > MIN_SUPPORT && result.topRates[i].totalArrests <= result.topRates[i].totalStops
  {
    match q
    case YearlyBreakdown => Yearly(YearlyBreakdownRows(rs))
    case ViolationTrends => Trends(ViolationTrendRows(rs))
    case TimePeriodAnalysis => Periods(TimePeriodRows(rs))
    case HighSearchArrestRates => SearchArrest(HighSearchArrestRows(rs))
    case DemographicsByCountry => Demographics(DemographicRows(rs))
    case TopArrestRates => TopRates(TopArrestRateRows(rs))
  }
}
