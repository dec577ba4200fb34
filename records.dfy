/**
 * The traffic-stop record as loaded from the traffic_logs table, and the
 * counting helpers that the filters, charts and reports share.
 */
module Records {
  import opened Wrappers

  /** An hour of the day, as the datetime accessor `.dt.hour` or SQL HOUR() yields it. */
  type Hour = h: int | 0 <= h <= 23

  /** A month of the year, as SQL MONTH() yields it. */
  type Month = m: int | 1 <= m <= 12 witness 1

  /**
   * The parts of stop_datetime that the dashboard uses, already extracted:
   * parsing and calendar arithmetic are not part of this model.
   */
  datatype Timestamp = Timestamp(year: int, month: Month, hour: Hour)

  /** One traffic stop. Nullable columns are Options. */
  datatype StopRecord = StopRecord(
    id: int,
    stopDatetime: Option<Timestamp>,
    countryName: Option<string>,
    driverGender: Option<string>,
    driverAge: Option<int>,
    driverRace: Option<string>,
    violation: Option<string>,
    searchConducted: bool,
    searchType: Option<string>,
    isArrested: bool,
    stopDuration: string,
    drugsRelatedStop: Option<bool>,
    vehicleNumber: Option<string>)

  /** The text-valued columns that the dashboard filters, counts or groups by. */
  datatype Column = CountryName | DriverGender | DriverRace | Violation | StopDuration

  /** The value of a text column in one record; None is a missing value (NaN / NULL). */
  function Field(r: StopRecord, c: Column): Option<string>
  {
    match c
    case CountryName => r.countryName
    case DriverGender => r.driverGender
    case DriverRace => r.driverRace
    case Violation => r.violation
    case StopDuration => Some(r.stopDuration)
  }

  /** `.dt.hour` of stop_datetime; missing when the timestamp is missing. */
  function HourOf(r: StopRecord): Option<Hour>
  {
    match r.stopDatetime
    case None => None
    case Some(t) => Some(t.hour)
  }

  /** SQL YEAR(stop_datetime); NULL when the timestamp is NULL. */
  function YearOf(r: StopRecord): Option<int>
  {
    match r.stopDatetime
    case None => None
    case Some(t) => Some(t.year)
  }

  /** SQL MONTH(stop_datetime); NULL when the timestamp is NULL. */
  function MonthOf(r: StopRecord): Option<Month>
  {
    match r.stopDatetime
    case None => None
    case Some(t) => Some(t.month)
  }

  /** Some record of `rs` has the value `v` in column `c`. */
  ghost predicate Occurs(rs: seq<StopRecord>, c: Column, v: string)
  {
    exists k :: 0 <= k < |rs| && Field(rs[k], c) == Some(v)
  }

  /** The number of records of `rs` whose column `c` holds `v`. */
  function Frequency(rs: seq<StopRecord>, c: Column, v: string): nat
  {
    if rs == [] then 0
    else (if Field(rs[0], c) == Some(v) then 1 else 0) + Frequency(rs[1..], c, v)
  }

  /** The number of records of `rs` whose column `c` is not missing. */
  function PresentCount(rs: seq<StopRecord>, c: Column): nat
  {
    if rs == [] then 0
    else (if Field(rs[0], c).Some? then 1 else 0) + PresentCount(rs[1..], c)
  }

  /** Occurrence splits over the first record. */
  lemma OccursCons(rs: seq<StopRecord>, c: Column, v: string)
    requires rs != []
    ensures Occurs(rs, c, v) <==> Field(rs[0], c) == Some(v) || Occurs(rs[1..], c, v)
  {
    if Occurs(rs[1..], c, v) {
      var k :| 0 <= k < |rs[1..]| && Field(rs[1..][k], c) == Some(v);
      assert Field(rs[k + 1], c) == Some(v);
    }
    if Occurs(rs, c, v) && Field(rs[0], c) != Some(v) {
      var k :| 0 <= k < |rs| && Field(rs[k], c) == Some(v);
      assert k > 0 && Field(rs[1..][k - 1], c) == Some(v);
    }
  }

  /** A value is counted a positive number of times exactly when it occurs. */
  lemma {:induction false} FrequencyPositive(rs: seq<StopRecord>, c: Column, v: string)
    ensures Frequency(rs, c, v) > 0 <==> Occurs(rs, c, v)
  {
    if rs != [] {
      FrequencyPositive(rs[1..], c, v);
      OccursCons(rs, c, v);
    }
  }

  /** Counting one value never exceeds counting all present values. */
  lemma {:induction false} FrequencyAtMostPresent(rs: seq<StopRecord>, c: Column, v: string)
    ensures Frequency(rs, c, v) <= PresentCount(rs, c) <= |rs|
  {
    if rs != [] {
      FrequencyAtMostPresent(rs[1..], c, v);
    }
  }
}
