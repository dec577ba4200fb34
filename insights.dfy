/**
 * The aggregates behind the "Insights & Analysis" charts: drug-related
 * violations in the filtered view, arrest rate by gender, and arrests by
 * hour of day after the derived `hour` column has been added.
 */
module Insights {
  import opened Wrappers
  import opened Records
  import opened StringOrder
  import FilterOptions
  import opened ValueCounts
  import Grouping

  /** `view[view['drugs_related_stop'] == True]`: a missing flag is not True. */
  function DrugRelated(view: seq<StopRecord>): seq<StopRecord>
  {
    if view == [] then []
    else (if view[0].drugsRelatedStop == Some(true) then [view[0]] else []) + DrugRelated(view[1..])
  }

  /** Records of `view` that are drug-related and carry violation `v`. */
  function DrugStops(view: seq<StopRecord>, v: string): nat
  {
    if view == [] then 0
    else
      var here := view[0].drugsRelatedStop == Some(true) && view[0].violation == Some(v);
      (if here then 1 else 0) + DrugStops(view[1..], v)
  }

  lemma {:induction false} DrugRelatedFrequency(view: seq<StopRecord>, v: string)
    ensures Frequency(DrugRelated(view), Violation, v) == DrugStops(view, v)
  {
    if view != [] {
      DrugRelatedFrequency(view[1..], v);
      var rest := DrugRelated(view[1..]);
      if view[0].drugsRelatedStop == Some(true) {
        assert ([view[0]] + rest)[1..] == rest;
      } else {
        assert DrugRelated(view) == rest;
      }
    }
  }

  /** Some record of `view` is drug-related and has violation `v`. */
  ghost predicate DrugRecordWith(view: seq<StopRecord>, v: string)
  {
    exists k :: 0 <= k < |view| && view[k].drugsRelatedStop == Some(true) && view[k].violation == Some(v)
  }

  lemma {:induction false} DrugStopsOccur(view: seq<StopRecord>, v: string)
    ensures DrugStops(view, v) > 0 <==> DrugRecordWith(view, v)
  {
    if view != [] {
      DrugStopsOccur(view[1..], v);
      if exists k :: 0 <= k < |view[1..]| && view[1..][k].drugsRelatedStop == Some(true) && view[1..][k].violation == Some(v) {
        var k :| 0 <= k < |view[1..]| && view[1..][k].drugsRelatedStop == Some(true) && view[1..][k].violation == Some(v);
        assert view[k + 1] == view[1..][k];
      }
      if exists k :: 0 <= k < |view| && view[k].drugsRelatedStop == Some(true) && view[k].violation == Some(v) {
        var k :| 0 <= k < |view| && view[k].drugsRelatedStop == Some(true) && view[k].violation == Some(v);
        if k > 0 { assert view[1..][k - 1] == view[k]; }
      }
    }
  }

  /**
   * Lines 61-64: the "Top Drug-Related Violations" chart, drawn only when
   * the table has a drugs_related_stop column. Its bars count, per
   * violation, the records of the filtered view that are drug-related: at
   * most ten bars, one per violation, largest first, each for a violation
   * some such record has; a drug-related violation without a bar only
   * when all ten bars are taken, each by a violation counted at least as often.
   */
  function DrugViolationChart(view: seq<StopRecord>, hasDrugColumn: bool): (chart: Option<seq<Entry>>)
    ensures chart.Some? <==> hasDrugColumn
    ensures chart.Some? ==> |chart.value| <= 10 && NonIncreasing(chart.value) && DistinctValues(chart.value)
    ensures chart.Some? ==> forall i :: 0 <= i < |chart.value| ==>
      && chart.value[i].count == DrugStops(view, chart.value[i].value)
      && DrugRecordWith(view, chart.value[i].value)
    ensures chart.Some? ==> forall v :: DrugStops(view, v) > 0 && !Listed(chart.value, v) ==>
      && |chart.value| == 10
      && forall i :: 0 <= i < |chart.value| ==> chart.value[i].count >= DrugStops(view, v)
  {
    if !hasDrugColumn then None
    else
      var top := TopCounts(DrugRelated(view), Violation, 10);
      DrugChartFacts(view, top);
      Some(top)
  }

  lemma DrugChartFacts(view: seq<StopRecord>, top: seq<Entry>)
    requires top == TopCounts(DrugRelated(view), Violation, 10)
    ensures |top| <= 10 && NonIncreasing(top) && DistinctValues(top)
    ensures forall i :: 0 <= i < |top| ==>
      && top[i].count == DrugStops(view, top[i].value)
      && DrugRecordWith(view, top[i].value)
    ensures forall v :: DrugStops(view, v) > 0 && !Listed(top, v) ==>
      && |top| == 10
      && forall i :: 0 <= i < |top| ==> top[i].count >= DrugStops(view, v)
  {
    var all := Counts(DrugRelated(view), Violation);
    assert forall i :: 0 <= i < |top| ==> top[i] == all[i];
    DrugBars(view, top);
    DrugOmitted(view, top);
  }

  lemma DrugBars(view: seq<StopRecord>, top: seq<Entry>)
    requires top == TopCounts(DrugRelated(view), Violation, 10)
    ensures forall i :: 0 <= i < |top| ==>
      && top[i].count == DrugStops(view, top[i].value)
      && DrugRecordWith(view, top[i].value)
  {
    forall i | 0 <= i < |top|
      ensures top[i].count == DrugStops(view, top[i].value)
      ensures DrugRecordWith(view, top[i].value)
    {
      DrugRelatedFrequency(view, top[i].value);
      DrugStopsOccur(view, top[i].value);
    }
  }

  lemma DrugOmitted(view: seq<StopRecord>, top: seq<Entry>)
    requires top == TopCounts(DrugRelated(view), Violation, 10)
    ensures forall v :: DrugStops(view, v) > 0 && !Listed(top, v) ==>
      && |top| == 10
      && forall i :: 0 <= i < |top| ==> top[i].count >= DrugStops(view, v)
  {
    var drugs := DrugRelated(view);
    var all := Counts(drugs, Violation);
    forall v | DrugStops(view, v) > 0 && !Listed(top, v)
      ensures |top| == 10
      ensures forall i :: 0 <= i < |top| ==> top[i].count >= DrugStops(view, v)
    {
      DrugRelatedFrequency(view, v);
      FrequencyPositive(drugs, Violation, v);
      assert Listed(all, v);
    }
  }

  /** Records of `rs` with value `g` in column `c` that ended in an arrest. */
  function ArrestedWith(rs: seq<StopRecord>, c: Column, g: string): nat
  {
    if rs == [] then 0
    else (if Field(rs[0], c) == Some(g) && rs[0].isArrested then 1 else 0) + ArrestedWith(rs[1..], c, g)
  }

  lemma {:induction false} ArrestedAtMostFrequency(rs: seq<StopRecord>, c: Column, g: string)
    ensures ArrestedWith(rs, c, g) <= Frequency(rs, c, g)
  {
    if rs != [] {
      ArrestedAtMostFrequency(rs[1..], c, g);
    }
  }

  /** The arrests of one value are the flagged count of its group. */
  lemma {:induction false} ArrestedWithIsGroupFlagged(rs: seq<StopRecord>, c: Column, g: string,
                                                     key: StopRecord -> Option<string>, flag: StopRecord -> bool)
    requires forall r :: key(r) == Field(r, c)
    requires forall r :: flag(r) == r.isArrested
    ensures ArrestedWith(rs, c, g) == Grouping.GroupFlagged(rs, key, Some(g), flag)
  {
    if rs != [] {
      ArrestedWithIsGroupFlagged(rs[1..], c, g, key, flag);
    }
  }

  /** The arrest rate of one gender as a fraction `arrests / stops`. */
  datatype GenderRate = GenderRate(gender: string, arrests: nat, stops: nat)

  /**
   * Line 68, `df.groupby('driver_gender')['is_arrested'].mean()`: one row
   * per gender that occurs, in ascending order (missing genders are not a
   * group), whose mean is arrests over stops, so between 0 and 1.
   */
  function GenderArrestRates(rs: seq<StopRecord>): (rows: seq<GenderRate>)
    ensures StrictlySorted(seq(|rows|, i requires 0 <= i < |rows| => rows[i].gender))
    ensures forall g :: (exists i :: 0 <= i < |rows| && rows[i].gender == g) <==> Occurs(rs, DriverGender, g)
    ensures forall i :: 0 <= i < |rows| ==>
      && rows[i].stops == Frequency(rs, DriverGender, rows[i].gender)
      && rows[i].arrests == ArrestedWith(rs, DriverGender, rows[i].gender)
      && 0 <= rows[i].arrests <= rows[i].stops && rows[i].stops > 0
  {
    var genders := FilterOptions.Options(rs, DriverGender);
    var rows := seq(|genders|, i requires 0 <= i < |genders| =>
      GenderRate(genders[i], ArrestedWith(rs, DriverGender, genders[i]), Frequency(rs, DriverGender, genders[i])));
    assert seq(|rows|, i requires 0 <= i < |rows| => rows[i].gender) == genders;
    forall i | 0 <= i < |rows| ensures 0 <= rows[i].arrests <= rows[i].stops && rows[i].stops > 0 {
      assert genders[i] in genders;
      FrequencyPositive(rs, DriverGender, genders[i]);
      ArrestedAtMostFrequency(rs, DriverGender, genders[i]);
    }
    forall g ensures (exists i :: 0 <= i < |rows| && rows[i].gender == g) <==> Occurs(rs, DriverGender, g) {
      if g in genders {
        var i :| 0 <= i < |genders| && genders[i] == g;
        assert rows[i].gender == g;
      }
    }
    rows
  }

  /** The derived `hour` column: row `i` holds the hour of record `i`'s timestamp. */
  function HourColumn(rs: seq<StopRecord>): (col: seq<Option<Hour>>)
    ensures |col| == |rs|
  {
    seq(|rs|, i requires 0 <= i < |rs| => HourOf(rs[i]))
  }

  /**
   * The loaded table as the dashboard holds it: its records and, once
   * line 112 has run, the derived `hour` column beside them.
   */
  class Frame {
    const rows: seq<StopRecord>
    var hour: Option<seq<Option<Hour>>>

    constructor (rs: seq<StopRecord>)
      ensures rows == rs && hour == None
    {
      rows := rs;
      hour := None;
    }

    /** Line 112: `df['hour'] = df['stop_datetime'].dt.hour` adds the column in place. */
    method AddHourColumn()
      modifies this
      ensures hour == Some(HourColumn(rows))
    {
      hour := Some(HourColumn(rows));
    }

    /** Line 113 on the frame, once the `hour` column exists. */
    function ArrestHeatmap(): (buckets: seq<HourCount>)
      reads this
      requires hour.Some? && |hour.value| == |rows|
      ensures HoursAscending(buckets)
      ensures forall i :: 0 <= i < |buckets| ==> buckets[i].arrests == ArrestsAt(rows, hour.value, buckets[i].hour) > 0
      ensures hour == Some(HourColumn(rows)) ==> TotalArrests(buckets) == ArrestedWithTimestamp(rows)
    {
      BucketsAscending(rows, hour.value, 0);
      BucketsCounts(rows, hour.value, 0);
      ArrestsByHourProperties(rows);
      ArrestsByHour(rows, hour.value)
    }
  }

  /** One bar of the arrests-by-hour chart. */
  datatype HourCount = HourCount(hour: Hour, arrests: nat)

  /** Arrested rows whose `hour` cell is `h`. */
  function ArrestsAt(rs: seq<StopRecord>, hour: seq<Option<Hour>>, h: Hour): nat
    requires |hour| == |rs|
  {
    if rs == [] then 0
    else (if rs[0].isArrested && hour[0] == Some(h) then 1 else 0) + ArrestsAt(rs[1..], hour[1..], h)
  }

  /** Arrested rows whose `hour` cell is present and at least `from`. */
  function ArrestsFrom(rs: seq<StopRecord>, hour: seq<Option<Hour>>, from: int): nat
    requires |hour| == |rs|
  {
    if rs == [] then 0
    else (if rs[0].isArrested && hour[0].Some? && hour[0].value >= from then 1 else 0) + ArrestsFrom(rs[1..], hour[1..], from)
  }

  /** The groups of hours `from` to 23 that have at least one arrest, in ascending order. */
  function HourBuckets(rs: seq<StopRecord>, hour: seq<Option<Hour>>, from: nat): seq<HourCount>
    requires |hour| == |rs|
    decreases 24 - from
  {
    if from > 23 then []
    else
      var n := ArrestsAt(rs, hour, from);
      (if n > 0 then [HourCount(from, n)] else []) + HourBuckets(rs, hour, from + 1)
  }

  /**
   * Line 113, `df[df['is_arrested'] == True].groupby('hour').size()`: the
   * hours that have arrests, ascending, each with its number of arrests;
   * rows without an hour form no group.
   */
  function ArrestsByHour(rs: seq<StopRecord>, hour: seq<Option<Hour>>): (buckets: seq<HourCount>)
    requires |hour| == |rs|
  {
    HourBuckets(rs, hour, 0)
  }

  function TotalArrests(buckets: seq<HourCount>): nat
  {
    if buckets == [] then 0 else buckets[0].arrests + TotalArrests(buckets[1..])
  }

  /** The bucket total is the plain sum of the bucket counts. */
  lemma {:induction false} TotalArrestsIsSumNat(buckets: seq<HourCount>)
    ensures TotalArrests(buckets) == Grouping.SumNat(seq(|buckets|, i requires 0 <= i < |buckets| => buckets[i].arrests))
  {
    if buckets != [] {
      TotalArrestsIsSumNat(buckets[1..]);
      var all := seq(|buckets|, i requires 0 <= i < |buckets| => buckets[i].arrests);
      assert all[1..] == seq(|buckets[1..]|, i requires 0 <= i < |buckets[1..]| => buckets[1..][i].arrests);
    }
  }

  /** The value_counts total is the plain sum of the entry counts. */
  lemma {:induction false} EntrySumIsSumNat(t: seq<Entry>)
    ensures Sum(t) == Grouping.SumNat(seq(|t|, i requires 0 <= i < |t| => t[i].count))
  {
    if t != [] {
      EntrySumIsSumNat(t[1..]);
      var all := seq(|t|, i requires 0 <= i < |t| => t[i].count);
      assert all[1..] == seq(|t[1..]|, i requires 0 <= i < |t[1..]| => t[1..][i].count);
    }
  }

  lemma {:induction false} ArrestsFromSplit(rs: seq<StopRecord>, hour: seq<Option<Hour>>, h: Hour)
    requires |hour| == |rs|
    ensures ArrestsFrom(rs, hour, h) == ArrestsAt(rs, hour, h) + ArrestsFrom(rs, hour, h + 1)
  {
    if rs != [] {
      ArrestsFromSplit(rs[1..], hour[1..], h);
    }
  }

  lemma {:induction false} BucketsCounts(rs: seq<StopRecord>, hour: seq<Option<Hour>>, from: nat)
    requires |hour| == |rs|
    ensures forall i :: 0 <= i < |HourBuckets(rs, hour, from)| ==>
      && from <= HourBuckets(rs, hour, from)[i].hour
      && HourBuckets(rs, hour, from)[i].arrests == ArrestsAt(rs, hour, HourBuckets(rs, hour, from)[i].hour) > 0
    decreases 24 - from
  {
    if from <= 23 {
      BucketsCounts(rs, hour, from + 1);
      var n := ArrestsAt(rs, hour, from);
      var rest := HourBuckets(rs, hour, from + 1);
      if n > 0 {
        var b := [HourCount(from, n)] + rest;
        assert HourBuckets(rs, hour, from) == b;
        forall i | 0 <= i < |b| ensures from <= b[i].hour && b[i].arrests == ArrestsAt(rs, hour, b[i].hour) > 0 {
          if i > 0 { assert b[i] == rest[i - 1]; }
        }
      } else {
        assert HourBuckets(rs, hour, from) == rest;
      }
    }
  }

  /** Bucket hours strictly increase along the list. */
  predicate HoursAscending(b: seq<HourCount>)
  {
    forall i, j :: 0 <= i < j < |b| ==> b[i].hour < b[j].hour
  }

  lemma {:induction false} BucketsAscending(rs: seq<StopRecord>, hour: seq<Option<Hour>>, from: nat)
    requires |hour| == |rs|
    ensures HoursAscending(HourBuckets(rs, hour, from))
    decreases 24 - from
  {
    if from <= 23 {
      var n := ArrestsAt(rs, hour, from);
      var rest := HourBuckets(rs, hour, from + 1);
      BucketsAscending(rs, hour, from + 1);
      if n > 0 {
        BucketsCounts(rs, hour, from + 1);
        assert HourBuckets(rs, hour, from) == [HourCount(from, n)] + rest;
        AscendingCons(HourCount(from, n), rest);
      } else {
        assert HourBuckets(rs, hour, from) == rest;
      }
    }
  }

  lemma AscendingCons(x: HourCount, rest: seq<HourCount>)
    requires HoursAscending(rest)
    requires forall i :: 0 <= i < |rest| ==> x.hour < rest[i].hour
    ensures HoursAscending([x] + rest)
  {
    var b := [x] + rest;
    forall i, j | 0 <= i < j < |b| ensures b[i].hour < b[j].hour {
      assert b[j] == rest[j - 1];
      if i > 0 { assert b[i] == rest[i - 1]; }
    }
  }

  lemma {:induction false} BucketsComplete(rs: seq<StopRecord>, hour: seq<Option<Hour>>, from: nat, h: Hour)
    requires |hour| == |rs|
    requires from <= h && ArrestsAt(rs, hour, h) > 0
    ensures exists i :: 0 <= i < |HourBuckets(rs, hour, from)| && HourBuckets(rs, hour, from)[i].hour == h
    decreases 24 - from
  {
    var n := ArrestsAt(rs, hour, from);
    var rest := HourBuckets(rs, hour, from + 1);
    var b := (if n > 0 then [HourCount(from, n)] else []) + rest;
    assert HourBuckets(rs, hour, from) == b;
    if h == from {
      assert b[0].hour == h;
    } else {
      BucketsComplete(rs, hour, from + 1, h);
      var i :| 0 <= i < |rest| && rest[i].hour == h;
      assert b[|b| - |rest| + i] == rest[i];
    }
  }

  lemma {:induction false} BucketsTotal(rs: seq<StopRecord>, hour: seq<Option<Hour>>, from: nat)
    requires |hour| == |rs|
    ensures TotalArrests(HourBuckets(rs, hour, from)) == ArrestsFrom(rs, hour, from)
    decreases 24 - from
  {
    if from <= 23 {
      BucketsTotal(rs, hour, from + 1);
      ArrestsFromSplit(rs, hour, from);
      var n := ArrestsAt(rs, hour, from);
      var rest := HourBuckets(rs, hour, from + 1);
      if n > 0 {
        assert HourBuckets(rs, hour, from) == [HourCount(from, n)] + rest;
        assert ([HourCount(from, n)] + rest)[1..] == rest;
      } else {
        assert HourBuckets(rs, hour, from) == rest;
      }
    } else {
      NoArrestsAfterLastHour(rs, hour, from);
    }
  }

  lemma {:induction false} NoArrestsAfterLastHour(rs: seq<StopRecord>, hour: seq<Option<Hour>>, from: int)
    requires |hour| == |rs| && from > 23
    ensures ArrestsFrom(rs, hour, from) == 0
  {
    if rs != [] {
      NoArrestsAfterLastHour(rs[1..], hour[1..], from);
    }
  }

  /** Arrested records that have a timestamp, so an hour to group by. */
  function ArrestedWithTimestamp(rs: seq<StopRecord>): nat
  {
    if rs == [] then 0
    else (if rs[0].isArrested && rs[0].stopDatetime.Some? then 1 else 0) + ArrestedWithTimestamp(rs[1..])
  }

  lemma {:induction false} HourColumnArrests(rs: seq<StopRecord>)
    ensures ArrestsFrom(rs, HourColumn(rs), 0) == ArrestedWithTimestamp(rs)
  {
    if rs != [] {
      HourColumnArrests(rs[1..]);
      assert HourColumn(rs)[1..] == HourColumn(rs[1..]);
    }
  }

  /**
   * The arrests-by-hour chart over the column line 112 adds: bucket keys
   * are hours 0..23 in ascending order, every bucket is non-empty and
   * counts the arrested records stopped in that hour, every hour with an
   * arrest has a bucket, and the buckets add up to the arrested records
   * that have a timestamp.
   */
  lemma ArrestsByHourProperties(rs: seq<StopRecord>)
    ensures var b := ArrestsByHour(rs, HourColumn(rs));
      && (forall i :: 0 <= i < |b| ==> 0 <= b[i].hour <= 23 && b[i].arrests == ArrestsAt(rs, HourColumn(rs), b[i].hour) > 0)
      && HoursAscending(b)
      && (forall h: Hour :: ArrestsAt(rs, HourColumn(rs), h) > 0 ==> exists i :: 0 <= i < |b| && b[i].hour == h)
      && TotalArrests(b) == ArrestedWithTimestamp(rs)
  {
    var col := HourColumn(rs);
    assert ArrestsByHour(rs, col) == HourBuckets(rs, col, 0);
    BucketsCounts(rs, col, 0);
    BucketsAscending(rs, col, 0);
    forall h: Hour | ArrestsAt(rs, col, h) > 0
      ensures exists i :: 0 <= i < |HourBuckets(rs, col, 0)| && HourBuckets(rs, col, 0)[i].hour == h
    {
      BucketsComplete(rs, col, 0, h);
    }
    BucketsTotal(rs, col, 0);
    HourColumnArrests(rs);
  }

  /** A record counts towards the bucket of hour `h` exactly when it is arrested and stopped in that hour. */
  lemma {:induction false} ArrestsAtMeaning(rs: seq<StopRecord>, h: Hour)
    ensures ArrestsAt(rs, HourColumn(rs), h) > 0 <==>
      exists k :: 0 <= k < |rs| && rs[k].isArrested && HourOf(rs[k]) == Some(h)
  {
    if rs != [] {
      ArrestsAtMeaning(rs[1..], h);
      assert HourColumn(rs)[1..] == HourColumn(rs[1..]);
      if exists k :: 0 <= k < |rs[1..]| && rs[1..][k].isArrested && HourOf(rs[1..][k]) == Some(h) {
        var k :| 0 <= k < |rs[1..]| && rs[1..][k].isArrested && HourOf(rs[1..][k]) == Some(h);
        assert rs[k + 1] == rs[1..][k];
      }
      if exists k :: 0 <= k < |rs| && rs[k].isArrested && HourOf(rs[k]) == Some(h) {
        var k :| 0 <= k < |rs| && rs[k].isArrested && HourOf(rs[k]) == Some(h);
        if k > 0 { assert rs[1..][k - 1] == rs[k]; }
      }
    }
  }
}
