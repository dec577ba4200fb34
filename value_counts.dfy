/**
 * pandas `series.value_counts()` over a text column, and `.head(n)` of it:
 * one entry per distinct non-missing value with the number of records that
 * hold it, largest count first. The order among equal counts is left open.
 */
module ValueCounts {
  import opened Wrappers
  import opened Records

  /** One row of a value_counts result. */
  datatype Entry = Entry(value: string, count: nat)

  function Sum(t: seq<Entry>): nat
  {
    if t == [] then 0 else t[0].count + Sum(t[1..])
  }

  /** Each value has at most one entry. */
  predicate DistinctValues(t: seq<Entry>)
  {
    forall i, j :: 0 <= i < j < |t| ==> t[i].value != t[j].value
  }

  /** Some entry of `t` is for `v`. */
  ghost predicate Listed(t: seq<Entry>, v: string)
  {
    exists i :: 0 <= i < |t| && t[i].value == v
  }

  /** Counts never grow from one entry to a later one. */
  predicate NonIncreasing(t: seq<Entry>)
  {
    forall i, j :: 0 <= i < j < |t| ==> t[i].count >= t[j].count
  }

  /** The position of the first entry for `v`, or -1 when there is none. */
  function Find(t: seq<Entry>, v: string): (j: int)
    ensures -1 <= j < |t|
    ensures 0 <= j ==> t[j].value == v
    ensures 0 <= j ==> forall i :: 0 <= i < j ==> t[i].value != v
    ensures j < 0 <==> !Listed(t, v)
  {
    if t == [] then -1
    else if t[0].value == v then 0
    else
      var j := Find(t[1..], v);
      assert Listed(t, v) ==> Listed(t[1..], v) by {
        if Listed(t, v) {
          var i :| 0 <= i < |t| && t[i].value == v;
          assert t[1..][i - 1].value == v;
        }
      }
      if j < 0 then -1 else j + 1
  }

  lemma {:induction false} SumAppend(t: seq<Entry>, e: Entry)
    ensures Sum(t + [e]) == Sum(t) + e.count
  {
    if t != [] {
      assert (t + [e])[1..] == t[1..] + [e];
      SumAppend(t[1..], e);
    }
  }

  lemma {:induction false} SumUpdate(t: seq<Entry>, j: nat, e: Entry)
    requires j < |t|
    ensures Sum(t[j := e]) == Sum(t) - t[j].count + e.count
  {
    if j > 0 {
      assert t[j := e][1..] == t[1..][j - 1 := e];
      SumUpdate(t[1..], j - 1, e);
    }
  }

  /** Records one more occurrence of `v` in a running tally. */
  function Bump(t: seq<Entry>, v: string): seq<Entry>
  {
    var j := Find(t, v);
    if j >= 0 then t[j := Entry(v, t[j].count + 1)] else t + [Entry(v, 1)]
  }

  /**
   * Bumping keeps every existing entry in place, adds one to the entry for
   * `v` or appends a new entry for it, and so adds one to the total.
   */
  lemma BumpEffect(t: seq<Entry>, v: string)
    requires DistinctValues(t)
    ensures var b := Bump(t, v);
      && |b| == (if Listed(t, v) then |t| else |t| + 1)
      && (forall i :: 0 <= i < |t| ==> b[i].value == t[i].value)
      && (forall i :: 0 <= i < |t| ==> b[i].count == t[i].count + if t[i].value == v then 1 else 0)
      && (!Listed(t, v) ==> b[|t|] == Entry(v, 1))
      && Sum(b) == Sum(t) + 1
  {
    var j := Find(t, v);
    if j >= 0 {
      SumUpdate(t, j, Entry(v, t[j].count + 1));
    } else {
      SumAppend(t, Entry(v, 1));
    }
  }

  lemma BumpValues(t: seq<Entry>, v: string)
    requires DistinctValues(t)
    ensures DistinctValues(Bump(t, v))
    ensures forall w :: Listed(Bump(t, v), w) <==> Listed(t, w) || w == v
  {
    var b := Bump(t, v);
    BumpEffect(t, v);
    forall w ensures Listed(b, w) <==> Listed(t, w) || w == v {
      if Listed(t, w) {
        var i :| 0 <= i < |t| && t[i].value == w;
        assert b[i].value == w;
      }
      if Listed(b, w) {
        var i :| 0 <= i < |b| && b[i].value == w;
        if i < |t| { assert t[i].value == w; }
      }
      if w == v && !Listed(t, v) {
        assert b[|t|].value == v;
      }
    }
  }

  /** The per-value counts of column `c`, in order of last appearance. */
  function Tally(rs: seq<StopRecord>, c: Column): seq<Entry>
  {
    if rs == [] then []
    else
      match Field(rs[0], c)
      case None => Tally(rs[1..], c)
      case Some(v) => Bump(Tally(rs[1..], c), v)
  }

  /** The tally lists exactly the values that occur, each once. */
  lemma {:induction false} TallyValues(rs: seq<StopRecord>, c: Column)
    ensures DistinctValues(Tally(rs, c))
    ensures forall v :: Listed(Tally(rs, c), v) <==> Occurs(rs, c, v)
  {
    if rs != [] {
      TallyValues(rs[1..], c);
      forall v { OccursCons(rs, c, v); }
      if Field(rs[0], c).Some? {
        BumpValues(Tally(rs[1..], c), Field(rs[0], c).value);
      }
    }
  }

  /** Each tally entry is the number of records holding its value. */
  lemma {:induction false} TallyCounts(rs: seq<StopRecord>, c: Column)
    ensures forall i :: 0 <= i < |Tally(rs, c)| ==> Tally(rs, c)[i].count == Frequency(rs, c, Tally(rs, c)[i].value)
  {
    if rs != [] {
      var rest := Tally(rs[1..], c);
      TallyCounts(rs[1..], c);
      if Field(rs[0], c).Some? {
        var v := Field(rs[0], c).value;
        TallyValues(rs[1..], c);
        BumpEffect(rest, v);
        var b := Bump(rest, v);
        if !Listed(rest, v) {
          FrequencyPositive(rs[1..], c, v);
          assert b[|rest|] == Entry(v, 1);
        }
      }
    }
  }

  /** The tally's counts add up to the number of records where `c` is present. */
  lemma {:induction false} TallySum(rs: seq<StopRecord>, c: Column)
    ensures Sum(Tally(rs, c)) == PresentCount(rs, c)
  {
    if rs != [] {
      TallySum(rs[1..], c);
      if Field(rs[0], c).Some? {
        TallyValues(rs[1..], c);
        BumpEffect(Tally(rs[1..], c), Field(rs[0], c).value);
      }
    }
  }

  /** Inserts `e` before the first entry whose count is not larger. */
  function InsertByCount(e: Entry, s: seq<Entry>): (r: seq<Entry>)
    ensures multiset(r) == multiset(s) + multiset{e}
  {
    if s == [] || s[0].count <= e.count then [e] + s
    else
      assert s == [s[0]] + s[1..];
      [s[0]] + InsertByCount(e, s[1..])
  }

  lemma {:induction false} InsertSum(e: Entry, s: seq<Entry>)
    ensures Sum(InsertByCount(e, s)) == Sum(s) + e.count
  {
    if s != [] && s[0].count > e.count {
      var t := InsertByCount(e, s[1..]);
      assert ([s[0]] + t)[1..] == t;
      InsertSum(e, s[1..]);
    } else {
      assert ([e] + s)[1..] == s;
    }
  }

  lemma {:induction false} InsertSorted(e: Entry, s: seq<Entry>)
    requires NonIncreasing(s)
    ensures NonIncreasing(InsertByCount(e, s))
  {
    if s != [] && s[0].count > e.count {
      var t := InsertByCount(e, s[1..]);
      InsertSorted(e, s[1..]);
      forall j | 0 <= j < |t| ensures s[0].count >= t[j].count {
        assert t[j] in multiset(t);
        assert t[j] == e || t[j] in s[1..];
      }
    }
  }

  lemma {:induction false} InsertDistinct(e: Entry, s: seq<Entry>)
    requires DistinctValues(s) && !Listed(s, e.value)
    ensures DistinctValues(InsertByCount(e, s))
  {
    if s != [] && s[0].count > e.count {
      var t := InsertByCount(e, s[1..]);
      assert forall i :: 0 <= i < |s[1..]| ==> s[1..][i] == s[i + 1];
      InsertDistinct(e, s[1..]);
      forall j | 0 <= j < |t| ensures s[0].value != t[j].value {
        assert t[j] in multiset(t);
        if t[j] != e {
          var k :| 0 <= k < |s[1..]| && s[1..][k] == t[j];
          assert s[k + 1] == t[j];
        }
      }
    } else {
      assert forall j :: 0 <= j < |s| ==> s[j].value != e.value;
    }
  }

  /** Insertion sort by descending count. */
  function SortByCount(t: seq<Entry>): (r: seq<Entry>)
    ensures multiset(r) == multiset(t)
  {
    if t == [] then []
    else
      assert t == [t[0]] + t[1..];
      InsertByCount(t[0], SortByCount(t[1..]))
  }

  /** Sorting keeps the total, orders the counts and keeps values distinct. */
  lemma {:induction false} SortByCountProperties(t: seq<Entry>)
    ensures Sum(SortByCount(t)) == Sum(t)
    ensures NonIncreasing(SortByCount(t))
    ensures DistinctValues(t) ==> DistinctValues(SortByCount(t))
  {
    if t != [] {
      var rest := SortByCount(t[1..]);
      assert SortByCount(t) == InsertByCount(t[0], rest);
      SortByCountProperties(t[1..]);
      InsertSum(t[0], rest);
      InsertSorted(t[0], rest);
      if DistinctValues(t) {
        HeadNotInPermutedTail(t, rest);
        InsertDistinct(t[0], rest);
      }
    }
  }

  lemma HeadNotInPermutedTail(t: seq<Entry>, rest: seq<Entry>)
    requires t != [] && DistinctValues(t) && multiset(rest) == multiset(t[1..])
    ensures DistinctValues(t[1..])
    ensures forall i :: 0 <= i < |rest| ==> rest[i].value != t[0].value
  {
    assert forall i :: 0 <= i < |t[1..]| ==> t[1..][i] == t[i + 1];
    forall i | 0 <= i < |rest| ensures rest[i].value != t[0].value {
      assert rest[i] in multiset(t[1..]);
      var k :| 0 <= k < |t[1..]| && t[1..][k] == rest[i];
    }
  }

  /** Two lists that are permutations of each other hold the same entries. */
  lemma SameEntries(r: seq<Entry>, t: seq<Entry>)
    requires multiset(r) == multiset(t)
    ensures forall i :: 0 <= i < |r| ==> r[i] in t
    ensures forall v :: Listed(r, v) <==> Listed(t, v)
  {
    forall i | 0 <= i < |r| ensures r[i] in t {
      assert r[i] in multiset(r);
    }
    forall v ensures Listed(r, v) <==> Listed(t, v) {
      if Listed(t, v) {
        var i :| 0 <= i < |t| && t[i].value == v;
        assert t[i] in multiset(r);
      }
      if Listed(r, v) {
        var i :| 0 <= i < |r| && r[i].value == v;
        assert r[i] in multiset(t);
      }
    }
  }

  /**
   * `value_counts()` of column `c`: positive counts in non-increasing
   * order, one entry per distinct non-missing value, each the number of
   * records holding that value, summing to the records where `c` is present.
   */
  function Counts(rs: seq<StopRecord>, c: Column): (r: seq<Entry>)
    ensures NonIncreasing(r)
    ensures DistinctValues(r)
    ensures forall i :: 0 <= i < |r| ==> r[i].count == Frequency(rs, c, r[i].value) && r[i].count > 0
    ensures forall v :: Listed(r, v) <==> Occurs(rs, c, v)
    ensures Sum(r) == PresentCount(rs, c)
  {
    var t := Tally(rs, c);
    TallyValues(rs, c);
    TallyCounts(rs, c);
    TallySum(rs, c);
    SortByCountProperties(t);
    var r := SortByCount(t);
    SameEntries(r, t);
    assert forall i :: 0 <= i < |r| ==> r[i].count == Frequency(rs, c, r[i].value) && r[i].count > 0 by {
      forall i | 0 <= i < |r| ensures r[i].count == Frequency(rs, c, r[i].value) && r[i].count > 0 {
        var k :| 0 <= k < |t| && t[k] == r[i];
        FrequencyPositive(rs, c, r[i].value);
      }
    }
    r
  }

  /**
   * `value_counts().head(n)`: at most `n` entries, a prefix of the full
   * counts (all of them when there are fewer than `n`), and no value left
   * out is counted more often than any value kept.
   */
  function TopCounts(rs: seq<StopRecord>, c: Column, n: nat): (top: seq<Entry>)
    ensures |top| <= n && |top| <= |Counts(rs, c)|
    ensures top == Counts(rs, c)[..|top|]
    ensures |top| < n ==> top == Counts(rs, c)
    ensures forall i :: 0 <= i < |top| ==> top[i].count == Frequency(rs, c, top[i].value) && top[i].count > 0
    ensures forall i, v :: 0 <= i < |top| && Occurs(rs, c, v) && !Listed(top, v) ==> top[i].count >= Frequency(rs, c, v)
  {
    var all := Counts(rs, c);
    var top := if |all| <= n then all else all[..n];
    assert top == all[..|top|];
    OmittedNoMore(rs, c, all, |top|);
    top
  }

  /** In a count-ordered listing, a value outside the first `k` entries is counted no more than any of them. */
  lemma OmittedNoMore(rs: seq<StopRecord>, c: Column, all: seq<Entry>, k: nat)
    requires k <= |all| && NonIncreasing(all)
    requires forall i :: 0 <= i < |all| ==> all[i].count == Frequency(rs, c, all[i].value)
    requires forall v :: Listed(all, v) <==> Occurs(rs, c, v)
    ensures forall i, v :: 0 <= i < k && Occurs(rs, c, v) && !Listed(all[..k], v) ==> all[i].count >= Frequency(rs, c, v)
  {
    forall i, v | 0 <= i < k && Occurs(rs, c, v) && !Listed(all[..k], v)
      ensures all[i].count >= Frequency(rs, c, v)
    {
      var j :| 0 <= j < |all| && all[j].value == v;
    }
  }

  /** Every record has a stop duration. */
  lemma {:induction false} DurationAlwaysPresent(rs: seq<StopRecord>)
    ensures PresentCount(rs, StopDuration) == |rs|
  {
    if rs != [] {
      DurationAlwaysPresent(rs[1..]);
    }
  }

  /**
   * Line 73, the stop-duration pie: its slices are the durations that
   * occur, and together they cover every record of the table.
   */
  lemma DurationShares(rs: seq<StopRecord>)
    ensures Sum(Counts(rs, StopDuration)) == |rs|
    ensures forall v :: Listed(Counts(rs, StopDuration), v) <==> exists k :: 0 <= k < |rs| && rs[k].stopDuration == v
  {
    DurationAlwaysPresent(rs);
  }

  lemma TallyScenario(a: StopRecord, b: StopRecord, d: StopRecord)
    requires a.violation == Some("Speeding") && b.violation == Some("Speeding")
    requires d.violation == Some("Equipment")
    ensures Tally([a, b, d], Violation) == [Entry("Equipment", 1), Entry("Speeding", 2)]
  {
    var sp, eq := Entry("Speeding", 1), Entry("Equipment", 1);
    assert [a, b, d][1..] == [b, d] && [b, d][1..] == [d] && [d][1..] == [];
    assert Tally([d], Violation) == Bump([], "Equipment") == [eq];
    assert Find([eq], "Speeding") == -1;
    assert Tally([b, d], Violation) == Bump([eq], "Speeding") == [eq, sp];
    assert Find([eq, sp], "Speeding") == 1;
  }

  /**
   * The scenario of two Speeding stops and one Equipment stop counts as
   * Speeding 2, Equipment 1.
   */
  lemma ViolationScenario(a: StopRecord, b: StopRecord, d: StopRecord)
    requires a.violation == Some("Speeding") && b.violation == Some("Speeding")
    requires d.violation == Some("Equipment")
    ensures Counts([a, b, d], Violation) == [Entry("Speeding", 2), Entry("Equipment", 1)]
  {
    var eq, sp := Entry("Equipment", 1), Entry("Speeding", 2);
    TallyScenario(a, b, d);
    assert [eq, sp][1..] == [sp] && [sp][1..] == [];
    assert SortByCount([sp]) == [sp];
    assert InsertByCount(eq, [sp]) == [sp, eq];
  }
}
