/**
 * The sidebar filter pipeline: each non-empty multiselect narrows the
 * records with pandas `isin`, one column after another.
 */
module Filters {
  import opened Wrappers
  import opened Records

  /** One multiselect: the column it restricts and the values chosen in it. */
  datatype Criterion = Criterion(column: Column, allowed: seq<string>)

  /** The three sidebar selections; an empty list means "no restriction". */
  datatype Selection = Selection(countries: seq<string>, genders: seq<string>, violations: seq<string>)

  function Criteria(sel: Selection): seq<Criterion>
  {
    [Criterion(CountryName, sel.countries), Criterion(DriverGender, sel.genders), Criterion(Violation, sel.violations)]
  }

  /** `series.isin(allowed)` for one record: a missing value is never a member. */
  predicate IsIn(r: StopRecord, c: Column, allowed: seq<string>)
  {
    Field(r, c).Some? && Field(r, c).value in allowed
  }

  /** A criterion with no chosen value admits everything; otherwise it is `isin`. */
  predicate Passes(r: StopRecord, k: Criterion)
  {
    k.allowed == [] || IsIn(r, k.column, k.allowed)
  }

  predicate PassesAll(r: StopRecord, ks: seq<Criterion>)
  {
    forall i :: 0 <= i < |ks| ==> Passes(r, ks[i])
  }

  /** `df[df[c].isin(allowed)]`: the rows whose column `c` is among `allowed`, in order. */
  function KeepIsIn(rs: seq<StopRecord>, c: Column, allowed: seq<string>): seq<StopRecord>
  {
    if rs == [] then []
    else (if IsIn(rs[0], c, allowed) then [rs[0]] else []) + KeepIsIn(rs[1..], c, allowed)
  }

  /** The reference meaning of a filter: the records that pass every criterion, in order. */
  function Where(rs: seq<StopRecord>, ks: seq<Criterion>): seq<StopRecord>
  {
    if rs == [] then []
    else (if PassesAll(rs[0], ks) then [rs[0]] else []) + Where(rs[1..], ks)
  }

  /** `xs` is obtained from `ys` by deleting elements, the rest keeping their order. */
  predicate IsSubsequence(xs: seq<StopRecord>, ys: seq<StopRecord>)
    decreases |ys|
  {
    xs == [] ||
    (ys != [] && ((xs[0] == ys[0] && IsSubsequence(xs[1..], ys[1..])) || IsSubsequence(xs, ys[1..])))
  }

  /**
   * Lines 42-49: `filtered_df` starts as a copy of the records and is
   * rebound by `isin` for each non-empty selection in turn.
   */
  method ApplyFilters(rs: seq<StopRecord>, sel: Selection) returns (filtered: seq<StopRecord>)
    ensures filtered == Where(rs, Criteria(sel))
  {
    var ks := Criteria(sel);
    filtered := rs;
    WhereNothing(rs);
    assert filtered == Where(rs, ks[..0]);
    if sel.countries != [] {
      filtered := KeepIsIn(filtered, CountryName, sel.countries);
    }
    WhereStep(rs, ks[..0], ks[0]);
    assert ks[..0] + [ks[0]] == ks[..1];
    if sel.genders != [] {
      filtered := KeepIsIn(filtered, DriverGender, sel.genders);
    }
    WhereStep(rs, ks[..1], ks[1]);
    assert ks[..1] + [ks[1]] == ks[..2];
    if sel.violations != [] {
      filtered := KeepIsIn(filtered, Violation, sel.violations);
    }
    WhereStep(rs, ks[..2], ks[2]);
    assert ks[..2] + [ks[2]] == ks;
  }

  /** With no criterion, every record is kept. */
  lemma {:induction false} WhereNothing(rs: seq<StopRecord>)
    ensures Where(rs, []) == rs
  {
    if rs != [] {
      WhereNothing(rs[1..]);
      assert rs == [rs[0]] + rs[1..];
    }
  }

  /**
   * One step of the pipeline: a non-empty selection narrows the view by
   * `isin`, an empty one leaves it as it is, and either way the result is
   * the reference filter with one more criterion.
   */
  lemma {:induction false} WhereStep(rs: seq<StopRecord>, ks: seq<Criterion>, k: Criterion)
    ensures k.allowed != [] ==> KeepIsIn(Where(rs, ks), k.column, k.allowed) == Where(rs, ks + [k])
    ensures k.allowed == [] ==> Where(rs, ks) == Where(rs, ks + [k])
  {
    if rs != [] {
      WhereStep(rs[1..], ks, k);
      assert PassesAll(rs[0], ks + [k]) <==> PassesAll(rs[0], ks) && Passes(rs[0], k) by {
        assert forall i :: 0 <= i < |ks| ==> (ks + [k])[i] == ks[i];
        assert (ks + [k])[|ks|] == k;
      }
      if PassesAll(rs[0], ks) {
        var w := [rs[0]] + Where(rs[1..], ks);
        assert Where(rs, ks) == w;
        assert w[0] == rs[0] && w[1..] == Where(rs[1..], ks);
      } else {
        assert Where(rs, ks) == Where(rs[1..], ks);
        assert Where(rs, ks + [k]) == Where(rs[1..], ks + [k]);
      }
    }
  }

  /** Whatever the selection, the filtered records keep their relative order. */
  lemma {:induction false} WhereIsSubsequence(rs: seq<StopRecord>, ks: seq<Criterion>)
    ensures IsSubsequence(Where(rs, ks), rs)
  {
    if rs != [] {
      WhereIsSubsequence(rs[1..], ks);
      if PassesAll(rs[0], ks) {
        var w := [rs[0]] + Where(rs[1..], ks);
        assert w[0] == rs[0] && w[1..] == Where(rs[1..], ks);
        assert IsSubsequence(w, rs);
      } else {
        assert Where(rs, ks) == Where(rs[1..], ks);
      }
    }
  }

  /**
   * A record is kept exactly as often as it appears in the input when it
   * passes every criterion, and never otherwise.
   */
  lemma {:induction false} WhereMultiplicity(rs: seq<StopRecord>, ks: seq<Criterion>, r: StopRecord)
    ensures multiset(Where(rs, ks))[r] == if PassesAll(r, ks) then multiset(rs)[r] else 0
  {
    if rs != [] {
      WhereMultiplicity(rs[1..], ks, r);
      assert rs == [rs[0]] + rs[1..];
    }
  }

  /** A filter never adds records. */
  lemma {:induction false} WhereLength(rs: seq<StopRecord>, ks: seq<Criterion>)
    ensures |Where(rs, ks)| <= |rs|
  {
    if rs != [] {
      WhereLength(rs[1..], ks);
    }
  }

  /** With all three selections empty the filtered view is the loaded table, unchanged. */
  lemma FilterIdentity(rs: seq<StopRecord>)
    ensures Where(rs, Criteria(Selection([], [], []))) == rs
  {
    var ks := Criteria(Selection([], [], []));
    WhereStep(rs, [], ks[0]);
    WhereStep(rs, [ks[0]], ks[1]);
    WhereStep(rs, [ks[0], ks[1]], ks[2]);
    assert [ks[0]] + [ks[1]] == [ks[0], ks[1]];
    assert [ks[0], ks[1]] + [ks[2]] == ks;
    WhereNothing(rs);
  }

  /**
   * A record of the input survives the sidebar filters exactly when, for
   * each non-empty selection, its column is present and among the chosen values.
   */
  lemma FilterMembership(rs: seq<StopRecord>, sel: Selection, r: StopRecord)
    ensures r in Where(rs, Criteria(sel)) <==>
      && r in rs
      && (sel.countries != [] ==> r.countryName.Some? && r.countryName.value in sel.countries)
      && (sel.genders != [] ==> r.driverGender.Some? && r.driverGender.value in sel.genders)
      && (sel.violations != [] ==> r.violation.Some? && r.violation.value in sel.violations)
  {
    var ks := Criteria(sel);
    WhereMultiplicity(rs, ks, r);
    assert PassesAll(r, ks) <==> Passes(r, ks[0]) && Passes(r, ks[1]) && Passes(r, ks[2]);
  }

  /** A record missing a column is dropped as soon as that column's selection is non-empty. */
  lemma MissingValueDropped(rs: seq<StopRecord>, sel: Selection, r: StopRecord)
    requires (sel.countries != [] && r.countryName.None?)
          || (sel.genders != [] && r.driverGender.None?)
          || (sel.violations != [] && r.violation.None?)
    ensures r !in Where(rs, Criteria(sel))
  {
    FilterMembership(rs, sel, r);
  }
}
