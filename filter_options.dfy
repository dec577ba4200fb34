/**
 * The choices offered by the sidebar multiselects:
 * `sorted(df[column].dropna().unique())`.
 */
module FilterOptions {
  import opened Wrappers
  import opened Records
  import opened StringOrder

  /** Adds `v` to a strictly sorted list of distinct values, keeping it strictly sorted. */
  function InsertDistinct(v: string, s: seq<string>): (r: seq<string>)
    ensures forall x :: x in r <==> x == v || x in s
    ensures StrictlySorted(s) ==> StrictlySorted(r)
  {
    if s == [] then [v]
    else if v == s[0] then s
    else if Less(v, s[0]) then
      assert StrictlySorted(s) ==> StrictlySorted([v] + s) by {
        if StrictlySorted(s) {
          forall j | 0 <= j < |s| ensures Less(v, s[j]) {
            if j > 0 { LessTransitive(v, s[0], s[j]); }
          }
        }
      }
      [v] + s
    else
      var t := InsertDistinct(v, s[1..]);
      assert StrictlySorted(s) ==> StrictlySorted([s[0]] + t) by {
        if StrictlySorted(s) {
          LessTotal(v, s[0]);
          forall x | x in t ensures Less(s[0], x) {
            if x != v {
              var j :| 1 <= j < |s| && s[j] == x;
            }
          }
        }
      }
      [s[0]] + t
  }

  /**
   * The distinct non-missing values of column `c`, in ascending order.
   * Each value is listed once, and every value that occurs is listed.
   */
  function Options(rs: seq<StopRecord>, c: Column): (opts: seq<string>)
    ensures StrictlySorted(opts)
    ensures forall v :: v in opts <==> Occurs(rs, c, v)
  {
    if rs == [] then []
    else
      var rest := Options(rs[1..], c);
      assert forall v :: Occurs(rs, c, v) <==> Field(rs[0], c) == Some(v) || Occurs(rs[1..], c, v) by {
        forall v { OccursCons(rs, c, v); }
      }
      match Field(rs[0], c)
      case None => rest
      case Some(v) => InsertDistinct(v, rest)
  }

  /**
   * The option list is the only strictly sorted list of exactly the values
   * that occur, whatever order the records come in.
   */
  lemma OptionsDetermined(rs: seq<StopRecord>, c: Column, s: seq<string>)
    requires StrictlySorted(s)
    requires forall v :: v in s <==> Occurs(rs, c, v)
    ensures Options(rs, c) == s
  {
    StrictlySortedUnique(Options(rs, c), s);
  }

  /** The three sidebar option lists, for country, gender and violation. */
  function SidebarOptions(rs: seq<StopRecord>): (opts: (seq<string>, seq<string>, seq<string>))
    ensures StrictlySorted(opts.0) && StrictlySorted(opts.1) && StrictlySorted(opts.2)
    ensures forall v :: v in opts.0 <==> Occurs(rs, CountryName, v)
    ensures forall v :: v in opts.1 <==> Occurs(rs, DriverGender, v)
    ensures forall v :: v in opts.2 <==> Occurs(rs, Violation, v)
  {
    (Options(rs, CountryName), Options(rs, DriverGender), Options(rs, Violation))
  }
}
