/**
 * SQL `GROUP BY` over the traffic_logs table: groups are the distinct
 * values of a key (NULL is a key of its own), COUNT(*) is a group's size
 * and `SUM(CASE WHEN flag THEN 1 ELSE 0 END)` counts its flagged records.
 */
module Grouping {
  import opened Wrappers
  import opened Records

  /** COUNT(*) of the group with key `k`. */
  function GroupSize<K(==)>(rs: seq<StopRecord>, key: StopRecord -> K, k: K): nat
  {
    if rs == [] then 0
    else (if key(rs[0]) == k then 1 else 0) + GroupSize(rs[1..], key, k)
  }

  /** `SUM(CASE WHEN flag THEN 1 ELSE 0 END)` over the group with key `k`. */
  function GroupFlagged<K(==)>(rs: seq<StopRecord>, key: StopRecord -> K, k: K, flag: StopRecord -> bool): nat
  {
    if rs == [] then 0
    else (if key(rs[0]) == k && flag(rs[0]) then 1 else 0) + GroupFlagged(rs[1..], key, k, flag)
  }

  /** Counting a value of a text column is COUNT(*) of its group, keyed by that column. */
  lemma {:induction false} FrequencyIsGroupSize(rs: seq<StopRecord>, c: Column, key: StopRecord -> Option<string>, v: string)
    requires forall r :: key(r) == Field(r, c)
    ensures Frequency(rs, c, v) == GroupSize(rs, key, Some(v))
  {
    if rs != [] {
      FrequencyIsGroupSize(rs[1..], c, key, v);
    }
  }

  /** Some record has key `k`. */
  ghost predicate HasKey<K>(rs: seq<StopRecord>, key: StopRecord -> K, k: K)
  {
    exists i :: 0 <= i < |rs| && key(rs[i]) == k
  }

  predicate Distinct<K(==)>(ks: seq<K>)
  {
    forall i, j :: 0 <= i < j < |ks| ==> ks[i] != ks[j]
  }

  lemma HasKeyCons<K>(rs: seq<StopRecord>, key: StopRecord -> K, k: K)
    requires rs != []
    ensures HasKey(rs, key, k) <==> key(rs[0]) == k || HasKey(rs[1..], key, k)
  {
    if HasKey(rs[1..], key, k) {
      var i :| 0 <= i < |rs[1..]| && key(rs[1..][i]) == k;
      assert key(rs[i + 1]) == k;
    }
    if HasKey(rs, key, k) && key(rs[0]) != k {
      var i :| 0 <= i < |rs| && key(rs[i]) == k;
      assert key(rs[1..][i - 1]) == k;
    }
  }

  /** The groups: each key that occurs, once. */
  function Keys<K(==,!new)>(rs: seq<StopRecord>, key: StopRecord -> K): (ks: seq<K>)
    ensures Distinct(ks)
    ensures forall k :: k in ks <==> HasKey(rs, key, k)
  {
    if rs == [] then []
    else
      var rest := Keys(rs[1..], key);
      assert forall k :: HasKey(rs, key, k) <==> key(rs[0]) == k || HasKey(rs[1..], key, k) by {
        forall k { HasKeyCons(rs, key, k); }
      }
      if key(rs[0]) in rest then rest else [key(rs[0])] + rest
  }

  /** A group is non-empty exactly when its key occurs. */
  lemma {:induction false} GroupSizePositive<K>(rs: seq<StopRecord>, key: StopRecord -> K, k: K)
    ensures GroupSize(rs, key, k) > 0 <==> HasKey(rs, key, k)
  {
    if rs != [] {
      GroupSizePositive(rs[1..], key, k);
      HasKeyCons(rs, key, k);
    }
  }

  /** A conditional sum over a group never exceeds the group's COUNT(*). */
  lemma {:induction false} FlaggedAtMostSize<K>(rs: seq<StopRecord>, key: StopRecord -> K, k: K, flag: StopRecord -> bool)
    ensures GroupFlagged(rs, key, k, flag) <= GroupSize(rs, key, k)
  {
    if rs != [] {
      FlaggedAtMostSize(rs[1..], key, k, flag);
    }
  }

  function SumNat(s: seq<nat>): nat
  {
    if s == [] then 0 else s[0] + SumNat(s[1..])
  }

  /** The COUNT(*) of each listed group. */
  function Sizes<K(==)>(rs: seq<StopRecord>, key: StopRecord -> K, ks: seq<K>): (s: seq<nat>)
    ensures |s| == |ks|
  {
    seq(|ks|, i requires 0 <= i < |ks| => GroupSize(rs, key, ks[i]))
  }

  /** Dropping the first record takes one from its group's size and nothing from the others. */
  lemma {:induction false} SizesDropFirst<K>(rs: seq<StopRecord>, key: StopRecord -> K, ks: seq<K>)
    requires rs != [] && Distinct(ks)
    ensures SumNat(Sizes(rs, key, ks)) == SumNat(Sizes(rs[1..], key, ks)) + if key(rs[0]) in ks then 1 else 0
  {
    if ks != [] {
      assert Sizes(rs, key, ks)[1..] == Sizes(rs, key, ks[1..]);
      assert Sizes(rs[1..], key, ks)[1..] == Sizes(rs[1..], key, ks[1..]);
      assert Distinct(ks[1..]) by {
        assert forall i :: 0 <= i < |ks[1..]| ==> ks[1..][i] == ks[i + 1];
      }
      SizesDropFirst(rs, key, ks[1..]);
      assert key(rs[0]) in ks <==> key(rs[0]) == ks[0] || key(rs[0]) in ks[1..] by {
        assert ks == [ks[0]] + ks[1..];
      }
      assert ks[0] !in ks[1..];
    }
  }

  /** Every record lands in exactly one group: the group sizes add up to the number of records. */
  lemma {:induction false} SizesCoverAll<K(!new)>(rs: seq<StopRecord>, key: StopRecord -> K)
    ensures SumNat(Sizes(rs, key, Keys(rs, key))) == |rs|
  {
    if rs != [] {
      var rest := Keys(rs[1..], key);
      SizesCoverAll(rs[1..], key);
      SizesDropFirst(rs, key, rest);
      if key(rs[0]) !in rest {
        var ks := [key(rs[0])] + rest;
        assert Sizes(rs, key, ks)[1..] == Sizes(rs, key, rest);
        GroupSizePositive(rs[1..], key, key(rs[0]));
        assert GroupSize(rs, key, key(rs[0])) == 1;
      }
    }
  }

  /** `HAVING COUNT(*) > minimum`: the listed groups larger than `minimum`, in order. */
  function Having<K(==,!new)>(rs: seq<StopRecord>, key: StopRecord -> K, ks: seq<K>, minimum: nat): (kept: seq<K>)
    ensures forall k :: k in kept <==> k in ks && GroupSize(rs, key, k) > minimum
    ensures Distinct(ks) ==> Distinct(kept)
  {
    if ks == [] then []
    else
      var rest := Having(rs, key, ks[1..], minimum);
      assert forall k :: k in ks <==> k == ks[0] || k in ks[1..] by {
        assert ks == [ks[0]] + ks[1..];
      }
      assert Distinct(ks) ==> Distinct(ks[1..]) && ks[0] !in rest by {
        if Distinct(ks) {
          assert forall i :: 0 <= i < |ks[1..]| ==> ks[1..][i] == ks[i + 1];
        }
      }
      if GroupSize(rs, key, ks[0]) > minimum then [ks[0]] + rest else rest
  }
}
