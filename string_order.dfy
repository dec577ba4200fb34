/**
 * Python's ordering of str values: lexicographic by code point, a proper
 * prefix before the longer string. This is the order `sorted` uses.
 */
module StringOrder {

  predicate Less(a: string, b: string)
  {
    if a == [] then b != []
    else if b == [] then false
    else a[0] < b[0] || (a[0] == b[0] && Less(a[1..], b[1..]))
  }

  /** Every pair of positions is in strictly increasing order, so no value repeats. */
  predicate StrictlySorted(s: seq<string>)
  {
    forall i, j :: 0 <= i < j < |s| ==> Less(s[i], s[j])
  }

  lemma {:induction false} LessIrreflexive(a: string)
    ensures !Less(a, a)
  {
    if a != [] {
      LessIrreflexive(a[1..]);
    }
  }

  lemma {:induction false} LessTransitive(a: string, b: string, c: string)
    requires Less(a, b) && Less(b, c)
    ensures Less(a, c)
  {
    if a != [] && b != [] && c != [] && a[0] == b[0] == c[0] {
      LessTransitive(a[1..], b[1..], c[1..]);
    }
  }

  lemma {:induction false} LessTotal(a: string, b: string)
    requires a != b
    ensures Less(a, b) || Less(b, a)
  {
    if a != [] && b != [] && a[0] == b[0] {
      assert a == [a[0]] + a[1..] && b == [b[0]] + b[1..];
      LessTotal(a[1..], b[1..]);
    }
  }

  /** Strict order excludes both directions at once. */
  lemma LessAsymmetric(a: string, b: string)
    requires Less(a, b)
    ensures !Less(b, a)
  {
    if Less(b, a) {
      LessTransitive(a, b, a);
      LessIrreflexive(a);
    }
  }

  /**
   * A strictly sorted list is determined by its elements: two strictly
   * sorted lists holding the same values are the same list.
   */
  lemma {:induction false} StrictlySortedUnique(s: seq<string>, t: seq<string>)
    requires StrictlySorted(s) && StrictlySorted(t)
    requires forall x :: x in s <==> x in t
    ensures s == t
  {
    assert s != [] ==> s[0] in t;
    assert t != [] ==> t[0] in s;
    if s != [] && t != [] {
      if s[0] != t[0] {
        assert t[0] in s;
        var i :| 0 <= i < |s| && s[i] == t[0];
        assert s[0] in t;
        var j :| 0 <= j < |t| && t[j] == s[0];
        assert Less(s[0], t[0]) by { assert i > 0; }
        assert Less(t[0], s[0]) by { assert j > 0; }
        LessAsymmetric(s[0], t[0]);
      }
      forall x
        ensures x in s[1..] <==> x in t[1..]
      {
        if x in s[1..] {
          var i :| 1 <= i < |s| && s[i] == x;
          assert Less(s[0], x);
          LessIrreflexive(x);
          assert x in t && x != t[0];
        }
        if x in t[1..] {
          var j :| 1 <= j < |t| && t[j] == x;
          assert Less(t[0], x);
          LessIrreflexive(x);
          assert x in s && x != s[0];
        }
      }
      StrictlySortedUnique(s[1..], t[1..]);
      assert s == [s[0]] + s[1..] && t == [t[0]] + t[1..];
    }
  }
}
