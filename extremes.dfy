/**
 * Specifications of the extremes the array routines track: the largest and
 * smallest element, and the best element strictly below (above) a bound.
 * Each is defined over a prefix-growing sequence, the way the loops scan.
 */
module Extremes {
  import opened JavaInt

  /** The largest of `d` and the elements of `s`. */
  function MaxOr(s: seq<int32>, d: int32): (m: int32)
    ensures d <= m && forall x :: x in s ==> x <= m
    ensures m == d || m in s
  {
    if s == [] then d
    else
      var m := MaxOr(s[..|s| - 1], d);
      assert s == s[..|s| - 1] + [s[|s| - 1]];
      if s[|s| - 1] > m then s[|s| - 1] else m
  }

  /** The smallest of `d` and the elements of `s`. */
  function MinOr(s: seq<int32>, d: int32): (m: int32)
    ensures m <= d && forall x :: x in s ==> m <= x
    ensures m == d || m in s
  {
    if s == [] then d
    else
      var m := MinOr(s[..|s| - 1], d);
      assert s == s[..|s| - 1] + [s[|s| - 1]];
      if s[|s| - 1] < m then s[|s| - 1] else m
  }

  /** The largest element of a non-empty sequence. */
  function Max(s: seq<int32>): (m: int32)
    requires |s| > 0
    ensures m in s && forall x :: x in s ==> x <= m
  {
    MaxOr(s, s[0])
  }

  /** The smallest element of a non-empty sequence. */
  function Min(s: seq<int32>): (m: int32)
    requires |s| > 0
    ensures m in s && forall x :: x in s ==> m <= x
  {
    MinOr(s, s[0])
  }

  /** The largest of `d` and the elements of `s` strictly below `bound`. */
  function MaxBelow(s: seq<int32>, bound: int32, d: int32): (m: int32)
    ensures d <= m && forall x :: x in s && x < bound ==> x <= m
    ensures m == d || (m in s && m < bound)
  {
    if s == [] then d
    else
      var m := MaxBelow(s[..|s| - 1], bound, d);
      assert s == s[..|s| - 1] + [s[|s| - 1]];
      if s[|s| - 1] < bound && s[|s| - 1] > m then s[|s| - 1] else m
  }

  /** The smallest of `d` and the elements of `s` strictly above `bound`. */
  function MinAbove(s: seq<int32>, bound: int32, d: int32): (m: int32)
    ensures m <= d && forall x :: x in s && x > bound ==> m <= x
    ensures m == d || (m in s && m > bound)
  {
    if s == [] then d
    else
      var m := MinAbove(s[..|s| - 1], bound, d);
      assert s == s[..|s| - 1] + [s[|s| - 1]];
      if s[|s| - 1] > bound && s[|s| - 1] < m then s[|s| - 1] else m
  }

  /** When every element is below the bound, the bound filters nothing out. */
  lemma {:induction false} MaxBelowAll(s: seq<int32>, bound: int32, d: int32)
    requires forall x :: x in s ==> x < bound
    ensures MaxBelow(s, bound, d) == MaxOr(s, d)
  {
    if s != [] {
      var p := s[..|s| - 1];
      assert s == p + [s[|s| - 1]];
      assert forall x :: x in p ==> x in s;
      MaxBelowAll(p, bound, d);
    }
  }

  /** When every element is above the bound, the bound filters nothing out. */
  lemma {:induction false} MinAboveAll(s: seq<int32>, bound: int32, d: int32)
    requires forall x :: x in s ==> x > bound
    ensures MinAbove(s, bound, d) == MinOr(s, d)
  {
    if s != [] {
      var p := s[..|s| - 1];
      assert s == p + [s[|s| - 1]];
      assert forall x :: x in p ==> x in s;
      MinAboveAll(p, bound, d);
    }
  }

  /** Every element equals the first one. */
  predicate AllEqual(s: seq<int32>) {
    forall k :: 0 <= k < |s| ==> s[k] == s[0]
  }

  /**
   * `v` is the second largest value of `s`: an element strictly below the
   * maximum and at least every other element strictly below the maximum.
   */
  predicate IsSecondLargest(s: seq<int32>, v: int32) {
    |s| > 0 && v in s && v < Max(s) && forall x :: x in s && x < Max(s) ==> x <= v
  }

  /**
   * `v` is the second smallest value of `s`: an element strictly above the
   * minimum and at most every other element strictly above the minimum.
   */
  predicate IsSecondSmallest(s: seq<int32>, v: int32) {
    |s| > 0 && v in s && v > Min(s) && forall x :: x in s && x > Min(s) ==> v <= x
  }

  /**
   * What the scan for the second largest ends with, `MaxBelow(s, Max(s), MinValue)`,
   * is the second largest value when there is one, and `MinValue` exactly
   * when there is none or the second largest value is `MinValue` itself.
   */
  lemma SecondLargestOfScan(s: seq<int32>)
    requires |s| > 0
    ensures var v := MaxBelow(s, Max(s), MinValue);
      (v == MinValue <==> AllEqual(s) || IsSecondLargest(s, MinValue)) &&
      (v != MinValue ==> IsSecondLargest(s, v))
  {
    var m := Max(s);
    var v := MaxBelow(s, m, MinValue);
    if v == MinValue && !IsSecondLargest(s, MinValue) {
      forall k | 0 <= k < |s| ensures s[k] == s[0] {
        assert s[k] in s && s[0] in s;
      }
    }
    if AllEqual(s) {
      forall x | x in s ensures x == m {
        var k :| 0 <= k < |s| && s[k] == x;
        var j :| 0 <= j < |s| && s[j] == m;
      }
    }
  }

  /** The mirror image of SecondLargestOfScan for the second smallest value. */
  lemma SecondSmallestOfScan(s: seq<int32>)
    requires |s| > 0
    ensures var v := MinAbove(s, Min(s), MaxValue);
      (v == MaxValue <==> AllEqual(s) || IsSecondSmallest(s, MaxValue)) &&
      (v != MaxValue ==> IsSecondSmallest(s, v))
  {
    var m := Min(s);
    var v := MinAbove(s, m, MaxValue);
    if v == MaxValue && !IsSecondSmallest(s, MaxValue) {
      forall k | 0 <= k < |s| ensures s[k] == s[0] {
        assert s[k] in s && s[0] in s;
      }
    }
    if AllEqual(s) {
      forall x | x in s ensures x == m {
        var k :| 0 <= k < |s| && s[k] == x;
        var j :| 0 <= j < |s| && s[j] == m;
      }
    }
  }

  /** With fewer than two distinct values there is no second largest value. */
  lemma AllEqualHasNoSecond(s: seq<int32>, v: int32)
    requires |s| > 0 && AllEqual(s)
    ensures !IsSecondLargest(s, v) && !IsSecondSmallest(s, v)
  {
    if v in s {
      var k :| 0 <= k < |s| && s[k] == v;
      var j :| 0 <= j < |s| && s[j] == Max(s);
      var i :| 0 <= i < |s| && s[i] == Min(s);
    }
  }
}
