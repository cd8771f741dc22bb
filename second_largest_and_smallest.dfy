/**
 * Arrays/SecondLargestAndSmallest.java: the second largest and the second
 * smallest element of an `int[]`, found in one pass.
 */
module SecondLargestAndSmallest {
  import opened JavaInt
  import opened Exceptions
  import opened Extremes

  const TooShort := "Array must contain at least two elements"
  const NoSecond := "Second largest or second smallest does not exist (array may have duplicates)."

  /**
   * `findSecondLargestAndSmallest`: throws when the array is null or shorter
   * than two, when all its values are equal, and also when the genuine second
   * largest value is `Integer.MIN_VALUE` or the genuine second smallest value
   * is `Integer.MAX_VALUE` (the sentinels collide with real values). Otherwise
   * it returns `[secondLargest, secondSmallest]`, both elements of the array.
   */
  method FindSecondLargestAndSmallest(arr: array?<int32>) returns (r: Result<seq<int32>>)
    ensures arr == null || arr.Length < 2 ==> r == Threw(IllegalArgumentException(TooShort))
    ensures arr != null && arr.Length >= 2 ==>
      (r.Threw? <==>
        AllEqual(arr[..]) || IsSecondLargest(arr[..], MinValue) || IsSecondSmallest(arr[..], MaxValue))
    ensures arr != null && arr.Length >= 2 && r.Threw? ==>
      r == Threw(IllegalArgumentException(NoSecond))
    ensures r.Returned? ==>
      && arr != null && |r.value| == 2
      && IsSecondLargest(arr[..], r.value[0])
      && IsSecondSmallest(arr[..], r.value[1])
  {
    if arr == null || arr.Length < 2 {
      return Threw(IllegalArgumentException(TooShort));
    }
    var largest, secondLargest := MinValue, MinValue;
    var smallest, secondSmallest := MaxValue, MaxValue;
    for i := 0 to arr.Length
      invariant largest == MaxOr(arr[..i], MinValue)
      invariant secondLargest == MaxBelow(arr[..i], largest, MinValue)
      invariant smallest == MinOr(arr[..i], MaxValue)
      invariant secondSmallest == MinAbove(arr[..i], smallest, MaxValue)
    {
      var num := arr[i];
      assert arr[..i + 1] == arr[..i] + [num];
      ghost var l, sl, m, sm := largest, secondLargest, smallest, secondSmallest;
      if num > largest {
        secondLargest := largest;
        largest := num;
      } else if num > secondLargest && num < largest {
        secondLargest := num;
      }

      if num < smallest {
        secondSmallest := smallest;
        smallest := num;
      } else if num < secondSmallest && num > smallest {
        secondSmallest := num;
      }
      TrackLargest(arr[..i], num, l, sl, largest, secondLargest);
      TrackSmallest(arr[..i], num, m, sm, smallest, secondSmallest);
    }
    ghost var s := arr[..];
    assert arr[..arr.Length] == s;
    assert largest == Max(s) && smallest == Min(s);
    ScanOutcome(s, secondLargest, secondSmallest);
    if secondLargest == MinValue || secondSmallest == MaxValue {
      return Threw(IllegalArgumentException(NoSecond));
    }
    return Returned([secondLargest, secondSmallest]);
  }

  /** One step of the scan keeps `largest` and `secondLargest` up to date. */
  lemma TrackLargest(p: seq<int32>, x: int32, l: int32, sl: int32, l': int32, sl': int32)
    requires l == MaxOr(p, MinValue) && sl == MaxBelow(p, l, MinValue)
    requires if x > l then l' == x && sl' == l
             else if x > sl && x < l then l' == l && sl' == x
             else l' == l && sl' == sl
    ensures l' == MaxOr(p + [x], MinValue) && sl' == MaxBelow(p + [x], l', MinValue)
  {
    var s := p + [x];
    assert s[..|s| - 1] == p;
    if x > l {
      MaxBelowAll(p, x, MinValue);
    }
  }

  /** One step of the scan keeps `smallest` and `secondSmallest` up to date. */
  lemma TrackSmallest(p: seq<int32>, x: int32, m: int32, sm: int32, m': int32, sm': int32)
    requires m == MinOr(p, MaxValue) && sm == MinAbove(p, m, MaxValue)
    requires if x < m then m' == x && sm' == m
             else if x < sm && x > m then m' == m && sm' == x
             else m' == m && sm' == sm
    ensures m' == MinOr(p + [x], MaxValue) && sm' == MinAbove(p + [x], m', MaxValue)
  {
    var s := p + [x];
    assert s[..|s| - 1] == p;
    if x < m {
      MinAboveAll(p, x, MaxValue);
    }
  }

  /**
   * Second largest and second smallest values are unique, and exist only
   * when the values are not all equal.
   */
  lemma UniqueSeconds(s: seq<int32>, hi: int32, lo: int32)
    requires IsSecondLargest(s, hi) && IsSecondSmallest(s, lo)
    ensures !AllEqual(s)
    ensures hi != MinValue ==> !IsSecondLargest(s, MinValue)
    ensures lo != MaxValue ==> !IsSecondSmallest(s, MaxValue)
  {
    if AllEqual(s) {
      AllEqualHasNoSecond(s, hi);
    }
  }

  /**
   * What the two scans end with decides the outcome: a sentinel is left
   * exactly when the values are all equal or a genuine second value equals
   * its sentinel, and otherwise both are the genuine second values.
   */
  lemma ScanOutcome(s: seq<int32>, hi: int32, lo: int32)
    requires |s| > 0
    requires hi == MaxBelow(s, Max(s), MinValue) && lo == MinAbove(s, Min(s), MaxValue)
    ensures (hi == MinValue || lo == MaxValue) <==>
      AllEqual(s) || IsSecondLargest(s, MinValue) || IsSecondSmallest(s, MaxValue)
    ensures hi != MinValue && lo != MaxValue ==> IsSecondLargest(s, hi) && IsSecondSmallest(s, lo)
  {
    SecondLargestOfScan(s);
    SecondSmallestOfScan(s);
    if hi != MinValue && lo != MaxValue {
      UniqueSeconds(s, hi, lo);
    }
  }

  /** The extremes of the demonstration input. */
  lemma DemoExtremes(s: seq<int32>)
    requires s == [12, 35, 1, 10, 34, 2]
    ensures Max(s) == 35 && Min(s) == 1
  {
    assert s[1] in s && s[2] in s;
    assert forall k :: 0 <= k < 6 ==> 1 <= s[k] <= 35;
    var k :| 0 <= k < 6 && s[k] == Max(s);
    var j :| 0 <= j < 6 && s[j] == Min(s);
  }

  /** The demonstration input has 34 as second largest and 2 as second smallest value. */
  lemma DemoSeconds(s: seq<int32>)
    requires s == [12, 35, 1, 10, 34, 2]
    ensures IsSecondLargest(s, 34) && IsSecondSmallest(s, 2)
    ensures !IsSecondLargest(s, MinValue) && !IsSecondSmallest(s, MaxValue)
  {
    DemoExtremes(s);
    assert s[4] == 34 && s[5] == 2;
  }

  /** The demonstration input `{12, 35, 1, 10, 34, 2}` yields `[34, 2]`. */
  method FindSecondLargestAndSmallestDemo() returns (r: Result<seq<int32>>)
    ensures r == Returned([34, 2])
  {
    var arr := new int32[6] [12, 35, 1, 10, 34, 2];
    DemoSeconds(arr[..]);
    assert arr[0] != arr[1];
    r := FindSecondLargestAndSmallest(arr);
    assert r.value == [34, 2];
  }
}
