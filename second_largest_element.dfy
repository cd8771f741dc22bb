/** Arrays/SecondLargestElement.java: the second largest element of an `int[]`. */
module SecondLargestElement {
  import opened JavaInt
  import opened Exceptions
  import opened Extremes

  const TooShort := "Array must contain at least two elements"
  const NoSecondLargest := "No second largest element (all values may be equal)"

  /**
   * `findSecondLargest`: throws when the array is null or shorter than two,
   * when all its values are equal, and also when the genuine second largest
   * value is `Integer.MIN_VALUE`, which the method cannot tell apart from its
   * "not found" sentinel. Otherwise it returns the second largest value.
   */
  method FindSecondLargest(arr: array?<int32>) returns (r: Result<int32>)
    ensures arr == null || arr.Length < 2 ==> r == Threw(IllegalArgumentException(TooShort))
    ensures arr != null && arr.Length >= 2 ==>
      (r.Threw? <==> AllEqual(arr[..]) || IsSecondLargest(arr[..], MinValue))
    ensures arr != null && arr.Length >= 2 && r.Threw? ==>
      r == Threw(IllegalArgumentException(NoSecondLargest))
    ensures r.Returned? ==> arr != null && IsSecondLargest(arr[..], r.value)
  {
    if arr == null || arr.Length < 2 {
      return Threw(IllegalArgumentException(TooShort));
    }
    var largest := arr[0];
    var secondLargest := MinValue;
    // The first iteration compares arr[0] with itself and changes nothing.
    for i := 0 to arr.Length
      invariant largest == MaxOr(arr[..i], arr[0])
      invariant secondLargest == MaxBelow(arr[..i], largest, MinValue)
    {
      assert arr[..i + 1] == arr[..i] + [arr[i]];
      if arr[i] > largest {
        assert i > 0 && arr[0] in arr[..i];
        MaxBelowAll(arr[..i], arr[i], MinValue);
        secondLargest := largest;
        largest := arr[i];
      } else if arr[i] > secondLargest && arr[i] < largest {
        secondLargest := arr[i];
      }
    }
    assert arr[..arr.Length] == arr[..];
    SecondLargestOfScan(arr[..]);
    if secondLargest == MinValue {
      return Threw(IllegalArgumentException(NoSecondLargest));
    }
    AllEqualNotSecond(arr[..], secondLargest);
    return Returned(secondLargest);
  }

  /** A sequence whose values are all equal has no second largest value. */
  lemma AllEqualNotSecond(s: seq<int32>, v: int32)
    requires IsSecondLargest(s, v)
    ensures !AllEqual(s) && (v != MinValue ==> !IsSecondLargest(s, MinValue))
  {
    if AllEqual(s) {
      AllEqualHasNoSecond(s, v);
    }
  }

  /** The demonstration call on the empty array throws. */
  method FindSecondLargestDemo() returns (r: Result<int32>)
    ensures r == Threw(IllegalArgumentException(TooShort))
  {
    var arr := new int32[0];
    r := FindSecondLargest(arr);
  }
}
