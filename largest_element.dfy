/** Arrays/LargestElement.java: the largest element of an `int[]`. */
module LargestElement {
  import opened JavaInt
  import opened Exceptions

  const EmptyArray := "Array cannot be empty"

  /**
   * `findLargest`: throws on a null or empty array, and otherwise returns an
   * element of the array that no element exceeds. The array is only read.
   */
  method FindLargest(arr: array?<int32>) returns (r: Result<int32>)
    ensures arr == null || arr.Length == 0 <==> r.Threw?
    ensures r.Threw? ==> r.exception == IllegalArgumentException(EmptyArray)
    ensures r.Returned? ==> arr != null && r.value in arr[..]
    ensures r.Returned? ==> arr != null && forall k :: 0 <= k < arr.Length ==> arr[k] <= r.value
  {
    if arr == null || arr.Length == 0 {
      return Threw(IllegalArgumentException(EmptyArray));
    }
    var max := arr[0];
    for i := 1 to arr.Length
      invariant max in arr[..i]
      invariant forall k :: 0 <= k < i ==> arr[k] <= max
    {
      if arr[i] > max {
        max := arr[i];
      }
    }
    return Returned(max);
  }

  /** A one-element array yields its only element. */
  method FindLargestSingleton(x: int32) returns (r: Result<int32>)
    ensures r == Returned(x)
  {
    var arr := new int32[1] [x];
    r := FindLargest(arr);
  }

  /** The demonstration input `{12, 5, 47, 19, 33}` yields 47. */
  method FindLargestDemo() returns (r: Result<int32>)
    ensures r == Returned(47)
  {
    var arr := new int32[5] [12, 5, 47, 19, 33];
    r := FindLargest(arr);
    assert arr[2] == 47;
  }
}
