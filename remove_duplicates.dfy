/**
 * Arrays/RemoveDuplicates.java: compact a sorted `int[]` in place so that
 * its unique values come first, and return how many there are.
 */
module RemoveDuplicates {
  import opened JavaInt
  import opened Seqs

  /** `s` with every run of equal adjacent elements collapsed to one element. */
  function Collapse(s: seq<int32>): (r: seq<int32>)
    ensures |r| <= |s|
    ensures s != [] ==> r != [] && r[0] == s[0] && r[|r| - 1] == s[|s| - 1]
  {
    if |s| <= 1 then s
    else
      var p := s[..|s| - 1];
      if s[|s| - 1] == p[|p| - 1] then Collapse(p) else Collapse(p) + [s[|s| - 1]]
  }

  predicate Sorted(s: seq<int32>) {
    forall p, q :: 0 <= p < q < |s| ==> s[p] <= s[q]
  }

  predicate StrictlyIncreasing(s: seq<int32>) {
    forall p, q :: 0 <= p < q < |s| ==> s[p] < s[q]
  }

  /** Collapsing runs keeps every value and introduces none. */
  lemma {:induction false} CollapseElements(s: seq<int32>)
    ensures forall x :: x in Collapse(s) <==> x in s
  {
    if |s| > 1 {
      var p := s[..|s| - 1];
      assert s == p + [s[|s| - 1]];
      CollapseElements(p);
      assert p[|p| - 1] in p;
    }
  }

  /** Collapsing the runs of a sorted sequence leaves it strictly increasing. */
  lemma {:induction false} CollapseSorted(s: seq<int32>)
    requires Sorted(s)
    ensures StrictlyIncreasing(Collapse(s))
  {
    if |s| > 1 {
      var p := s[..|s| - 1];
      assert Sorted(p);
      CollapseSorted(p);
      var c := Collapse(p);
      var x := s[|s| - 1];
      if x != p[|p| - 1] {
        assert c[|c| - 1] == s[|s| - 2] < x;
        var r := c + [x];
        forall a, b | 0 <= a < b < |r| ensures r[a] < r[b] {
          if b < |c| {
          } else {
            assert a == |c| - 1 || c[a] < c[|c| - 1];
          }
        }
      }
    }
  }

  /**
   * For a sorted input, the compacted prefix holds each distinct value exactly
   * once, in increasing order, and its length is the number of distinct values.
   */
  lemma SortedCollapseIsDistinctValues(s: seq<int32>)
    requires Sorted(s)
    ensures StrictlyIncreasing(Collapse(s)) && Distinct(Collapse(s))
    ensures Elements(Collapse(s)) == Elements(s)
    ensures |Collapse(s)| == |Elements(s)|
  {
    CollapseSorted(s);
    CollapseElements(s);
    DistinctCardinality(Collapse(s));
  }

  /** A sequence without repetitions has as many elements as its set. */
  lemma {:induction false} DistinctCardinality(t: seq<int32>)
    requires Distinct(t)
    ensures |Elements(t)| == |t|
  {
    if t != [] {
      var p := t[..|t| - 1];
      assert Distinct(p);
      DistinctCardinality(p);
      assert t == p + [t[|t| - 1]];
      assert Elements(t) == Elements(p) + {t[|t| - 1]};
      assert t[|t| - 1] !in Elements(p);
    }
  }

  /**
   * `removeDuplicates`: after the call the first `k` slots hold the input with
   * every run of equal neighbours collapsed (for a sorted input: its distinct
   * values, see SortedCollapseIsDistinctValues), `arr[0]` and every slot from
   * `k` on keep their values, and `k` is returned. An empty array gives 0.
   */
  method RemoveDuplicates(arr: array<int32>) returns (k: nat)
    modifies arr
    ensures k <= arr.Length && (arr.Length > 0 ==> 1 <= k)
    ensures arr[..k] == Collapse(old(arr[..]))
    ensures arr[k..] == old(arr[k..])
  {
    if arr.Length == 0 {
      return 0;
    }
    ghost var s := arr[..];
    var j := 1;
    for i := 1 to arr.Length
      invariant 1 <= j <= i
      invariant arr[..j] == Collapse(s[..i])
      invariant forall k :: j <= k < arr.Length ==> arr[k] == s[k]
    {
      assert s[..i + 1] == s[..i] + [s[i]];
      CollapseAppend(s[..i], s[i]);
      assert arr[i] == s[i];
      assert arr[i - 1] == s[i - 1] by {
        if i - 1 < j {
          assert arr[j - 1] == arr[..j][j - 1];
        }
      }
      if arr[i] != arr[i - 1] {
        ghost var done := arr[..j];
        arr[j] := arr[i];
        assert arr[..j + 1] == done + [s[i]];
        j := j + 1;
      }
    }
    assert s[..arr.Length] == s;
    assert arr[j..] == s[j..];
    return j;
  }

  /**
   * The demonstration input `{-2, 2, 4, 4, 4, 4, 5, 5}` returns 4 with prefix
   * `[-2, 2, 4, 5]`; the whole array, as printed, is then
   * `[-2, 2, 4, 5, 4, 4, 5, 5]`, its tail left as it was.
   */
  method RemoveDuplicatesDemo() returns (k: nat, prefix: seq<int32>, contents: seq<int32>)
    ensures k == 4 && prefix == [-2, 2, 4, 5]
    ensures contents == [-2, 2, 4, 5, 4, 4, 5, 5]
  {
    var arr := new int32[8] [-2, 2, 4, 4, 4, 4, 5, 5];
    DemoCollapse(arr[..]);
    k := RemoveDuplicates(arr);
    prefix := arr[..k];
    contents := arr[..];
    assert contents == arr[..k] + arr[k..];
  }

  /** One more element: dropped when it repeats its predecessor, appended otherwise. */
  lemma CollapseAppend(p: seq<int32>, x: int32)
    requires p != []
    ensures Collapse(p + [x]) == if x == p[|p| - 1] then Collapse(p) else Collapse(p) + [x]
  {
    var s := p + [x];
    assert |s| > 1 && s[..|s| - 1] == p && s[|s| - 1] == x;
  }

  lemma DemoCollapse(s: seq<int32>)
    requires s == [-2, 2, 4, 4, 4, 4, 5, 5]
    ensures Collapse(s) == [-2, 2, 4, 5]
  {
    var s1: seq<int32> := [-2];
    var s2 := s1 + [2];
    var s3 := s2 + [4];
    var s4 := s3 + [4];
    var s5 := s4 + [4];
    var s6 := s5 + [4];
    var s7 := s6 + [5];
    var s8 := s7 + [5];
    assert Collapse(s1) == [-2];
    CollapseAppend(s1, 2);
    assert Collapse(s2) == [-2, 2];
    CollapseAppend(s2, 4);
    assert Collapse(s3) == [-2, 2, 4];
    CollapseAppend(s3, 4);
    CollapseAppend(s4, 4);
    CollapseAppend(s5, 4);
    assert Collapse(s6) == [-2, 2, 4];
    CollapseAppend(s6, 5);
    assert Collapse(s7) == [-2, 2, 4, 5];
    CollapseAppend(s7, 5);
    assert s8 == s;
  }
}
