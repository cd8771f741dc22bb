/** Strings/LongestSubString.java: the length of the longest substring without a repeated character. */
module LongestSubString {

  /** No character occurs twice in `s[lo..hi]`. */
  predicate Unrepeated(s: string, lo: nat, hi: nat)
    requires lo <= hi <= |s|
  {
    forall p, q :: lo <= p < q < hi ==> s[p] != s[q]
  }

  /** Some character occurs twice in `s[lo..i]`, position `i` included. */
  predicate RepeatsThrough(s: string, lo: nat, i: nat)
    requires lo <= i < |s|
  {
    !Unrepeated(s, lo, i + 1)
  }

  /** The characters of `s[lo..hi]`. */
  function Window(s: string, lo: nat, hi: nat): set<char>
    requires lo <= hi <= |s|
  {
    set k | lo <= k < hi :: s[k]
  }

  /**
   * `longestSubString`: a window `s[left..right]` whose characters are kept in
   * a set slides over `s`. A character not in the window widens it on the
   * right; a repeated one shrinks it from the left. The result is the length
   * of a substring without a repeated character, and no such substring is
   * longer.
   */
  method LongestSubString(s: string) returns (maxLen: nat)
    ensures maxLen <= |s|
    ensures exists lo: nat, hi: nat :: lo <= hi <= |s| && hi - lo == maxLen && Unrepeated(s, lo, hi)
    ensures forall lo: nat, hi: nat :: lo <= hi <= |s| && Unrepeated(s, lo, hi) ==> hi - lo <= maxLen
    ensures maxLen == 0 <==> |s| == 0
  {
    var left, right := 0, 0;
    maxLen := 0;
    var window: set<char> := {};
    ghost var bestLo, bestHi := 0, 0;
    while right < |s|
      invariant 0 <= left <= right <= |s|
      invariant window == Window(s, left, right)
      invariant Unrepeated(s, left, right)
      invariant 0 <= bestLo <= bestHi <= right && bestHi - bestLo == maxLen && Unrepeated(s, bestLo, bestHi)
      invariant forall lo: nat, hi: nat :: lo <= hi <= right && Unrepeated(s, lo, hi) ==> hi - lo <= maxLen
      invariant right < |s| ==> forall lo: nat :: lo < left ==> RepeatsThrough(s, lo, right)
      invariant right > 0 ==> maxLen >= 1
      decreases 2 * |s| - left - right
    {
      if s[right] !in window {
        assert Window(s, left, right + 1) == window + {s[right]};
        window := window + {s[right]};
        right := right + 1;
        forall lo: nat | lo < left ensures !Unrepeated(s, lo, right) {
          assert RepeatsThrough(s, lo, right - 1);
        }
        if maxLen < right - left {
          bestLo, bestHi := left, right;
        }
        maxLen := if maxLen >= right - left then maxLen else right - left;
        forall lo: nat | lo < left && right < |s| ensures RepeatsThrough(s, lo, right) {
          assert RepeatsThrough(s, lo, right - 1);
        }
      } else {
        var k :| left <= k < right && s[k] == s[right];
        assert RepeatsThrough(s, left, right) by {
          assert s[k] == s[right];
        }
        assert Window(s, left + 1, right) == window - {s[left]};
        window := window - {s[left]};
        left := left + 1;
      }
    }
  }

  /** The demonstration input "qwertyq" gives 6. */
  method LongestSubStringDemo() returns (n: nat)
    ensures n == 6
  {
    var s := "qwertyq";
    n := LongestSubString(s);
    assert Unrepeated(s, 0, 6);
    assert !Unrepeated(s, 0, 7) by {
      assert s[0] == s[6];
    }
  }
}
