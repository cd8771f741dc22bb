/** Strings/PalindromeCheck.java: is a string its own reverse, ignoring case? */
module PalindromeCheck {
  import opened Seqs
  import opened JavaStrings

  /**
   * The character comparison of `String.equalsIgnoreCase`: equal, or equal
   * after upper-casing, or equal after upper- then lower-casing. On ASCII
   * case mapping this holds exactly when the upper cases agree.
   */
  predicate SameIgnoringCase(a: char, b: char)
    ensures SameIgnoringCase(a, b) <==> ToUpperChar(a) == ToUpperChar(b)
  {
    a == b || ToUpperChar(a) == ToUpperChar(b) || ToLowerChar(ToUpperChar(a)) == ToLowerChar(ToUpperChar(b))
  }

  /**
   * `String.equalsIgnoreCase`: same length and pairwise the same characters
   * ignoring case. Only strings of equal length match, and every string
   * matches itself.
   */
  predicate EqualsIgnoreCase(a: string, b: string)
    ensures EqualsIgnoreCase(a, b) ==> |a| == |b|
    ensures a == b ==> EqualsIgnoreCase(a, b)
  {
    |a| == |b| && forall k :: 0 <= k < |a| ==> SameIgnoringCase(a[k], b[k])
  }

  /** `equalsIgnoreCase` is equality of the upper-cased strings. */
  lemma EqualsIgnoreCaseIsSameUpper(a: string, b: string)
    ensures EqualsIgnoreCase(a, b) <==> |a| == |b| && ToUpperCase(a) == ToUpperCase(b)
  {
    if |a| == |b| {
      if ToUpperCase(a) == ToUpperCase(b) {
        forall k | 0 <= k < |a| ensures SameIgnoringCase(a[k], b[k]) {
          assert ToUpperCase(a)[k] == ToUpperCase(b)[k];
        }
      }
    }
  }

  /** A palindrome ignoring case: every character matches its mirror image. */
  predicate MirrorsIgnoringCase(s: string) {
    forall k :: 0 <= k < |s| ==> SameIgnoringCase(s[|s| - 1 - k], s[k])
  }

  /**
   * `palindromeCheck`: builds the reverse of `s` character by character and
   * compares it with `s` ignoring case.
   */
  method PalindromeCheck(s: string) returns (r: bool)
    ensures r == EqualsIgnoreCase(Reverse(s), s)
    ensures r <==> MirrorsIgnoringCase(s)
  {
    var result := [];
    var i := |s| - 1;
    while i >= 0
      invariant -1 <= i < |s|
      invariant |result| == |s| - 1 - i
      invariant forall k :: 0 <= k < |result| ==> result[k] == s[|s| - 1 - k]
    {
      result := result + [s[i]];
      i := i - 1;
    }
    assert result == Reverse(s);
    r := EqualsIgnoreCase(result, s);
  }

  /** A palindrome read backwards is still a palindrome, and a non-palindrome is still not one. */
  lemma MirrorsReversed(s: string)
    ensures MirrorsIgnoringCase(Reverse(s)) <==> MirrorsIgnoringCase(s)
  {
    var t := Reverse(s);
    var n := |s|;
    if MirrorsIgnoringCase(s) {
      forall k | 0 <= k < n ensures SameIgnoringCase(t[n - 1 - k], t[k]) {
        assert SameIgnoringCase(s[n - 1 - (n - 1 - k)], s[n - 1 - k]);
      }
    }
    if MirrorsIgnoringCase(t) {
      forall k | 0 <= k < n ensures SameIgnoringCase(s[n - 1 - k], s[k]) {
        assert SameIgnoringCase(t[n - 1 - (n - 1 - k)], t[n - 1 - k]);
      }
    }
  }

  /** `palindromeCheck(s) == palindromeCheck(reverse(s))`. */
  method PalindromeCheckReversed(s: string) returns (r: bool, r': bool)
    ensures r == r'
  {
    r := PalindromeCheck(s);
    r' := PalindromeCheck(Reverse(s));
    MirrorsReversed(s);
  }

  /** The empty string and every single character are palindromes. */
  method PalindromeCheckShort(s: string) returns (r: bool)
    requires |s| <= 1
    ensures r
  {
    r := PalindromeCheck(s);
  }

  /** Case is ignored: "Aba" is a palindrome. */
  method PalindromeCheckMixedCase() returns (r: bool)
    ensures r
  {
    r := PalindromeCheck("Aba");
    assert SameIgnoringCase('a', 'A');
  }

  /** The demonstration input "man" is not a palindrome. */
  method PalindromeCheckDemo() returns (r: bool)
    ensures !r
  {
    r := PalindromeCheck("man");
    assert !SameIgnoringCase("man"[2], "man"[0]);
  }
}
