/** Strings/RemoveDuplicatesString.java: keep the first occurrence of every character. */
module RemoveDuplicatesString {
  import opened Seqs

  /**
   * The first occurrence of every character of `s`, in input order. No
   * character repeats, no character is lost or added, and nothing gets longer.
   * Characters are compared exactly: 'a' and 'A' are different.
   */
  function FirstOccurrences(s: string): (r: string)
    ensures |r| <= |s|
    ensures forall c :: c in r <==> c in s
    ensures Distinct(r)
  {
    if s == [] then []
    else
      var p := s[..|s| - 1];
      var c := s[|s| - 1];
      assert s == p + [c];
      var r := FirstOccurrences(p);
      if c in p then r else r + [c]
  }

  /** The position of the first occurrence of `c` in `s`. */
  function IndexOf(s: string, c: char): (k: nat)
    requires c in s
    ensures k < |s| && s[k] == c && c !in s[..k]
  {
    if s[0] == c then 0
    else
      assert s == [s[0]] + s[1..];
      var k := IndexOf(s[1..], c);
      assert s[..k + 1] == [s[0]] + s[1..][..k];
      k + 1
  }

  /** Appending a character does not move the first occurrence of characters already present. */
  lemma {:induction false} IndexOfAppend(p: string, x: char, c: char)
    requires c in p
    ensures IndexOf(p + [x], c) == IndexOf(p, c)
  {
    if p[0] != c {
      assert p == [p[0]] + p[1..];
      assert (p + [x])[1..] == p[1..] + [x];
      IndexOfAppend(p[1..], x, c);
    }
  }

  /** The kept characters appear in the order of their first occurrences in the input. */
  lemma {:induction false} FirstOccurrencesInOrder(s: string)
    ensures forall a, b :: 0 <= a < b < |FirstOccurrences(s)| ==>
      IndexOf(s, FirstOccurrences(s)[a]) < IndexOf(s, FirstOccurrences(s)[b])
  {
    if s != [] {
      var p := s[..|s| - 1];
      var x := s[|s| - 1];
      assert s == p + [x];
      FirstOccurrencesInOrder(p);
      var r := FirstOccurrences(p);
      var r' := FirstOccurrences(s);
      forall a, b | 0 <= a < b < |r'| ensures IndexOf(s, r'[a]) < IndexOf(s, r'[b]) {
        IndexOfAppend(p, x, r'[a]);
        if b < |r| {
          IndexOfAppend(p, x, r'[b]);
        } else {
          assert r'[b] == x && x !in p;
          assert IndexOf(s, x) == |p|;
        }
      }
    }
  }

  /** A string without repeated characters is left as it is. */
  lemma {:induction false} FirstOccurrencesOfDistinct(t: string)
    requires Distinct(t)
    ensures FirstOccurrences(t) == t
  {
    if t != [] {
      var p := t[..|t| - 1];
      assert Distinct(p);
      FirstOccurrencesOfDistinct(p);
      assert t[|t| - 1] !in p;
      assert t == p + [t[|t| - 1]];
    }
  }

  /** Removing duplicates twice is the same as removing them once. */
  lemma FirstOccurrencesIdempotent(s: string)
    ensures FirstOccurrences(FirstOccurrences(s)) == FirstOccurrences(s)
  {
    FirstOccurrencesOfDistinct(FirstOccurrences(s));
  }

  /**
   * `removeDuplicates`: scans the input once, remembering the characters seen,
   * and appends a character the first time it appears.
   */
  method RemoveDuplicates(str: string) returns (r: string)
    ensures r == FirstOccurrences(str)
  {
    var seen: set<char> := {};
    var sb := [];
    for i := 0 to |str|
      invariant seen == Elements(str[..i])
      invariant sb == FirstOccurrences(str[..i])
    {
      var c := str[i];
      assert str[..i + 1][..i] == str[..i];
      if c !in seen {
        seen := seen + {str[i]};
        sb := sb + [str[i]];
      }
      assert Elements(str[..i + 1]) == Elements(str[..i]) + {c} by {
        assert str[..i + 1] == str[..i] + [c];
      }
    }
    assert str[..|str|] == str;
    r := sb;
  }

  /** The demonstration input "subhammishra" gives "subhamir". */
  method RemoveDuplicatesDemo() returns (r: string)
    ensures r == "subhamir"
  {
    var str := "subhammishra";
    r := RemoveDuplicates(str);
    DemoSecondHalf(str);
  }

  lemma DemoFirstHalf(s: string)
    requires s == "subhammis"
    ensures FirstOccurrences(s) == "subhami"
  {
    var p := s[..6];
    assert p == "subham";
    FirstOccurrencesOfDistinct(p);
    DemoFirstHalfSteps(p, s);
  }

  lemma DemoFirstHalfSteps(p: string, s: string)
    requires FirstOccurrences(p) == p && p == "subham"
    requires s == p + ['m'] + ['i'] + ['s']
    ensures FirstOccurrences(s) == "subhami"
  {
    FirstOccurrencesStep(p, 'm', p, p);
    var q := p + ['m'];
    FirstOccurrencesStep(q, 'i', p, p + ['i']);
    var r := q + ['i'];
    assert 's' in r;
    FirstOccurrencesStep(r, 's', p + ['i'], p + ['i']);
  }

  lemma DemoSecondHalf(s: string)
    requires s == "subhammishra"
    ensures FirstOccurrences(s) == "subhamir"
  {
    var p := s[..9];
    assert p == "subhammis";
    DemoFirstHalf(p);
    DemoSecondHalfSteps(p, s);
  }

  lemma DemoSecondHalfSteps(p: string, s: string)
    requires FirstOccurrences(p) == "subhami" && p == "subhammis"
    requires s == p + ['h'] + ['r'] + ['a']
    ensures FirstOccurrences(s) == "subhamir"
  {
    var f := "subhami";
    assert 'h' in p;
    FirstOccurrencesStep(p, 'h', f, f);
    var q := p + ['h'];
    assert 'r' !in q;
    FirstOccurrencesStep(q, 'r', f, f + ['r']);
    var r := q + ['r'];
    assert 'a' in r;
    FirstOccurrencesStep(r, 'a', f + ['r'], f + ['r']);
  }

  /** One more character: kept exactly when it has not been seen before. */
  lemma FirstOccurrencesStep(p: string, c: char, before: string, after: string)
    requires FirstOccurrences(p) == before
    requires after == if c in p then before else before + [c]
    ensures FirstOccurrences(p + [c]) == after
  {
    assert (p + [c])[..|p|] == p;
  }
}
