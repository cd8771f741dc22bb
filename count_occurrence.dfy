/** Strings/CountOccurrence.java: how often each character occurs, ignoring case. */
module CountOccurrence {
  import opened Seqs
  import opened JavaStrings
  import opened RemoveDuplicatesString

  /**
   * A `LinkedHashMap<Character, Integer>`: the map itself and its keys in
   * insertion order, which is the order in which it is iterated.
   */
  datatype LinkedMap = LinkedMap(order: seq<char>, entries: map<char, int>)
  {
    /** Every key is listed exactly once in the iteration order. */
    predicate Valid() {
      Distinct(order) && forall c :: c in order <==> c in entries
    }

    /** `getOrDefault`: the value stored under `k`, or `d` when there is none. */
    function GetOrDefault(k: char, d: int): (v: int)
      ensures k in entries ==> v == entries[k]
      ensures k !in entries ==> v == d
    {
      if k in entries then entries[k] else d
    }

    /**
     * `put`: stores `v` under `k`. A new key is appended to the iteration
     * order; an existing key keeps its place.
     */
    function Put(k: char, v: int): (m: LinkedMap)
      ensures Valid() ==> m.Valid()
      ensures m.entries == entries[k := v]
      ensures k in entries ==> m.order == order
      ensures k !in entries ==> m.order == order + [k]
    {
      LinkedMap(if k in entries then order else order + [k], entries[k := v])
    }
  }

  /** A freshly constructed map. */
  const Empty := LinkedMap([], map[])

  /**
   * The map that counting `s` from left to right builds: its keys are the
   * characters of `s` in order of first occurrence, and each maps to the
   * number of times it occurs (TallyCounts). Every key is listed once, no
   * count is below one, and there are no more keys than characters.
   */
  function Tally(s: string): (m: LinkedMap)
    ensures m.Valid()
    ensures |m.order| <= |s|
    ensures forall c :: c in m.entries ==> 1 <= m.entries[c]
  {
    if s == [] then Empty
    else
      var before := Tally(s[..|s| - 1]);
      var c := s[|s| - 1];
      before.Put(c, before.GetOrDefault(c, 0) + 1)
  }

  /** `get` after `put`: the key just stored yields its new value, every other key its old one. */
  lemma GetOrDefaultAfterPut(m: LinkedMap, k: char, v: int, other: char, d: int)
    requires other != k
    ensures m.Put(k, v).GetOrDefault(k, d) == v
    ensures m.Put(k, v).GetOrDefault(other, d) == m.GetOrDefault(other, d)
  {
  }

  /**
   * What the counting map holds: its keys are the characters of `s` in order
   * of first occurrence, and each maps to the number of times it occurs.
   */
  lemma {:induction false} TallyCounts(s: string)
    ensures Tally(s).Valid()
    ensures Tally(s).order == FirstOccurrences(s)
    ensures forall c :: c in Tally(s).entries <==> c in s
    ensures forall c :: c in Tally(s).entries ==> Tally(s).entries[c] == multiset(s)[c]
  {
    if s != [] {
      var p := s[..|s| - 1];
      var c := s[|s| - 1];
      assert s == p + [c];
      TallyCounts(p);
      FirstOccurrencesStep(p, c, FirstOccurrences(p), if c in p then FirstOccurrences(p) else FirstOccurrences(p) + [c]);
    }
  }

  /**
   * `countOccurence`: lowercases the input, then counts every character into
   * an insertion-ordered map. Every count is at least one and no key is an
   * upper-case letter.
   */
  method CountOccurence(str: string) returns (m: LinkedMap)
    ensures m == Tally(ToLowerCase(str))
    ensures m.Valid() && m.order == FirstOccurrences(ToLowerCase(str))
    ensures forall c :: c in m.entries <==> c in ToLowerCase(str)
    ensures forall c :: c in m.entries ==> !IsUpper(c) && 1 <= m.entries[c] == multiset(ToLowerCase(str))[c]
  {
    var s := ToLowerCase(str);
    m := Empty;
    for i := 0 to |s|
      invariant m == Tally(s[..i])
    {
      var c := s[i];
      assert s[..i + 1][..i] == s[..i];
      m := m.Put(c, m.GetOrDefault(c, 0) + 1);
    }
    assert s[..|s|] == s;
    TallyCounts(s);
  }

  /** The sum of the values stored under the keys `ks` (keys without a value add nothing). */
  function Sum(ks: seq<char>, e: map<char, int>): int {
    if ks == [] then 0
    else
      var k := ks[|ks| - 1];
      Sum(ks[..|ks| - 1], e) + (if k in e then e[k] else 0)
  }

  /** Changing the value of a key that is not listed leaves the sum alone. */
  lemma {:induction false} SumIgnores(ks: seq<char>, e: map<char, int>, k: char, v: int)
    requires k !in ks
    ensures Sum(ks, e[k := v]) == Sum(ks, e)
  {
    if ks != [] {
      var p := ks[..|ks| - 1];
      assert forall x :: x in p ==> x in ks;
      SumIgnores(p, e, k, v);
    }
  }

  /** Adding one to the value of a key listed once adds one to the sum. */
  lemma {:induction false} SumBump(ks: seq<char>, e: map<char, int>, k: char)
    requires Distinct(ks) && k in ks && k in e
    ensures Sum(ks, e[k := e[k] + 1]) == Sum(ks, e) + 1
  {
    var p := ks[..|ks| - 1];
    assert Distinct(p);
    if ks[|ks| - 1] == k {
      assert k !in p;
      SumIgnores(p, e, k, e[k] + 1);
    } else {
      assert k in p by {
        var i :| 0 <= i < |ks| && ks[i] == k;
        assert p[i] == k;
      }
      SumBump(p, e, k);
    }
  }

  /** The counts add up to the length of the counted string. */
  lemma {:induction false} CountsSumToLength(s: string)
    ensures Sum(Tally(s).order, Tally(s).entries) == |s|
  {
    if s != [] {
      var p, c := s[..|s| - 1], s[|s| - 1];
      var before := Tally(p);
      assert Tally(s) == before.Put(c, before.GetOrDefault(c, 0) + 1);
      CountsSumToLength(p);
      CountOneMore(before, c);
    }
  }

  /** Counting one more occurrence of a character adds one to the sum of the counts. */
  lemma CountOneMore(m: LinkedMap, c: char)
    requires m.Valid()
    ensures var m' := m.Put(c, m.GetOrDefault(c, 0) + 1);
      Sum(m'.order, m'.entries) == Sum(m.order, m.entries) + 1
  {
    if c in m.entries {
      SumBump(m.order, m.entries, c);
    } else {
      var e := m.entries[c := 1];
      var ks := m.order + [c];
      assert ks[..|ks| - 1] == m.order;
      assert Sum(ks, e) == Sum(m.order, e) + 1;
      SumIgnores(m.order, m.entries, c, 1);
    }
  }

  /** Lowercasing works character by character. */
  lemma ToLowerCaseAppend(p: string, c: char)
    ensures ToLowerCase(p + [c]) == ToLowerCase(p) + [ToLowerChar(c)]
  {
    assert ToLowerCase(p + [c])[..|p|] == ToLowerCase(p);
  }

  /**
   * Case is folded before counting: the count of a lower-case letter is the
   * number of its lower-case and upper-case occurrences in the original input.
   */
  lemma {:induction false} CountsIgnoreCase(str: string, c: char)
    requires IsLower(c)
    ensures multiset(ToLowerCase(str))[c] == multiset(str)[c] + multiset(str)[ToUpperChar(c)]
  {
    if str != [] {
      var p := str[..|str| - 1];
      var x := str[|str| - 1];
      assert str == p + [x];
      CountsIgnoreCase(p, c);
      ToLowerCaseAppend(p, x);
    }
  }

  /** The empty string gives the empty map. */
  method CountOccurenceOfEmpty() returns (m: LinkedMap)
    ensures m.order == [] && m.entries == map[]
  {
    m := CountOccurence("");
  }

  /**
   * The demonstration input "SubhamMishra" prints as
   * {s=2, u=1, b=1, h=2, a=2, m=2, i=1, r=1}: the keys in iteration order,
   * each with its count; 'S' and 's', 'M' and 'm' share one count.
   */
  method CountOccurenceDemo() returns (m: LinkedMap)
    ensures m.Valid() && m.order == "subhamir"
    ensures && m.entries['s'] == 2 && m.entries['u'] == 1 && m.entries['b'] == 1 && m.entries['h'] == 2
            && m.entries['a'] == 2 && m.entries['m'] == 2 && m.entries['i'] == 1 && m.entries['r'] == 1
  {
    var str := "SubhamMishra";
    m := CountOccurence(str);
    var s := DemoLowered(str);
    DemoSecondHalf(s);
    DemoLetters(s);
    DemoCountFirst(s, 's', 2);
    DemoCountFirst(s, 'u', 1);
    DemoCountFirst(s, 'b', 1);
    DemoCountFirst(s, 'h', 2);
    DemoCountLast(s, 'a', 2);
    DemoCountLast(s, 'm', 2);
    DemoCountLast(s, 'i', 1);
    DemoCountLast(s, 'r', 1);
  }

  lemma DemoLowered(str: string) returns (s: string)
    requires str == "SubhamMishra"
    ensures s == ToLowerCase(str) && s == "subhammishra"
  {
    s := ToLowerCase(str);
  }

  lemma DemoLetters(s: string)
    requires s == "subhammishra"
    ensures 's' in s && 'u' in s && 'b' in s && 'h' in s && 'a' in s && 'm' in s && 'i' in s && 'r' in s
  {
    assert s[0] == 's' && s[1] == 'u' && s[2] == 'b' && s[3] == 'h' && s[4] == 'a' && s[5] == 'm' && s[7] == 'i' && s[10] == 'r';
  }

  lemma DemoCountFirst(s: string, c: char, n: nat)
    requires s == "subhammishra"
    requires (c == 's' && n == 2) || (c == 'u' && n == 1) || (c == 'b' && n == 1) || (c == 'h' && n == 2)
    ensures multiset(s)[c] == n
  {
  }

  lemma DemoCountLast(s: string, c: char, n: nat)
    requires s == "subhammishra"
    requires (c == 'a' && n == 2) || (c == 'm' && n == 2) || (c == 'i' && n == 1) || (c == 'r' && n == 1)
    ensures multiset(s)[c] == n
  {
  }
}
