/** Strings/AddBinary.java: the sum of two binary strings, as a binary string. */
module AddBinary {
  import opened Seqs

  /** A string of binary digits, most significant first. */
  predicate IsBinary(s: string) {
    forall k :: 0 <= k < |s| ==> s[k] == '0' || s[k] == '1'
  }

  /** `c - '0'`: the digit a character stands for. */
  function Digit(c: char): (d: int)
    ensures c == '0' ==> d == 0
    ensures c == '1' ==> d == 1
  {
    c as int - '0' as int
  }

  function Pow2(n: nat): (p: nat)
    ensures p >= 1
  {
    if n == 0 then 1 else 2 * Pow2(n - 1)
  }

  /**
   * The value of the digits of `s` from position `i` on, each digit one
   * weighing 2 to the number of digits after it in `s`.
   */
  function ValueFrom(s: string, i: nat): nat
    requires i <= |s|
    decreases |s| - i
  {
    if i == |s| then 0
    else (if s[i] == '1' then Pow2(|s| - 1 - i) else 0) + ValueFrom(s, i + 1)
  }

  /** The number a binary string denotes, most significant digit first: below 2^|s|. */
  function Value(s: string): (v: nat)
    ensures v < Pow2(|s|)
  {
    ValueFromBound(s, 0);
    ValueFrom(s, 0)
  }

  /** The digits from position `i` on denote less than 2^(|s|-i). */
  lemma {:induction false} ValueFromBound(s: string, i: nat)
    requires i <= |s|
    ensures ValueFrom(s, i) < Pow2(|s| - i)
    decreases |s| - i
  {
    if i < |s| {
      ValueFromBound(s, i + 1);
    }
  }

  /** Equally long binary strings whose digits from `i` on have the same value agree from `i` on. */
  lemma {:induction false} ValueFromUnique(x: string, y: string, i: nat)
    requires IsBinary(x) && IsBinary(y)
    requires |x| == |y| && i <= |x| && ValueFrom(x, i) == ValueFrom(y, i)
    ensures forall k :: i <= k < |x| ==> x[k] == y[k]
    decreases |x| - i
  {
    if i < |x| {
      ValueFromBound(x, i + 1);
      ValueFromBound(y, i + 1);
      assert x[i] == y[i];
      ValueFromUnique(x, y, i + 1);
    }
  }

  /** Binary strings of the same length and value are the same string. */
  lemma BinaryUnique(x: string, y: string)
    requires IsBinary(x) && IsBinary(y)
    requires |x| == |y| && Value(x) == Value(y)
    ensures x == y
  {
    ValueFromUnique(x, y, 0);
  }

  /** The value of the first `n` digits of `low`, listed least significant first. */
  function LowFirstValue(low: string, n: nat): nat
    requires n <= |low|
  {
    if n == 0 then 0
    else LowFirstValue(low, n - 1) + (if low[n - 1] == '1' then Pow2(n - 1) else 0)
  }

  /** Only the first `n` digits count. */
  lemma {:induction false} LowFirstValuePrefix(x: string, y: string, n: nat)
    requires n <= |x| && n <= |y|
    requires forall k :: 0 <= k < n ==> x[k] == y[k]
    ensures LowFirstValue(x, n) == LowFirstValue(y, n)
  {
    if n > 0 {
      LowFirstValuePrefix(x, y, n - 1);
    }
  }

  /** Digits listed least significant first denote the value of their reverse. */
  lemma {:induction false} LowFirstValueReverse(low: string, i: nat)
    requires i <= |low|
    ensures ValueFrom(Reverse(low), i) == LowFirstValue(low, |low| - i)
    decreases |low| - i
  {
    if i < |low| {
      LowFirstValueReverse(low, i + 1);
    }
  }

  /** A digit appended to the digits listed least significant first weighs 2^n where n digits precede it. */
  lemma AppendLowDigit(low: string, d: char)
    ensures LowFirstValue(low + [d], |low| + 1) == LowFirstValue(low, |low|) + (if d == '1' then Pow2(|low|) else 0)
    ensures Pow2(|low| + 1) == 2 * Pow2(|low|)
  {
    LowFirstValuePrefix(low + [d], low, |low|);
  }

  /** The larger of the two lengths: the number of columns with digits of `a` or `b` in them. */
  function Columns(a: string, b: string): nat {
    if |a| < |b| then |b| else |a|
  }

  /** `k--` on a position that has not yet run off the start of its string. */
  function Next(k: int): int {
    if k >= 0 then k - 1 else k
  }

  /** The digit at position `k`, or nothing once `k` has run off the start. */
  function DigitAt(s: string, k: int): int
    requires k < |s|
  {
    if k >= 0 then Digit(s[k]) else 0
  }

  /** `append(sum % 2)`: the decimal rendering of the low bit of `sum`. */
  function LowBit(sum: int): (c: char)
    ensures c == '0' || c == '1'
    ensures Digit(c) == sum % 2
  {
    if sum % 2 == 1 then '1' else '0'
  }

  /**
   * Moving past the digit under `k` (if any) adds its weight, 2^n where n
   * digits follow it, to the value of the digits consumed.
   */
  lemma NextColumn(s: string, k: int, weight: nat)
    requires IsBinary(s) && -1 <= k < |s|
    requires k >= 0 ==> weight == Pow2(|s| - 1 - k)
    ensures 0 <= DigitAt(s, k) <= 1
    ensures ValueFrom(s, Next(k) + 1) == (if DigitAt(s, k) == 1 then weight else 0) + ValueFrom(s, k + 1)
  {
  }

  /**
   * Where `addBinary` is between two columns: `i` and `j` point at the next
   * digits of `a` and `b` (-1 once exhausted), `result` holds the binary digits
   * written so far, one per column, and the carry is a single bit. Beyond the
   * columns of the inputs only a final carry of one is written.
   */
  ghost predicate Positions(a: string, b: string, i: int, j: int, result: string, carry: int) {
    && -1 <= i < |a| && -1 <= j < |b|
    && (carry == 0 || carry == 1)
    && IsBinary(result)
    && (i >= 0 ==> |result| == |a| - 1 - i) && (i < 0 ==> |result| >= |a|)
    && (j >= 0 ==> |result| == |b| - 1 - j) && (j < 0 ==> |result| >= |b|)
    && (|result| <= Columns(a, b) || (|result| == Columns(a, b) + 1 && carry == 0 && result[Columns(a, b)] == '1'))
  }

  /**
   * The digits of `a` and `b` consumed so far add up to the digits written
   * (least significant first) plus the carry, which weighs as much as the
   * next column.
   */
  ghost predicate Balanced(a: string, b: string, i: int, j: int, result: string, carry: int)
    requires -1 <= i < |a| && -1 <= j < |b|
  {
    ValueFrom(a, i + 1) + ValueFrom(b, j + 1)
    == LowFirstValue(result, |result|) + (if carry == 1 then Pow2(|result|) else 0)
  }

  /** One turn of the loop of `addBinary` moves to the next column and keeps the positions consistent. */
  lemma ColumnPositions(a: string, b: string, i: int, j: int, result: string, carry: int, sum: int)
    requires IsBinary(a) && IsBinary(b) && Positions(a, b, i, j, result, carry)
    requires i >= 0 || j >= 0 || carry == 1
    requires sum == carry + DigitAt(a, i) + DigitAt(b, j)
    ensures Positions(a, b, Next(i), Next(j), result + [LowBit(sum)], sum / 2)
  {
    assert 0 <= sum <= 3;
    var result' := result + [LowBit(sum)];
    assert IsBinary(result') by {
      assert forall k :: 0 <= k < |result| ==> result'[k] == result[k];
    }
  }

  /**
   * One column of the addition, at weight `w`: the sum digit and the new
   * carry account for the old carry and the two digits.
   */
  lemma ColumnSum(va': int, vb': int, low: int, carry: int, x: int, y: int, w: int, sum: int)
    requires 0 <= carry <= 1 && 0 <= x <= 1 && 0 <= y <= 1 && sum == carry + x + y
    requires va' - (if x == 1 then w else 0) + vb' - (if y == 1 then w else 0) == low + (if carry == 1 then w else 0)
    ensures 0 <= sum / 2 <= 1
    ensures va' + vb' == low + (if sum % 2 == 1 then w else 0) + (if sum / 2 == 1 then 2 * w else 0)
  {
  }

  /**
   * One turn of the loop of `addBinary` keeps the sum: the carry and the
   * digits under `i` and `j` give the next digit and the next carry.
   */
  lemma ColumnBalance(a: string, b: string, i: int, j: int, result: string, carry: int, sum: int)
    requires IsBinary(a) && IsBinary(b) && Positions(a, b, i, j, result, carry)
    requires Balanced(a, b, i, j, result, carry)
    requires sum == carry + DigitAt(a, i) + DigitAt(b, j)
    ensures Balanced(a, b, Next(i), Next(j), result + [LowBit(sum)], sum / 2)
  {
    var weight := Pow2(|result|);
    NextColumn(a, i, weight);
    NextColumn(b, j, weight);
    var va, vb := ValueFrom(a, Next(i) + 1), ValueFrom(b, Next(j) + 1);
    ColumnSum(va, vb, LowFirstValue(result, |result|), carry, DigitAt(a, i), DigitAt(b, j), weight, sum);
    var d := LowBit(sum);
    AppendLowDigit(result, d);
    var result' := result + [d];
    assert LowFirstValue(result', |result'|) == LowFirstValue(result, |result|) + (if sum % 2 == 1 then weight else 0);
  }

  /**
   * `addBinary`: adds the digits right to left with a carry, collecting the
   * digits of the sum least significant first, and reverses them at the end.
   * The sum has as many digits as the longer input, and one more exactly when
   * a carry is left over.
   */
  method AddBinary(a: string, b: string) returns (r: string)
    requires IsBinary(a) && IsBinary(b)
    ensures IsBinary(r)
    ensures Value(r) == Value(a) + Value(b)
    ensures |r| == if Value(a) + Value(b) < Pow2(Columns(a, b)) then Columns(a, b) else Columns(a, b) + 1
  {
    var result: string := [];
    var carry := 0;
    var i := |a| - 1;
    var j := |b| - 1;
    while i >= 0 || j >= 0 || carry == 1
      invariant Positions(a, b, i, j, result, carry)
      invariant Balanced(a, b, i, j, result, carry)
      decreases i + j + 2, carry
    {
      ghost var i0, j0, result0, carry0 := i, j, result, carry;
      var sum := carry;
      if i >= 0 {
        sum := sum + Digit(a[i]);
        i := i - 1;
      }
      if j >= 0 {
        sum := sum + Digit(b[j]);
        j := j - 1;
      }
      assert i == Next(i0) && j == Next(j0) && sum == carry0 + DigitAt(a, i0) + DigitAt(b, j0);
      result := result + [LowBit(sum)];
      carry := sum / 2;
      ColumnPositions(a, b, i0, j0, result0, carry0, sum);
      ColumnBalance(a, b, i0, j0, result0, carry0, sum);
    }
    r := Reverse(result);
    ReversedSum(result, Value(a) + Value(b), Columns(a, b));
  }

  /**
   * After the last column: the reversed digits are binary, denote the sum, and
   * have one digit more than the longer input exactly when the sum needs it.
   */
  lemma ReversedSum(result: string, sum: nat, w: nat)
    requires IsBinary(result) && LowFirstValue(result, |result|) == sum
    requires |result| == w || (|result| == w + 1 && result[w] == '1')
    ensures IsBinary(Reverse(result)) && Value(Reverse(result)) == sum
    ensures |Reverse(result)| == if sum < Pow2(w) then w else w + 1
  {
    var r := Reverse(result);
    LowFirstValueReverse(result, 0);
    if |r| == w + 1 {
      assert r[0] == '1';
    } else {
      assert Value(r) < Pow2(|r|);
    }
  }

  /** Addition is commutative: `addBinary(a, b) == addBinary(b, a)`. */
  method AddBinaryCommutes(a: string, b: string) returns (ab: string, ba: string)
    requires IsBinary(a) && IsBinary(b)
    ensures ab == ba
  {
    ab := AddBinary(a, b);
    ba := AddBinary(b, a);
    BinaryUnique(ab, ba);
  }

  /** Two empty strings add up to the empty string. */
  method AddBinaryEmpty() returns (r: string)
    ensures r == ""
  {
    r := AddBinary("", "");
  }

  /** "11" + "1" == "100". */
  method AddBinaryExample1() returns (r: string)
    ensures r == "100"
  {
    r := AddBinary("11", "1");
    BinaryUnique(r, "100");
  }

  /** "1010" + "1011" == "10101". */
  method AddBinaryExample2() returns (r: string)
    ensures r == "10101"
  {
    r := AddBinary("1010", "1011");
    BinaryUnique(r, "10101");
  }

  /** The demonstration input: "1011" + "1111" == "11010". */
  method AddBinaryDemo() returns (r: string)
    ensures r == "11010"
  {
    r := AddBinary("1011", "1111");
    BinaryUnique(r, "11010");
  }
}
