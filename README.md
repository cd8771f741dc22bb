# Array and string routines, modelled in Dafny

This project models eleven small Java routines. Four scan integer arrays:

- the largest element;
- the second largest element;
- the second largest and second smallest elements together;
- in-place removal of adjacent duplicates from a sorted array.

Seven work on strings:

- binary addition;
- the longest substring without a repeated character;
- case-insensitive character counting into an insertion-ordered map;
- first-occurrence deduplication;
- reversing the order of words;
- reversing every word;
- a case-insensitive palindrome check.

Each routine is a `method` with the same loop as the Java code. Its loop invariants prove it against a pure specification function or predicate. Lemmas then prove what the routine promises in terms of that specification.

Java semantics are modelled explicitly:

- Array elements are the `int32` newtype (`JavaInt`), and so are `Integer.MIN_VALUE` and `Integer.MAX_VALUE`, the sentinels the scans start from. Indices, lengths, counts, the carry and the column sum are unbounded `int` or `nat`. That is exact, because each is bounded by a Java array or string length, or by 3.
- An `int[]` that may be `null` is an `array?<int32>`.
- A thrown `IllegalArgumentException` is `Threw(IllegalArgumentException(message))` in `Exceptions.Result`, with the source's exact message.
- `String.split(" ")` is `JavaStrings.Split`:
  - an input with no space gives itself as its only token, even when empty;
  - otherwise it gives the pieces between single spaces, dropping trailing empty pieces and keeping leading and interior ones.
- `trim()` strips every character at or below `' '`.
- `toLowerCase`, `toUpperCase` and `equalsIgnoreCase` are their ASCII restrictions.
- A `LinkedHashMap` is `CountOccurrence.LinkedMap`: a Dafny `map` plus the sequence of its keys in insertion order.

Modules:

- Shared: `JavaInt`, `Exceptions`, `Seqs` (reversal, distinctness), `Extremes` (maxima, minima and the values just below or above them) and `JavaStrings` (case mapping, trim, split, join).
- One module per Java file: `LargestElement`, `SecondLargestElement`, `SecondLargestAndSmallest`, `RemoveDuplicates`, `AddBinary`, `LongestSubString`, `CountOccurrence`, `RemoveDuplicatesString`, `ReverseEachWord`, `ReverseWords` and `PalindromeCheck`.

Each `main` method's demonstration call is a method or lemma. Its `ensures` states the value that call computes.

## Model

| member | source | states |
|---|---|---|
| JavaInt.SentinelBounds | Arrays/SecondLargestAndSmallest.java:20-24 | `Integer.MIN_VALUE` (`JavaInt.MinValue`) and `Integer.MAX_VALUE` (`JavaInt.MaxValue`) bound every `int`. |
| LargestElement.FindLargest | Arrays/LargestElement.java:4-17 | Throws "Array cannot be empty" exactly when the array is null or empty; otherwise returns an element of the array that is at least every element. |
| LargestElement.FindLargestSingleton | Arrays/LargestElement.java:9-16 | A one-element array returns its element. |
| LargestElement.FindLargestDemo | Arrays/LargestElement.java:20-21 | `{12, 5, 47, 19, 33}` gives 47. |
| Extremes.MaxOr | Arrays/SecondLargestAndSmallest.java:27-29 | The running maximum seeded with a default: at least the default and every element, and equal to the default or an element. |
| Extremes.MinOr | Arrays/SecondLargestAndSmallest.java:34-36 | The running minimum seeded with a default: at most the default and every element, and equal to the default or an element. |
| Extremes.Max | Arrays/LargestElement.java:9-16 | The maximum of a non-empty sequence is one of its elements and at least every element. |
| Extremes.Min | Arrays/SecondLargestAndSmallest.java:34-36 | The minimum of a non-empty sequence is one of its elements and at most every element. |
| Extremes.MaxBelow | Arrays/SecondLargestAndSmallest.java:27-32 | The greatest element below a bound, or the default: at least every element below the bound, and equal to the default or an element below the bound. |
| Extremes.MinAbove | Arrays/SecondLargestAndSmallest.java:34-39 | The least element above a bound, or the default, with the mirrored facts. |
| Extremes.MaxBelowAll | Arrays/SecondLargestAndSmallest.java:27-29 | When every element is below the bound, the greatest element below it is the maximum; this is why the old largest becomes the second largest. |
| Extremes.MinAboveAll | Arrays/SecondLargestAndSmallest.java:34-36 | The mirrored fact for the second smallest. |
| Extremes.SecondLargestOfScan | Arrays/SecondLargestAndSmallest.java:42 | The scan's second-largest tracker is `Integer.MIN_VALUE` exactly when all values are equal or the genuine second largest value is `Integer.MIN_VALUE`; otherwise it is the genuine second largest value. |
| Extremes.SecondSmallestOfScan | Arrays/SecondLargestAndSmallest.java:42 | The second-smallest tracker is `Integer.MAX_VALUE` exactly when all values are equal or the genuine second smallest is `Integer.MAX_VALUE`; otherwise it is the genuine second smallest value. |
| Extremes.AllEqualHasNoSecond | Arrays/SecondLargestElement.java:32-34 | When all values are equal there is no second largest and no second smallest value. |
| SecondLargestElement.FindSecondLargest | Arrays/SecondLargestElement.java:5-37 | Throws "Array must contain at least two elements" for a null or short array. Otherwise throws "No second largest element (all values may be equal)" exactly when all values are equal or the genuine second largest is `Integer.MIN_VALUE`. Otherwise returns the second largest value: an element below the maximum and at least every other element below it. |
| SecondLargestElement.AllEqualNotSecond | Arrays/SecondLargestElement.java:32-36 | A genuine second largest value rules out all-equal input, and unless it is `Integer.MIN_VALUE` the sentinel is not the second largest. |
| SecondLargestElement.FindSecondLargestDemo | Arrays/SecondLargestElement.java:40-41 | The demonstration call on `{}` throws the too-short exception. |
| SecondLargestAndSmallest.FindSecondLargestAndSmallest | Arrays/SecondLargestAndSmallest.java:15-47 | Throws the too-short exception for a null or short array. Otherwise throws the "does not exist" exception exactly when all values are equal, the genuine second largest is `Integer.MIN_VALUE` or the genuine second smallest is `Integer.MAX_VALUE`. Otherwise returns `[secondLargest, secondSmallest]`, the genuine second largest and second smallest values. |
| SecondLargestAndSmallest.TrackLargest | Arrays/SecondLargestAndSmallest.java:27-32 | One loop step keeps `largest` equal to the maximum so far and `secondLargest` equal to the greatest value below it. |
| SecondLargestAndSmallest.TrackSmallest | Arrays/SecondLargestAndSmallest.java:34-39 | One loop step keeps `smallest` equal to the minimum so far and `secondSmallest` equal to the least value above it. |
| SecondLargestAndSmallest.ScanOutcome | Arrays/SecondLargestAndSmallest.java:42-46 | A sentinel survives the scan exactly when the values are all equal or a genuine second value equals its sentinel; otherwise both trackers hold the genuine second values. |
| SecondLargestAndSmallest.UniqueSeconds | Arrays/SecondLargestAndSmallest.java:42-44 | When both second values exist, the values are not all equal, and a sentinel is the second value only if the returned value is that sentinel. |
| SecondLargestAndSmallest.DemoSeconds | Arrays/SecondLargestAndSmallest.java:50 | In `{12, 35, 1, 10, 34, 2}`, 34 is the second largest and 2 the second smallest value, and neither sentinel is. |
| SecondLargestAndSmallest.FindSecondLargestAndSmallestDemo | Arrays/SecondLargestAndSmallest.java:50-52 | `{12, 35, 1, 10, 34, 2}` gives `[34, 2]`. |
| RemoveDuplicates.Collapse | Arrays/RemoveDuplicates.java:9-14 | Collapsing runs of equal neighbours is no longer than the input and keeps its first and last element. |
| RemoveDuplicates.CollapseAppend | Arrays/RemoveDuplicates.java:10-13 | A next element equal to its predecessor is skipped; any other is kept. |
| RemoveDuplicates.CollapseElements | Arrays/RemoveDuplicates.java:9-14 | The collapsed sequence holds exactly the values of the input. |
| RemoveDuplicates.CollapseSorted | Arrays/RemoveDuplicates.java:1 | On a sorted input the collapsed sequence is strictly increasing. |
| RemoveDuplicates.SortedCollapseIsDistinctValues | Arrays/RemoveDuplicates.java:1-16 | On a sorted input the collapsed sequence is strictly increasing and has no repeats. It holds exactly the input's values, and its length is the number of distinct values. |
| RemoveDuplicates.DistinctCardinality | Arrays/RemoveDuplicates.java:15 | A sequence without repeats has as many distinct values as elements. |
| RemoveDuplicates.RemoveDuplicates | Arrays/RemoveDuplicates.java:4-16 | Returns `k` with `1 <= k` for a non-empty array and 0 for an empty one. `arr[..k]` becomes the input with runs collapsed, and every position from `k` on keeps its original value. |
| RemoveDuplicates.DemoCollapse | Arrays/RemoveDuplicates.java:20 | `{-2, 2, 4, 4, 4, 4, 5, 5}` collapses to `[-2, 2, 4, 5]`. |
| RemoveDuplicates.RemoveDuplicatesDemo | Arrays/RemoveDuplicates.java:20-32 | The demonstration array returns 4, with prefix `[-2, 2, 4, 5]`, and the whole array then reads `[-2, 2, 4, 5, 4, 4, 5, 5]`. |
| AddBinary.ValueFromBound | Strings/AddBinary.java:16-33 | The digits from a position on denote less than 2 to the power of their count. |
| AddBinary.Value | Strings/AddBinary.java:1 | The number a binary string denotes, most significant digit first (`ValueFrom` from position 0); an n-digit string denotes less than 2^n. |
| AddBinary.Digit | Strings/AddBinary.java:26-28 | `c - '0'` is 0 for `'0'` and 1 for `'1'`. |
| AddBinary.LowBit | Strings/AddBinary.java:30 | `append(sum % 2)` writes the binary digit whose value is `sum % 2`. |
| AddBinary.BinaryUnique | Strings/AddBinary.java:16-33 | Two binary strings of equal length with equal values are equal. |
| AddBinary.LowFirstValueReverse | Strings/AddBinary.java:33 | Reversing the least-significant-first builder gives the most-significant-first string of the same value. |
| AddBinary.NextColumn | Strings/AddBinary.java:25-28 | `a.charAt(i--) - '0'` contributes a digit 0 or 1 of the right weight. |
| AddBinary.ColumnPositions | Strings/AddBinary.java:22-31 | One loop step keeps the carry at 0 or 1 and the appended digits binary, and keeps the result length in step with both indices. |
| AddBinary.ColumnBalance | Strings/AddBinary.java:23-31 | One loop step keeps this balance: the consumed digits of `a` and `b` add up to the digits written plus the carry's weight. |
| AddBinary.AddBinary | Strings/AddBinary.java:16-35 | For binary inputs, returns a binary string whose value is the sum of the inputs' values. Its length is the longer input's length, plus one exactly when the sum needs the extra digit. |
| AddBinary.ReversedSum | Strings/AddBinary.java:33 | The reversed builder is binary, has the sum's value and has the stated length. |
| AddBinary.AddBinaryCommutes | Strings/AddBinary.java:25-28 | `addBinary(a, b) == addBinary(b, a)`. |
| AddBinary.AddBinaryEmpty | Strings/AddBinary.java:19-22 | Two empty strings give the empty string. |
| AddBinary.AddBinaryExample1 | Strings/AddBinary.java:7-8 | `"11" + "1"` gives `"100"`. |
| AddBinary.AddBinaryExample2 | Strings/AddBinary.java:11-12 | `"1010" + "1011"` gives `"10101"`. |
| AddBinary.AddBinaryDemo | Strings/AddBinary.java:38-41 | `"1011" + "1111"` gives `"11010"`. |
| LongestSubString.LongestSubString | Strings/LongestSubString.java:8-25 | Returns the length of some substring without a repeated character, and no such substring is longer. The result is 0 exactly for the empty string and at most the string's length. |
| LongestSubString.LongestSubStringDemo | Strings/LongestSubString.java:28 | `"qwertyq"` gives 6. |
| CountOccurrence.LinkedMap.Put | Strings/CountOccurrence.java:8-11 | `put` stores the value under the key. A new key goes to the end of the iteration order, an existing key keeps its place, and every key stays listed once. |
| CountOccurrence.LinkedMap.GetOrDefault | Strings/CountOccurrence.java:11 | `getOrDefault` gives the value stored under the key, or the default when the key is absent. |
| CountOccurrence.GetOrDefaultAfterPut | Strings/CountOccurrence.java:11 | After `put(k, v)`, `getOrDefault(k, d)` gives `v`, and every other key gives what it gave before. |
| CountOccurrence.Tally | Strings/CountOccurrence.java:8-12 | The map that the counting loop builds lists every key once, has no more keys than the string has characters, and holds no count below one. |
| CountOccurrence.TallyCounts | Strings/CountOccurrence.java:9-12 | The counted map's keys are the characters of the string, in order of first occurrence, and each maps to its number of occurrences. |
| CountOccurrence.CountOccurence | Strings/CountOccurrence.java:6-14 | After lowercasing, the returned map iterates over the characters in order of first occurrence. Its keys are exactly those characters, none upper-case. Each maps to its number of occurrences, which is at least one. |
| CountOccurrence.SumIgnores | Strings/CountOccurrence.java:11 | Updating a key that is not listed leaves the sum of the listed counts unchanged. |
| CountOccurrence.SumBump | Strings/CountOccurrence.java:11 | Adding one to a listed key's count adds one to the sum. |
| CountOccurrence.CountOneMore | Strings/CountOccurrence.java:11 | One `put(c, getOrDefault(c, 0) + 1)` adds one to the sum of the counts. |
| CountOccurrence.CountsSumToLength | Strings/CountOccurrence.java:9-12 | The counts add up to the length of the counted string. |
| CountOccurrence.ToLowerCaseAppend | Strings/CountOccurrence.java:7 | Lowercasing works character by character. |
| CountOccurrence.CountsIgnoreCase | Strings/CountOccurrence.java:7 | A lower-case letter's count is its lower-case plus its upper-case occurrences in the original input. |
| CountOccurrence.CountOccurenceOfEmpty | Strings/CountOccurrence.java:9-13 | The empty string gives the empty map. |
| CountOccurrence.CountOccurenceDemo | Strings/CountOccurrence.java:17-18 | `"SubhamMishra"` gives `{s=2, u=1, b=1, h=2, a=2, m=2, i=1, r=1}`, in that order. |
| RemoveDuplicatesString.FirstOccurrences | Strings/RemoveDuplicatesString.java:8-15 | The first occurrences are no longer than the input, hold exactly its characters, and repeat none. |
| RemoveDuplicatesString.IndexOf | Strings/RemoveDuplicatesString.java:10 | The first position of a character that occurs. |
| RemoveDuplicatesString.FirstOccurrencesInOrder | Strings/RemoveDuplicatesString.java:8-13 | The kept characters appear in the order of their first occurrence in the input. |
| RemoveDuplicatesString.FirstOccurrencesStep | Strings/RemoveDuplicatesString.java:10-13 | A character already seen is skipped; a new one is appended. |
| RemoveDuplicatesString.FirstOccurrencesOfDistinct | Strings/RemoveDuplicatesString.java:8-15 | A string without repeats is returned unchanged. |
| RemoveDuplicatesString.FirstOccurrencesIdempotent | Strings/RemoveDuplicatesString.java:8-15 | Deduplicating twice equals deduplicating once. |
| RemoveDuplicatesString.RemoveDuplicates | Strings/RemoveDuplicatesString.java:5-16 | Returns the first occurrence of every character, in input order, with case-sensitive comparison. |
| RemoveDuplicatesString.DemoSecondHalf | Strings/RemoveDuplicatesString.java:19 | The first occurrences in `"subhammishra"` are `"subhamir"`. |
| RemoveDuplicatesString.RemoveDuplicatesDemo | Strings/RemoveDuplicatesString.java:19-20 | `"subhammishra"` gives `"subhamir"`. |
| JavaStrings.ToLowerChar | Strings/CountOccurrence.java:7 | Maps an ASCII upper-case letter to its lower-case letter and leaves every other character alone. |
| JavaStrings.ToUpperChar | Strings/ReverseEachWord.java:12 | Maps an ASCII lower-case letter to its upper-case letter and leaves every other character alone. |
| JavaStrings.ToLowerCase | Strings/CountOccurrence.java:7 | Keeps the length and leaves no upper-case letter. |
| JavaStrings.ToUpperCase | Strings/ReverseEachWord.java:12 | Keeps the length and leaves no lower-case letter. |
| JavaStrings.UpperCaseTrimmed | Strings/ReverseEachWord.java:12 | Upper-casing a trimmed string leaves it trimmed. |
| JavaStrings.TrimStart | Strings/ReverseWords.java:12 | Drops exactly the leading characters at or below `' '`. |
| JavaStrings.TrimEnd | Strings/ReverseWords.java:12 | Drops exactly the trailing characters at or below `' '`. |
| JavaStrings.Trim | Strings/ReverseWords.java:12 | The result starts and ends above `' '`. A trimmed string is unchanged, and an all-blank one becomes empty. |
| JavaStrings.Pieces | Strings/ReverseWords.java:5 | The pieces between single spaces: at least one piece, none holding a space. |
| JavaStrings.DropTrailingEmpty | Strings/ReverseWords.java:5 | The longest prefix of the pieces that does not end in an empty piece; everything dropped is empty. |
| JavaStrings.Split | Strings/ReverseWords.java:5 | No `split(" ")` token holds a space. |
| JavaStrings.JoinPieces | Strings/ReverseWords.java:5 | Joining the pieces with single spaces gives back the string. |
| JavaStrings.PiecesJoin | Strings/ReverseWords.java:5 | Splitting a join of space-free words gives back the words. |
| JavaStrings.SplitIsPieces | Strings/ReverseWords.java:5 | Without a trailing space, `split(" ")` drops nothing. |
| JavaStrings.Terminated | Strings/ReverseWords.java:8-10 | The builder output of words each followed by one space: at least one character per word, empty exactly when there are no words, and otherwise ending in a space. |
| JavaStrings.TerminatedIsJoin | Strings/ReverseWords.java:8-10 | Words each followed by one space are their join plus one space. |
| JavaStrings.TrimAppendedSpace | Strings/ReverseWords.java:12 | Trimming a trimmed string with one appended space gives the string back. |
| JavaStrings.JoinNoControl | Strings/ReverseWords.java:5-12 | A join has no control character exactly when none of its words has. |
| ReverseWords.WordsReversed | Strings/ReverseWords.java:3-13 | The result of `reverseWords` has no leading or trailing blank. |
| ReverseWords.ReverseWords | Strings/ReverseWords.java:3-13 | The loop appends the tokens last to first, each followed by one space, then trims. |
| ReverseWords.ReverseTerminated | Strings/ReverseWords.java:8-10 | One step of the reverse-index loop appends token `i` and a space. |
| ReverseWords.AllSpacesGiveEmpty | Strings/ReverseWords.java:5-12 | Empty or all-space input gives `""`. |
| ReverseWords.PiecesOfSpaces | Strings/ReverseWords.java:5 | Every piece of an all-space string is empty. |
| ReverseWords.WordsReversedPlain | Strings/ReverseWords.java:5-12 | On input without control characters or outer spaces, the result is the pieces joined in reverse order. |
| ReverseWords.WordsReversedTokens | Strings/ReverseWords.java:5-12 | On such input the result is again such a string, and its `split(" ")` tokens are the input's tokens reversed. |
| ReverseWords.WordsReversedInvolution | Strings/ReverseWords.java:5-12 | On such input, `reverseWords(reverseWords(s)) == s`. |
| ReverseWords.DemoTokens | Strings/ReverseWords.java:16 | `"  Hello I am Subham ".split(" ")` is `["", "", "Hello", "I", "am", "Subham"]`. |
| ReverseWords.ReverseWordsDemo | Strings/ReverseWords.java:16-17 | `"  Hello I am Subham "` gives `"Subham am I Hello"`. |
| ReverseEachWord.EachWordReversed | Strings/ReverseEachWord.java:2-13 | The result of `reverseEachWord` has no leading or trailing blank and no lower-case letter. |
| ReverseEachWord.ReverseEachWord | Strings/ReverseEachWord.java:2-13 | Each token is reversed character by character and followed by a space, with tokens in order; the whole is then trimmed and upper-cased. |
| ReverseEachWord.TerminatedReverseEachStep | Strings/ReverseEachWord.java:6-11 | One pass of the outer loop appends the next token reversed and a space. |
| ReverseEachWord.UpperJoin | Strings/ReverseEachWord.java:12 | Upper-casing a join upper-cases each word. |
| ReverseEachWord.UpperReverseTwice | Strings/ReverseEachWord.java:7-12 | Reversing and upper-casing a word twice gives the word upper-cased. |
| ReverseEachWord.JoinSameShape | Strings/ReverseEachWord.java:6-11 | Joins of word lists whose words pair up in length have the same length and spaces at the same positions. |
| ReverseEachWord.PlainTokens | Strings/ReverseEachWord.java:3-11 | On input without control characters or outer spaces, every token and its reversal is free of spaces and control characters. |
| ReverseEachWord.TrimmedReversedTokens | Strings/ReverseEachWord.java:3-12 | On such input, trimming removes exactly the final space. |
| ReverseEachWord.EachWordReversedShape | Strings/ReverseEachWord.java:3-12 | On such input the result has the input's length and spaces in the same positions, and is again such a string. |
| ReverseEachWord.EachWordReversedTwice | Strings/ReverseEachWord.java:3-12 | On such input, applying the routine twice gives the input upper-cased. |
| ReverseEachWord.DemoReversedEach | Strings/ReverseEachWord.java:6-11 | The loop over the demonstration tokens builds `"  olleH I ma mahbuS "`. |
| ReverseEachWord.ReverseEachWordDemo | Strings/ReverseEachWord.java:16-17 | `"  Hello I am Subham "` gives `"OLLEH I MA MAHBUS"`. |
| Seqs.Reverse | Strings/PalindromeCheck.java:7-9 | The reverse has the same length, and position `k` holds the element at `|s| - 1 - k`. |
| Seqs.ReverseReverse | Strings/PalindromeCheck.java:7-10 | Reversing twice gives back the sequence. |
| Seqs.ReverseElements | Strings/ReverseEachWord.java:7-9 | Reversal keeps exactly the same elements. |
| PalindromeCheck.SameIgnoringCase | Strings/PalindromeCheck.java:10 | The character test of `equalsIgnoreCase` (equal, equal upper cases, or equal lower cases of the upper cases) holds exactly when the upper cases agree. |
| PalindromeCheck.EqualsIgnoreCase | Strings/PalindromeCheck.java:10 | `equalsIgnoreCase` holds only between strings of equal length, and every string matches itself. |
| PalindromeCheck.EqualsIgnoreCaseIsSameUpper | Strings/PalindromeCheck.java:10 | Two strings are equal ignoring case exactly when they have the same length and the same upper-casing. |
| PalindromeCheck.PalindromeCheck | Strings/PalindromeCheck.java:3-11 | Returns whether the reverse built by the loop equals the input ignoring case, which holds exactly when each character matches its mirror image ignoring case. |
| PalindromeCheck.MirrorsReversed | Strings/PalindromeCheck.java:7-10 | A string mirrors itself ignoring case exactly when its reverse does. |
| PalindromeCheck.PalindromeCheckReversed | Strings/PalindromeCheck.java:7-10 | `palindromeCheck(s) == palindromeCheck(reverse(s))`. |
| PalindromeCheck.PalindromeCheckShort | Strings/PalindromeCheck.java:7-10 | The empty string and every single character give true. |
| PalindromeCheck.PalindromeCheckMixedCase | Strings/PalindromeCheck.java:10 | `"Aba"` gives true. |
| PalindromeCheck.PalindromeCheckDemo | Strings/PalindromeCheck.java:14-15 | `"man"` gives false. |

## Left out

- The `main` methods, `System.out` printing and `java.util.logging.Logger` calls are console output. Each demonstration call is a method or lemma stating its result instead.
- Case mapping and `equalsIgnoreCase` are modelled on ASCII only. The full Unicode and locale tables behind them are foreign library data, and some of their mappings change a string's length.
- `String.split` is modelled only for the literal single-space pattern these routines use, not the general regular-expression engine.
- `HashSet` and `LinkedHashMap` are a Dafny `set` and a `map` with a key sequence. Hashing, capacity and resizing are not modelled.
- The commented-out for-each loop in Arrays/SecondLargestElement.java:13-21 is dead code and is not modelled.
- The source tree's "Linked List" directory is not part of this model.
- AddBinary.AddBinary: requires both inputs to consist of `'0'` and `'1'` only. On other characters the Java code still runs, using `c - '0'` as a digit value, and the model does not describe that output.
- RemoveDuplicates.RemoveDuplicates: takes a non-null `array<int32>`. The Java method dereferences `arr.length` without a null check, so a null array throws `NullPointerException`, which is not modelled.
- RemoveDuplicates.RemoveDuplicates: does not require the array to be sorted, because the code only compares neighbours. The facts that depend on sortedness (a strictly increasing prefix holding every distinct value once) are stated in RemoveDuplicates.SortedCollapseIsDistinctValues.
- ReverseWords.WordsReversedTokens, ReverseWords.WordsReversedInvolution, ReverseEachWord.EachWordReversedShape and ReverseEachWord.EachWordReversedTwice are proved only for input without control characters and without leading or trailing spaces. On other input `trim` and `split(" ")` lose information, so these properties do not hold.
- SecondLargestAndSmallest.FindSecondLargestAndSmallest: returns the pair as a `seq<int32>` value rather than a freshly allocated `int[]`. The caller receives the same two values, but the model does not describe the allocation.
- CountOccurrence.CountOccurence: the `LinkedHashMap` that the loop updates with `put` is a `LinkedMap` value that each step reassigns. No other code holds a reference to the map while the loop runs, so in-place mutation and aliasing are not modelled.
- AddBinary.AddBinary, LongestSubString.LongestSubString, CountOccurrence.CountOccurence, RemoveDuplicatesString.RemoveDuplicates, ReverseWords.ReverseWords, ReverseEachWord.ReverseEachWord and PalindromeCheck.PalindromeCheck: a model `string` is a sequence of Unicode scalar values. It stands for a Java `String` without surrogate code units, so every character lies in the Basic Multilingual Plane. For a string with supplementary characters, Java works on UTF-16 code units and can give a different result. For example, it returns 2 for the longest repeat-free substring of two equal emoji, and false for the palindrome check of a single emoji. A `null` `String` argument, on which each of these routines throws `NullPointerException`, is not modelled either.
