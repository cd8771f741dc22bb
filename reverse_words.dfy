/** Strings/ReverseWords.java: the words of a sentence in reverse order. */
module ReverseWords {
  import opened Seqs
  import opened JavaStrings

  /**
   * What `reverseWords` returns: the `split(" ")` tokens in reverse order,
   * each followed by one space, then trimmed.
   */
  function WordsReversed(s: string): (r: string)
    ensures Trimmed(r)
  {
    Trim(Terminated(Reverse(Split(s))))
  }

  /**
   * `reverseWords`: appends the tokens from the last to the first, each
   * followed by a space, and trims the result, which therefore has no
   * leading or trailing whitespace.
   */
  method ReverseWords(s: string) returns (r: string)
    ensures r == WordsReversed(s)
  {
    var str := Split(s);
    var res := [];
    var i := |str| - 1;
    while i >= 0
      invariant -1 <= i < |str|
      invariant res == Terminated(Reverse(str[i + 1..]))
    {
      ReverseTerminated(str, i);
      res := res + str[i] + [' '];
      i := i - 1;
    }
    assert str[0..] == str;
    r := Trim(res);
  }

  lemma ReverseTerminated(ws: seq<string>, i: nat)
    requires i < |ws|
    ensures Terminated(Reverse(ws[i..])) == Terminated(Reverse(ws[i + 1..])) + ws[i] + [' ']
  {
    assert ws[i..][1..] == ws[i + 1..];
    var x := Reverse(ws[i + 1..]);
    assert Reverse(ws[i..]) == x + [ws[i]];
    assert (x + [ws[i]])[..|x|] == x;
  }

  /** Empty or all-space input gives the empty string. */
  lemma AllSpacesGiveEmpty(s: string)
    requires forall k :: 0 <= k < |s| ==> s[k] == ' '
    ensures WordsReversed(s) == []
  {
    if s != [] {
      assert s[0] == ' ';
      PiecesOfSpaces(s);
      var ws := Pieces(s);
      assert DropTrailingEmpty(ws) == [] by {
        var d := DropTrailingEmpty(ws);
        assert d == ws[..|d|];
        assert |d| == 0;
      }
      assert Split(s) == [];
      assert Reverse(Split(s)) == [];
    } else {
      assert Split(s) == [[]];
      assert Reverse(Split(s)) == [[]];
      var empty: seq<string> := [[]];
      assert Terminated(empty) == [' '] by {
        assert empty[..0] == [];
      }
    }
  }

  lemma {:induction false} PiecesOfSpaces(s: string)
    requires forall k :: 0 <= k < |s| ==> s[k] == ' '
    ensures forall i :: 0 <= i < |Pieces(s)| ==> Pieces(s)[i] == []
  {
    if s != [] {
      PiecesOfSpaces(s[..|s| - 1]);
    }
  }

  /**
   * On plain input (no control characters, no leading or trailing space) the
   * result is plain again and its tokens are the input's tokens in reverse
   * order, each unchanged.
   */
  lemma WordsReversedTokens(s: string)
    requires Plain(s)
    ensures Plain(WordsReversed(s))
    ensures Split(WordsReversed(s)) == Reverse(Split(s))
  {
    SplitIsPieces(s);
    var rs := Reverse(Pieces(s));
    WordsReversedPlain(s);
    ReversedPiecesJoin(s);
    ReversedPiecesNoSpace(s);
    PiecesJoin(rs);
    SplitIsPieces(Join(rs));
  }

  /** On plain input the result is the input's pieces joined in reverse order. */
  lemma WordsReversedPlain(s: string)
    requires Plain(s)
    ensures WordsReversed(s) == Join(Reverse(Pieces(s)))
  {
    SplitIsPieces(s);
    var rs := Reverse(Pieces(s));
    ReversedPiecesJoin(s);
    TerminatedIsJoin(rs);
    TrimAppendedSpace(Join(rs));
  }

  /** No piece holds a space, in whatever order. */
  lemma ReversedPiecesNoSpace(s: string)
    ensures forall i :: 0 <= i < |Reverse(Pieces(s))| ==> ' ' !in Reverse(Pieces(s))[i]
  {
  }

  /**
   * The input's pieces joined in reverse order neither start nor end with
   * whitespace and hold no control character.
   */
  lemma ReversedPiecesJoin(s: string)
    requires Plain(s)
    ensures Trimmed(Join(Reverse(Pieces(s)))) && NoControl(Join(Reverse(Pieces(s))))
  {
    ReversedPiecesNoControl(s);
    if s != [] {
      ReversedPiecesEnds(s);
    }
  }

  lemma ReversedPiecesNoControl(s: string)
    requires NoControl(s)
    ensures NoControl(Join(Reverse(Pieces(s))))
  {
    var ws := Pieces(s);
    JoinPieces(s);
    JoinNoControl(ws);
    JoinNoControl(Reverse(ws));
  }

  lemma ReversedPiecesEnds(s: string)
    requires s != [] && s[0] != ' ' && s[|s| - 1] != ' '
    ensures var j := Join(Reverse(Pieces(s))); |j| > 0 && j[0] != ' ' && j[|j| - 1] != ' '
  {
    var ws := Pieces(s);
    var rs := Reverse(ws);
    FirstPieceNonEmpty(s);
    LastPieceEnds(s);
    assert rs[0] == ws[|ws| - 1] && rs[|rs| - 1] == ws[0];
    JoinFirst(rs);
    JoinLast(rs);
    assert rs[0][0] in rs[0];
    assert rs[|rs| - 1][|rs[|rs| - 1]| - 1] in rs[|rs| - 1];
  }

  /** On plain input, reversing the words twice gives back the input. */
  lemma WordsReversedInvolution(s: string)
    requires Plain(s)
    ensures WordsReversed(WordsReversed(s)) == s
  {
    PlainTrimAppendedSpace(s);
    WordsReversedTokens(s);
    var r := WordsReversed(s);
    WordsReversedTokens(r);
    var ws := Split(s);
    ReverseReverse(ws);
    SplitIsPieces(s);
    JoinPieces(s);
    TerminatedIsJoin(ws);
  }

  /** The demonstration sentence, with two leading spaces and one trailing space. */
  const DemoSentence := "  Hello I am Subham "

  /** Its `split(" ")` tokens: two leading empty tokens kept, the trailing one dropped. */
  lemma DemoTokens(s: string)
    requires s == DemoSentence
    ensures Split(s) == ["", "", "Hello", "I", "am", "Subham"]
  {
    var ws: seq<string> := ["", "", "Hello", "I", "am", "Subham", ""];
    DemoPieces(s);
    assert ' ' in s by { assert s[0] == ' '; }
    assert DropTrailingEmpty(ws) == ws[..6] by {
      assert ws[..6][5] != [];
    }
  }

  /** The pieces of the demonstration sentence between single spaces. */
  lemma DemoPieces(s: string)
    requires s == DemoSentence
    ensures Pieces(s) == ["", "", "Hello", "I", "am", "Subham", ""]
  {
    var p := s[..9];
    DemoPiecesStart(p);
    DemoPiecesEnd(p, s);
  }

  lemma DemoPiecesEnd(p: string, s: string)
    requires Pieces(p) == ["", "", "Hello", "I"]
    requires s == p + [' '] + "am" + [' '] + "Subham" + [' '] + ""
    ensures Pieces(s) == ["", "", "Hello", "I", "am", "Subham", ""]
  {
    PiecesAppendWord(p, "am");
    var q := p + [' '] + "am";
    PiecesAppendWord(q, "Subham");
    var r := q + [' '] + "Subham";
    PiecesAppendWord(r, "");
  }

  lemma DemoPiecesStart(p: string)
    requires p == "  Hello I"
    ensures Pieces(p) == ["", "", "Hello", "I"]
  {
    PiecesAppendWord("", "");
    var a := "" + [' '] + "";
    PiecesAppendWord(a, "Hello");
    var b := a + [' '] + "Hello";
    PiecesAppendWord(b, "I");
    assert b + [' '] + "I" == p;
  }

  /** The demonstration tokens in reverse order, each followed by a space. */
  lemma DemoReversedTerminated(ws: seq<string>)
    requires ws == ["", "", "Hello", "I", "am", "Subham"]
    ensures Terminated(Reverse(ws)) == "Subham am I Hello" + "   "
  {
    var rs: seq<string> := ["Subham", "am", "I", "Hello", "", ""];
    assert Reverse(ws) == rs;
    var r1: seq<string> := [] + ["Subham"];
    var r2 := r1 + ["am"];
    var r3 := r2 + ["I"];
    var r4 := r3 + ["Hello"];
    var r5 := r4 + [""];
    var r6 := r5 + [""];
    TerminatedAppend([], "Subham");
    TerminatedAppend(r1, "am");
    TerminatedAppend(r2, "I");
    TerminatedAppend(r3, "Hello");
    TerminatedAppend(r4, "");
    TerminatedAppend(r5, "");
    assert r6 == rs;
    DemoReversedSpelled(Terminated(r6));
  }

  lemma DemoReversedSpelled(t: string)
    requires t == [] + "Subham" + [' '] + "am" + [' '] + "I" + [' '] + "Hello" + [' '] + "" + [' '] + "" + [' ']
    ensures t == "Subham am I Hello" + "   "
  {
  }

  /** Trimming drops the three trailing spaces. */
  lemma DemoTrim(x: string)
    requires x == "Subham am I Hello"
    ensures Trim(x + "   ") == x
  {
    var y1 := x + [' '];
    var y2 := y1 + [' '];
    var y3 := y2 + [' '];
    assert y3 == x + "   ";
    assert TrimStart(y3) == y3 by { assert y3[0] == 'S'; }
    TrimEndAppendSpace(y2);
    TrimEndAppendSpace(y1);
    TrimEndSpace(x);
  }

  /** The demonstration sentence gives "Subham am I Hello". */
  method ReverseWordsDemo() returns (r: string)
    ensures r == "Subham am I Hello"
  {
    var s := DemoSentence;
    r := ReverseWords(s);
    DemoTokens(s);
    DemoReversedTerminated(Split(s));
    DemoTrim("Subham am I Hello");
  }
}
