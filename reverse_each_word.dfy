/** Strings/ReverseEachWord.java: reverse the letters of every word, upper-cased. */
module ReverseEachWord {
  import opened Seqs
  import opened JavaStrings
  import opened ReverseWords

  /** Every word reversed. */
  function ReverseEach(ws: seq<string>): (vs: seq<string>)
    ensures |vs| == |ws|
  {
    seq(|ws|, i requires 0 <= i < |ws| => Reverse(ws[i]))
  }

  /** Every word upper-cased. */
  function UpperEach(ws: seq<string>): (vs: seq<string>)
    ensures |vs| == |ws|
  {
    seq(|ws|, i requires 0 <= i < |ws| => ToUpperCase(ws[i]))
  }

  /**
   * What `reverseEachWord` returns: each `split(" ")` token reversed and
   * followed by one space, trimmed, then upper-cased. The result has no
   * leading or trailing whitespace and no lower-case letter.
   */
  function EachWordReversed(s: string): (r: string)
    ensures Trimmed(r)
    ensures forall c :: c in r ==> !IsLower(c)
  {
    var trimmed := Trim(Terminated(ReverseEach(Split(s))));
    UpperCaseTrimmed(trimmed);
    ToUpperCase(trimmed)
  }

  /**
   * `reverseEachWord`: for each token, appends its characters from last to
   * first and then a space; finally trims and upper-cases.
   */
  method ReverseEachWord(s: string) returns (r: string)
    ensures r == EachWordReversed(s)
  {
    var str := Split(s);
    var res := [];
    for t := 0 to |str|
      invariant res == Terminated(ReverseEach(str[..t]))
    {
      var word := str[t];
      ghost var done := res;
      var i := |word| - 1;
      while i >= 0
        invariant -1 <= i < |word|
        invariant res == done + Reverse(word)[..|word| - 1 - i]
      {
        assert Reverse(word)[..|word| - i] == Reverse(word)[..|word| - 1 - i] + [word[i]];
        res := res + [word[i]];
        i := i - 1;
      }
      assert Reverse(word)[..|word|] == Reverse(word);
      res := res + [' '];
      TerminatedReverseEachStep(str, t);
    }
    assert str[..|str|] == str;
    r := ToUpperCase(Trim(res));
  }

  lemma TerminatedReverseEachStep(ws: seq<string>, t: nat)
    requires t < |ws|
    ensures Terminated(ReverseEach(ws[..t + 1])) == Terminated(ReverseEach(ws[..t])) + Reverse(ws[t]) + [' ']
  {
    var v := ReverseEach(ws[..t + 1]);
    assert v[..t] == ReverseEach(ws[..t]);
  }

  // ----- Case mapping against joins and reversal

  lemma {:induction false} UpperJoin(ws: seq<string>)
    requires |ws| >= 1
    ensures ToUpperCase(Join(ws)) == Join(UpperEach(ws))
  {
    if |ws| > 1 {
      var p := ws[..|ws| - 1];
      UpperJoin(p);
      assert UpperEach(ws)[..|ws| - 1] == UpperEach(p);
      var a, b := Join(p), ws[|ws| - 1];
      assert ToUpperCase(a + [' '] + b) == ToUpperCase(a) + [' '] + ToUpperCase(b);
    }
  }

  /** Reversing and upper-casing a word twice leaves it upper-cased. */
  lemma UpperReverseTwice(w: string)
    ensures ToUpperCase(Reverse(ToUpperCase(Reverse(w)))) == ToUpperCase(w)
  {
    var x := ToUpperCase(Reverse(ToUpperCase(Reverse(w))));
    forall k | 0 <= k < |w| ensures x[k] == ToUpperCase(w)[k] {
      assert Reverse(ToUpperCase(Reverse(w)))[k] == ToUpperCase(Reverse(w))[|w| - 1 - k];
    }
  }

  /**
   * Two joins of word lists whose words pair up in length (and contain no
   * space) have the same length and spaces at the same positions.
   */
  lemma {:induction false} JoinSameShape(ws: seq<string>, vs: seq<string>)
    requires |ws| == |vs| >= 1
    requires forall i :: 0 <= i < |ws| ==> |ws[i]| == |vs[i]| && ' ' !in ws[i] && ' ' !in vs[i]
    ensures |Join(ws)| == |Join(vs)|
    ensures forall p :: 0 <= p < |Join(ws)| ==> (Join(ws)[p] == ' ' <==> Join(vs)[p] == ' ')
  {
    if |ws| > 1 {
      var n := |ws| - 1;
      JoinSameShape(ws[..n], vs[..n]);
      var a, b := Join(ws[..n]), Join(vs[..n]);
      forall p | 0 <= p < |Join(ws)| ensures Join(ws)[p] == ' ' <==> Join(vs)[p] == ' ' {
        if p < |a| {
        } else if p == |a| {
        } else {
          assert Join(ws)[p] == ws[n][p - |a| - 1];
          assert Join(vs)[p] == vs[n][p - |a| - 1];
        }
      }
    }
  }

  /** The words the plain input's result is made of: each token reversed and upper-cased. */
  function ResultWords(s: string): seq<string> {
    UpperEach(ReverseEach(Pieces(s)))
  }

  /** A word free of spaces and control characters stays so when reversed and upper-cased. */
  lemma PlainWord(w: string)
    requires NoControl(w) && ' ' !in w
    ensures NoControl(Reverse(w)) && ' ' !in Reverse(w)
    ensures NoControl(ToUpperCase(Reverse(w))) && ' ' !in ToUpperCase(Reverse(w))
  {
    var v := Reverse(w);
    ReverseElements(w);
    assert forall k :: 0 <= k < |v| ==> v[k] == w[|w| - 1 - k];
    var u := ToUpperCase(v);
    assert forall k :: 0 <= k < |u| ==> u[k] == ToUpperChar(v[k]);
  }

  /** Every token of the input is free of spaces and control characters, and so is its reversal. */
  lemma PlainTokens(s: string)
    requires Plain(s)
    ensures forall i :: 0 <= i < |Pieces(s)| ==>
      && NoControl(Pieces(s)[i]) && NoControl(ReverseEach(Pieces(s))[i])
      && ' ' !in ReverseEach(Pieces(s))[i] && ' ' !in ResultWords(s)[i]
      && NoControl(ResultWords(s)[i])
  {
    var ws := Pieces(s);
    JoinPieces(s);
    JoinNoControl(ws);
    forall i | 0 <= i < |ws|
      ensures NoControl(ReverseEach(ws)[i]) && ' ' !in ReverseEach(ws)[i]
      ensures ' ' !in ResultWords(s)[i] && NoControl(ResultWords(s)[i])
    {
      PlainWord(ws[i]);
    }
  }

  /** On plain input, trimming removes exactly the space after the last reversed token. */
  lemma TrimmedReversedTokens(s: string)
    requires Plain(s)
    ensures Trim(Terminated(ReverseEach(Split(s)))) == Join(ReverseEach(Pieces(s)))
  {
    var ws := Pieces(s);
    var vs := ReverseEach(ws);
    SplitIsPieces(s);
    TerminatedIsJoin(vs);
    var j := Join(vs);
    if s != [] {
      PlainTokens(s);
      JoinPieces(s);
      JoinSameShape(ws, vs);
      assert j[0] != ' ' && j[|j| - 1] != ' ';
      JoinNoControl(vs);
      assert j[0] >= ' ' && j[|j| - 1] >= ' ';
    }
    TrimAppendedSpace(j);
  }

  /**
   * On plain input the result is the join of the input's tokens, each
   * reversed and upper-cased, with one space between tokens.
   */
  lemma EachWordReversedPlain(s: string)
    requires Plain(s)
    ensures EachWordReversed(s) == Join(ResultWords(s))
  {
    TrimmedReversedTokens(s);
    UpperJoin(ReverseEach(Pieces(s)));
  }

  /**
   * On plain input the result has the input's length, spaces exactly where
   * the input has them, and is plain itself.
   */
  lemma EachWordReversedShape(s: string)
    requires Plain(s)
    ensures |EachWordReversed(s)| == |s|
    ensures forall p :: 0 <= p < |s| ==> (EachWordReversed(s)[p] == ' ' <==> s[p] == ' ')
    ensures Plain(EachWordReversed(s))
  {
    EachWordReversedPlain(s);
    ResultWordsShape(s);
  }

  lemma ResultWordsShape(s: string)
    requires Plain(s)
    ensures |Join(ResultWords(s))| == |s|
    ensures forall p :: 0 <= p < |s| ==> (Join(ResultWords(s))[p] == ' ' <==> s[p] == ' ')
    ensures Plain(Join(ResultWords(s)))
  {
    var ws := Pieces(s);
    PlainTokens(s);
    JoinPieces(s);
    JoinSameShape(ws, ResultWords(s));
    JoinNoControl(ResultWords(s));
  }

  /** On plain input, applying the routine twice gives the upper-cased input. */
  lemma EachWordReversedTwice(s: string)
    requires Plain(s)
    ensures EachWordReversed(EachWordReversed(s)) == ToUpperCase(s)
  {
    var j := Join(ResultWords(s));
    EachWordReversedPlain(s);
    ResultWordsShape(s);
    EachWordReversedPlain(j);
    ResultWordsTwice(s);
    JoinPieces(s);
    UpperJoin(Pieces(s));
  }

  /** The tokens of the result, reversed and upper-cased once more, are the input's tokens upper-cased. */
  lemma ResultWordsTwice(s: string)
    requires Plain(s)
    ensures ResultWords(Join(ResultWords(s))) == UpperEach(Pieces(s))
  {
    var ws := Pieces(s);
    var us := ResultWords(s);
    PlainTokens(s);
    PiecesJoin(us);
    forall i | 0 <= i < |ws| ensures ResultWords(Join(us))[i] == UpperEach(ws)[i] {
      UpperReverseTwice(ws[i]);
    }
  }

  /** The demonstration sentence "  Hello I am Subham " gives "OLLEH I MA MAHBUS". */
  method ReverseEachWordDemo() returns (r: string)
    ensures r == "OLLEH I MA MAHBUS"
  {
    var s := DemoSentence;
    r := ReverseEachWord(s);
    DemoTokens(s);
    var x := DemoReversedEach(Split(s));
    DemoTrimEach(x);
    DemoUpper(x[2..|x| - 1]);
  }

  /** The tokens, each reversed and followed by a space. */
  lemma DemoReversedEach(ws: seq<string>) returns (t: string)
    requires ws == ["", "", "Hello", "I", "am", "Subham"]
    ensures t == Terminated(ReverseEach(ws)) && t == "  olleH I ma mahbuS "
  {
    var vs: seq<string> := ["", "", "olleH", "I", "ma", "mahbuS"];
    assert Reverse("Hello") == "olleH";
    assert Reverse("am") == "ma";
    assert Reverse("Subham") == "mahbuS";
    assert Reverse("") == "";
    forall i | 0 <= i < 6 ensures ReverseEach(ws)[i] == vs[i] {
      assert ReverseEach(ws)[i] == Reverse(ws[i]);
    }
    assert ReverseEach(ws) == vs;
    var v1: seq<string> := [] + [""];
    var v2 := v1 + [""];
    var v3 := v2 + ["olleH"];
    var v4 := v3 + ["I"];
    var v5 := v4 + ["ma"];
    var v6 := v5 + ["mahbuS"];
    TerminatedAppend([], "");
    TerminatedAppend(v1, "");
    TerminatedAppend(v2, "olleH");
    TerminatedAppend(v3, "I");
    TerminatedAppend(v4, "ma");
    TerminatedAppend(v5, "mahbuS");
    assert v6 == vs;
    t := Terminated(v6);
    DemoReversedEachSpelled(t);
  }

  lemma DemoReversedEachSpelled(t: string)
    requires t == [] + "" + [' '] + "" + [' '] + "olleH" + [' '] + "I" + [' '] + "ma" + [' '] + "mahbuS" + [' ']
    ensures t == "  olleH I ma mahbuS "
  {
  }

  /** Trimming drops the two leading spaces and the trailing one. */
  lemma DemoTrimEach(x: string)
    requires x == "  olleH I ma mahbuS "
    ensures Trim(x) == x[2..|x| - 1] && x[2..|x| - 1] == "olleH I ma mahbuS"
  {
    var y := x[2..|x| - 1];
    assert x[1..][1..] == x[2..];
    assert TrimStart(x) == TrimStart(x[1..]) by { assert x[0] == ' '; }
    assert TrimStart(x[1..]) == TrimStart(x[2..]) by { assert x[1..][0] == ' '; }
    assert TrimStart(x[2..]) == x[2..] by { assert x[2..][0] == 'o'; }
    assert x[2..] == y + [' '];
    TrimEndSpace(y);
  }

  lemma DemoUpper(y: string)
    requires y == "olleH I ma mahbuS"
    ensures ToUpperCase(y) == "OLLEH I MA MAHBUS"
  {
  }
}
