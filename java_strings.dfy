/**
 * The parts of `java.lang.String` the string routines rely on: case mapping
 * (ASCII only), `trim()`, and `split(" ")` with a single literal space.
 */
module JavaStrings {
  import opened Seqs

  predicate IsUpper(c: char) { 'A' <= c <= 'Z' }
  predicate IsLower(c: char) { 'a' <= c <= 'z' }

  /** `Character.toLowerCase` on ASCII: only 'A'..'Z' change. */
  function ToLowerChar(c: char): (l: char)
    ensures !IsUpper(l)
    ensures IsUpper(c) ==> IsLower(l) && l as int == c as int + 32
    ensures !IsUpper(c) ==> l == c
  {
    if IsUpper(c) then (c as int + 32) as char else c
  }

  /** `Character.toUpperCase` on ASCII: only 'a'..'z' change. */
  function ToUpperChar(c: char): (u: char)
    ensures !IsLower(u)
    ensures IsLower(c) ==> IsUpper(u) && u as int == c as int - 32
    ensures !IsLower(c) ==> u == c
  {
    if IsLower(c) then (c as int - 32) as char else c
  }

  /** `String.toLowerCase`, character by character. */
  function ToLowerCase(s: string): (r: string)
    ensures |r| == |s| && forall c :: c in r ==> !IsUpper(c)
  {
    seq(|s|, k requires 0 <= k < |s| => ToLowerChar(s[k]))
  }

  /** `String.toUpperCase`, character by character. */
  function ToUpperCase(s: string): (r: string)
    ensures |r| == |s| && forall c :: c in r ==> !IsLower(c)
  {
    seq(|s|, k requires 0 <= k < |s| => ToUpperChar(s[k]))
  }

  /** Neither the first nor the last character is at or below `' '`. */
  predicate Trimmed(s: string) {
    s == [] || (s[0] > ' ' && s[|s| - 1] > ' ')
  }

  /** Upper-casing keeps a trimmed string trimmed. */
  lemma UpperCaseTrimmed(x: string)
    requires Trimmed(x)
    ensures Trimmed(ToUpperCase(x))
  {
  }

  /** Leading characters at or below `' '` removed. */
  function TrimStart(s: string): (r: string)
    ensures |r| <= |s| && r == s[|s| - |r|..]
    ensures r == [] || r[0] > ' '
    ensures forall k :: 0 <= k < |s| - |r| ==> s[k] <= ' '
  {
    if s != [] && s[0] <= ' ' then TrimStart(s[1..]) else s
  }

  /** Trailing characters at or below `' '` removed. */
  function TrimEnd(s: string): (r: string)
    ensures |r| <= |s| && r == s[..|r|]
    ensures r == [] || r[|r| - 1] > ' '
    ensures forall k :: |r| <= k < |s| ==> s[k] <= ' '
  {
    if s != [] && s[|s| - 1] <= ' ' then TrimEnd(s[..|s| - 1]) else s
  }

  /**
   * `String.trim`: every leading and trailing character at or below `' '`
   * removed. The result starts and ends above `' '`, a string that already
   * does is unchanged, and a string with nothing above `' '` becomes empty.
   */
  function Trim(s: string): (r: string)
    ensures Trimmed(r)
    ensures Trimmed(s) ==> r == s
    ensures (forall k :: 0 <= k < |s| ==> s[k] <= ' ') ==> r == []
  {
    var t := TrimStart(s);
    assert t != [] ==> t[0] == s[|s| - |t|];
    TrimEnd(t)
  }

  /**
   * The pieces of `s` between single spaces, empty ones included: what
   * `split(" ")` computes before it drops trailing empty pieces.
   */
  function Pieces(s: string): (ws: seq<string>)
    ensures |ws| >= 1
    ensures forall i :: 0 <= i < |ws| ==> ' ' !in ws[i]
  {
    if s == [] then [[]]
    else
      var ws := Pieces(s[..|s| - 1]);
      var c := s[|s| - 1];
      if c == ' ' then ws + [[]]
      else
        assert forall i :: 0 <= i < |ws| - 1 ==> (ws[..|ws| - 1] + [ws[|ws| - 1] + [c]])[i] == ws[i];
        ws[..|ws| - 1] + [ws[|ws| - 1] + [c]]
  }

  /** The longest prefix of `ws` that does not end in an empty string. */
  function DropTrailingEmpty(ws: seq<string>): (r: seq<string>)
    ensures |r| <= |ws| && r == ws[..|r|]
    ensures r == [] || r[|r| - 1] != []
    ensures forall k :: |r| <= k < |ws| ==> ws[k] == []
  {
    if ws != [] && ws[|ws| - 1] == [] then DropTrailingEmpty(ws[..|ws| - 1]) else ws
  }

  /**
   * `s.split(" ")`: a string without a space is its own single token (even
   * the empty string); otherwise the pieces between spaces, with trailing
   * empty pieces dropped and leading and interior ones kept.
   */
  function Split(s: string): (ws: seq<string>)
    ensures forall i :: 0 <= i < |ws| ==> ' ' !in ws[i]
  {
    if ' ' !in s then [s] else DropTrailingEmpty(Pieces(s))
  }

  /** The words of `ws` separated by single spaces. */
  function Join(ws: seq<string>): string
    requires |ws| >= 1
  {
    if |ws| == 1 then ws[0] else Join(ws[..|ws| - 1]) + [' '] + ws[|ws| - 1]
  }

  /**
   * The words of `ws`, each followed by one space (a `StringBuilder` loop's
   * output): at least one character per word, ending in a space unless there
   * are no words at all.
   */
  function Terminated(ws: seq<string>): (r: string)
    ensures |r| >= |ws|
    ensures ws == [] <==> r == []
    ensures ws != [] ==> r[|r| - 1] == ' '
  {
    if ws == [] then [] else Terminated(ws[..|ws| - 1]) + ws[|ws| - 1] + [' ']
  }

  /** Every character is a space or above it: no tabs, newlines or other control characters. */
  predicate NoControl(s: string) {
    forall k :: 0 <= k < |s| ==> s[k] >= ' '
  }

  /**
   * Input on which `split(" ")` followed by a join is lossless: no control
   * characters and no leading or trailing space.
   */
  predicate Plain(s: string) {
    NoControl(s) && (s == [] || (s[0] != ' ' && s[|s| - 1] != ' '))
  }

  // ----- Joining the pieces gives back the string, and splitting a join gives back the words

  lemma {:induction false} JoinPieces(s: string)
    ensures Join(Pieces(s)) == s
  {
    if s != [] {
      var p := s[..|s| - 1];
      var c := s[|s| - 1];
      JoinPieces(p);
      assert s == p + [c];
      if c == ' ' {
        JoinAppendEmpty(Pieces(p));
      } else {
        JoinExtendLast(Pieces(p), c);
      }
    }
  }

  /** Appending an empty word appends a separating space. */
  lemma JoinAppendEmpty(ws: seq<string>)
    requires |ws| >= 1
    ensures Join(ws + [[]]) == Join(ws) + [' ']
  {
    assert (ws + [[]])[..|ws|] == ws;
  }

  /** Extending the last word by a character extends the join by it. */
  lemma JoinExtendLast(ws: seq<string>, c: char)
    requires |ws| >= 1
    ensures Join(ws[..|ws| - 1] + [ws[|ws| - 1] + [c]]) == Join(ws) + [c]
  {
    var ws' := ws[..|ws| - 1] + [ws[|ws| - 1] + [c]];
    if |ws| > 1 {
      assert ws'[..|ws'| - 1] == ws[..|ws| - 1];
    }
  }

  lemma {:induction false} PiecesOfWord(w: string)
    requires ' ' !in w
    ensures Pieces(w) == [w]
  {
    if w != [] {
      var p := w[..|w| - 1];
      assert w == p + [w[|w| - 1]];
      PiecesOfWord(p);
    }
  }

  lemma {:induction false} PiecesAppendWord(p: string, w: string)
    requires ' ' !in w
    ensures Pieces(p + [' '] + w) == Pieces(p) + [w]
  {
    var s := p + [' '] + w;
    if w == [] {
      assert s[..|s| - 1] == p;
    } else {
      var w' := w[..|w| - 1];
      assert w == w' + [w[|w| - 1]];
      assert s[..|s| - 1] == p + [' '] + w';
      PiecesAppendWord(p, w');
      var ws := Pieces(p) + [w'];
      assert ws[..|ws| - 1] == Pieces(p);
    }
  }

  lemma {:induction false} PiecesJoin(ws: seq<string>)
    requires |ws| >= 1 && forall i :: 0 <= i < |ws| ==> ' ' !in ws[i]
    ensures Pieces(Join(ws)) == ws
  {
    if |ws| == 1 {
      PiecesOfWord(ws[0]);
    } else {
      var p := ws[..|ws| - 1];
      PiecesJoin(p);
      PiecesAppendWord(Join(p), ws[|ws| - 1]);
      assert p + [ws[|ws| - 1]] == ws;
    }
  }

  /** One more word, and a space after it. */
  lemma TerminatedAppend(ws: seq<string>, w: string)
    ensures Terminated(ws + [w]) == Terminated(ws) + w + [' ']
  {
    assert (ws + [w])[..|ws|] == ws;
  }

  /** Joined words followed by one space each are the join plus one space. */
  lemma {:induction false} TerminatedIsJoin(ws: seq<string>)
    requires |ws| >= 1
    ensures Terminated(ws) == Join(ws) + [' ']
  {
    if |ws| > 1 {
      TerminatedIsJoin(ws[..|ws| - 1]);
    } else {
      assert ws[..0] == [];
    }
  }

  // ----- Where the first and last characters of a join come from

  lemma {:induction false} JoinFirst(ws: seq<string>)
    requires |ws| >= 1 && ws[0] != []
    ensures |Join(ws)| > 0 && Join(ws)[0] == ws[0][0]
  {
    if |ws| > 1 {
      JoinFirst(ws[..|ws| - 1]);
    }
  }

  lemma JoinLast(ws: seq<string>)
    requires |ws| >= 1 && ws[|ws| - 1] != []
    ensures |Join(ws)| > 0 && Join(ws)[|Join(ws)| - 1] == ws[|ws| - 1][|ws[|ws| - 1]| - 1]
  {
  }

  /** The first piece of a string that does not start with a space starts with its first character. */
  lemma {:induction false} FirstPieceNonEmpty(s: string)
    requires s != [] && s[0] != ' '
    ensures Pieces(s)[0] != [] && Pieces(s)[0][0] == s[0]
  {
    if |s| > 1 {
      var p := s[..|s| - 1];
      assert p[0] == s[0];
      FirstPieceNonEmpty(p);
    }
  }

  /** The last piece of a string that does not end with a space ends with its last character. */
  lemma LastPieceEnds(s: string)
    requires s != [] && s[|s| - 1] != ' '
    ensures var ws := Pieces(s); ws[|ws| - 1] != [] && ws[|ws| - 1][|ws[|ws| - 1]| - 1] == s[|s| - 1]
  {
  }

  /** On input without a trailing space, `split(" ")` keeps every piece. */
  lemma SplitIsPieces(s: string)
    requires s == [] || s[|s| - 1] != ' '
    ensures Split(s) == Pieces(s)
  {
    if ' ' !in s {
      PiecesOfWord(s);
    } else {
      var ws := Pieces(s);
      assert ws[|ws| - 1] != [];
    }
  }

  /** Trimming undoes one appended space when the string already starts and ends above `' '`. */
  lemma TrimAppendedSpace(x: string)
    requires Trimmed(x)
    ensures Trim(x + [' ']) == x
  {
    var y := x + [' '];
    if x != [] {
      assert TrimStart(y) == y;
      TrimEndSpace(x);
    }
  }

  /** A trailing space is trimmed off whatever precedes it. */
  lemma TrimEndAppendSpace(x: string)
    ensures TrimEnd(x + [' ']) == TrimEnd(x)
  {
    var y := x + [' '];
    assert y[..|y| - 1] == x;
  }

  lemma TrimEndSpace(x: string)
    requires x != [] && x[|x| - 1] > ' '
    ensures TrimEnd(x + [' ']) == x
  {
    var y := x + [' '];
    assert y[..|y| - 1] == x;
  }

  /** Trimming undoes one appended space on plain input. */
  lemma PlainTrimAppendedSpace(s: string)
    requires Plain(s)
    ensures Trim(s + [' ']) == s
  {
    if s != [] {
      assert s[0] >= ' ' && s[|s| - 1] >= ' ';
    }
    TrimAppendedSpace(s);
  }

  // ----- Control characters in a join

  lemma {:induction false} JoinNoControl(ws: seq<string>)
    requires |ws| >= 1
    ensures NoControl(Join(ws)) <==> forall i :: 0 <= i < |ws| ==> NoControl(ws[i])
  {
    if |ws| > 1 {
      var p := ws[..|ws| - 1];
      JoinNoControl(p);
      var a, b := Join(p), ws[|ws| - 1];
      var j := a + [' '] + b;
      if NoControl(j) {
        forall k | 0 <= k < |a| ensures a[k] >= ' ' { assert j[k] == a[k]; }
        forall k | 0 <= k < |b| ensures b[k] >= ' ' { assert j[|a| + 1 + k] == b[k]; }
      }
    }
  }
}
