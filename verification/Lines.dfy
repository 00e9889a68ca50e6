/** Positions in a cleansed file, and what cpplint's regular expressions look behind for. */
module Lines {
  import opened Brackets

  /** A character position: a line number and a column inside that line. */
  predicate InDoc(lines: seq<string>, line: nat, pos: nat) {
    line < |lines| && pos < |lines[line]|
  }

  /** `(line, pos)` to `(toLine, toPos)` is a stretch of text, read left to right. */
  predicate IsStretch(lines: seq<string>, line: nat, pos: nat, toLine: nat, toPos: nat) {
    line <= toLine < |lines| && pos <= |lines[line]| && toPos <= |lines[toLine]|
    && (line == toLine ==> pos <= toPos)
  }

  /** The text from `(line, pos)` up to, not including, `(toLine, toPos)`. */
  function Span(lines: seq<string>, line: nat, pos: nat, toLine: nat, toPos: nat): string
    requires IsStretch(lines, line, pos, toLine, toPos)
    decreases toLine
  {
    if line == toLine then lines[line][pos..toPos]
    else Span(lines, line, pos, toLine - 1, |lines[toLine - 1]|) + lines[toLine][..toPos]
  }

  /** A stretch can be cut at any position inside it. */
  lemma {:induction false} SpanSplit(lines: seq<string>, line: nat, pos: nat, midLine: nat, mid: nat, toLine: nat,
                                     toPos: nat)
    requires IsStretch(lines, line, pos, midLine, mid) && IsStretch(lines, midLine, mid, toLine, toPos)
    ensures IsStretch(lines, line, pos, toLine, toPos)
    ensures Span(lines, line, pos, toLine, toPos)
         == Span(lines, line, pos, midLine, mid) + Span(lines, midLine, mid, toLine, toPos)
    decreases toLine
  {
    var whole := lines[toLine];
    if midLine < toLine {
      SpanSplit(lines, line, pos, midLine, mid, toLine - 1, |lines[toLine - 1]|);
    } else if line < toLine {
      assert whole[..toPos] == whole[..mid] + whole[mid..toPos];
    } else {
      assert whole[pos..toPos] == whole[pos..mid] + whole[mid..toPos];
    }
  }

  /** A stretch that ends just after a later character is not empty. */
  lemma SpanNonEmpty(lines: seq<string>, line: nat, pos: nat, toLine: nat, toPos: nat)
    requires IsStretch(lines, line, pos, toLine, toPos)
    requires if line < toLine then toPos > 0 else pos < toPos
    ensures Span(lines, line, pos, toLine, toPos) != []
  {
  }

  /** The bracket at `(line, pos)` and the one at `(toLine, toPos)` enclose a balanced text. */
  ghost predicate Encloses(lines: seq<string>, line: nat, pos: nat, toLine: nat, toPos: nat) {
    InDoc(lines, line, pos) && InDoc(lines, toLine, toPos)
    && IsStretch(lines, line, pos, toLine, toPos + 1)
    && Enclosed(Span(lines, line, pos, toLine, toPos + 1))
  }

  /** The text of a stretch without its first character. */
  lemma SpanTail(lines: seq<string>, line: nat, pos: nat, toLine: nat, toPos: nat)
    requires InDoc(lines, line, pos) && IsStretch(lines, line, pos, toLine, toPos)
    requires line < toLine || pos < toPos
    ensures var t := Span(lines, line, pos, toLine, toPos);
      t != [] && t[0] == lines[line][pos]
      && IsStretch(lines, line, pos + 1, toLine, toPos)
      && t[1..] == Span(lines, line, pos + 1, toLine, toPos)
  {
    SpanSplit(lines, line, pos, line, pos + 1, toLine, toPos);
  }

  // ----- look-behind -----

  predicate IsSpace(c: char) {
    c == ' ' || c == '\t' || c == '\n' || c == '\r' || c == '\U{0B}' || c == '\U{0C}'
  }

  predicate IsWordChar(c: char) {
    'a' <= c <= 'z' || 'A' <= c <= 'Z' || '0' <= c <= '9' || c == '_'
  }

  function StripRight(s: string): string {
    if s != [] && IsSpace(s[|s| - 1]) then StripRight(s[..|s| - 1]) else s
  }

  function StripLeft(s: string): string {
    if s != [] && IsSpace(s[0]) then StripLeft(s[1..]) else s
  }

  /** The text ends in the whole word `operator` and optional spaces. */
  predicate EndsWithOperator(s: string) {
    var r := StripRight(s);
    |r| >= 8 && r[|r| - 8..] == "operator" && (|r| > 8 ==> !IsWordChar(r[|r| - 9]))
  }

  // ----- what stripping leaves -----

  predicate AllSpace(s: string) { forall i | 0 <= i < |s| :: s[i] in " \t\n\r\U{0B}\U{0C}" }

  /** The string begins with `t` and has only white space after it, and `t` does not end in any. */
  predicate EndsIn(s: string, t: string) {
    t <= s && AllSpace(s[|t|..]) && (t != [] ==> !IsSpace(t[|t| - 1]))
  }

  lemma {:induction false} StripRightIff(s: string, t: string)
    ensures StripRight(s) == t <==> EndsIn(s, t)
    decreases |s|
  {
    if s != [] && IsSpace(s[|s| - 1]) {
      var most := s[..|s| - 1];
      StripRightIff(most, t);
      if EndsIn(most, t) {
        assert s[|t|..] == most[|t|..] + [s[|s| - 1]];
      }
      if EndsIn(s, t) {
        assert most[|t|..] == s[|t|..][..|s| - 1 - |t|];
      }
    } else {
      assert EndsIn(s, s);
      if |t| < |s| {
        assert s[|s| - 1] == s[|t|..][|s| - 1 - |t|];
      }
    }
  }

  /** `t` is what is left of the string without the white space before and after it. */
  ghost predicate IsMiddle(s: string, t: string) {
    && (t != [] ==> !IsSpace(t[0]) && !IsSpace(t[|t| - 1]))
    && exists a: string, b: string :: AllSpace(a) && AllSpace(b) && s == a + t + b
  }

  lemma {:induction false} StripLeftSplits(s: string) returns (a: string)
    ensures AllSpace(a) && s == a + StripLeft(s)
    ensures StripLeft(s) != [] ==> !IsSpace(StripLeft(s)[0])
    decreases |s|
  {
    if s != [] && IsSpace(s[0]) {
      a := StripLeftSplits(s[1..]);
      a := [s[0]] + a;
    } else {
      a := [];
    }
  }

  lemma {:induction false} StripLeftOver(a: string, s: string)
    requires AllSpace(a) && (s != [] ==> !IsSpace(s[0]))
    ensures StripLeft(a + s) == s
    decreases |a|
  {
    if a == [] {
      assert a + s == s;
    } else {
      assert (a + s)[0] == a[0];
      assert (a + s)[1..] == a[1..] + s;
      StripLeftOver(a[1..], s);
    }
  }

  lemma {:induction false} StripRightOver(s: string)
    requires AllSpace(s)
    ensures StripRight(s) == []
  {
    StripRightIff(s, []);
  }

  lemma MiddleIsStripped(s: string, a: string, t: string, b: string)
    requires AllSpace(a) && AllSpace(b) && s == a + t + b
    requires t != [] ==> !IsSpace(t[0]) && !IsSpace(t[|t| - 1])
    ensures StripRight(StripLeft(s)) == t
  {
    hide StripRight, StripLeft, IsSpace;
    if t == [] {
      StripLeftOver(s, []);
      assert s + [] == s;
    } else {
      assert s == a + (t + b);
      StripLeftOver(a, t + b);
    }
    var m := StripLeft(s);
    assert m[|t|..] == if t == [] then [] else b;
    StripRightIff(m, t);
  }

  lemma StrippedIsMiddle(s: string)
    ensures IsMiddle(s, StripRight(StripLeft(s)))
  {
    hide StripRight, StripLeft;
    var a := StripLeftSplits(s);
    var m := StripLeft(s);
    var r := StripRight(m);
    StripRightIff(m, r);
    assert s == a + r + m[|r|..];
  }

  /** The middle is what stripping leaves. */
  lemma StripIff(s: string, t: string)
    ensures StripRight(StripLeft(s)) == t <==> IsMiddle(s, t)
  {
    StrippedIsMiddle(s);
    if IsMiddle(s, t) {
      var a: string, b: string :| AllSpace(a) && AllSpace(b) && s == a + t + b;
      MiddleIsStripped(s, a, t, b);
    }
  }

  /** The regular expression of the look-behind: the whole word `operator` and white space. */
  ghost predicate IsOperatorText(s: string, p: string, w: string) {
    s == p + "operator" + w && AllSpace(w) && (p != [] ==> !IsWordChar(p[|p| - 1]))
  }

  lemma OperatorText(s: string, p: string, w: string)
    requires IsOperatorText(s, p, w)
    ensures EndsWithOperator(s)
  {
    hide StripRight, AllSpace, IsWordChar;
    var t := p + "operator";
    assert s[|t|..] == w && t[|t| - 1] == "operator"[7];
    StripRightIff(s, t);
    assert t[|t| - 8..] == "operator";
  }

  lemma OperatorParts(s: string)
    requires EndsWithOperator(s)
    ensures var r := StripRight(s);
      |r| >= 8 && |r| <= |s| && IsOperatorText(s, r[..|r| - 8], s[|r|..])
  {
    hide StripRight, AllSpace, IsWordChar;
    var r := StripRight(s);
    StripRightIff(s, r);
    assert r[..|r| - 8] + "operator" == r;
    assert s == r + s[|r|..];
    assert |r| > 8 ==> r[..|r| - 8][|r| - 9] == r[|r| - 9];
  }

  /** The look-behind succeeds exactly on the matches of its regular expression. */
  lemma EndsWithOperatorIff(s: string)
    ensures EndsWithOperator(s) <==> exists p: string, w: string :: IsOperatorText(s, p, w)
  {
    hide StripRight, IsOperatorText, EndsWithOperator;
    if EndsWithOperator(s) {
      OperatorParts(s);
    }
    forall p: string, w: string | IsOperatorText(s, p, w)
      ensures EndsWithOperator(s)
    {
      OperatorText(s, p, w);
    }
  }
}
