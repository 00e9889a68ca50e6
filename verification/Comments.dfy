/** `RemoveMultiLineComments` of cpplint.py: comments over several lines are overwritten in the
    list of lines. */
module Comments {
  import opened Lines

  const BLANK: string := "/**/"

  function Strip(line: string): string {
    StripRight(StripLeft(line))
  }

  /** The line starts a comment that it does not end. */
  predicate Opens(line: string) {
    var t := Strip(line);
    "/*" <= t && !exists i :: 2 <= i < |t| - 1 && t[i] == '*' && t[i + 1] == '/'
  }

  predicate Closes(line: string) {
    var t := Strip(line);
    |t| >= 2 && t[|t| - 2..] == "*/"
  }

  /** The text has a comment end after its comment start. */
  lemma EndsIff(t: string)
    requires "/*" <= t
    ensures (exists i :: 2 <= i < |t| - 1 && t[i] == '*' && t[i + 1] == '/')
       <==> exists a: string, b: string :: t == "/*" + a + "*/" + b
  {
    forall i | 2 <= i < |t| - 1 && t[i] == '*' && t[i + 1] == '/'
      ensures t == "/*" + t[2..i] + "*/" + t[i + 2..]
    {
    }
    forall a: string, b: string | t == "/*" + a + "*/" + b
      ensures t[|a| + 2] == '*' && t[|a| + 3] == '/'
    {
      assert t == ("/*" + a) + ("*/" + b);
      assert "*/"[0] == '*' && "*/"[1] == '/';
    }
  }

  /** A line starts a comment that it does not end exactly if it is, between white space, a text
      that begins with a comment start and has no comment end after that. */
  lemma OpensIff(line: string)
    ensures Opens(line) <==>
      exists t: string ::
        IsMiddle(line, t) && "/*" <= t && forall a: string, b: string :: t != "/*" + a + "*/" + b
  {
    hide IsMiddle, StripRight, StripLeft;
    var t := Strip(line);
    StripIff(line, t);
    if "/*" <= t { EndsIff(t); }
    forall u: string | IsMiddle(line, u)
      ensures u == t
    {
      StripIff(line, u);
    }
  }

  lemma ClosesText(line: string, a: string, b: string)
    requires AllSpace(b) && line == a + "*/" + b
    ensures Closes(line)
  {
    hide StripRight, StripLeft, AllSpace;
    var space := StripLeftSplits(a);
    var t := StripLeft(a) + "*/";
    assert line == space + t + b && t[|t| - 2..] == "*/";
    StripIff(line, t);
  }

  /** And it ends a comment exactly if white space alone follows a comment end. */
  lemma ClosesIff(line: string)
    ensures Closes(line) <==> exists a: string, b: string :: AllSpace(b) && line == a + "*/" + b
  {
    hide StripRight, StripLeft, AllSpace;
    var t := Strip(line);
    StripIff(line, t);
    if Closes(line) {
      var a: string, b: string :| AllSpace(a) && AllSpace(b) && line == a + t + b;
      assert line == (a + t[..|t| - 2]) + "*/" + b;
    }
    forall a: string, b: string | AllSpace(b) && line == a + "*/" + b
      ensures Closes(line)
    {
      ClosesText(line, a, b);
    }
  }

  // ----- which lines go, read off the text line by line -----

  /** Line `i` begins inside a comment. */
  ghost predicate Inside(s: seq<string>, i: nat)
    requires i <= |s|
  {
    i > 0 && (Inside(s, i - 1) || Opens(s[i - 1])) && !Closes(s[i - 1])
  }

  ghost predicate NoCloseFrom(s: seq<string>, i: nat) {
    forall j | i <= j < |s| :: !Closes(s[j])
  }

  /** Line `i` belongs to a comment that ends. */
  ghost predicate Blanked(s: seq<string>, i: nat)
    requires i < |s|
  {
    (Inside(s, i) || Opens(s[i])) && !NoCloseFrom(s, i)
  }

  ghost function Cleaned(s: seq<string>): (r: seq<string>)
    ensures |r| == |s| && forall i {:trigger r[i]} | 0 <= i < |s| :: r[i] == if Blanked(s, i) then "/**/" else s[i]
  {
    seq(|s|, i requires 0 <= i < |s| => if Blanked(s, i) then BLANK else s[i])
  }

  /** A comment begins on line `b` and never ends. */
  ghost predicate Unclosed(s: seq<string>, b: nat) {
    b < |s| && Opens(s[b]) && !Inside(s, b) && NoCloseFrom(s, b)
  }

  /** Lines `b` to `e` are one comment. */
  ghost predicate IsBlock(s: seq<string>, b: nat, e: nat) {
    b <= e < |s| && Opens(s[b]) && !Inside(s, b) && Closes(s[e]) && forall j | b <= j < e :: !Closes(s[j])
  }

  lemma {:induction false} InsideFrom(s: seq<string>, b: nat, i: nat)
    requires b < i <= |s| && (Inside(s, b) || Opens(s[b])) && forall j | b <= j < i :: !Closes(s[j])
    ensures Inside(s, i)
    decreases i
  {
    if b == i - 1 {
    } else {
      InsideFrom(s, b, i - 1);
    }
  }

  lemma {:induction false} InsideSince(s: seq<string>, i: nat) returns (b: nat)
    requires i <= |s| && Inside(s, i)
    ensures b < i && Opens(s[b]) && !Inside(s, b) && forall j | b <= j < i :: !Closes(s[j])
    decreases i
  {
    if Inside(s, i - 1) {
      b := InsideSince(s, i - 1);
    } else {
      b := i - 1;
    }
  }

  lemma {:induction false} OutsideUntil(s: seq<string>, from: nat, stop: nat)
    requires from <= stop <= |s| && !Inside(s, from) && forall j | from <= j < stop :: !Opens(s[j])
    ensures forall j | from <= j <= stop :: !Inside(s, j)
    decreases stop
  {
    if from == stop {
    } else {
      OutsideUntil(s, from, stop - 1);
    }
  }

  /** The line whose comment never ends is reported, counting from 1; 0 means that there is none. */
  ghost predicate Reports(s: seq<string>, reported: nat) {
    if reported > 0 then Unclosed(s, reported - 1) else !Inside(s, |s|)
  }

  ghost predicate NoOpen(s: seq<string>, from: nat, stop: nat)
    requires from <= stop <= |s|
  {
    forall j | from <= j < stop :: !Opens(s[j])
  }

  ghost predicate NoClose(s: seq<string>, from: nat, stop: nat)
    requires from <= stop <= |s|
  {
    forall j | from <= j < stop :: !Closes(s[j])
  }

  // ----- the program -----

  method FindNextMultiLineCommentStart(lines: array<string>, from: nat) returns (i: nat)
    requires from <= lines.Length
    ensures from <= i <= lines.Length && (i < lines.Length ==> Opens(lines[i]))
    ensures NoOpen(lines[..], from, i)
  {
    i := from;
    while i < lines.Length
      invariant from <= i <= lines.Length && forall j | from <= j < i :: !Opens(lines[j])
    {
      if Opens(lines[i]) {
        return;
      }
      i := i + 1;
    }
  }

  method FindNextMultiLineCommentEnd(lines: array<string>, from: nat) returns (i: nat)
    requires from <= lines.Length
    ensures from <= i <= lines.Length && (i < lines.Length ==> Closes(lines[i]))
    ensures NoClose(lines[..], from, i)
  {
    i := from;
    while i < lines.Length
      invariant from <= i <= lines.Length && forall j | from <= j < i :: !Closes(lines[j])
    {
      if Closes(lines[i]) {
        return;
      }
      i := i + 1;
    }
  }

  function Overwritten(s: seq<string>, begin: nat, end: nat): (r: seq<string>)
    ensures |r| == |s| && forall i {:trigger r[i]} | 0 <= i < |s| :: r[i] == if begin <= i < end then BLANK else s[i]
  {
    seq(|s|, i requires 0 <= i < |s| => if begin <= i < end then BLANK else s[i])
  }

  method RemoveMultiLineCommentsFromRange(lines: array<string>, begin: nat, end: nat)
    requires begin <= end <= lines.Length
    modifies lines
    ensures lines[..] == Overwritten(old(lines[..]), begin, end)
  {
    for i := begin to end
      invariant forall j | 0 <= j < lines.Length :: lines[j] == if begin <= j < i then BLANK else old(lines[j])
    {
      lines[i] := BLANK;
    }
  }

  /** Returns the number of the line that is reported, or 0. */
  method RemoveMultiLineComments(lines: array<string>) returns (reported: nat)
    modifies lines
    ensures lines[..] == Cleaned(old(lines[..])) && Reports(old(lines[..]), reported)
  {
    hide Cleaned, Reports, IsDone, NoOpen, NoClose, Opens, Closes, Overwritten;
    ghost var s := lines[..];
    NoneDone(s);
    var lineix := 0;
    while lineix < lines.Length
      invariant lineix <= lines.Length && IsDone(s, lines[..], lineix)
    {
      var begin := FindNextMultiLineCommentStart(lines, lineix);
      TextIsKept(s, lines[..], lineix, begin);
      if begin >= lines.Length {
        AllDone(s, lines[..]);
        return 0;
      }
      var end := FindNextMultiLineCommentEnd(lines, begin);
      if end >= lines.Length {
        UnclosedIsKept(s, lines[..], begin);
        return begin + 1;
      }
      BlockIsDone(s, lines[..], begin, end);
      RemoveMultiLineCommentsFromRange(lines, begin, end + 1);
      lineix := end + 1;
    }
    AllDone(s, lines[..]);
    reported := 0;
  }

  /** The first `n` lines are cleaned, the others untouched, and no comment is open. */
  ghost predicate IsDone(s: seq<string>, r: seq<string>, n: nat) {
    |r| == |s| && n <= |s| && !Inside(s, n) && r[..n] == Cleaned(s)[..n] && r[n..] == s[n..]
  }

  lemma NoneDone(s: seq<string>)
    ensures IsDone(s, s, 0)
  {
  }

  lemma AllDone(s: seq<string>, r: seq<string>)
    requires IsDone(s, r, |s|)
    ensures r == Cleaned(s) && Reports(s, 0)
  {
  }

  lemma DoneAt(s: seq<string>, r: seq<string>, n: nat)
    requires IsDone(s, r, n)
    ensures forall j {:trigger r[j]} | 0 <= j < |s| :: r[j] == if j < n then Cleaned(s)[j] else s[j]
  {
    assert forall j | 0 <= j < n :: r[j] == r[..n][j];
    assert forall j | n <= j < |s| :: r[j] == r[n..][j - n];
  }

  lemma TextIsKept(s: seq<string>, r: seq<string>, from: nat, stop: nat)
    requires IsDone(s, r, from) && from <= stop <= |s| && NoOpen(r, from, stop)
    ensures IsDone(s, r, stop)
  {
    DoneAt(s, r, from);
    assert forall j | from <= j < stop :: r[j] == s[j];
    OutsideUntil(s, from, stop);
    forall j | 0 <= j < stop
      ensures r[j] == Cleaned(s)[j]
    {
    }
  }

  lemma UnclosedIsKept(s: seq<string>, r: seq<string>, b: nat)
    requires IsDone(s, r, b) && b < |s| && Opens(r[b]) && NoClose(r, b, |r|)
    ensures r == Cleaned(s) && Reports(s, b + 1)
  {
    DoneAt(s, r, b);
    assert forall j | b <= j < |s| :: r[j] == s[j];
    forall i: nat | b <= i < |s|
      ensures NoCloseFrom(s, i)
    {
    }
  }

  lemma BlockIsDone(s: seq<string>, r: seq<string>, b: nat, e: nat)
    requires IsDone(s, r, b) && b <= e < |s| && Opens(r[b]) && NoClose(r, b, e) && Closes(r[e])
    ensures IsDone(s, Overwritten(r, b, e + 1), e + 1)
  {
    DoneAt(s, r, b);
    assert forall j | b <= j <= e :: r[j] == s[j];
    BlockIsBlanked(s, b, e);
  }

  lemma BlockIsBlanked(s: seq<string>, b: nat, e: nat)
    requires IsBlock(s, b, e)
    ensures forall i | b <= i <= e :: Blanked(s, i)
    ensures !Inside(s, e + 1)
  {
    forall i | b <= i <= e
      ensures Blanked(s, i)
    {
      if b < i { InsideFrom(s, b, i); }
    }
  }

  // ----- what the result is -----

  /** A line is overwritten exactly if it lies in a comment that ends. */
  lemma BlankedIff(s: seq<string>, i: nat)
    requires i < |s|
    ensures Blanked(s, i) <==> exists b: nat, e: nat :: b <= i <= e && IsBlock(s, b, e)
  {
    if Blanked(s, i) {
      var b := i;
      if Inside(s, i) { b := InsideSince(s, i); }
      var e := FirstClose(s, i);
      assert IsBlock(s, b, e);
    }
    forall b: nat, e: nat | b <= i <= e && IsBlock(s, b, e)
      ensures Blanked(s, i)
    {
      BlockIsBlanked(s, b, e);
    }
  }

  lemma {:induction false} FirstClose(s: seq<string>, i: nat) returns (e: nat)
    requires i < |s| && !NoCloseFrom(s, i)
    ensures i <= e < |s| && Closes(s[e]) && forall j | i <= j < e :: !Closes(s[j])
    decreases |s| - i
  {
    if Closes(s[i]) {
      e := i;
    } else {
      e := FirstClose(s, i + 1);
    }
  }

  /** At most one comment never ends, and there is one exactly if the text ends inside it. */
  lemma UnclosedIff(s: seq<string>)
    ensures Reports(s, 0) <==> !exists b: nat :: Unclosed(s, b)
    ensures forall b: nat, c: nat :: Unclosed(s, b) && Unclosed(s, c) ==> b == c
  {
    if Inside(s, |s|) {
      var b := InsideSince(s, |s|);
      assert Unclosed(s, b);
    }
    forall b: nat | Unclosed(s, b)
      ensures Inside(s, |s|)
    {
      InsideFrom(s, b, |s|);
    }
    forall b: nat, c: nat | Unclosed(s, b) && Unclosed(s, c)
      ensures b == c
    {
      if b < c {
        InsideFrom(s, b, c);
      } else if c < b {
        InsideFrom(s, c, b);
      }
    }
  }

  lemma BlankFacts()
    ensures !Opens(BLANK) && Closes(BLANK)
  {
    var t := Strip(BLANK);
    assert t == BLANK && t[2] == '*' && t[3] == '/';
  }

  lemma {:induction false} InsideCleaned(s: seq<string>, i: nat)
    requires i <= |s|
    ensures Inside(Cleaned(s), i) <==> Inside(s, i) && NoCloseFrom(s, i)
    decreases i
  {
    if i == 0 {
    } else {
      InsideCleaned(s, i - 1);
      BlankFacts();
      assert NoCloseFrom(s, i - 1) <==> !Closes(s[i - 1]) && NoCloseFrom(s, i);
    }
  }

  lemma CloseCleaned(s: seq<string>, i: nat)
    ensures NoCloseFrom(s, i) ==> NoCloseFrom(Cleaned(s), i)
  {
    var r := Cleaned(s);
    if NoCloseFrom(s, i) {
      forall j | i <= j < |r|
        ensures !Closes(r[j])
      {
        assert !Closes(s[j]) && NoCloseFrom(s, j);
      }
    }
  }

  /** Cleaning a second time changes nothing and reports the same line, if any. */
  lemma Idempotent(s: seq<string>)
    ensures Cleaned(Cleaned(s)) == Cleaned(s)
    ensures forall n: nat :: Reports(Cleaned(s), n) <==> Reports(s, n)
  {
    InsideCleaned(s, |s|);
    var r := Cleaned(s);
    BlankFacts();
    forall i: nat | i < |s|
      ensures Cleaned(r)[i] == r[i]
      ensures Reports(r, i + 1) <==> Reports(s, i + 1)
    {
      InsideCleaned(s, i);
      CloseCleaned(s, i);
    }
  }
}
