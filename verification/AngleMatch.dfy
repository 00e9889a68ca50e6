/** What the two bracket searches find from '<' and from '>', told without a stack: by recursion
    over the nesting of the text. */
module AngleMatch {
  import opened Basics
  import opened Brackets
  import opened Lines
  import opened ExprStacks
  import F = ForwardMatch
  import R = ReverseMatch
  import T = TemplateMatch

  /** A '<' finds its '>', or turns out to have been no bracket: the first half of a shift, or a
      comparison before the end of what it stands in. */
  datatype Angle = Matched(line: nat, pos: nat) | Shift(line: nat, pos: nat) | NoMatch(last: nat)

  // ----- forward -----

  /** The fate of the '<' that stands before `(line, i)`.  Brackets are passed over as a whole,
      "->" and `operator>` are not looked at, another '<' is followed to its own end first; and a
      semicolon or a closing bracket ends the search. */
  function AfterLess(lines: seq<string>, line: nat, i: nat): (r: Angle)
    requires line < |lines| && i <= |lines[line]|
    ensures !r.NoMatch? ==>
      line <= r.line < |lines| && r.pos <= |lines[r.line]| && (r.line == line ==> i < r.pos)
    decreases |lines| - line, |lines[line]| - i
  {
    var text := lines[line];
    if i == |text| then
      if line + 1 < |lines| then AfterLess(lines, line + 1, 0) else NoMatch(line)
    else if text[i] in "([{" then
      var b := F.Close(lines, line, i);
      if b.At? then AfterLess(lines, b.line, b.pos) else NoMatch(b.last)
    else if text[i] in ")]};" then NoMatch(line)
    else if text[i] == '<' then
      if i > 0 && text[i - 1] == '<' then Shift(line, i + 1)
      else if i > 0 && EndsWithOperator(text[..i]) then AfterLess(lines, line, i + 1)
      else
        var r := AfterLess(lines, line, i + 1);
        if r.NoMatch? then r else AfterLess(lines, r.line, r.pos)
    else if text[i] == '>' && !(i > 0 && (text[i - 1] == '-' || EndsWithOperator(text[..i - 1]))) then
      Matched(line, i + 1)
    else AfterLess(lines, line, i + 1)
  }

  /** The first bracket on a line at or after a '<', and its end. */
  function FromLess(lines: seq<string>, line: nat, i: nat): Place
    requires line < |lines| && i <= |lines[line]|
    decreases |lines[line]| - i
  {
    var text := lines[line];
    if i == |text| || text[i] in ")]};" then Nowhere(line)
    else if text[i] in "([{" then F.Close(lines, line, i)
    else if text[i] == '<' && !(i > 0 && (text[i - 1] == '<' || EndsWithOperator(text[..i]))) then
      var r := AfterLess(lines, line, i + 1);
      if r.Matched? then At(r.line, r.pos) else Nowhere(if r.Shift? then r.line else r.last)
    else FromLess(lines, line, i + 1)
  }

  predicate AllAngles(s: seq<char>, c: char) { forall i | 0 <= i < |s| :: s[i] == c }

  lemma {:induction false} DropFrame(t: seq<char>, s: seq<char>, angle: char)
    requires s != [] && s[0] != angle
    ensures DropTop(s, angle) != [] && DropTop(s, angle)[0] == s[0]
    ensures DropTop(t + s, angle) == t + DropTop(s, angle)
    decreases |s|
  {
    if TopIs(s, angle) {
      assert Pop(t + s) == t + Pop(s);
      DropFrame(t, Pop(s), angle);
    }
  }

  lemma {:induction false} DropAngles(s: seq<char>, angle: char)
    requires AllAngles(s, angle)
    ensures DropTop(s, angle) == []
  {
    if s != [] { DropAngles(Pop(s), angle); }
  }

  /** Above a bracket, a scan goes as if there were nothing below it; where it would end, it goes
      on with what is below. */
  lemma MoveFrame(line: string, i: nat, t: seq<char>, s: seq<char>)
    requires i < |line| && s != [] && s[0] != '<' && t != []
    ensures match F.ForwardMove(line, i, s)
      case Go(u) => F.ForwardMove(line, i, t + s) == Go(t + u)
      case Hit => F.ForwardMove(line, i, t + s) == Go(t)
      case Stuck => F.ForwardMove(line, i, t + s) == Stuck
    ensures var m := F.ForwardMove(line, i, s); m.Go? ==> m.stack != [] && m.stack[0] == s[0]
  {
    hide EndsWithOperator, DropTop;
    var c := line[i];
    if IsCloser(c) || c == ';' {
      DropFrame(t, s, '<');
      var d := DropTop(s, '<');
      assert Pop(t + d) == t + Pop(d);
      if |d| == 1 { assert Pop(t + d) == t; }
    } else {
      assert Pop(t + s) == t + Pop(s);
      assert t + s + [c] == t + (s + [c]);
    }
  }

  lemma {:induction false} CloseFrame(lines: seq<string>, line: nat, i: nat, t: seq<char>, s: seq<char>)
    requires line < |lines| && i <= |lines[line]| && s != [] && s[0] != '<' && t != []
    ensures var r := F.CloseFrom(lines, line, i, s);
      F.CloseFrom(lines, line, i, t + s) == if r.At? then F.CloseFrom(lines, r.line, r.pos, t) else r
    decreases |lines| - line, |lines[line]| - i
  {
    hide F.ForwardMove, F.CloseFrom;
    if i < |lines[line]| {
      MoveFrame(lines[line], i, t, s);
      T.CloseFromStep(lines, line, i, s);
      T.CloseFromStep(lines, line, i, t + s);
      var m := F.ForwardMove(lines[line], i, s);
      if m.Go? { CloseFrame(lines, line, i + 1, t, m.stack); }
    } else if line + 1 < |lines| {
      T.CloseFromNextLine(lines, line, s);
      T.CloseFromNextLine(lines, line, t + s);
      CloseFrame(lines, line + 1, 0, t, s);
    } else {
      CloseFromEnd(lines, line, s);
      CloseFromEnd(lines, line, t + s);
    }
  }

  lemma CloseFromEnd(lines: seq<string>, line: nat, s: seq<char>)
    requires line < |lines| && (s == [] || line + 1 == |lines|)
    ensures F.CloseFrom(lines, line, |lines[line]|, s) == Nowhere(line)
  {
  }

  /** A scan with a tentative '<' on its stack passes over a whole bracket. */
  lemma OverBracket(lines: seq<string>, line: nat, i: nat, t: seq<char>)
    requires InDoc(lines, line, i) && IsOpener(lines[line][i]) && t != []
    ensures var r := F.Close(lines, line, i);
      && (r.At? ==> line <= r.line < |lines| && r.pos <= |lines[r.line]| && (r.line == line ==> i < r.pos))
      && F.CloseFrom(lines, line, i, t) == if r.At? then F.CloseFrom(lines, r.line, r.pos, t) else r
  {
    hide F.CloseFrom;
    var c := lines[line][i];
    T.CloseFromStep(lines, line, i, t);
    F.StartAtOpener(lines, line, i);
    CloseFrame(lines, line, i + 1, t, [c]);
  }

  /** Where a scan goes on that has lost its topmost tentative '<'. */
  function Resume(lines: seq<string>, a: Angle, s: seq<char>): Place
    requires !a.NoMatch? ==> a.line < |lines|
  {
    match a
    case Matched(l, e) => if s == [] then At(l, e) else F.CloseFrom(lines, l, e, s)
    case Shift(l, e) => if s == [] then Nowhere(l) else F.CloseFrom(lines, l, e, s)
    case NoMatch(k) => Nowhere(k)
  }

  lemma {:induction false} LessTracks(lines: seq<string>, line: nat, i: nat, s: seq<char>)
    requires line < |lines| && i <= |lines[line]| && AllAngles(s, '<')
    ensures F.CloseFrom(lines, line, i, s + ['<']) == Resume(lines, AfterLess(lines, line, i), s)
    decreases |lines| - line, |lines[line]| - i
  {
    hide F.CloseFrom, EndsWithOperator, DropTop, F.Close;
    var text, t := lines[line], s + ['<'];
    if i == |text| {
      if line + 1 < |lines| {
        T.CloseFromNextLine(lines, line, t);
        LessTracks(lines, line + 1, 0, s);
      } else {
        CloseFromEnd(lines, line, t);
      }
    } else if IsOpener(text[i]) {
      OverBracket(lines, line, i, t);
      var r := F.Close(lines, line, i);
      if r.At? { LessTracks(lines, r.line, r.pos, s); }
    } else {
      T.CloseFromStep(lines, line, i, t);
      DropAngles(t, '<');
      assert Pop(t) == s;
      if text[i] == '<' {
        if !(i > 0 && (text[i - 1] == '<' || EndsWithOperator(text[..i]))) {
          LessTracks(lines, line, i + 1, t);
          var r := AfterLess(lines, line, i + 1);
          if !r.NoMatch? { LessTracks(lines, r.line, r.pos, s); }
        } else if text[i - 1] != '<' {
          LessTracks(lines, line, i + 1, s);
        }
      } else if !(text[i] == '>' || IsCloser(text[i]) || text[i] == ';') {
        LessTracks(lines, line, i + 1, s);
      } else if text[i] == '>' && i > 0 && (text[i - 1] == '-' || EndsWithOperator(text[..i - 1])) {
        LessTracks(lines, line, i + 1, s);
      }
    }
  }

  lemma {:induction false} FromLessTracks(lines: seq<string>, line: nat, i: nat)
    requires line < |lines| && i <= |lines[line]|
    ensures F.CloseFrom(lines, line, i, []) == FromLess(lines, line, i)
    decreases |lines[line]| - i
  {
    hide F.CloseFrom, EndsWithOperator, DropTop;
    var text := lines[line];
    if i == |text| {
      CloseFromEnd(lines, line, []);
    } else if IsOpener(text[i]) {
    } else {
      T.CloseFromStep(lines, line, i, []);
      DropAngles([], '<');
      if text[i] == '<' && !(i > 0 && (text[i - 1] == '<' || EndsWithOperator(text[..i]))) {
        LessTracks(lines, line, i + 1, []);
      } else if !IsCloser(text[i]) && text[i] != ';' {
        FromLessTracks(lines, line, i + 1);
      }
    }
  }

  /** What `CloseExpression` finds from any '<' of any text.  From another character that is no
      opening bracket it finds nothing. */
  lemma CloseAtLess(lines: seq<string>, line: nat, pos: nat)
    requires InDoc(lines, line, pos) && lines[line][pos] !in "([{"
    ensures var text := lines[line];
      F.Close(lines, line, pos)
      == if text[pos] == '<' && (pos + 1 < |text| ==> text[pos + 1] != '<' && text[pos + 1] != '=')
         then FromLess(lines, line, pos) else Nowhere(line)
  {
    hide F.CloseFrom;
    FromLessTracks(lines, line, pos);
  }

  // ----- backward -----

  /** "->", " >= " and `operator>` end in the '>' at `i`, or have it in them. */
  predicate IsOperator(text: string, i: nat)
    requires i < |text| && text[i] == '>'
  {
    i > 0
    && (text[i - 1] == '-' || EndsWithOperator(text[..i])
        || (IsSpace(text[i - 1]) && i + 2 < |text| && text[i + 1] == '=' && IsSpace(text[i + 2])))
  }

  /** The fate of the '>' that stands after the first `n` characters of a line, read backward. */
  function BeforeGreater(lines: seq<string>, line: nat, n: nat): (r: Place)
    requires line < |lines| && n <= |lines[line]|
    ensures r.At? ==> r.line <= line && r.pos < |lines[r.line]| && (r.line == line ==> r.pos < n)
    decreases line, n
  {
    var text := lines[line];
    if n == 0 then
      if line > 0 then BeforeGreater(lines, line - 1, |lines[line - 1]|) else Nowhere(line)
    else if text[n - 1] in ")]}" then
      var b := R.ReverseClose(lines, line, n - 1);
      if b.At? then BeforeGreater(lines, b.line, b.pos) else b
    else if text[n - 1] in "([{;" then Nowhere(line)
    else if text[n - 1] == '>' then
      if IsOperator(text, n - 1) then BeforeGreater(lines, line, n - 2)
      else
        var r := BeforeGreater(lines, line, n - 1);
        if r.At? then BeforeGreater(lines, r.line, r.pos) else r
    else if text[n - 1] == '<' then
      if n > 1 && text[n - 2] == '<' then BeforeGreater(lines, line, n - 2) else At(line, n - 1)
    else BeforeGreater(lines, line, n - 1)
  }

  /** The last bracket on a line at or before a '>', and its beginning. */
  function FromGreater(lines: seq<string>, line: nat, n: nat): Place
    requires line < |lines| && n <= |lines[line]|
    decreases n
  {
    var text := lines[line];
    if n == 0 || text[n - 1] in "([{;" then Nowhere(line)
    else if text[n - 1] in ")]}" then R.ReverseClose(lines, line, n - 1)
    else if text[n - 1] == '>' then
      if IsOperator(text, n - 1) then FromGreater(lines, line, n - 2) else BeforeGreater(lines, line, n - 1)
    else if text[n - 1] == '<' && n > 1 && text[n - 2] == '<' then FromGreater(lines, line, n - 2)
    else FromGreater(lines, line, n - 1)
  }

  lemma MoveFrameBack(line: string, i: nat, t: seq<char>, s: seq<char>)
    requires i < |line| && s != [] && s[0] != '>' && t != []
    ensures match R.ReverseMove(line, i, s)
      case Go(u) => R.ReverseMove(line, i, t + s) == Go(t + u)
      case Hit => R.ReverseMove(line, i, t + s) == Go(t) && R.Onward(line, i + 1) == i
      case Stuck => R.ReverseMove(line, i, t + s) == Stuck
    ensures var m := R.ReverseMove(line, i, s); m.Go? ==> m.stack != [] && m.stack[0] == s[0]
  {
    hide EndsWithOperator, DropTop;
    DropFrame(t, s, '>');
    var d := DropTop(s, '>');
    assert Pop(t + s) == t + Pop(s) && Pop(t + d) == t + Pop(d);
    assert t + s + [line[i]] == t + (s + [line[i]]);
    if |d| == 1 { assert Pop(t + d) == t; }
  }

  lemma OnwardMoves(line: string, n: nat)
    requires 0 < n <= |line|
    ensures 0 <= R.Onward(line, n) < n
  {
  }

  lemma {:induction false} OpenFrame(lines: seq<string>, line: nat, n: nat, t: seq<char>, s: seq<char>)
    requires line < |lines| && n <= |lines[line]| && s != [] && s[0] != '>' && t != []
    ensures var r := R.OpenFrom(lines, line, n, s);
      R.OpenFrom(lines, line, n, t + s) == if r.At? then R.OpenFrom(lines, r.line, r.pos, t) else r
    decreases line, n
  {
    hide R.ReverseMove, R.OpenFrom, R.Onward;
    if n > 0 {
      MoveFrameBack(lines[line], n - 1, t, s);
      OnwardMoves(lines[line], n);
      T.OpenFromStep(lines, line, n, s);
      T.OpenFromStep(lines, line, n, t + s);
      var m := R.ReverseMove(lines[line], n - 1, s);
      if m.Go? { OpenFrame(lines, line, R.Onward(lines[line], n), t, m.stack); }
    } else if line > 0 {
      T.OpenFromPreviousLine(lines, line, s);
      T.OpenFromPreviousLine(lines, line, t + s);
      OpenFrame(lines, line - 1, |lines[line - 1]|, t, s);
    } else {
      OpenFromEnd(lines, line, s);
      OpenFromEnd(lines, line, t + s);
    }
  }

  lemma OpenFromEnd(lines: seq<string>, line: nat, s: seq<char>)
    requires line < |lines| && (s == [] || line == 0)
    ensures R.OpenFrom(lines, line, 0, s) == Nowhere(line)
  {
  }

  /** A scan with a tentative '>' on its stack passes over a whole bracket. */
  lemma OverBracketBack(lines: seq<string>, line: nat, n: nat, t: seq<char>)
    requires 0 < n && InDoc(lines, line, n - 1) && IsCloser(lines[line][n - 1]) && t != []
    ensures var r := R.ReverseClose(lines, line, n - 1);
      && (r.At? ==> r.line <= line && r.pos < |lines[r.line]| && (r.line == line ==> r.pos < n))
      && R.OpenFrom(lines, line, n, t) == if r.At? then R.OpenFrom(lines, r.line, r.pos, t) else r
  {
    hide R.OpenFrom;
    var c := lines[line][n - 1];
    OnwardMoves(lines[line], n);
    T.OpenFromStep(lines, line, n, t);
    R.StartAtCloser(lines, line, n - 1);
    OpenFrame(lines, line, n - 1, t, [c]);
  }

  /** One step of a backward scan with nothing but tentative '>' on its stack. */
  lemma AngleStepBack(lines: seq<string>, line: nat, n: nat, s: seq<char>)
    requires line < |lines| && 0 < n <= |lines[line]| && AllAngles(s, '>') && !IsCloser(lines[line][n - 1])
    ensures var text, t, at := lines[line], s + ['>'], R.OpenFrom(lines, line, n, s + ['>']);
      if text[n - 1] == '>' then
        if IsOperator(text, n - 1) then n >= 2 && at == R.OpenFrom(lines, line, n - 2, t)
        else at == R.OpenFrom(lines, line, n - 1, t + ['>'])
      else if text[n - 1] == '<' then
        if n > 1 && text[n - 2] == '<' then at == R.OpenFrom(lines, line, n - 2, t)
        else at == if s == [] then At(line, n - 1) else R.OpenFrom(lines, line, n - 1, s)
      else if IsOpener(text[n - 1]) || text[n - 1] == ';' then at == Nowhere(line)
      else at == R.OpenFrom(lines, line, n - 1, t)
    ensures AllAngles(s + ['>'], '>')
  {
    hide R.OpenFrom, EndsWithOperator, DropTop;
    OnwardMoves(lines[line], n);
    T.OpenFromStep(lines, line, n, s + ['>']);
    DropAngles(s + ['>'], '>');
    assert Pop(s + ['>']) == s;
  }

  /** Where a scan goes on that has lost its topmost tentative '>'. */
  function ResumeBack(lines: seq<string>, r: Place, s: seq<char>): Place
    requires r.At? ==> InDoc(lines, r.line, r.pos)
  {
    if r.At? && s != [] then R.OpenFrom(lines, r.line, r.pos, s) else r
  }

  lemma {:induction false} GreaterTracks(lines: seq<string>, line: nat, n: nat, s: seq<char>)
    requires line < |lines| && n <= |lines[line]| && AllAngles(s, '>')
    ensures R.OpenFrom(lines, line, n, s + ['>']) == ResumeBack(lines, BeforeGreater(lines, line, n), s)
    decreases line, n
  {
    hide R.OpenFrom, R.ReverseClose, IsOperator, AllAngles;
    var text, t := lines[line], s + ['>'];
    if n == 0 {
      if line > 0 {
        T.OpenFromPreviousLine(lines, line, t);
        GreaterTracks(lines, line - 1, |lines[line - 1]|, s);
      } else {
        OpenFromEnd(lines, line, t);
      }
    } else if IsCloser(text[n - 1]) {
      OverBracketBack(lines, line, n, t);
      var r := R.ReverseClose(lines, line, n - 1);
      if r.At? { GreaterTracks(lines, r.line, r.pos, s); }
    } else {
      AngleStepBack(lines, line, n, s);
      if text[n - 1] == '>' {
        if IsOperator(text, n - 1) {
          GreaterTracks(lines, line, n - 2, s);
        } else {
          GreaterTracks(lines, line, n - 1, t);
          var r := BeforeGreater(lines, line, n - 1);
          if r.At? { GreaterTracks(lines, r.line, r.pos, s); }
        }
      } else if text[n - 1] == '<' {
        if n > 1 && text[n - 2] == '<' { GreaterTracks(lines, line, n - 2, s); }
      } else if !IsOpener(text[n - 1]) && text[n - 1] != ';' {
        GreaterTracks(lines, line, n - 1, s);
      }
    }
  }

  lemma {:induction false} FromGreaterTracks(lines: seq<string>, line: nat, n: nat)
    requires line < |lines| && n <= |lines[line]|
    ensures R.OpenFrom(lines, line, n, []) == FromGreater(lines, line, n)
    decreases n
  {
    hide R.OpenFrom, EndsWithOperator, DropTop;
    var text := lines[line];
    if n == 0 {
      OpenFromEnd(lines, line, []);
    } else if IsCloser(text[n - 1]) {
    } else {
      OnwardMoves(text, n);
      T.OpenFromStep(lines, line, n, []);
      DropAngles([], '>');
      if text[n - 1] == '>' && !IsOperator(text, n - 1) {
        GreaterTracks(lines, line, n - 1, []);
      } else if !IsOpener(text[n - 1]) && text[n - 1] != ';' {
        FromGreaterTracks(lines, line, R.Onward(text, n));
      }
    }
  }

  /** What `ReverseCloseExpression` finds from any '>' of any text, and from a character that is
      no bracket. */
  lemma OpenAtGreater(lines: seq<string>, line: nat, pos: nat)
    requires InDoc(lines, line, pos) && lines[line][pos] !in ")]}"
    ensures R.ReverseClose(lines, line, pos)
         == if lines[line][pos] == '>' then FromGreater(lines, line, pos + 1) else Nowhere(line)
  {
    hide R.OpenFrom;
    FromGreaterTracks(lines, line, pos + 1);
  }

  // ----- the name of an operator -----

  /** Looking behind from one character earlier, `operator` is found only if white space follows it. */
  lemma LooksBehind(t: string)
    ensures EndsWithOperator(t) ==> t != [] && (EndsWithOperator(Pop(t)) <==> IsSpace(Top(t)))
  {
    hide StripRight, EndsWithOperator, IsWordChar;
    EndsWithOperatorIff(t);
    if EndsWithOperator(t) {
      var p: string, w: string :| IsOperatorText(t, p, w);
      if w == [] {
        assert t == p + "operator" && Top(t) == "operator"[7] == 'r';
        assert Top(Pop(t)) == "operator"[6] == 'o';
        if EndsWithOperator(Pop(t)) { R.OperatorEnds(Pop(t)); }
      } else {
        assert Top(t) == Top(w) && Pop(t) == p + "operator" + Pop(w);
        OperatorText(Pop(t), p, Pop(w));
      }
    }
  }

  /** A '>' that names an operator function is left alone by the backward scan, but by the forward
      scan only if white space stands before it: that scan looks one character too far back. */
  lemma OperatorGreater(line: string, i: nat, s: seq<char>)
    requires i < |line| && line[i] == '>'
    ensures EndsWithOperator(line[..i]) ==>
      && i > 0 && R.ReverseMove(line, i, s) == Go(s)
      && (TopIs(s, '<') ==> (F.ForwardMove(line, i, s) == Go(s) <==> IsSpace(line[i - 1])))
  {
    hide EndsWithOperator, DropTop;
    LooksBehind(line[..i]);
    if EndsWithOperator(line[..i]) {
      R.OperatorEnds(line[..i]);
      assert Pop(line[..i]) == line[..i - 1] && Top(line[..i]) == line[i - 1];
    }
  }
}
