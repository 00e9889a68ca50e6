/** Matching of template brackets on text where they nest: the converse of what `TemplateBalanced`
    says of a successful scan. */
module TemplateMatch {
  import opened Basics
  import opened Brackets
  import opened Lines
  import opened ExprStacks
  import F = ForwardMatch
  import R = ReverseMatch

  // ----- text in which angle brackets nest with the others -----

  predicate OpensGroup(c: char) { IsOpener(c) || c == '<' }

  function CloserOf(c: char): char {
    if IsOpener(c) then CloseChar(OpenKind(c)) else '>'
  }

  datatype Nest = Empty | Group(open: char, inside: Nest, rest: Nest) | Plain(c: char, rest: Nest)

  /** Groups of the four kinds, and other characters; no semicolon stands right inside angle
      brackets. */
  predicate Proper(n: Nest, inAngles: bool) {
    match n
    case Empty => true
    case Group(o, inside, rest) => OpensGroup(o) && Proper(inside, o == '<') && Proper(rest, inAngles)
    case Plain(c, rest) =>
      !OpensGroup(c) && !IsCloser(c) && c != '>' && !(inAngles && c == ';') && Proper(rest, inAngles)
  }

  function Text(n: Nest): string {
    match n
    case Empty => []
    case Group(o, inside, rest) => [o] + Text(inside) + [CloserOf(o)] + Text(rest)
    case Plain(c, rest) => [c] + Text(rest)
  }

  /** Both scans take the '>' at `i` for part of an operator, as in "->". */
  predicate Ignored(line: string, i: nat)
    requires i < |line|
  {
    line[i] == '>' && R.IsGreaterOperator(line, i) && (line[i - 1] == '-' || EndsWithOperator(line[..i - 1]))
  }

  /** A pair "<<" with no third '<' and not after `operator` begins at `i`: a shift. */
  predicate BeginsShift(line: string, i: nat)
    requires i < |line|
  {
    && i + 1 < |line| && line[i] == '<' && line[i + 1] == '<' && (i + 2 < |line| ==> line[i + 2] != '<')
    && (i > 0 ==> line[i - 1] != '<' && !EndsWithOperator(line[..i]))
  }

  predicate EndsShift(line: string, i: nat)
    requires i < |line|
  {
    i > 0 && BeginsShift(line, i - 1)
  }

  /** The backward scan passes over the character at `i` and the one before it. */
  predicate EndsPair(line: string, i: nat)
    requires i < |line|
  {
    Ignored(line, i) || EndsShift(line, i)
  }

  /** An angle bracket that is part of an operator for both scans. */
  predicate InOperator(line: string, i: nat)
    requires i < |line|
  {
    EndsPair(line, i) || BeginsShift(line, i)
  }

  /** Both scans take the angle bracket at `i` for part of an operator, or neither does. */
  predicate Free(line: string, i: nat)
    requires i < |line|
  {
    i > 0 && !InOperator(line, i) ==>
      && (line[i] == '<' ==> line[i - 1] != '<' && !EndsWithOperator(line[..i]))
      && (line[i] == '>' ==> !R.IsGreaterOperator(line, i) && !EndsWithOperator(line[..i - 1]))
  }

  /** The line with a blank for every angle bracket in an operator. */
  function Shown(line: string): (r: string)
    ensures |r| == |line|
    ensures forall i {:trigger r[i]} | 0 <= i < |line| :: r[i] == if InOperator(line, i) then ' ' else line[i]
  {
    seq(|line|, i requires 0 <= i < |line| => if InOperator(line, i) then ' ' else line[i])
  }

  function ShownLines(lines: seq<string>): (r: seq<string>)
    ensures |r| == |lines| && forall l {:trigger r[l]} | 0 <= l < |lines| :: r[l] == Shown(lines[l])
  {
    seq(|lines|, l requires 0 <= l < |lines| => Shown(lines[l]))
  }

  /** Nor to any other from `(line, pos)` to `(toLine, toPos)`. */
  ghost predicate AllFree(lines: seq<string>, line: nat, pos: nat, toLine: nat, toPos: nat) {
    forall l: nat, i: nat |
      InDoc(lines, l, i) && line <= l <= toLine && (l == line ==> pos <= i) && (l == toLine ==> i <= toPos) ::
      Free(lines[l], i)
  }

  // ----- forward -----

  /** The move of a forward scan where no operator pattern applies. */
  function Forth(c: char, stack: seq<char>): Move {
    if OpensGroup(c) then Go(stack + [c])
    else if IsCloser(c) then
      var s := DropTop(stack, '<');
      if s == [] || Top(s) != OpenChar(CloseKind(c)) then Stuck
      else if |s| == 1 then Hit
      else Go(Pop(s))
    else if c == '>' then
      if !TopIs(stack, '<') then Go(stack)
      else if |stack| == 1 then Hit
      else Go(Pop(stack))
    else if c == ';' then
      var s := DropTop(stack, '<');
      if s == [] then Stuck else Go(s)
    else Go(stack)
  }

  lemma ForwardMoveIs(line: string, i: nat, stack: seq<char>)
    requires i < |line| && Free(line, i) && !BeginsShift(line, i) && !EndsShift(line, i)
    ensures F.ForwardMove(line, i, stack) == Forth(Shown(line)[i], stack)
  {
    hide EndsWithOperator, DropTop;
  }

  /** A forward scan takes the first half of a shift for a bracket and the second half takes that
      back. */
  lemma ShiftForth(line: string, i: nat, stack: seq<char>)
    requires i < |line| && BeginsShift(line, i) && stack != []
    ensures F.ForwardMove(line, i, stack) == Go(stack + ['<'])
    ensures F.ForwardMove(line, i + 1, stack + ['<']) == Go(stack)
    ensures Forth(Shown(line)[i], stack) == Go(stack) == Forth(Shown(line)[i + 1], stack)
  {
    hide EndsWithOperator, DropTop;
    assert Pop(stack + ['<']) == stack;
  }

  /** A bracket is not followed by '<'. */
  lemma LoneBracket(line: string, i: nat)
    requires i + 1 < |line| && line[i] == '<' && !InOperator(line, i) && Free(line, i + 1)
    ensures line[i + 1] != '<' && !EndsShift(line, i + 1)
  {
  }

  /** A scan that did not come over the second half of a shift does not stand behind the first. */
  lemma NotHalfway(line: string, n: nat)
    requires 0 < n <= |line| && (n < |line| ==> !EndsShift(line, n))
    ensures !BeginsShift(line, n - 1)
  {
  }

  function WalkForth(t: string, stack: seq<char>): Move {
    if t == [] then Go(stack)
    else match Forth(t[0], stack)
      case Go(s) => WalkForth(t[1..], s)
      case m => m
  }

  lemma {:induction false} WalkForthConcat(t: string, u: string, stack: seq<char>, s: seq<char>)
    requires WalkForth(t, stack) == Go(s)
    ensures WalkForth(t + u, stack) == WalkForth(u, s)
    decreases |t|
  {
    hide Forth;
    if t == [] {
      assert t + u == u;
    } else {
      assert (t + u)[1..] == t[1..] + u && (t + u)[0] == t[0];
      WalkForthConcat(t[1..], u, Forth(t[0], stack).stack, s);
    }
  }

  lemma WalkForthOne(c: char, stack: seq<char>)
    ensures WalkForth([c], stack) == Forth(c, stack)
  {
    assert [c][1..] == [];
  }

  /** A group opens and closes; a character that is none leaves the stack alone. */
  lemma GroupForth(o: char, stack: seq<char>)
    requires stack != [] && OpensGroup(o)
    ensures Forth(o, stack) == Go(stack + [o]) && Forth(CloserOf(o), stack + [o]) == Go(stack)
  {
    assert Pop(stack + [o]) == stack;
  }

  lemma PlainForth(c: char, stack: seq<char>)
    requires stack != [] && !OpensGroup(c) && !IsCloser(c) && c != '>' && !(TopIs(stack, '<') && c == ';')
    ensures Forth(c, stack) == Go(stack)
  {
  }

  lemma {:induction false} TextForth(n: Nest, stack: seq<char>)
    requires stack != [] && Proper(n, Top(stack) == '<')
    ensures WalkForth(Text(n), stack) == Go(stack)
    decreases n
  {
    hide Forth, WalkForth;
    match n
    case Empty => NothingForth(stack);
    case Group(o, inside, rest) =>
      GroupForth(o, stack);
      WalkForthOne(o, stack);
      TextForth(inside, stack + [o]);
      WalkForthConcat([o], Text(inside), stack, stack + [o]);
      WalkForthOne(CloserOf(o), stack + [o]);
      WalkForthConcat([o] + Text(inside), [CloserOf(o)], stack, stack + [o]);
      WalkForthConcat([o] + Text(inside) + [CloserOf(o)], Text(rest), stack, stack);
      TextForth(rest, stack);
    case Plain(c, rest) =>
      PlainForth(c, stack);
      WalkForthOne(c, stack);
      WalkForthConcat([c], Text(rest), stack, stack);
      TextForth(rest, stack);
  }

  lemma NothingForth(stack: seq<char>)
    ensures WalkForth([], stack) == Go(stack)
  {
  }

  lemma CloseFromStep(lines: seq<string>, line: nat, i: nat, stack: seq<char>)
    requires InDoc(lines, line, i)
    ensures match F.ForwardMove(lines[line], i, stack)
      case Go(s) => F.CloseFrom(lines, line, i, stack) == F.CloseFrom(lines, line, i + 1, s)
      case Hit => F.CloseFrom(lines, line, i, stack) == At(line, i + 1)
      case Stuck => F.CloseFrom(lines, line, i, stack) == Nowhere(line)
  {
    hide F.ForwardMove;
  }

  /** A stretch begins with its first character, or where the next line begins. */
  lemma SpanNext(lines: seq<string>, line: nat, toLine: nat, toPos: nat)
    requires line < toLine < |lines| && IsStretch(lines, line, |lines[line]|, toLine, toPos)
    ensures IsStretch(lines, line + 1, 0, toLine, toPos)
    ensures Span(lines, line, |lines[line]|, toLine, toPos) == Span(lines, line + 1, 0, toLine, toPos)
  {
    SpanSplit(lines, line, |lines[line]|, line + 1, 0, toLine, toPos);
    assert Span(lines, line, |lines[line]|, line + 1, 0) == [];
  }

  lemma {:induction false} ForwardReaches(lines: seq<string>, line: nat, i: nat, stack: seq<char>,
                                          toLine: nat, toPos: nat, s: seq<char>)
    requires IsStretch(lines, line, i, toLine, toPos) && InDoc(lines, toLine, toPos)
    requires AllFree(lines, line, i, toLine, toPos) && stack != []
    requires IsStretch(ShownLines(lines), line, i, toLine, toPos)
    requires WalkForth(Span(ShownLines(lines), line, i, toLine, toPos), stack) == Go(s)
    requires Forth(Shown(lines[toLine])[toPos], s) == Hit && !BeginsShift(lines[toLine], toPos)
    requires i < |lines[line]| ==> !EndsShift(lines[line], i)
    ensures F.CloseFrom(lines, line, i, stack) == At(toLine, toPos + 1)
    decreases toLine - line, |lines[line]| - i
  {
    hide Forth, F.ForwardMove, Free, F.CloseFrom, Ignored, BeginsShift;
    var shown := ShownLines(lines);
    assert shown[line] == Shown(lines[line]);
    if i < |lines[line]| && BeginsShift(lines[line], i) {
      OverShift(lines, line, i, stack, toLine, toPos, s);
      ForwardReaches(lines, line, i + 2, stack, toLine, toPos, s);
    } else if line == toLine && i == toPos {
      ForwardMoveIs(lines[line], i, stack);
      CloseFromStep(lines, line, i, stack);
    } else if i < |lines[line]| {
      SpanTail(shown, line, i, toLine, toPos);
      ForwardMoveIs(lines[line], i, stack);
      CloseFromStep(lines, line, i, stack);
      var next := Forth(shown[line][i], stack).stack;
      StaysNonEmpty(shown[line][i], stack);
      ForwardReaches(lines, line, i + 1, next, toLine, toPos, s);
    } else {
      SpanNext(shown, line, toLine, toPos);
      CloseFromNextLine(lines, line, stack);
      ForwardReaches(lines, line + 1, 0, stack, toLine, toPos, s);
    }
  }

  lemma BlankForth(stack: seq<char>)
    ensures Forth(' ', stack) == Go(stack)
  {
  }

  /** The two steps over a shift. */
  lemma OverShift(lines: seq<string>, line: nat, i: nat, stack: seq<char>, toLine: nat, toPos: nat, s: seq<char>)
    requires IsStretch(lines, line, i, toLine, toPos) && InDoc(lines, toLine, toPos) && stack != []
    requires i < |lines[line]| && BeginsShift(lines[line], i)
    requires IsStretch(ShownLines(lines), line, i, toLine, toPos)
    requires WalkForth(Span(ShownLines(lines), line, i, toLine, toPos), stack) == Go(s)
    requires Forth(Shown(lines[toLine])[toPos], s) == Hit && !BeginsShift(lines[toLine], toPos)
    ensures IsStretch(lines, line, i + 2, toLine, toPos) && IsStretch(ShownLines(lines), line, i + 2, toLine, toPos)
    ensures WalkForth(Span(ShownLines(lines), line, i + 2, toLine, toPos), stack) == Go(s)
    ensures F.CloseFrom(lines, line, i, stack) == F.CloseFrom(lines, line, i + 2, stack)
    ensures i + 2 < |lines[line]| ==> !EndsShift(lines[line], i + 2)
  {
    hide Forth, F.ForwardMove, F.CloseFrom;
    var shown := ShownLines(lines);
    ShiftForth(lines[line], i, stack);
    CloseFromStep(lines, line, i, stack);
    CloseFromStep(lines, line, i + 1, stack + ['<']);
    SpanTail(shown, line, i, toLine, toPos);
    BlankForth(s);
    if line == toLine && i + 1 == toPos {
      assert false;
    } else {
      SpanTail(shown, line, i + 1, toLine, toPos);
    }
  }

  lemma StaysNonEmpty(c: char, stack: seq<char>)
    requires stack != [] && Forth(c, stack).Go?
    ensures Forth(c, stack).stack != []
  {
  }

  lemma CloseFromNextLine(lines: seq<string>, line: nat, stack: seq<char>)
    requires line + 1 < |lines| && stack != []
    ensures F.CloseFrom(lines, line, |lines[line]|, stack) == F.CloseFrom(lines, line + 1, 0, stack)
  {
  }

  // ----- backward -----

  function Back(c: char, stack: seq<char>): Move {
    if IsCloser(c) || c == '>' then Go(stack + [c])
    else if c == '<' then
      if !TopIs(stack, '>') then Go(stack)
      else if |stack| == 1 then Hit
      else Go(Pop(stack))
    else if IsOpener(c) then
      var s := DropTop(stack, '>');
      if s == [] || Top(s) != CloseChar(OpenKind(c)) then Stuck
      else if |s| == 1 then Hit
      else Go(Pop(s))
    else if c == ';' then
      var s := DropTop(stack, '>');
      if s == [] then Stuck else Go(s)
    else Go(stack)
  }

  lemma ReverseMoveIs(line: string, i: nat, stack: seq<char>)
    requires i < |line| && Free(line, i) && !BeginsShift(line, i)
    ensures R.ReverseMove(line, i, stack) == Back(Shown(line)[i], stack)
    ensures R.Onward(line, i + 1) == (if EndsPair(line, i) then i - 1 else i) >= 0
  {
    hide EndsWithOperator, DropTop;
  }

  /** The character that a backward scan passes over with the end of a pair has no meaning either. */
  lemma SkippedBack(line: string, i: nat, stack: seq<char>)
    requires i < |line| && EndsPair(line, i)
    ensures i > 0 && Back(Shown(line)[i], stack) == Go(stack) && Back(Shown(line)[i - 1], stack) == Go(stack)
    ensures !EndsShift(line, i - 1)
  {
    hide EndsWithOperator, DropTop;
    if Ignored(line, i) {
      var d := line[i - 1];
      assert d == '-' || d == 'r' || IsSpace(d) by {
        if d != '-' && !IsSpace(d) {
          R.OperatorEnds(line[..i]);
          assert line[..i][i - 1] == d;
        }
      }
    }
  }

  function WalkBack(t: string, stack: seq<char>): Move {
    if t == [] then Go(stack)
    else match Back(Top(t), stack)
      case Go(s) => WalkBack(Pop(t), s)
      case m => m
  }

  lemma {:induction false} WalkBackConcat(t: string, u: string, stack: seq<char>, s: seq<char>)
    requires WalkBack(u, stack) == Go(s)
    ensures WalkBack(t + u, stack) == WalkBack(t, s)
    decreases |u|
  {
    hide Back;
    if u == [] {
      assert t + u == t;
    } else {
      assert Pop(t + u) == t + Pop(u) && Top(t + u) == Top(u);
      WalkBackConcat(t, Pop(u), Back(Top(u), stack).stack, s);
    }
  }

  lemma WalkBackOne(c: char, stack: seq<char>)
    ensures WalkBack([c], stack) == Back(c, stack)
  {
    assert Pop([c]) == [];
  }

  lemma GroupBack(o: char, stack: seq<char>)
    requires stack != [] && OpensGroup(o)
    ensures Back(CloserOf(o), stack) == Go(stack + [CloserOf(o)])
    ensures Back(o, stack + [CloserOf(o)]) == Go(stack)
  {
    assert Pop(stack + [CloserOf(o)]) == stack;
  }

  lemma PlainBack(c: char, stack: seq<char>)
    requires stack != [] && !OpensGroup(c) && !IsCloser(c) && c != '>' && !(TopIs(stack, '>') && c == ';')
    ensures Back(c, stack) == Go(stack)
  {
  }

  lemma {:induction false} TextBack(n: Nest, stack: seq<char>)
    requires stack != [] && Proper(n, Top(stack) == '>')
    ensures WalkBack(Text(n), stack) == Go(stack)
    decreases n
  {
    hide Back, WalkBack;
    match n
    case Empty => NothingBack(stack);
    case Group(o, inside, rest) =>
      var c := CloserOf(o);
      GroupBack(o, stack);
      TextBack(rest, stack);
      WalkBackConcat([o] + Text(inside) + [c], Text(rest), stack, stack);
      WalkBackOne(c, stack);
      WalkBackConcat([o] + Text(inside), [c], stack, stack + [c]);
      TextBack(inside, stack + [c]);
      WalkBackConcat([o], Text(inside), stack + [c], stack + [c]);
      WalkBackOne(o, stack + [c]);
    case Plain(c, rest) =>
      PlainBack(c, stack);
      TextBack(rest, stack);
      WalkBackConcat([c], Text(rest), stack, stack);
      WalkBackOne(c, stack);
  }

  lemma NothingBack(stack: seq<char>)
    ensures WalkBack([], stack) == Go(stack)
  {
  }

  lemma OpenFromStep(lines: seq<string>, line: nat, n: nat, stack: seq<char>)
    requires line < |lines| && 0 < n <= |lines[line]| && R.Onward(lines[line], n) >= 0
    ensures match R.ReverseMove(lines[line], n - 1, stack)
      case Go(s) => R.OpenFrom(lines, line, n, stack) == R.OpenFrom(lines, line, R.Onward(lines[line], n), s)
      case Hit => R.OpenFrom(lines, line, n, stack) == At(line, n - 1)
      case Stuck => R.OpenFrom(lines, line, n, stack) == Nowhere(line)
  {
    hide R.ReverseMove, R.Onward;
  }

  lemma OpenFromPreviousLine(lines: seq<string>, line: nat, stack: seq<char>)
    requires 0 < line < |lines| && stack != []
    ensures R.OpenFrom(lines, line, 0, stack) == R.OpenFrom(lines, line - 1, |lines[line - 1]|, stack)
  {
  }

  lemma SpanPrevious(lines: seq<string>, line: nat, pos: nat, toLine: nat)
    requires line < toLine < |lines| && IsStretch(lines, line, pos, toLine, 0)
    ensures IsStretch(lines, line, pos, toLine - 1, |lines[toLine - 1]|)
    ensures Span(lines, line, pos, toLine, 0) == Span(lines, line, pos, toLine - 1, |lines[toLine - 1]|)
  {
  }

  lemma {:induction false} BackwardReaches(lines: seq<string>, toLine: nat, toPos: nat, line: nat, n: nat,
                                           stack: seq<char>, s: seq<char>)
    requires InDoc(lines, toLine, toPos) && IsStretch(lines, toLine, toPos + 1, line, n)
    requires AllFree(lines, toLine, toPos, line, n) && stack != []
    requires IsStretch(ShownLines(lines), toLine, toPos + 1, line, n)
    requires WalkBack(Span(ShownLines(lines), toLine, toPos + 1, line, n), stack) == Go(s)
    requires Back(Shown(lines[toLine])[toPos], s) == Hit && !InOperator(lines[toLine], toPos)
    requires n < |lines[line]| ==> !EndsShift(lines[line], n)
    ensures R.OpenFrom(lines, line, n, stack) == At(toLine, toPos)
    decreases line - toLine, n
  {
    hide Back, WalkBack, R.ReverseMove, Free, R.OpenFrom, R.Onward, Ignored, BeginsShift, InOperator;
    var shown := ShownLines(lines);
    assert shown[line] == Shown(lines[line]);
    if n > 0 { NotHalfway(lines[line], n); }
    if line == toLine && n == toPos + 1 {
      assert Span(shown, toLine, toPos + 1, line, n) == [];
      NothingBack(stack);
      ReverseMoveIs(lines[line], n - 1, stack);
      OpenFromStep(lines, line, n, stack);
    } else if n > 0 {
      if EndsPair(lines[line], n - 1) {
        SkipsBack(lines, toLine, toPos, line, n, stack, s);
        BackwardReaches(lines, toLine, toPos, line, n - 2, stack, s);
      } else {
        var next := StepsBack(lines, toLine, toPos, line, n, stack, s);
        BackwardReaches(lines, toLine, toPos, line, n - 1, next, s);
      }
    } else {
      SpanPrevious(shown, toLine, toPos + 1, line);
      OpenFromPreviousLine(lines, line, stack);
      BackwardReaches(lines, toLine, toPos, line - 1, |lines[line - 1]|, stack, s);
    }
  }

  /** A step over any other character. */
  lemma StepsBack(lines: seq<string>, toLine: nat, toPos: nat, line: nat, n: nat, stack: seq<char>, s: seq<char>)
    returns (next: seq<char>)
    requires InDoc(lines, toLine, toPos) && IsStretch(lines, toLine, toPos + 1, line, n) && stack != []
    requires 0 < n && !(line == toLine && n == toPos + 1) && !EndsPair(lines[line], n - 1)
    requires Free(lines[line], n - 1) && !BeginsShift(lines[line], n - 1)
    requires IsStretch(ShownLines(lines), toLine, toPos + 1, line, n)
    requires WalkBack(Span(ShownLines(lines), toLine, toPos + 1, line, n), stack) == Go(s)
    ensures next != [] && IsStretch(lines, toLine, toPos + 1, line, n - 1)
    ensures IsStretch(ShownLines(lines), toLine, toPos + 1, line, n - 1)
    ensures WalkBack(Span(ShownLines(lines), toLine, toPos + 1, line, n - 1), next) == Go(s)
    ensures R.OpenFrom(lines, line, n, stack) == R.OpenFrom(lines, line, n - 1, next)
  {
    hide Back, R.ReverseMove, Free, R.OpenFrom, R.Onward, Ignored, BeginsShift, InOperator, Shown;
    var shown := ShownLines(lines);
    assert shown[line] == Shown(lines[line]);
    R.SpanInit(shown, toLine, toPos + 1, line, n - 1);
    ReverseMoveIs(lines[line], n - 1, stack);
    OpenFromStep(lines, line, n, stack);
    next := Back(shown[line][n - 1], stack).stack;
    BackStaysNonEmpty(shown[line][n - 1], stack);
  }

  /** A step over the end of an operator and the character before it. */
  lemma SkipsBack(lines: seq<string>, toLine: nat, toPos: nat, line: nat, n: nat, stack: seq<char>, s: seq<char>)
    requires InDoc(lines, toLine, toPos) && IsStretch(lines, toLine, toPos + 1, line, n)
    requires 0 < n && !(line == toLine && n == toPos + 1) && EndsPair(lines[line], n - 1)
    requires Free(lines[line], n - 1) && !BeginsShift(lines[line], n - 1)
    requires IsStretch(ShownLines(lines), toLine, toPos + 1, line, n)
    requires WalkBack(Span(ShownLines(lines), toLine, toPos + 1, line, n), stack) == Go(s)
    requires Back(Shown(lines[toLine])[toPos], s) == Hit
    ensures n >= 2 && IsStretch(lines, toLine, toPos + 1, line, n - 2)
    ensures IsStretch(ShownLines(lines), toLine, toPos + 1, line, n - 2)
    ensures WalkBack(Span(ShownLines(lines), toLine, toPos + 1, line, n - 2), stack) == Go(s)
    ensures R.OpenFrom(lines, line, n, stack) == R.OpenFrom(lines, line, n - 2, stack)
    ensures !EndsShift(lines[line], n - 2)
  {
    hide Back, R.ReverseMove, Free, R.OpenFrom, R.Onward, Ignored, BeginsShift, InOperator, Shown;
    var shown := ShownLines(lines);
    assert shown[line] == Shown(lines[line]) && shown[toLine] == Shown(lines[toLine]);
    ReverseMoveIs(lines[line], n - 1, stack);
    OpenFromStep(lines, line, n, stack);
    SkippedBack(lines[line], n - 1, stack);
    R.SpanInit(shown, toLine, toPos + 1, line, n - 1);
    if line == toLine && n - 2 == toPos {
      assert false;
    }
    R.SpanInit(shown, toLine, toPos + 1, line, n - 2);
  }

  lemma BackStaysNonEmpty(c: char, stack: seq<char>)
    requires stack != [] && Back(c, stack).Go?
    ensures Back(c, stack).stack != []
  {
  }

  // ----- main results -----

  /** `(line, pos)` and `(toLine, toPos)` are the angle brackets around nested text, and no
      operator pattern applies to them or between them but where both scans ignore a '>'. */
  ghost predicate IsTemplate(lines: seq<string>, line: nat, pos: nat, toLine: nat, toPos: nat, n: Nest) {
    && InDoc(lines, line, pos) && InDoc(lines, toLine, toPos)
    && lines[line][pos] == '<' && lines[toLine][toPos] == '>'
    && !InOperator(lines[line], pos) && !InOperator(lines[toLine], toPos)
    && IsStretch(lines, line, pos + 1, toLine, toPos) && IsStretch(ShownLines(lines), line, pos + 1, toLine, toPos)
    && Span(ShownLines(lines), line, pos + 1, toLine, toPos) == Text(n)
    && Proper(n, true) && AllFree(lines, line, pos, toLine, toPos)
  }

  lemma FirstAndLast()
    ensures Forth('<', []) == Go(['<']) && Forth('>', ['<']) == Hit
  {
    assert [] + ['<'] == ['<'];
  }

  /** Where template brackets nest with the others, the forward scan from the first ends just past
      the last, provided that it is no "<=", where no scan is begun. */
  lemma TemplateCloses(lines: seq<string>, line: nat, pos: nat, toLine: nat, toPos: nat, n: Nest)
    requires IsTemplate(lines, line, pos, toLine, toPos, n)
    ensures F.Close(lines, line, pos)
         == if pos + 1 < |lines[line]| && lines[line][pos + 1] == '=' then Nowhere(line) else At(toLine, toPos + 1)
  {
    hide F.CloseFrom, F.ForwardMove, BeginsShift, Ignored, Free, Forth;
    if pos + 1 < |lines[line]| { LoneBracket(lines[line], pos); }
    TextForth(n, ['<']);
    ForwardMoveIs(lines[line], pos, []);
    FirstAndLast();
    CloseFromStep(lines, line, pos, []);
    ForwardReaches(lines, line, pos + 1, ['<'], toLine, toPos, ['<']);
  }

  /** And the backward scan from the last returns to the first. */
  lemma TemplateOpens(lines: seq<string>, line: nat, pos: nat, toLine: nat, toPos: nat, n: Nest)
    requires IsTemplate(lines, line, pos, toLine, toPos, n)
    ensures R.ReverseClose(lines, toLine, toPos) == At(line, pos)
  {
    hide R.OpenFrom, R.ReverseMove;
    TextBack(n, ['>']);
    ReverseMoveIs(lines[toLine], toPos, []);
    assert [] + ['>'] == ['>'];
    OpenFromStep(lines, toLine, toPos + 1, []);
    assert Back('<', ['>']) == Hit;
    BackwardReaches(lines, line, pos, toLine, toPos, ['>'], ['>']);
  }
}
