/** Backward bracket matching in cpplint: `FindStartOfExpressionInLine` and
    `ReverseCloseExpression`. */
module ReverseMatch {
  import opened Basics
  import opened Brackets
  import opened Lines
  import opened ExprStacks

  /** "->", " >= " and "operator>": not a template bracket. */
  predicate IsGreaterOperator(line: string, i: nat)
    requires i < |line| && line[i] == '>'
  {
    i > 0
    && (line[i - 1] == '-'
        || (IsSpace(line[i - 1]) && i + 2 < |line| && line[i + 1] == '=' && IsSpace(line[i + 2]))
        || EndsWithOperator(line[..i]))
  }

  predicate IsLeftShift(line: string, i: nat)
    requires i < |line| && line[i] == '<'
  {
    i > 0 && line[i - 1] == '<'
  }

  /** An operator consumes the character before it as well. */
  predicate SkipsOne(line: string, i: nat)
    requires i < |line|
  {
    (line[i] == '>' && IsGreaterOperator(line, i)) || (line[i] == '<' && IsLeftShift(line, i))
  }

  /** The effect of `line[i]` on the stack of closers and tentative '>'. */
  function ReverseMove(line: string, i: nat, stack: seq<char>): Move
    requires i < |line|
  {
    var c := line[i];
    if IsCloser(c) then Go(stack + [c])
    else if SkipsOne(line, i) then Go(stack)
    else if c == '>' then Go(stack + [c])
    else if c == '<' then
      if !TopIs(stack, '>') then Go(stack)
      else if |stack| == 1 then Hit
      else Go(Pop(stack))
    else if IsOpener(c) then
      var s := DropTop(stack, '>');
      if s == [] || s[|s| - 1] != CloseChar(OpenKind(c)) then Stuck
      else if |s| == 1 then Hit
      else Go(Pop(s))
    else if c == ';' then
      var s := DropTop(stack, '>');
      if s == [] then Stuck else Go(s)
    else Go(stack)
  }

  /** Where a scan goes on from `n` after a move: an operator's other character is skipped. */
  function Onward(line: string, n: nat): int
    requires 0 < n <= |line|
  {
    if SkipsOne(line, n - 1) then n - 2 else n - 1
  }

  /** Scans the first `n` characters of the line from right to left. */
  function ReverseScan(line: string, n: nat, stack: seq<char>): (r: Scan)
    requires n <= |line|
    ensures r.Found? ==> r.at < n
  {
    if n == 0 then Carry(stack)
    else match ReverseMove(line, n - 1, stack)
      case Go(s) => ReverseScan(line, Onward(line, n), s)
      case Hit => Found(n - 1)
      case Stuck => Failed
  }

  function OpenFrom(lines: seq<string>, line: nat, n: nat, stack: seq<char>): (r: Place)
    requires line < |lines| && n <= |lines[line]|
    ensures r.At? ==> r.line <= line && r.pos < |lines[r.line]|
    ensures r.At? && r.line == line ==> r.pos < n
    ensures r.Nowhere? ==> r.last <= line
    decreases line
  {
    match ReverseScan(lines[line], n, stack)
    case Found(p) => At(line, p)
    case Failed => Nowhere(line)
    case Carry(s) =>
      if s != [] && line > 0 then OpenFrom(lines, line - 1, |lines[line - 1]|, s) else Nowhere(line)
  }

  function ReverseClose(lines: seq<string>, line: nat, pos: nat): Place
    requires InDoc(lines, line, pos)
  {
    if IsCloser(lines[line][pos]) || lines[line][pos] == '>'
    then OpenFrom(lines, line, pos + 1, []) else Nowhere(line)
  }

  // ----- the methods -----

  method FindStartOfExpressionInLine(line: string, endpos: int, stack: ExprStack)
    returns (startPos: int, rest: ExprStack?)
    requires -1 <= endpos < |line|
    modifies stack
    ensures match ReverseScan(line, endpos + 1, old(stack.items))
      case Found(p) => startPos == p && rest == null
      case Failed => startPos == -1 && rest == null
      case Carry(s) => startPos == -1 && rest == stack && stack.items == s
  {
    hide EndsWithOperator, DropTop;
    var i := endpos;
    while i >= 0
      invariant -1 <= i <= endpos
      invariant ReverseScan(line, i + 1, stack.items) == ReverseScan(line, endpos + 1, old(stack.items))
    {
      var c := line[i];
      if IsCloser(c) {
        stack.Append(c);
      } else if c == '>' {
        if IsGreaterOperator(line, i) {
          i := i - 1;
        } else {
          stack.Append('>');
        }
      } else if c == '<' {
        if IsLeftShift(line, i) {
          i := i - 1;
        } else if TopIs(stack.items, '>') {
          stack.RemoveLast();
          if stack.items == [] {
            return i, null;
          }
        }
      } else if IsOpener(c) {
        stack.RemoveWhileTop('>');
        if stack.items == [] {
          return -1, null;
        }
        if stack.items[|stack.items| - 1] == CloseChar(OpenKind(c)) {
          stack.RemoveLast();
          if stack.items == [] {
            return i, null;
          }
        } else {
          return -1, null;
        }
      } else if c == ';' {
        stack.RemoveWhileTop('>');
        if stack.items == [] {
          return -1, null;
        }
      }
      i := i - 1;
    }
    return -1, stack;
  }

  /** The position of the bracket that opens the expression closed at `(linenum, pos)`, or
      `(0, -1)`. */
  method ReverseCloseExpression(lines: seq<string>, linenum: nat, pos: nat)
    returns (line: string, num: nat, startPos: int)
    requires InDoc(lines, linenum, pos)
    ensures match ReverseClose(lines, linenum, pos)
      case At(l, p) => line == lines[l] && num == l && startPos == p
      case Nowhere(l) => line == lines[l] && num == 0 && startPos == -1
    ensures IsCloser(lines[linenum][pos]) ==>
      (startPos >= 0 <==> exists l, p :: Encloses(lines, l, p, linenum, pos))
    ensures IsCloser(lines[linenum][pos]) && startPos >= 0 ==>
      Encloses(lines, num, startPos, linenum, pos)
  {
    hide Encloses, ReverseScan;
    if IsCloser(lines[linenum][pos]) {
      ReverseCloseExact(lines, linenum, pos);
    }
    line := lines[linenum];
    if !(IsCloser(line[pos]) || line[pos] == '>') {
      return line, 0, -1;
    }
    var stack := new ExprStack();
    var rest: ExprStack?;
    startPos, rest := FindStartOfExpressionInLine(line, pos, stack);
    if startPos > -1 {
      return line, linenum, startPos;
    }
    num := linenum;
    while rest != null && rest.items != [] && num > 0
      invariant num <= linenum && line == lines[num]
      invariant rest != null ==> fresh(rest)
      invariant ReverseClose(lines, linenum, pos) ==
        if rest != null && rest.items != [] && num > 0
        then OpenFrom(lines, num - 1, |lines[num - 1]|, rest.items) else Nowhere(num)
      decreases num
    {
      num := num - 1;
      line := lines[num];
      startPos, rest := FindStartOfExpressionInLine(line, |line| - 1, rest);
      if startPos > -1 {
        return line, num, startPos;
      }
    }
    return line, 0, -1;
  }

  // ----- erasure -----

  /** The character `c` moves a backward scan exactly as, turned round, it moves the machine. */
  ghost predicate MovesWith(stack: seq<char>, c: char, m: Move)
    requires stack != []
  {
    var fed := Feed(Live(Above(stack)), Flip(c), stack[0] == '>');
    && (m.Go? ==> m.stack != [] && m.stack[0] == stack[0] && StackOk(m.stack, '>')
                  && fed == Live(Above(m.stack)))
    && (stack[0] != '>' && m.Hit? ==> IsCloser(stack[0]) && fed == Done(CloseKind(stack[0])))
    && (stack[0] != '>' && m.Stuck? ==> IsCloser(stack[0]) && !fed.Live? && fed != Done(CloseKind(stack[0])))
    && (stack[0] == '>' && m.Hit? ==> c == '<' && Above(stack) == [])
  }

  /** An opener against a stack with a bracket on its top. */
  lemma OpenerOnStack(s: seq<char>, c: char)
    requires s != [] && StackOk(s, '>') && s[|s| - 1] != '>' && IsOpener(c)
    ensures var fed := Feed(Live(Above(s)), Flip(c), s[0] == '>');
      if s[|s| - 1] != CloseChar(OpenKind(c)) then
        !fed.Live? && (s[0] != '>' ==> IsCloser(s[0]) && fed != Done(CloseKind(s[0])))
      else if |s| == 1 then IsCloser(s[0]) && fed == Done(CloseKind(s[0]))
      else Pop(s)[0] == s[0] && StackOk(Pop(s), '>') && fed == Live(Above(Pop(s)))
  {
    hide Above;
    var top := s[|s| - 1];
    assert Stackable(top, '>') && Stackable(s[0], '>') && IsCloser(top);
    if |s| > 1 {
      AbovePop(s);
      assert Above(s) == Above(Pop(s)) + [CloseKind(top)];
    } else {
      AboveOne(s);
    }
  }

  lemma OpenerTracks(line: string, i: nat, stack: seq<char>)
    requires i < |line| && stack != [] && StackOk(stack, '>')
    requires IsOpener(line[i])
    ensures MovesWith(stack, line[i], ReverseMove(line, i, stack))
  {
    hide DropTop, Above, StackOk;
    if stack[0] == '>' && Above(stack) == [] {
      DropAll(stack, '>');
    } else {
      DropKeeps(stack, '>');
      OpenerOnStack(DropTop(stack, '>'), line[i]);
    }
  }

  lemma SemicolonTracks(line: string, i: nat, stack: seq<char>)
    requires i < |line| && stack != [] && StackOk(stack, '>')
    requires line[i] == ';'
    ensures MovesWith(stack, line[i], ReverseMove(line, i, stack))
  {
    if stack[0] == '>' && Above(stack) == [] {
      DropAll(stack, '>');
    } else {
      DropKeeps(stack, '>');
    }
  }

  lemma MoveTracks(line: string, i: nat, stack: seq<char>)
    requires i < |line| && stack != [] && StackOk(stack, '>')
    ensures MovesWith(stack, line[i], ReverseMove(line, i, stack))
  {
    if IsOpener(line[i]) {
      OpenerTracks(line, i, stack);
    } else if line[i] == ';' {
      SemicolonTracks(line, i, stack);
    } else if IsCloser(line[i]) {
      PushTracks(stack, line[i]);
    } else {
      AngleTracks(stack, line[i]);
    }
  }

  lemma PushTracks(stack: seq<char>, c: char)
    requires stack != [] && StackOk(stack, '>') && IsCloser(c)
    ensures MovesWith(stack, c, Go(stack + [c]))
  {
    AbovePush(stack, c);
  }

  /** Whatever an angle bracket, or a character of no meaning, does to the stack, the machine
      does not see it. */
  lemma AngleTracks(stack: seq<char>, c: char)
    requires stack != [] && StackOk(stack, '>') && SymOf(c) == []
    ensures MovesWith(stack, c, Go(stack)) && MovesWith(stack, c, Go(stack + ['>']))
    ensures TopIs(stack, '>') && |stack| > 1 ==> MovesWith(stack, c, Go(Pop(stack)))
    ensures TopIs(stack, '>') && |stack| == 1 && c == '<' ==> MovesWith(stack, c, Hit)
  {
    AbovePush(stack, '>');
    if |stack| > 1 { AbovePop(stack); }
  }

  lemma OperatorEnds(s: string)
    requires EndsWithOperator(s)
    ensures s != [] && (IsSpace(s[|s| - 1]) || s[|s| - 1] == 'r')
  {
    if s != [] && !IsSpace(s[|s| - 1]) {
      assert s[|s| - 8..][7] == "operator"[7];
    }
  }

  /** A character that a backward scan skips is no bracket and no semicolon. */
  lemma SkippedIsErased(line: string, i: nat)
    requires i < |line| && SkipsOne(line, i)
    ensures i > 0 && SymOf(line[i - 1]) == [] && Flip(line[i - 1]) == line[i - 1]
  {
    var d := line[i - 1];
    assert d == '-' || d == '<' || d == 'r' || IsSpace(d) by {
      if line[i] == '>' && d != '-' && !IsSpace(d) {
        OperatorEnds(line[..i]);
        assert line[..i][i - 1] == d;
      }
    }
  }

  // ----- what ReverseCloseExpression finds -----

  /** The machine's state when the text from `(l1, p1)` back to `(line, pos)` has been read
      from right to left. */
  function Behind(lines: seq<string>, line: nat, pos: nat, l1: nat, p1: nat, strict: bool): Inner
    requires IsStretch(lines, line, pos, l1, p1)
  {
    FeedAll(Mirror(Span(lines, line, pos, l1, p1)), strict)
  }

  lemma BehindStep(lines: seq<string>, line: nat, pos: nat, l1: nat, p1: nat, strict: bool)
    requires pos > 0 && IsStretch(lines, line, pos, l1, p1)
    ensures IsStretch(lines, line, pos - 1, l1, p1)
    ensures Behind(lines, line, pos - 1, l1, p1, strict)
         == Feed(Behind(lines, line, pos, l1, p1, strict), Flip(lines[line][pos - 1]), strict)
  {
    var c := lines[line][pos - 1];
    SpanSplit(lines, line, pos - 1, line, pos, l1, p1);
    var t, u := Span(lines, line, pos - 1, l1, p1), Span(lines, line, pos, l1, p1);
    assert t == [c] + u;
    assert t[1..] == u;
    assert Mirror(t)[..|Mirror(t)| - 1] == Mirror(u);
  }

  lemma BehindPreviousLine(lines: seq<string>, line: nat, l1: nat, p1: nat, strict: bool)
    requires line > 0 && IsStretch(lines, line, 0, l1, p1)
    ensures IsStretch(lines, line - 1, |lines[line - 1]|, l1, p1)
    ensures Behind(lines, line - 1, |lines[line - 1]|, l1, p1, strict) == Behind(lines, line, 0, l1, p1, strict)
  {
    SpanSplit(lines, line - 1, |lines[line - 1]|, line, 0, l1, p1);
    assert Span(lines, line - 1, |lines[line - 1]|, line, 0) == [];
    assert Span(lines, line - 1, |lines[line - 1]|, l1, p1) == Span(lines, line, 0, l1, p1);
  }

  /** Until the position where the machine is done, it is live. */
  lemma BehindLive(lines: seq<string>, toLine: nat, toPos: nat, line: nat, pos: nat, l1: nat, p1: nat, strict: bool)
    requires IsStretch(lines, toLine, toPos, line, pos) && IsStretch(lines, line, pos, l1, p1)
    requires if toLine < line then toPos < |lines[toLine]| else toPos < pos
    requires IsStretch(lines, toLine, toPos, l1, p1) && Behind(lines, toLine, toPos, l1, p1, strict) != Dead
    ensures Behind(lines, line, pos, l1, p1, strict).Live?
  {
    var a, b := Span(lines, toLine, toPos, line, pos), Span(lines, line, pos, l1, p1);
    SpanSplit(lines, toLine, toPos, line, pos, l1, p1);
    SpanTail(lines, toLine, toPos, line, pos);
    MirrorConcat(a, b);
    MirrorLength(a);
    PrefixLive(Mirror(b), Mirror(a), strict);
  }

  /** A scan that is in step with the machine at `(line, n)`. */
  ghost predicate InStep(lines: seq<string>, line: nat, n: nat, l1: nat, p1: nat, stack: seq<char>) {
    IsStretch(lines, line, n, l1, p1) && stack != [] && StackOk(stack, '>')
    && Behind(lines, line, n, l1, p1, stack[0] == '>') == Live(Above(stack))
  }

  /** What a reported start means: from a bracket, the machine is done there; from a tentative
      '>', the text after the reported '<' is balanced. */
  ghost predicate StartsAt(lines: seq<string>, line: nat, pos: nat, l1: nat, p1: nat, bottom: char) {
    InDoc(lines, line, pos) && IsStretch(lines, line, pos + 1, l1, p1) && IsStretch(lines, line, pos, l1, p1)
    && if bottom == '>'
       then lines[line][pos] == '<' && Behind(lines, line, pos + 1, l1, p1, true) == Live([])
       else IsCloser(bottom) && Behind(lines, line, pos, l1, p1, false) == Done(CloseKind(bottom))
  }

  /** A skipped character leaves the scan in step. */
  lemma SkipTracks(lines: seq<string>, line: nat, i: nat, l1: nat, p1: nat, stack: seq<char>)
    requires line < |lines| && i < |lines[line]| && SkipsOne(lines[line], i)
    requires InStep(lines, line, i, l1, p1, stack)
    ensures i > 0 && InStep(lines, line, i - 1, l1, p1, stack)
  {
    SkippedIsErased(lines[line], i);
    BehindStep(lines, line, i, l1, p1, stack[0] == '>');
  }

  /** Any move made in step with the machine leads to where it is next. */
  lemma StepGoes(lines: seq<string>, line: nat, n: nat, l1: nat, p1: nat, stack: seq<char>, m: Move)
    requires n > 0 && InStep(lines, line, n, l1, p1, stack)
    requires MovesWith(stack, lines[line][n - 1], m) && m.Go?
    ensures m.stack != [] && m.stack[0] == stack[0] && InStep(lines, line, n - 1, l1, p1, m.stack)
  {
    hide Behind;
    BehindStep(lines, line, n, l1, p1, stack[0] == '>');
  }

  lemma StepHits(lines: seq<string>, line: nat, n: nat, l1: nat, p1: nat, stack: seq<char>, m: Move)
    requires n > 0 && InStep(lines, line, n, l1, p1, stack)
    requires MovesWith(stack, lines[line][n - 1], m) && m.Hit?
    ensures StartsAt(lines, line, n - 1, l1, p1, stack[0])
  {
    hide Behind;
    BehindStep(lines, line, n, l1, p1, stack[0] == '>');
  }

  /** From a bracket, the machine says what the move is. */
  lemma StepFollows(lines: seq<string>, line: nat, n: nat, l1: nat, p1: nat, stack: seq<char>, m: Move)
    requires n > 0 && InStep(lines, line, n, l1, p1, stack) && stack[0] != '>'
    requires MovesWith(stack, lines[line][n - 1], m)
    ensures IsStretch(lines, line, n - 1, l1, p1)
    ensures Behind(lines, line, n - 1, l1, p1, false).Live? ==> m.Go?
    ensures IsCloser(stack[0]) && Behind(lines, line, n - 1, l1, p1, false) == Done(CloseKind(stack[0])) ==> m.Hit?
  {
    hide Behind;
    BehindStep(lines, line, n, l1, p1, false);
  }

  lemma OnwardTracks(lines: seq<string>, line: nat, n: nat, l1: nat, p1: nat, stack: seq<char>)
    requires line < |lines| && 0 < n <= |lines[line]| && InStep(lines, line, n - 1, l1, p1, stack)
    ensures Onward(lines[line], n) >= 0 && InStep(lines, line, Onward(lines[line], n), l1, p1, stack)
  {
    hide Behind;
    if SkipsOne(lines[line], n - 1) {
      SkipTracks(lines, line, n - 1, l1, p1, stack);
    }
  }

  /** One step of a scan, over one character or two, keeps step with the machine. */
  lemma MoveKeepsStep(lines: seq<string>, line: nat, n: nat, l1: nat, p1: nat, stack: seq<char>)
    requires n > 0 && InStep(lines, line, n, l1, p1, stack) && ReverseMove(lines[line], n - 1, stack).Go?
    ensures var s := ReverseMove(lines[line], n - 1, stack).stack;
      && s != [] && s[0] == stack[0] && Onward(lines[line], n) >= 0
      && InStep(lines, line, Onward(lines[line], n), l1, p1, s)
  {
    hide Behind, ReverseMove, SkipsOne, MovesWith;
    var m := ReverseMove(lines[line], n - 1, stack);
    MoveTracks(lines[line], n - 1, stack);
    StepGoes(lines, line, n, l1, p1, stack, m);
    OnwardTracks(lines, line, n, l1, p1, m.stack);
  }

  lemma {:induction false} ScanTracks(lines: seq<string>, line: nat, n: nat, l1: nat, p1: nat, stack: seq<char>)
    requires InStep(lines, line, n, l1, p1, stack)
    ensures var r := ReverseScan(lines[line], n, stack);
      && (r.Found? ==> StartsAt(lines, line, r.at, l1, p1, stack[0]))
      && (r.Carry? ==> r.stack != [] && r.stack[0] == stack[0]
                       && InStep(lines, line, 0, l1, p1, r.stack))
    decreases n
  {
    hide Behind;
    if n == 0 {
    } else {
      var m := ReverseMove(lines[line], n - 1, stack);
      if m.Go? {
        MoveKeepsStep(lines, line, n, l1, p1, stack);
        ScanTracks(lines, line, Onward(lines[line], n), l1, p1, m.stack);
      } else if m.Hit? {
        MoveTracks(lines[line], n - 1, stack);
        StepHits(lines, line, n, l1, p1, stack, m);
      }
    }
  }

  /** A scan that is carried to the previous line keeps step there. */
  lemma CarryOver(lines: seq<string>, line: nat, n: nat, l1: nat, p1: nat, stack: seq<char>) returns (s: seq<char>)
    requires InStep(lines, line, n, l1, p1, stack)
    requires line > 0 && ReverseScan(lines[line], n, stack).Carry?
    ensures InStep(lines, line - 1, |lines[line - 1]|, l1, p1, s) && s[0] == stack[0]
    ensures OpenFrom(lines, line, n, stack) == OpenFrom(lines, line - 1, |lines[line - 1]|, s)
  {
    hide Behind;
    ScanTracks(lines, line, n, l1, p1, stack);
    s := ReverseScan(lines[line], n, stack).stack;
    BehindPreviousLine(lines, line, l1, p1, stack[0] == '>');
  }

  lemma {:induction false} OpenFromSound(lines: seq<string>, line: nat, n: nat, l1: nat, p1: nat, stack: seq<char>)
    requires InStep(lines, line, n, l1, p1, stack)
    ensures var r := OpenFrom(lines, line, n, stack);
      r.At? ==> StartsAt(lines, r.line, r.pos, l1, p1, stack[0])
    decreases line
  {
    hide Behind;
    var r := ReverseScan(lines[line], n, stack);
    if r.Found? {
      ScanTracks(lines, line, n, l1, p1, stack);
      assert OpenFrom(lines, line, n, stack) == At(line, r.at);
    } else if r.Failed? || line == 0 {
      assert OpenFrom(lines, line, n, stack).Nowhere?;
    } else {
      var s := CarryOver(lines, line, n, l1, p1, stack);
      OpenFromSound(lines, line - 1, |lines[line - 1]|, l1, p1, s);
      assert OpenFrom(lines, line, n, stack) == OpenFrom(lines, line - 1, |lines[line - 1]|, s);
    }
  }

  /** Before the position where the machine is done, a scan makes a move and keeps in step. */
  lemma Advances(lines: seq<string>, line: nat, n: nat, l1: nat, p1: nat, stack: seq<char>) returns (s: seq<char>)
    requires n > 0 && InStep(lines, line, n, l1, p1, stack) && stack[0] != '>'
    requires IsStretch(lines, line, n - 1, l1, p1) && Behind(lines, line, n - 1, l1, p1, false).Live?
    ensures ReverseMove(lines[line], n - 1, stack) == Go(s) && s != [] && s[0] == stack[0]
    ensures Onward(lines[line], n) >= 0 && InStep(lines, line, Onward(lines[line], n), l1, p1, s)
  {
    hide Behind;
    var m := ReverseMove(lines[line], n - 1, stack);
    MoveTracks(lines[line], n - 1, stack);
    StepFollows(lines, line, n, l1, p1, stack, m);
    MoveKeepsStep(lines, line, n, l1, p1, stack);
    s := m.stack;
  }

  /** And there it stops. */
  lemma Arrives(lines: seq<string>, line: nat, n: nat, l1: nat, p1: nat, stack: seq<char>)
    requires n > 0 && InStep(lines, line, n, l1, p1, stack) && stack[0] != '>'
    requires StartsAt(lines, line, n - 1, l1, p1, stack[0])
    ensures ReverseMove(lines[line], n - 1, stack) == Hit
  {
    hide Behind;
    MoveTracks(lines[line], n - 1, stack);
    StepFollows(lines, line, n, l1, p1, stack, ReverseMove(lines[line], n - 1, stack));
  }

  /** Where a scan is in step, the machine is not done. */
  lemma NotYet(lines: seq<string>, line: nat, n: nat, l1: nat, p1: nat, stack: seq<char>)
    requires InStep(lines, line, n, l1, p1, stack) && stack[0] != '>'
    ensures !StartsAt(lines, line, n, l1, p1, stack[0])
  {
    hide Behind;
  }

  /** A scan does not stop before the position where the machine is done, and stops there. */
  lemma {:induction false} ScanComplete(lines: seq<string>, toLine: nat, p: nat, line: nat, n: nat, l1: nat,
                                        p1: nat, stack: seq<char>, bottom: char)
    requires InStep(lines, line, n, l1, p1, stack) && stack[0] == bottom != '>'
    requires IsStretch(lines, toLine, p, line, n) && (toLine == line ==> p < n)
    requires StartsAt(lines, toLine, p, l1, p1, bottom)
    ensures if line == toLine then ReverseScan(lines[line], n, stack) == Found(p)
            else ReverseScan(lines[line], n, stack).Carry?
    decreases n
  {
    hide Behind;
    if n == 0 {
    } else {
      if toLine < line || p + 1 < n {
        BehindLive(lines, toLine, p, line, n - 1, l1, p1, false);
        var s := Advances(lines, line, n, l1, p1, stack);
        var k := Onward(lines[line], n);
        NotYet(lines, line, k, l1, p1, s);
        ScanComplete(lines, toLine, p, line, k, l1, p1, s, bottom);
      } else {
        Arrives(lines, line, n, l1, p1, stack);
      }
    }
  }

  lemma {:induction false} OpenFromComplete(lines: seq<string>, toLine: nat, p: nat, line: nat, n: nat, l1: nat,
                                            p1: nat, stack: seq<char>, bottom: char)
    requires InStep(lines, line, n, l1, p1, stack) && stack[0] == bottom != '>'
    requires IsStretch(lines, toLine, p, line, n) && (toLine == line ==> p < n)
    requires StartsAt(lines, toLine, p, l1, p1, bottom)
    ensures OpenFrom(lines, line, n, stack) == At(toLine, p)
    decreases line
  {
    hide Behind, ReverseScan, StackOk;
    if toLine == line {
      ScanComplete(lines, line, p, line, n, l1, p1, stack, bottom);
    } else {
      ScanComplete(lines, toLine, p, line, n, l1, p1, stack, bottom);
      var s := CarryOver(lines, line, n, l1, p1, stack);
      OpenFromComplete(lines, toLine, p, line - 1, |lines[line - 1]|, l1, p1, s, bottom);
    }
  }

  /** The text of a stretch without its last character. */
  lemma SpanInit(lines: seq<string>, line: nat, pos: nat, toLine: nat, toPos: nat)
    requires IsStretch(lines, line, pos, toLine, toPos) && InDoc(lines, toLine, toPos)
    ensures IsStretch(lines, line, pos, toLine, toPos + 1)
    ensures var t := Span(lines, line, pos, toLine, toPos + 1);
      t != [] && t[|t| - 1] == lines[toLine][toPos]
      && t[..|t| - 1] == Span(lines, line, pos, toLine, toPos)
  {
  }

  /** Enclosed text is exactly text at whose start the machine, reading back from the closer,
      is done. */
  lemma EnclosesIffStartsAt(lines: seq<string>, line: nat, pos: nat, toLine: nat, toPos: nat)
    requires InDoc(lines, toLine, toPos) && IsCloser(lines[toLine][toPos])
    ensures Encloses(lines, line, pos, toLine, toPos)
       <==> StartsAt(lines, line, pos, toLine, toPos, lines[toLine][toPos])
  {
    hide FeedAll, Balanced;
    FeedNothing(false);
    if InDoc(lines, line, pos) && IsStretch(lines, line, pos, toLine, toPos) {
      SpanInit(lines, line, pos, toLine, toPos);
      EnclosedBothWays(Span(lines, line, pos, toLine, toPos + 1));
      if line == toLine && pos == toPos {
        assert Span(lines, line, pos, toLine, toPos) == [];
      }
    }
    if Encloses(lines, line, pos, toLine, toPos) {
      assert line == toLine ==> |Span(lines, line, pos, toLine, toPos + 1)| == toPos + 1 - pos;
    }
  }

  lemma StartAtCloser(lines: seq<string>, line: nat, pos: nat)
    requires InDoc(lines, line, pos) && (IsCloser(lines[line][pos]) || ReverseMove(lines[line], pos, []) == Go(['>']))
    ensures ReverseClose(lines, line, pos) == OpenFrom(lines, line, pos, [lines[line][pos]])
    ensures InStep(lines, line, pos, line, pos, [lines[line][pos]])
  {
    assert [] + [lines[line][pos]] == [lines[line][pos]];
    assert ReverseScan(lines[line], pos + 1, []) == ReverseScan(lines[line], pos, [lines[line][pos]]);
    assert Span(lines, line, pos, line, pos) == [];
  }

  /** Soundness and completeness of the backward search from a closing bracket. */
  lemma ReverseCloseIffEncloses(lines: seq<string>, line: nat, pos: nat, toLine: nat, toPos: nat)
    requires InDoc(lines, toLine, toPos) && IsCloser(lines[toLine][toPos])
    ensures ReverseClose(lines, toLine, toPos) == At(line, pos) <==> Encloses(lines, line, pos, toLine, toPos)
  {
    hide Behind;
    var c := lines[toLine][toPos];
    StartAtCloser(lines, toLine, toPos);
    EnclosesIffStartsAt(lines, line, pos, toLine, toPos);
    if ReverseClose(lines, toLine, toPos) == At(line, pos) {
      OpenFromSound(lines, toLine, toPos, toLine, toPos, [c]);
    }
    if Encloses(lines, line, pos, toLine, toPos) {
      assert line == toLine ==> pos < toPos;
      OpenFromComplete(lines, line, pos, toLine, toPos, toLine, toPos, [c], c);
    }
  }

  lemma ReverseCloseExact(lines: seq<string>, line: nat, pos: nat)
    requires InDoc(lines, line, pos) && IsCloser(lines[line][pos])
    ensures ReverseClose(lines, line, pos).At? <==> exists l, p :: Encloses(lines, l, p, line, pos)
    ensures var r := ReverseClose(lines, line, pos); r.At? ==> Encloses(lines, r.line, r.pos, line, pos)
  {
    hide Behind;
    var r := ReverseClose(lines, line, pos);
    if r.At? {
      ReverseCloseIffEncloses(lines, r.line, r.pos, line, pos);
    }
    if exists l, p :: Encloses(lines, l, p, line, pos) {
      var l, p :| Encloses(lines, l, p, line, pos);
      ReverseCloseIffEncloses(lines, l, p, line, pos);
    }
  }

  lemma StartsBalanced(lines: seq<string>, line: nat, pos: nat, l1: nat, p1: nat)
    requires StartsAt(lines, line, pos, l1, p1, '>')
    ensures lines[line][pos] == '<' && Balanced(Span(lines, line, pos + 1, l1, p1), true)
  {
    var t := Span(lines, line, pos + 1, l1, p1);
    BalancedIff(Mirror(t), true);
    MirrorBalanced(t, true);
  }

  /** A template bracket matched backwards never cuts across structure either. */
  lemma TemplateBalanced(lines: seq<string>, line: nat, pos: nat)
    requires InDoc(lines, line, pos) && ReverseMove(lines[line], pos, []) == Go(['>'])
    ensures var r := ReverseClose(lines, line, pos);
      r.At? ==>
        lines[r.line][r.pos] == '<' && IsStretch(lines, r.line, r.pos + 1, line, pos)
        && Balanced(Span(lines, r.line, r.pos + 1, line, pos), true)
  {
    hide Behind, Balanced;
    var r := ReverseClose(lines, line, pos);
    if r.At? {
      StartAtCloser(lines, line, pos);
      OpenFromSound(lines, line, pos, line, pos, ['>']);
      StartsBalanced(lines, r.line, r.pos, line, pos);
    }
  }
}
