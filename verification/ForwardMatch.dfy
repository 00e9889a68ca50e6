/** Forward bracket matching in cpplint: `FindEndOfExpressionInLine` and `CloseExpression`. */
module ForwardMatch {
  import opened Basics
  import opened Brackets
  import opened Lines
  import opened ExprStacks

  /** The effect of `line[i]` on the stack of openers and tentative '<'. */
  function ForwardMove(line: string, i: nat, stack: seq<char>): Move
    requires i < |line|
  {
    var c := line[i];
    if IsOpener(c) then Go(stack + [c])
    else if c == '<' then
      if i > 0 && line[i - 1] == '<' then
        if !TopIs(stack, '<') then Go(stack)
        else if |stack| == 1 then Stuck
        else Go(Pop(stack))
      else if i > 0 && EndsWithOperator(line[..i]) then Go(stack)
      else Go(stack + [c])
    else if IsCloser(c) then
      var s := DropTop(stack, '<');
      if s == [] || s[|s| - 1] != OpenChar(CloseKind(c)) then Stuck
      else if |s| == 1 then Hit
      else Go(Pop(s))
    else if c == '>' then
      if i > 0 && (line[i - 1] == '-' || EndsWithOperator(line[..i - 1])) then Go(stack)
      else if !TopIs(stack, '<') then Go(stack)
      else if |stack| == 1 then Hit
      else Go(Pop(stack))
    else if c == ';' then
      var s := DropTop(stack, '<');
      if s == [] then Stuck else Go(s)
    else Go(stack)
  }

  function ForwardScan(line: string, i: nat, stack: seq<char>): (r: Scan)
    ensures r.Found? ==> i < r.at <= |line|
    decreases |line| - i
  {
    if i >= |line| then Carry(stack)
    else match ForwardMove(line, i, stack)
      case Go(s) => ForwardScan(line, i + 1, s)
      case Hit => Found(i + 1)
      case Stuck => Failed
  }

  function CloseFrom(lines: seq<string>, line: nat, i: nat, stack: seq<char>): (r: Place)
    requires line < |lines|
    ensures r.At? ==> line <= r.line < |lines| && 0 < r.pos <= |lines[r.line]|
    ensures r.At? && r.line == line ==> i < r.pos
    ensures r.Nowhere? ==> line <= r.last < |lines|
    decreases |lines| - line
  {
    match ForwardScan(lines[line], i, stack)
    case Found(e) => At(line, e)
    case Failed => Nowhere(line)
    case Carry(s) =>
      if s != [] && line + 1 < |lines| then CloseFrom(lines, line + 1, 0, s) else Nowhere(line)
  }

  /** A scan starts only at a bracket, or at a '<' that is not the start of "<<" or "<=". */
  predicate StartsForward(line: string, pos: nat)
    requires pos < |line|
  {
    (IsOpener(line[pos]) || line[pos] == '<')
    && !(line[pos] == '<' && pos + 1 < |line| && (line[pos + 1] == '<' || line[pos + 1] == '='))
  }

  function Close(lines: seq<string>, line: nat, pos: nat): Place
    requires InDoc(lines, line, pos)
  {
    if StartsForward(lines[line], pos) then CloseFrom(lines, line, pos, []) else Nowhere(line)
  }

  // ----- the methods -----

  /** Scans one line.  The caller's stack object is changed in place and handed back only
      when the scan goes on to the next line. */
  method FindEndOfExpressionInLine(line: string, startpos: nat, stack: ExprStack)
    returns (endPos: int, rest: ExprStack?)
    modifies stack
    ensures match ForwardScan(line, startpos, old(stack.items))
      case Found(e) => endPos == e && rest == null
      case Failed => endPos == -1 && rest == null
      case Carry(s) => endPos == -1 && rest == stack && stack.items == s
  {
    hide EndsWithOperator, DropTop;
    var i := startpos;
    while i < |line|
      invariant ForwardScan(line, i, stack.items) == ForwardScan(line, startpos, old(stack.items))
    {
      var c := line[i];
      if IsOpener(c) {
        stack.Append(c);
      } else if c == '<' {
        if i > 0 && line[i - 1] == '<' {
          if TopIs(stack.items, '<') {
            stack.RemoveLast();
            if stack.items == [] {
              return -1, null;
            }
          }
        } else if i > 0 && EndsWithOperator(line[..i]) {
        } else {
          stack.Append('<');
        }
      } else if IsCloser(c) {
        stack.RemoveWhileTop('<');
        if stack.items == [] {
          return -1, null;
        }
        if stack.items[|stack.items| - 1] == OpenChar(CloseKind(c)) {
          stack.RemoveLast();
          if stack.items == [] {
            return i + 1, null;
          }
        } else {
          return -1, null;
        }
      } else if c == '>' {
        if i > 0 && (line[i - 1] == '-' || EndsWithOperator(line[..i - 1])) {
        } else if TopIs(stack.items, '<') {
          stack.RemoveLast();
          if stack.items == [] {
            return i + 1, null;
          }
        }
      } else if c == ';' {
        stack.RemoveWhileTop('<');
        if stack.items == [] {
          return -1, null;
        }
      }
      i := i + 1;
    }
    return -1, stack;
  }

  /** The position just past the closing of the expression at `(linenum, pos)`, or
      `(len(lines), -1)`. */
  method CloseExpression(lines: seq<string>, linenum: nat, pos: nat)
    returns (line: string, num: nat, endPos: int)
    requires InDoc(lines, linenum, pos)
    ensures match Close(lines, linenum, pos)
      case At(l, e) => line == lines[l] && num == l && endPos == e
      case Nowhere(l) => line == lines[l] && num == |lines| && endPos == -1
    ensures IsOpener(lines[linenum][pos]) ==>
      (endPos >= 0 <==> exists l, q :: Encloses(lines, linenum, pos, l, q))
    ensures IsOpener(lines[linenum][pos]) && endPos >= 0 ==>
      endPos >= 1 && Encloses(lines, linenum, pos, num, endPos - 1)
  {
    hide Encloses, ForwardScan;
    if IsOpener(lines[linenum][pos]) {
      CloseExpressionExact(lines, linenum, pos);
    }
    line := lines[linenum];
    if !StartsForward(line, pos) {
      return line, |lines|, -1;
    }
    var stack := new ExprStack();
    var rest: ExprStack?;
    endPos, rest := FindEndOfExpressionInLine(line, pos, stack);
    if endPos > -1 {
      return line, linenum, endPos;
    }
    num := linenum;
    while rest != null && rest.items != [] && num < |lines| - 1
      invariant linenum <= num < |lines| && line == lines[num]
      invariant rest != null ==> fresh(rest)
      invariant Close(lines, linenum, pos) ==
        if rest != null && rest.items != [] && num < |lines| - 1
        then CloseFrom(lines, num + 1, 0, rest.items) else Nowhere(num)
      decreases |lines| - num
    {
      num := num + 1;
      line := lines[num];
      endPos, rest := FindEndOfExpressionInLine(line, 0, rest);
      if endPos > -1 {
        return line, num, endPos;
      }
    }
    return line, |lines|, -1;
  }

  // ----- erasure: with a bracket at the bottom, angle brackets cannot matter -----

  /** The character `c` moves a scan from `stack` exactly as it moves the machine on erased text. */
  ghost predicate MovesWith(stack: seq<char>, c: char, m: Move)
    requires stack != []
  {
    var fed := Feed(Live(Above(stack)), c, stack[0] == '<');
    && (m.Go? ==> m.stack != [] && m.stack[0] == stack[0] && StackOk(m.stack, '<')
                  && fed == Live(Above(m.stack)))
    && (stack[0] != '<' && m.Hit? ==> IsOpener(stack[0]) && fed == Done(OpenKind(stack[0])))
    && (stack[0] != '<' && m.Stuck? ==> IsOpener(stack[0]) && !fed.Live? && fed != Done(OpenKind(stack[0])))
    && (stack[0] == '<' && m.Hit? ==> c == '>' && Above(stack) == [])
  }

  /** A closer against a stack with a bracket on its top. */
  lemma CloserOnStack(s: seq<char>, c: char)
    requires s != [] && StackOk(s, '<') && s[|s| - 1] != '<' && IsCloser(c)
    ensures var fed := Feed(Live(Above(s)), c, s[0] == '<');
      if s[|s| - 1] != OpenChar(CloseKind(c)) then
        !fed.Live? && (s[0] != '<' ==> IsOpener(s[0]) && fed != Done(OpenKind(s[0])))
      else if |s| == 1 then IsOpener(s[0]) && fed == Done(OpenKind(s[0]))
      else Pop(s)[0] == s[0] && StackOk(Pop(s), '<') && fed == Live(Above(Pop(s)))
  {
    hide Above;
    var top := s[|s| - 1];
    assert Stackable(top, '<') && Stackable(s[0], '<') && IsOpener(top);
    if |s| > 1 {
      AbovePop(s);
      assert Above(s) == Above(Pop(s)) + [OpenKind(top)];
    } else {
      AboveOne(s);
    }
  }

  lemma CloserTracks(line: string, i: nat, stack: seq<char>)
    requires i < |line| && stack != [] && StackOk(stack, '<')
    requires IsCloser(line[i])
    ensures MovesWith(stack, line[i], ForwardMove(line, i, stack))
  {
    hide DropTop, Above, StackOk;
    if stack[0] == '<' && Above(stack) == [] {
      DropAll(stack, '<');
    } else {
      DropKeeps(stack, '<');
      CloserOnStack(DropTop(stack, '<'), line[i]);
    }
  }

  lemma SemicolonTracks(line: string, i: nat, stack: seq<char>)
    requires i < |line| && stack != [] && StackOk(stack, '<')
    requires line[i] == ';'
    ensures MovesWith(stack, line[i], ForwardMove(line, i, stack))
  {
    if stack[0] == '<' && Above(stack) == [] {
      DropAll(stack, '<');
    } else {
      DropKeeps(stack, '<');
    }
  }

  lemma MoveTracks(line: string, i: nat, stack: seq<char>)
    requires i < |line| && stack != [] && StackOk(stack, '<')
    ensures MovesWith(stack, line[i], ForwardMove(line, i, stack))
  {
    if IsCloser(line[i]) {
      CloserTracks(line, i, stack);
    } else if line[i] == ';' {
      SemicolonTracks(line, i, stack);
    } else if IsOpener(line[i]) {
      PushTracks(stack, line[i]);
    } else {
      AngleTracks(stack, line[i]);
    }
  }

  lemma PushTracks(stack: seq<char>, c: char)
    requires stack != [] && StackOk(stack, '<') && IsOpener(c)
    ensures MovesWith(stack, c, Go(stack + [c]))
  {
    AbovePush(stack, c);
  }

  /** Whatever an angle bracket, or a character of no meaning, does to the stack, the machine
      does not see it. */
  lemma AngleTracks(stack: seq<char>, c: char)
    requires stack != [] && StackOk(stack, '<') && SymOf(c) == []
    ensures MovesWith(stack, c, Go(stack)) && MovesWith(stack, c, Go(stack + ['<']))
    ensures TopIs(stack, '<') && |stack| > 1 ==> MovesWith(stack, c, Go(Pop(stack)))
    ensures TopIs(stack, '<') && |stack| == 1 ==> MovesWith(stack, c, Stuck) && (c == '>' ==> MovesWith(stack, c, Hit))
  {
    AbovePush(stack, '<');
    if |stack| > 1 { AbovePop(stack); }
  }

  // ----- what CloseExpression finds -----

  /** The machine's state at `(line, pos)`, having read from `(l0, p0)`. */
  function Inside(lines: seq<string>, l0: nat, p0: nat, line: nat, pos: nat, strict: bool): Inner
    requires IsStretch(lines, l0, p0, line, pos)
  {
    FeedAll(Span(lines, l0, p0, line, pos), strict)
  }

  lemma InsideStep(lines: seq<string>, l0: nat, p0: nat, line: nat, pos: nat, strict: bool)
    requires IsStretch(lines, l0, p0, line, pos) && pos < |lines[line]|
    ensures IsStretch(lines, l0, p0, line, pos + 1)
    ensures Inside(lines, l0, p0, line, pos + 1, strict)
         == Feed(Inside(lines, l0, p0, line, pos, strict), lines[line][pos], strict)
  {
    var t := Span(lines, l0, p0, line, pos + 1);
    assert t[..|t| - 1] == Span(lines, l0, p0, line, pos);
  }

  lemma InsideNextLine(lines: seq<string>, l0: nat, p0: nat, line: nat, strict: bool)
    requires line + 1 < |lines| && IsStretch(lines, l0, p0, line, |lines[line]|)
    ensures IsStretch(lines, l0, p0, line + 1, 0)
    ensures Inside(lines, l0, p0, line + 1, 0, strict) == Inside(lines, l0, p0, line, |lines[line]|, strict)
  {
    assert Span(lines, l0, p0, line + 1, 0) == Span(lines, l0, p0, line, |lines[line]|);
  }

  /** Until the position where the machine is done, it is live. */
  lemma InsideLive(lines: seq<string>, l0: nat, p0: nat, line: nat, pos: nat, toLine: nat, toPos: nat, strict: bool)
    requires IsStretch(lines, l0, p0, line, pos) && IsStretch(lines, line, pos, toLine, toPos)
    requires if line < toLine then toPos > 0 else pos < toPos
    requires IsStretch(lines, l0, p0, toLine, toPos) && Inside(lines, l0, p0, toLine, toPos, strict) != Dead
    ensures Inside(lines, l0, p0, line, pos, strict).Live?
  {
    SpanSplit(lines, l0, p0, line, pos, toLine, toPos);
    SpanNonEmpty(lines, line, pos, toLine, toPos);
    PrefixLive(Span(lines, l0, p0, line, pos), Span(lines, line, pos, toLine, toPos), strict);
  }

  /** A scan that is in step with the machine at `(line, i)`. */
  ghost predicate InStep(lines: seq<string>, l0: nat, p0: nat, line: nat, i: nat, stack: seq<char>) {
    IsStretch(lines, l0, p0, line, i) && stack != [] && StackOk(stack, '<')
    && Inside(lines, l0, p0, line, i, stack[0] == '<') == Live(Above(stack))
  }

  /** What a reported end means: from a bracket, the machine is done there; from a tentative
      '<', the text before the reported '>' is balanced. */
  ghost predicate EndsAt(lines: seq<string>, l0: nat, p0: nat, line: nat, pos: nat, bottom: char) {
    pos > 0 && IsStretch(lines, l0, p0, line, pos) && IsStretch(lines, l0, p0, line, pos - 1)
    && if bottom == '<'
       then lines[line][pos - 1] == '>' && Inside(lines, l0, p0, line, pos - 1, true) == Live([])
       else IsOpener(bottom) && Inside(lines, l0, p0, line, pos, false) == Done(OpenKind(bottom))
  }

  /** Any move made in step with the machine leads to where it is next. */
  lemma StepGoes(lines: seq<string>, l0: nat, p0: nat, line: nat, i: nat, stack: seq<char>, m: Move)
    requires InStep(lines, l0, p0, line, i, stack) && i < |lines[line]|
    requires MovesWith(stack, lines[line][i], m) && m.Go?
    ensures m.stack != [] && m.stack[0] == stack[0] && InStep(lines, l0, p0, line, i + 1, m.stack)
  {
    hide Inside;
    InsideStep(lines, l0, p0, line, i, stack[0] == '<');
  }

  lemma StepHits(lines: seq<string>, l0: nat, p0: nat, line: nat, i: nat, stack: seq<char>, m: Move)
    requires InStep(lines, l0, p0, line, i, stack) && i < |lines[line]|
    requires MovesWith(stack, lines[line][i], m) && m.Hit?
    ensures EndsAt(lines, l0, p0, line, i + 1, stack[0])
  {
    hide Inside;
    InsideStep(lines, l0, p0, line, i, stack[0] == '<');
  }

  /** From a bracket, the machine says what the move is. */
  lemma StepFollows(lines: seq<string>, l0: nat, p0: nat, line: nat, i: nat, stack: seq<char>, m: Move)
    requires InStep(lines, l0, p0, line, i, stack) && stack[0] != '<' && i < |lines[line]|
    requires MovesWith(stack, lines[line][i], m)
    ensures IsStretch(lines, l0, p0, line, i + 1)
    ensures Inside(lines, l0, p0, line, i + 1, false).Live? ==> m.Go?
    ensures IsOpener(stack[0]) && Inside(lines, l0, p0, line, i + 1, false) == Done(OpenKind(stack[0])) ==> m.Hit?
  {
    hide Inside;
    InsideStep(lines, l0, p0, line, i, false);
  }

  /** One line of a scan keeps step with the machine on erased text. */
  lemma {:induction false} ScanTracks(lines: seq<string>, l0: nat, p0: nat, line: nat, i: nat, stack: seq<char>)
    requires InStep(lines, l0, p0, line, i, stack)
    ensures var r := ForwardScan(lines[line], i, stack);
      && (r.Found? ==> EndsAt(lines, l0, p0, line, r.at, stack[0]))
      && (r.Carry? ==> r.stack != [] && r.stack[0] == stack[0]
                       && InStep(lines, l0, p0, line, |lines[line]|, r.stack))
    decreases |lines[line]| - i
  {
    hide Inside;
    if i == |lines[line]| {
    } else {
      var m := ForwardMove(lines[line], i, stack);
      MoveTracks(lines[line], i, stack);
      if m.Go? {
        StepGoes(lines, l0, p0, line, i, stack, m);
        ScanTracks(lines, l0, p0, line, i + 1, m.stack);
      } else if m.Hit? {
        StepHits(lines, l0, p0, line, i, stack, m);
      }
    }
  }

  /** A scan that is carried to the next line keeps step there. */
  lemma CarryOver(lines: seq<string>, l0: nat, p0: nat, line: nat, i: nat, stack: seq<char>) returns (s: seq<char>)
    requires InStep(lines, l0, p0, line, i, stack)
    requires line + 1 < |lines| && ForwardScan(lines[line], i, stack).Carry?
    ensures InStep(lines, l0, p0, line + 1, 0, s) && s[0] == stack[0]
    ensures CloseFrom(lines, line, i, stack) == CloseFrom(lines, line + 1, 0, s)
  {
    hide Inside;
    ScanTracks(lines, l0, p0, line, i, stack);
    s := ForwardScan(lines[line], i, stack).stack;
    InsideNextLine(lines, l0, p0, line, stack[0] == '<');
  }

  lemma {:induction false} CloseFromSound(lines: seq<string>, l0: nat, p0: nat, line: nat, i: nat, stack: seq<char>)
    requires InStep(lines, l0, p0, line, i, stack)
    ensures var r := CloseFrom(lines, line, i, stack);
      r.At? ==> EndsAt(lines, l0, p0, r.line, r.pos, stack[0])
    decreases |lines| - line
  {
    hide Inside;
    var r := ForwardScan(lines[line], i, stack);
    if r.Found? {
      ScanTracks(lines, l0, p0, line, i, stack);
      assert CloseFrom(lines, line, i, stack) == At(line, r.at);
    } else if r.Failed? || line + 1 == |lines| {
      assert CloseFrom(lines, line, i, stack).Nowhere?;
    } else {
      var s := CarryOver(lines, l0, p0, line, i, stack);
      CloseFromSound(lines, l0, p0, line + 1, 0, s);
    }
  }

  /** Before the position where the machine is done, a scan makes a move and keeps in step. */
  lemma Advances(lines: seq<string>, l0: nat, p0: nat, line: nat, i: nat, stack: seq<char>) returns (s: seq<char>)
    requires InStep(lines, l0, p0, line, i, stack) && stack[0] != '<' && i < |lines[line]|
    requires IsStretch(lines, l0, p0, line, i + 1) && Inside(lines, l0, p0, line, i + 1, false).Live?
    ensures ForwardMove(lines[line], i, stack) == Go(s)
    ensures InStep(lines, l0, p0, line, i + 1, s) && s[0] == stack[0]
  {
    hide Inside;
    var m := ForwardMove(lines[line], i, stack);
    MoveTracks(lines[line], i, stack);
    StepFollows(lines, l0, p0, line, i, stack, m);
    StepGoes(lines, l0, p0, line, i, stack, m);
    s := m.stack;
  }

  /** And there it stops. */
  lemma Arrives(lines: seq<string>, l0: nat, p0: nat, line: nat, i: nat, stack: seq<char>)
    requires InStep(lines, l0, p0, line, i, stack) && stack[0] != '<' && i < |lines[line]|
    requires EndsAt(lines, l0, p0, line, i + 1, stack[0])
    ensures ForwardMove(lines[line], i, stack) == Hit
  {
    hide Inside;
    MoveTracks(lines[line], i, stack);
    StepFollows(lines, l0, p0, line, i, stack, ForwardMove(lines[line], i, stack));
  }

  /** A scan does not stop before the position where the machine is done, and stops there. */
  lemma {:induction false} ScanComplete(lines: seq<string>, l0: nat, p0: nat, line: nat, i: nat, stack: seq<char>,
                                        toLine: nat, e: nat, bottom: char)
    requires InStep(lines, l0, p0, line, i, stack) && stack[0] == bottom != '<'
    requires IsStretch(lines, line, i, toLine, e) && (if line < toLine then e > 0 else i < e)
    requires EndsAt(lines, l0, p0, toLine, e, bottom)
    ensures if line == toLine then ForwardScan(lines[line], i, stack) == Found(e)
            else ForwardScan(lines[line], i, stack).Carry?
    decreases |lines[line]| - i
  {
    hide Inside;
    if i == |lines[line]| {
    } else {
      if line < toLine || i + 1 < e {
        InsideLive(lines, l0, p0, line, i + 1, toLine, e, false);
        var s := Advances(lines, l0, p0, line, i, stack);
        ScanComplete(lines, l0, p0, line, i + 1, s, toLine, e, bottom);
      } else {
        Arrives(lines, l0, p0, line, i, stack);
      }
    }
  }

  lemma {:induction false} CloseFromComplete(lines: seq<string>, l0: nat, p0: nat, line: nat, i: nat, stack: seq<char>,
                                             toLine: nat, e: nat, bottom: char)
    requires InStep(lines, l0, p0, line, i, stack) && stack[0] == bottom != '<'
    requires IsStretch(lines, line, i, toLine, e) && (if line < toLine then e > 0 else i < e)
    requires EndsAt(lines, l0, p0, toLine, e, bottom)
    ensures CloseFrom(lines, line, i, stack) == At(toLine, e)
    decreases |lines| - line
  {
    hide Inside, ForwardScan, StackOk;
    if line == toLine {
      ScanComplete(lines, l0, p0, line, i, stack, line, e, bottom);
    } else {
      ScanComplete(lines, l0, p0, line, i, stack, toLine, e, bottom);
      var s := CarryOver(lines, l0, p0, line, i, stack);
      CloseFromComplete(lines, l0, p0, line + 1, 0, s, toLine, e, bottom);
    }
  }

  /** The first character of a scan goes to the bottom of the stack. */
  lemma StartAtOpener(lines: seq<string>, line: nat, pos: nat)
    requires InDoc(lines, line, pos) && IsOpener(lines[line][pos])
    ensures Close(lines, line, pos) == CloseFrom(lines, line, pos + 1, [lines[line][pos]])
    ensures InStep(lines, line, pos + 1, line, pos + 1, [lines[line][pos]])
  {
    assert [] + [lines[line][pos]] == [lines[line][pos]];
    assert ForwardScan(lines[line], pos, []) == ForwardScan(lines[line], pos + 1, [lines[line][pos]]);
  }

  /** Enclosed text is exactly text at whose end the machine, started after the opener, is done. */
  lemma EnclosesIffEndsAt(lines: seq<string>, line: nat, pos: nat, toLine: nat, toPos: nat)
    requires InDoc(lines, line, pos) && IsOpener(lines[line][pos])
    ensures Encloses(lines, line, pos, toLine, toPos)
       <==> EndsAt(lines, line, pos + 1, toLine, toPos + 1, lines[line][pos])
  {
    hide FeedAll, Balanced;
    FeedNothing(false);
    if IsStretch(lines, line, pos, toLine, toPos + 1) && (line < toLine || pos <= toPos) {
      SpanTail(lines, line, pos, toLine, toPos + 1);
      EnclosedBothWays(Span(lines, line, pos, toLine, toPos + 1));
      if line == toLine && pos == toPos {
        assert Span(lines, line, pos + 1, toLine, toPos + 1) == [];
      }
    }
  }

  /** Soundness and completeness from a round, square or curly bracket: the end that
      `CloseExpression` returns is the one whose text is enclosed, and it returns none only
      when no such text exists, whatever '<', '>' and ';' lie between. */
  lemma CloseIffEncloses(lines: seq<string>, line: nat, pos: nat, toLine: nat, toPos: nat)
    requires InDoc(lines, line, pos) && IsOpener(lines[line][pos])
    ensures Close(lines, line, pos) == At(toLine, toPos + 1) <==> Encloses(lines, line, pos, toLine, toPos)
  {
    hide Inside;
    var c := lines[line][pos];
    StartAtOpener(lines, line, pos);
    EnclosesIffEndsAt(lines, line, pos, toLine, toPos);
    if Close(lines, line, pos) == At(toLine, toPos + 1) {
      CloseFromSound(lines, line, pos + 1, line, pos + 1, [c]);
    }
    if Encloses(lines, line, pos, toLine, toPos) {
      assert line == toLine ==> pos + 1 < toPos + 1;
      CloseFromComplete(lines, line, pos + 1, line, pos + 1, [c], toLine, toPos + 1, c);
    }
  }

  lemma CloseExpressionExact(lines: seq<string>, line: nat, pos: nat)
    requires InDoc(lines, line, pos) && IsOpener(lines[line][pos])
    ensures Close(lines, line, pos).At? <==> exists l, q :: Encloses(lines, line, pos, l, q)
    ensures var r := Close(lines, line, pos); r.At? ==> Encloses(lines, line, pos, r.line, r.pos - 1)
  {
    hide Inside;
    var r := Close(lines, line, pos);
    if r.At? {
      CloseIffEncloses(lines, line, pos, r.line, r.pos - 1);
    }
    if exists l, q :: Encloses(lines, line, pos, l, q) {
      var l, q :| Encloses(lines, line, pos, l, q);
      CloseIffEncloses(lines, line, pos, l, q);
    }
  }

  /** A matched template bracket never cuts across structure: between a tentative '<' and the
      '>' that `CloseExpression` matches it with, the text is balanced in round, square and
      curly brackets and has no semicolon outside them, across any number of lines. */
  lemma TemplateBalanced(lines: seq<string>, line: nat, pos: nat)
    requires InDoc(lines, line, pos) && ForwardMove(lines[line], pos, []) == Go(['<'])
    ensures var r := Close(lines, line, pos);
      r.At? ==>
        r.pos > 0 && lines[r.line][r.pos - 1] == '>'
        && IsStretch(lines, line, pos + 1, r.line, r.pos - 1)
        && Balanced(Span(lines, line, pos + 1, r.line, r.pos - 1), true)
  {
    var r := Close(lines, line, pos);
    if r.At? {
      assert InStep(lines, line, pos + 1, line, pos + 1, ['<']);
      assert ForwardScan(lines[line], pos, []) == ForwardScan(lines[line], pos + 1, ['<']);
      CloseFromSound(lines, line, pos + 1, line, pos + 1, ['<']);
      BalancedIff(Span(lines, line, pos + 1, r.line, r.pos - 1), true);
    }
  }
}
