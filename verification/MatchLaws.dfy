/** How cpplint's three bracket matchers relate, and the template-argument scan built on one
    of them. */
module MatchLaws {
  import opened Basics
  import opened Brackets
  import opened Lines
  import opened ExprStacks
  import F = ForwardMatch
  import R = ReverseMatch

  /** Forward and backward matching are mutually inverse on every document: the closing
      bracket found from an opener is one from which the backward search finds that opener,
      and conversely. */
  lemma CloseThenReverse(lines: seq<string>, line: nat, pos: nat, toLine: nat, toPos: nat)
    requires InDoc(lines, line, pos) && InDoc(lines, toLine, toPos)
    requires IsOpener(lines[line][pos]) && IsCloser(lines[toLine][toPos])
    ensures F.Close(lines, line, pos) == At(toLine, toPos + 1)
       <==> R.ReverseClose(lines, toLine, toPos) == At(line, pos)
  {
    F.CloseIffEncloses(lines, line, pos, toLine, toPos);
    R.ReverseCloseIffEncloses(lines, line, pos, toLine, toPos);
  }

  /** Coming back: from an opener, forward and then backward ends where it began. */
  lemma RoundTripForward(lines: seq<string>, line: nat, pos: nat)
    requires InDoc(lines, line, pos) && IsOpener(lines[line][pos])
    ensures var r := F.Close(lines, line, pos);
      r.At? ==>
        InDoc(lines, r.line, r.pos - 1) && IsCloser(lines[r.line][r.pos - 1])
        && R.ReverseClose(lines, r.line, r.pos - 1) == At(line, pos)
  {
    var r := F.Close(lines, line, pos);
    if r.At? {
      F.CloseIffEncloses(lines, line, pos, r.line, r.pos - 1);
      EncloserIsCloser(lines, line, pos, r.line, r.pos - 1);
      CloseThenReverse(lines, line, pos, r.line, r.pos - 1);
    }
  }

  /** And from a closer, backward and then forward. */
  lemma RoundTripBackward(lines: seq<string>, line: nat, pos: nat)
    requires InDoc(lines, line, pos) && IsCloser(lines[line][pos])
    ensures var r := R.ReverseClose(lines, line, pos);
      r.At? ==>
        InDoc(lines, r.line, r.pos) && IsOpener(lines[r.line][r.pos])
        && F.Close(lines, r.line, r.pos) == At(line, pos + 1)
  {
    var r := R.ReverseClose(lines, line, pos);
    if r.At? {
      R.ReverseCloseIffEncloses(lines, r.line, r.pos, line, pos);
      SpanTail(lines, r.line, r.pos, line, pos + 1);
      CloseThenReverse(lines, r.line, r.pos, line, pos);
    }
  }

  lemma EncloserIsCloser(lines: seq<string>, line: nat, pos: nat, toLine: nat, toPos: nat)
    requires Encloses(lines, line, pos, toLine, toPos)
    ensures IsCloser(lines[toLine][toPos])
  {
    var t := Span(lines, line, pos, toLine, toPos + 1);
    assert line == toLine ==> |t| == toPos + 1 - pos;
    assert t[|t| - 1] == lines[toLine][toPos];
  }

  // ----- the expected-closer matcher -----

  /** On a single text, the forward scan ends exactly where the machine is done. */
  lemma OneText(text: string, s: nat, e: nat)
    requires s < |text| && IsOpener(text[s]) && e > 0
    ensures F.ForwardScan(text, s, []) == Found(e)
       <==> s + 1 <= e <= |text| && FeedAll(text[s + 1..e], false) == Done(OpenKind(text[s]))
  {
    hide FeedAll, F.ForwardScan, F.ForwardMove, Encloses;
    FeedNothing(false);
    var lines := [text];
    F.CloseIffEncloses(lines, 0, s, 0, e - 1);
    F.EnclosesIffEndsAt(lines, 0, s, 0, e - 1);
    assert F.StartsForward(text, s);
    assert F.Close(lines, 0, s) == F.CloseFrom(lines, 0, s, []);
    if s + 1 <= e <= |text| {
      assert Span(lines, 0, s + 1, 0, e) == text[s + 1..e];
    }
  }

  /** A stack of expected closers, for an opener of kind `k` at the bottom. */
  predicate Expecting(stack: seq<char>, k: Kind) {
    stack != [] && stack[0] == CloseChar(k) && forall i | 0 <= i < |stack| :: IsCloser(stack[i])
  }

  /** The expected-closer stack after one more character, or `None` at a stray closer. */
  function Expect(stack: seq<char>, c: char): Option<seq<char>>
    requires stack != []
  {
    if c == stack[|stack| - 1] then Some(Pop(stack))
    else if IsCloser(c) then None
    else if IsOpener(c) then Some(stack + [CloseChar(OpenKind(c))])
    else Some(stack)
  }

  /** Expecting closers and remembering openers come to the same. */
  lemma ExpectTracks(stack: seq<char>, c: char, k: Kind)
    requires Expecting(stack, k)
    ensures var fed := Feed(Live(Above(stack)), c, false);
      match Expect(stack, c)
      case None => !fed.Live? && fed != Done(k)
      case Some(s) => if s == [] then fed == Done(k) else Expecting(s, k) && fed == Live(Above(s))
  {
    if IsOpener(c) {
      AbovePush(stack, CloseChar(OpenKind(c)));
    } else if IsCloser(c) {
      ExpectedCloser(stack, c, k);
    }
  }

  lemma ExpectedCloser(stack: seq<char>, c: char, k: Kind)
    requires Expecting(stack, k) && IsCloser(c)
    ensures var fed := Feed(Live(Above(stack)), c, false);
      if c != Top(stack) then !fed.Live? && fed != Done(k)
      else if |stack| == 1 then fed == Done(k)
      else Expecting(Pop(stack), k) && fed == Live(Above(Pop(stack)))
  {
    if |stack| > 1 {
      AbovePop(stack);
      assert Above(stack) == Above(Pop(stack)) + [CloseKind(Top(stack))];
    } else {
      assert Above(stack) == [];
    }
  }

  function TextInside(text: string, from: nat, scan: Scan): Option<string>
    requires scan.Found? ==> from < scan.at <= |text|
  {
    if scan.Found? then Some(text[from..scan.at - 1]) else None
  }

  /** The bracket that ends before `e` closes the opener before `from`. */
  ghost predicate ClosesAt(text: string, from: nat, e: int)
    requires 0 < from <= |text|
  {
    from < e <= |text| && Enclosed(text[from - 1..e])
  }

  /** The text found is the one between the opener before `from` and the bracket that closes it,
      and none is found only where no bracket does. */
  lemma TextInsideIff(text: string, from: nat)
    requires 0 < from <= |text| && IsOpener(text[from - 1])
    ensures match TextInside(text, from, F.ForwardScan(text, from - 1, []))
      case Some(t) => exists e :: ClosesAt(text, from, e) && t == text[from..e - 1]
      case None => forall e :: !ClosesAt(text, from, e)
  {
    hide F.ForwardScan, Enclosed, F.CloseFrom;
    var r := F.ForwardScan(text, from - 1, []);
    FoundLater(text, from);
    forall e
      ensures ClosesAt(text, from, e) <==> from < e && r == Found(e)
    {
      if from < e <= |text| { ClosesIff(text, from, e); }
    }
  }

  lemma ClosesIff(text: string, from: nat, e: nat)
    requires 0 < from < e <= |text| && IsOpener(text[from - 1])
    ensures ClosesAt(text, from, e) <==> F.ForwardScan(text, from - 1, []) == Found(e)
  {
    hide F.ForwardScan, Enclosed, F.CloseFrom;
    CloseOfText(text, from - 1);
    F.CloseIffEncloses([text], 0, from - 1, 0, e - 1);
    assert Span([text], 0, from - 1, 0, e) == text[from - 1..e];
  }

  lemma FoundLater(text: string, from: nat)
    requires 0 < from <= |text| && IsOpener(text[from - 1])
    ensures var r := F.ForwardScan(text, from - 1, []); r.Found? ==> from < r.at
  {
    hide FeedAll, F.ForwardScan, F.ForwardMove;
    var r := F.ForwardScan(text, from - 1, []);
    if r.Found? {
      OneText(text, from - 1, r.at);
      FeedNothing(false);
      assert text[from..from] == [];
    }
  }

  lemma CloseOfText(text: string, s: nat)
    requires s < |text| && IsOpener(text[s])
    ensures match F.ForwardScan(text, s, [])
      case Found(e) => F.Close([text], 0, s) == At(0, e)
      case _ => F.Close([text], 0, s).Nowhere?
  {
    hide F.ForwardScan;
  }

  /** The expected closers at `position` match what the machine has open there. */
  ghost predicate Agrees(text: string, from: nat, position: nat, stack: seq<char>, k: Kind)
    requires from <= position <= |text|
  {
    if stack == [] then from < position && FeedAll(text[from..position], false) == Done(k)
    else Expecting(stack, k) && FeedAll(text[from..position], false) == Live(Above(stack))
  }

  lemma AgreesStep(text: string, from: nat, position: nat, stack: seq<char>, k: Kind)
    requires 0 < from <= position < |text| && IsOpener(text[from - 1]) && k == OpenKind(text[from - 1])
    requires stack != [] && Agrees(text, from, position, stack, k)
    ensures match Expect(stack, text[position])
      case None => !F.ForwardScan(text, from - 1, []).Found?
      case Some(s) => Agrees(text, from, position + 1, s, k)
  {
    hide FeedAll, Expect, Feed, F.ForwardScan;
    ExpectTracks(stack, text[position], k);
    FeedOneMore(text, from, position);
    if Expect(stack, text[position]) == None {
      assert text[from..position + 1 - 1] == text[from..position];
      NeverDone(text, from, position + 1, k);
    }
  }

  lemma FeedOneMore(text: string, from: nat, position: nat)
    requires from <= position < |text|
    ensures FeedAll(text[from..position + 1], false)
         == Feed(FeedAll(text[from..position], false), text[position], false)
  {
    var t := text[from..position + 1];
    assert t[..|t| - 1] == text[from..position] && t[|t| - 1] == text[position];
  }

  lemma AgreesStart(text: string, from: nat, k: Kind)
    requires from <= |text|
    ensures Agrees(text, from, from, [CloseChar(k)], k)
  {
    assert text[from..from] == [];
  }

  /** When the stack is empty the scan has ended here; when the text is read, there is no end. */
  lemma AgreesEnd(text: string, from: nat, position: nat, stack: seq<char>, k: Kind)
    requires 0 < from <= position <= |text| && IsOpener(text[from - 1]) && k == OpenKind(text[from - 1])
    requires Agrees(text, from, position, stack, k) && (stack == [] || position == |text|)
    ensures if stack == [] then from < position && F.ForwardScan(text, from - 1, []) == Found(position)
            else !F.ForwardScan(text, from - 1, []).Found?
  {
    if stack == [] {
      OneText(text, from - 1, position);
    } else {
      NeverDone(text, from, |text|, k);
    }
  }

  /** Retrieves the text between the opener that ends a matched pattern (`start` is the
      position after it) and its closer.  An independent matcher, yet it agrees everywhere
      with the forward scan that also tracks angle brackets. */
  method GetTextInside(text: string, start: Option<nat>) returns (r: Option<string>)
    requires start.Some? ==> 0 < start.value <= |text| && IsOpener(text[start.value - 1])
    ensures start.None? ==> r == None
    ensures start.Some? ==>
      r == TextInside(text, start.value, F.ForwardScan(text, start.value - 1, []))
    ensures start.Some? ==> match r
      case Some(t) => exists e :: ClosesAt(text, start.value, e) && t == text[start.value..e - 1]
      case None => forall e :: !ClosesAt(text, start.value, e)
  {
    if start.None? {
      return None;
    }
    hide FeedAll, F.ForwardScan, F.ForwardMove, Agrees, ClosesAt;
    var from := start.value;
    TextInsideIff(text, from);
    ghost var k := OpenKind(text[from - 1]);
    var stack := new ExprStack();
    stack.Append(CloseChar(OpenKind(text[from - 1])));
    var position := from;
    AgreesStart(text, from, k);
    while stack.items != [] && position < |text|
      decreases |text| - position
      invariant from <= position <= |text|
      invariant Agrees(text, from, position, stack.items, k)
    {
      var c := text[position];
      AgreesStep(text, from, position, stack.items, k);
      if c == stack.items[|stack.items| - 1] {
        stack.RemoveLast();
      } else if IsCloser(c) {
        return None;
      } else if IsOpener(c) {
        stack.Append(CloseChar(OpenKind(c)));
      }
      position := position + 1;
    }
    AgreesEnd(text, from, position, stack.items, k);
    if stack.items != [] {
      return None;
    }
    return Some(text[from..position - 1]);
  }

  /** If the machine is stuck short of done, or has read the whole text, no scan succeeds. */
  lemma NeverDone(text: string, from: nat, at: nat, k: Kind)
    requires 0 < from <= at <= |text| && IsOpener(text[from - 1]) && k == OpenKind(text[from - 1])
    requires FeedAll(text[from..at], false) != Done(k)
    requires if FeedAll(text[from..at], false).Live? then at == |text|
             else from < at && FeedAll(text[from..at - 1], false).Live?
    ensures !F.ForwardScan(text, from - 1, []).Found?
  {
    var r := F.ForwardScan(text, from - 1, []);
    if r.Found? {
      OneText(text, from - 1, r.at);
      var e := r.at;
      if e < at {
        if FeedAll(text[from..at], false).Live? {
          LiveUntil(text, from, e, at);
        } else if e < at - 1 {
          LiveUntil(text, from, e, at - 1);
        }
      } else if at < e {
        LiveUntil(text, from, at, e);
      }
    }
  }

  /** A machine that is not stuck at `to` was live at every place before. */
  lemma LiveUntil(text: string, from: nat, mid: nat, to: nat)
    requires from <= mid < to <= |text| && FeedAll(text[from..to], false) != Dead
    ensures FeedAll(text[from..mid], false).Live?
  {
    assert text[from..to] == text[from..mid] + text[mid..to];
    PrefixLive(text[from..mid], text[mid..to], false);
  }

  // ----- InTemplateArgumentList -----

  predicate IsTelling(c: char) {
    c == '{' || c == '}' || c == ';' || c == '=' || c == '[' || c == ']' || c == '.' || c == '<' || c == '>'
  }

  /** The first telling character at or after `pos`, or else the last character of the line. */
  function TokenAt(line: string, pos: nat): (q: nat)
    requires pos < |line|
    ensures pos <= q < |line| && (IsTelling(line[q]) || q + 1 == |line|)
    ensures forall i | pos <= i < q :: !IsTelling(line[i])
    decreases |line| - pos
  {
    if IsTelling(line[pos]) || pos + 1 == |line| then pos else TokenAt(line, pos + 1)
  }

  /** The answer at `(line, pos)`.  That this is well founded on every document is the claim:
      each hop over a nested template argument list lands strictly later in the file. */
  function InTemplate(lines: seq<string>, line: nat, pos: nat): bool
    decreases |lines| - line, if line < |lines| then |lines[line]| - pos else 0
  {
    if line >= |lines| then false
    else if pos >= |lines[line]| then InTemplate(lines, line + 1, 0)
    else
      var q := TokenAt(lines[line], pos);
      var c := lines[line][q];
      if c == '{' || c == '}' || c == ';' then false
      else if c == '>' || c == '=' || c == '[' || c == ']' || c == '.' then true
      else if c != '<' then InTemplate(lines, line + 1, 0)
      else match F.Close(lines, line, q)
        case At(l, e) => InTemplate(lines, l, e)
        case Nowhere(_) => false
  }

  // What the verdict means, apart from the order in which the method reads the file.

  datatype Position = Position(line: nat, pos: nat)

  predicate Before(p: Position, q: Position) {
    p.line < q.line || (p.line == q.line && p.pos < q.pos)
  }

  /** `q` is the first telling character at or after `p`, on whatever line. */
  ghost predicate FirstTelling(lines: seq<string>, p: Position, q: Position) {
    && !Before(q, p) && InDoc(lines, q.line, q.pos) && lines[q.line][q.pos] in "{};=[].<>"
    && forall l: nat, i: nat | InDoc(lines, l, i) && !Before(Position(l, i), p) && Before(Position(l, i), q) ::
         lines[l][i] !in "{};=[].<>"
  }

  /** From `p` the search hops over a nested template argument list and goes on at `q`. */
  ghost predicate Hops(lines: seq<string>, p: Position, q: Position) {
    exists t :: FirstTelling(lines, p, t) && lines[t.line][t.pos] == '<'
             && F.Close(lines, t.line, t.pos) == At(q.line, q.pos)
  }

  /** The next telling character is one that only a template argument list has there. */
  ghost predicate ShowsTemplate(lines: seq<string>, p: Position) {
    exists t :: FirstTelling(lines, p, t) && lines[t.line][t.pos] in ">=[]."
  }

  ghost predicate IsPath(lines: seq<string>, path: seq<Position>) {
    path != [] && forall i | 0 < i < |path| :: Hops(lines, path[i - 1], path[i])
  }

  /** Hops over nested lists lead from `p` to where a template argument list shows. */
  ghost predicate LeadsToTemplate(lines: seq<string>, p: Position) {
    exists path :: IsPath(lines, path) && path[0] == p && ShowsTemplate(lines, Top(path))
  }

  lemma TellingOnce(lines: seq<string>, p: Position, q: Position, r: Position)
    requires FirstTelling(lines, p, q) && FirstTelling(lines, p, r)
    ensures q == r
  {
    assert !Before(q, r) && !Before(r, q);
  }

  /** What comes first after `p` comes first after any `q` with nothing telling in between. */
  lemma TellingLater(lines: seq<string>, p: Position, q: Position, t: Position)
    requires !Before(q, p)
    requires forall l: nat, i: nat | InDoc(lines, l, i) && !Before(Position(l, i), p) && Before(Position(l, i), q) ::
               !IsTelling(lines[l][i])
    ensures FirstTelling(lines, p, t) <==> FirstTelling(lines, q, t)
  {
  }

  lemma PathTail(lines: seq<string>, path: seq<Position>)
    requires IsPath(lines, path) && |path| > 1
    ensures Hops(lines, path[0], path[1]) && IsPath(lines, path[1..]) && Top(path[1..]) == Top(path)
  {
    var rest := path[1..];
    forall i | 0 < i < |rest|
      ensures Hops(lines, rest[i - 1], rest[i])
    {
      assert Hops(lines, path[i + 1 - 1], path[i + 1]);
    }
    assert Hops(lines, path[1 - 1], path[1]);
  }

  lemma PathFrom(lines: seq<string>, p: Position, path: seq<Position>)
    requires IsPath(lines, path) && Hops(lines, p, path[0])
    ensures IsPath(lines, [p] + path) && Top([p] + path) == Top(path)
  {
    var longer := [p] + path;
    forall i | 0 < i < |longer|
      ensures Hops(lines, longer[i - 1], longer[i])
    {
      assert i > 1 ==> Hops(lines, path[i - 1 - 1], path[i - 1]);
    }
  }

  /** The list shows at once, or after a hop. */
  lemma LeadsStep(lines: seq<string>, p: Position)
    ensures LeadsToTemplate(lines, p) <==>
      ShowsTemplate(lines, p) || exists q :: Hops(lines, p, q) && LeadsToTemplate(lines, q)
  {
    hide Hops, ShowsTemplate;
    if LeadsToTemplate(lines, p) {
      var path: seq<Position> :| IsPath(lines, path) && path[0] == p && ShowsTemplate(lines, Top(path));
      if |path| > 1 { PathTail(lines, path); }
    }
    if ShowsTemplate(lines, p) {
      assert IsPath(lines, [p]) && Top([p]) == p;
    }
    forall q | Hops(lines, p, q) && LeadsToTemplate(lines, q)
      ensures LeadsToTemplate(lines, p)
    {
      var path: seq<Position> :| IsPath(lines, path) && path[0] == q && ShowsTemplate(lines, Top(path));
      PathFrom(lines, p, path);
      assert ([p] + path)[0] == p;
    }
  }

  lemma LeadsLater(lines: seq<string>, p: Position, q: Position)
    requires forall t :: FirstTelling(lines, p, t) <==> FirstTelling(lines, q, t)
    ensures LeadsToTemplate(lines, p) <==> LeadsToTemplate(lines, q)
  {
    LeadsStep(lines, p);
    LeadsStep(lines, q);
    assert forall r :: Hops(lines, p, r) <==> Hops(lines, q, r);
  }

  /** A first telling character decides: it shows the list, or one hop is made, or neither. */
  lemma LeadsFrom(lines: seq<string>, p: Position, t: Position)
    requires FirstTelling(lines, p, t)
    ensures var c, r := lines[t.line][t.pos], F.Close(lines, t.line, t.pos);
      LeadsToTemplate(lines, p) <==>
        c in ">=[]." || (c == '<' && r.At? && LeadsToTemplate(lines, Position(r.line, r.pos)))
  {
    LeadsStep(lines, p);
    OneHop(lines, p, t);
  }

  lemma OneHop(lines: seq<string>, p: Position, t: Position)
    requires FirstTelling(lines, p, t)
    ensures ShowsTemplate(lines, p) <==> lines[t.line][t.pos] in ">=[]."
    ensures var r := F.Close(lines, t.line, t.pos);
      forall q :: Hops(lines, p, q) <==> lines[t.line][t.pos] == '<' && r == At(q.line, q.pos)
  {
    forall u | FirstTelling(lines, p, u)
      ensures u == t
    {
      TellingOnce(lines, p, t, u);
    }
  }

  lemma LeadsNowhere(lines: seq<string>, p: Position)
    requires forall t :: !FirstTelling(lines, p, t)
    ensures !LeadsToTemplate(lines, p)
  {
    LeadsStep(lines, p);
  }

  /** The answer is yes exactly if hops over nested template argument lists lead, with nothing
      telling between them, to a character that only such a list has there. */
  lemma {:induction false} InTemplateIff(lines: seq<string>, line: nat, pos: nat)
    ensures InTemplate(lines, line, pos) <==> LeadsToTemplate(lines, Position(line, pos))
    decreases |lines| - line, if line < |lines| then |lines[line]| - pos else 0
  {
    var p := Position(line, pos);
    if line >= |lines| {
      LeadsNowhere(lines, p);
    } else if pos >= |lines[line]| || !IsTelling(lines[line][TokenAt(lines[line], pos)]) {
      var q := Position(line + 1, 0);
      forall t
        ensures FirstTelling(lines, p, t) <==> FirstTelling(lines, q, t)
      {
        TellingLater(lines, p, q, t);
      }
      LeadsLater(lines, p, q);
      InTemplateIff(lines, line + 1, 0);
    } else {
      var t := Position(line, TokenAt(lines[line], pos));
      LeadsFrom(lines, p, t);
      match F.Close(lines, t.line, t.pos)
      case At(l, e) => if lines[line][t.pos] == '<' { InTemplateIff(lines, l, e); }
      case Nowhere(_) =>
    }
  }

  /** Is `(linenum, pos)`, just after a suspected template argument, inside a template
      argument list? */
  method InTemplateArgumentList(lines: seq<string>, linenum: nat, pos: nat) returns (r: bool)
    ensures r <==> LeadsToTemplate(lines, Position(linenum, pos))
  {
    hide LeadsToTemplate, Encloses, F.CloseFrom;
    InTemplateIff(lines, linenum, pos);
    var l: nat, p: nat := linenum, pos;
    while l < |lines|
      invariant InTemplate(lines, l, p) == InTemplate(lines, linenum, pos)
      decreases |lines| - l, if l < |lines| then |lines[l]| - p else 0
    {
      var line := lines[l];
      if p >= |line| {
        l, p := l + 1, 0;
        continue;
      }
      var q := TokenAt(line, p);
      var token := line[q];
      p := q + 1;
      if token == '{' || token == '}' || token == ';' {
        return false;
      }
      if token == '>' || token == '=' || token == '[' || token == ']' || token == '.' {
        return true;
      }
      if token != '<' {
        p := p + 1;
        if p >= |line| {
          l, p := l + 1, 0;
        }
        continue;
      }
      var _, endLine, endPos := F.CloseExpression(lines, l, p - 1);
      if endPos < 0 {
        return false;
      }
      l, p := endLine, endPos;
    }
    return false;
  }
}
