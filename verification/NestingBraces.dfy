/** Laws of the nesting tracker about braces and parentheses, over whole files: what opens and
    closes may stand on different lines, with conditionals, namespaces and classes between. */
module NestingBraces {
  import opened Basics
  import opened NestingModel
  import opened NestingLaws

  // ----- what the tracker reads -----

  /** A brace, semicolon or parenthesis; a head that waits for its brace; a namespace that has it. */
  datatype Mark = Tok(t: Token) | Head | Enter

  function TokenMarks(ts: seq<Token>): seq<Mark> {
    seq(|ts|, i requires 0 <= i < |ts| => Tok(ts[i]))
  }

  function NamespaceMarks(ds: seq<NamespaceDecl>): seq<Mark> {
    seq(|ds|, i requires 0 <= i < |ds| => if ds[i].opens then Enter else Head)
  }

  /** The marks of a line, its parentheses counted already, from the stack `x`: a class head is
      one only if it is accepted there. */
  function RestMarks(x: seq<Block>, l: Line): seq<Mark> {
    NamespaceMarks(l.namespaces)
    + (if AcceptsClass(PushNamespaces(x, l.namespaces, l.number), l) then [Head] else [])
    + TokenMarks(l.tokens)
  }

  function LineMarks(s: seq<Block>, l: Line): seq<Mark> {
    RestMarks(CountParentheses(s, l), l)
  }

  /** What is read in some lines, from the stack `s`. */
  function ReadMarks(s: seq<Block>, ls: seq<Line>): seq<Mark>
    decreases |ls|
  {
    if ls == [] then [] else LineMarks(s, ls[0]) + ReadMarks(UpdateStack(s, ls[0]), ls[1..])
  }

  lemma {:induction false} ReadMarksConcat(s: seq<Block>, a: seq<Line>, b: seq<Line>)
    ensures ReadMarks(s, a + b) == ReadMarks(s, a) + ReadMarks(RunStack(s, a), b)
    decreases |a|
  {
    hide LineMarks, UpdateStack;
    if a == [] {
      assert a + b == b;
    } else {
      assert (a + b)[1..] == a[1..] + b;
      ReadMarksConcat(UpdateStack(s, a[0]), a[1..], b);
    }
  }

  lemma ReadMarksOne(s: seq<Block>, l: Line)
    ensures ReadMarks(s, [l]) == LineMarks(s, l)
  {
    assert [l][1..] == [];
  }

  // ----- where that leads -----

  /** The blocks that a text has opened, outermost first: has each seen its brace? */
  type Shape = seq<bool>

  /** The blocks after one mark, unless it closes a block that the text has not opened. */
  function Step(sh: Shape, m: Mark): Option<Shape> {
    var waits := sh != [] && !Top(sh);
    match m
    case Tok(OpenBrace(_)) => Some(if waits then SetTop(sh, true) else sh + [true])
    case Tok(CloseBrace) => if sh == [] then None else Some(Pop(sh))
    case Tok(_) => Some(if waits then Pop(sh) else sh)
    case Head => Some(sh + [false])
    case Enter => Some(sh + [true])
  }

  function Level(sh: Shape, ms: seq<Mark>): Option<Shape>
    decreases |ms|
  {
    if ms == [] then Some(sh)
    else match Step(sh, ms[0])
      case None => None
      case Some(next) => Level(next, ms[1..])
  }

  /** A text that leads back to where it began. */
  predicate Balanced(ms: seq<Mark>) { Level([], ms) == Some([]) }

  lemma {:induction false} LevelConcat(sh: Shape, a: seq<Mark>, b: seq<Mark>)
    ensures Level(sh, a + b) == match Level(sh, a) case None => None case Some(next) => Level(next, b)
    decreases |a|
  {
    hide Step;
    if a == [] {
      assert a + b == b;
    } else {
      assert (a + b)[1..] == a[1..] + b && (a + b)[0] == a[0];
      match Step(sh, a[0])
      case None =>
      case Some(next) => LevelConcat(next, a[1..], b);
    }
  }

  lemma LevelOne(sh: Shape, m: Mark)
    ensures Level(sh, [m]) == Step(sh, m)
  {
    assert [m][1..] == [];
  }

  // ----- what the tracker makes of it -----

  /** The same block, with `change` more open parentheses and perhaps another assembly state and
      access label. */
  predicate SameBlock(b: Block, c: Block, change: int) {
    c == b.(openParentheses := b.openParentheses + change, inlineAsm := c.inlineAsm, access := c.access)
  }

  /** `s` is `base` and blocks of the shape `sh`.  Below the top of `base` nothing has changed,
      and the top is the same block, with `change` more open parentheses. */
  predicate Over(base: seq<Block>, s: seq<Block>, sh: Shape, change: int) {
    && |s| == |base| + |sh|
    && (base != [] ==>
          s[..|base| - 1] == Pop(base) && SameBlock(Top(base), s[|base| - 1], change) && s[|base| - 1].seenOpenBrace)
    && forall i | 0 <= i < |sh| :: s[|base| + i].seenOpenBrace == sh[i]
  }

  lemma OverSelf(s: seq<Block>)
    requires SeenOpenBrace(s)
    ensures Over(s, s, [], 0)
  {
  }

  lemma OverItself(base: seq<Block>, s: seq<Block>, change: int)
    requires Over(base, s, [], change)
    ensures |s| == |base|
    ensures base != [] ==> Pop(s) == Pop(base) && SameBlock(Top(base), Top(s), change)
  {
  }

  /** Replacing the top of a stack leaves everything else in place. */
  lemma TopOver(base: seq<Block>, s: seq<Block>, sh: Shape, change: int, b: Block, more: int)
    requires Over(base, s, sh, change) && s != [] && b.seenOpenBrace == Top(s).seenOpenBrace
    requires sh == [] ==> SameBlock(Top(s), b, more)
    ensures Over(base, SetTop(s, b), sh, if sh == [] then change + more else change)
  {
    if base != [] {
      assert SetTop(s, b)[..|base| - 1] == s[..|base| - 1];
    }
  }

  lemma TokenOver(base: seq<Block>, s: seq<Block>, sh: Shape, change: int, t: Token, n: nat)
    requires Over(base, s, sh, change) && Step(sh, Tok(t)).Some?
    ensures Over(base, ConsumeToken(s, t, n), Step(sh, Tok(t)).value, change)
  {
    if sh != [] {
      assert Top(s).seenOpenBrace == Top(sh) by { assert Top(s) == s[|base| + (|sh| - 1)]; }
    }
  }

  lemma {:induction false} TokensOver(base: seq<Block>, s: seq<Block>, sh: Shape, change: int, ts: seq<Token>, n: nat)
    requires Over(base, s, sh, change) && Level(sh, TokenMarks(ts)).Some?
    ensures Over(base, ConsumeTokens(s, ts, n), Level(sh, TokenMarks(ts)).value, change)
    decreases |ts|
  {
    hide Over, Step;
    if ts == [] {
    } else {
      assert TokenMarks(ts)[1..] == TokenMarks(ts[1..]) && TokenMarks(ts)[0] == Tok(ts[0]);
      TokenOver(base, s, sh, change, ts[0], n);
      TokensOver(base, ConsumeToken(s, ts[0], n), Step(sh, Tok(ts[0])).value, change, ts[1..], n);
    }
  }

  /** A new block on top. */
  lemma PushOver(base: seq<Block>, s: seq<Block>, sh: Shape, change: int, b: Block)
    requires Over(base, s, sh, change)
    ensures Over(base, s + [b], sh + [b.seenOpenBrace], change)
  {
  }

  lemma {:induction false} NamespacesOver(base: seq<Block>, s: seq<Block>, sh: Shape, change: int,
                                          ds: seq<NamespaceDecl>, n: nat)
    requires Over(base, s, sh, change)
    ensures Level(sh, NamespaceMarks(ds)).Some?
    ensures Over(base, PushNamespaces(s, ds, n), Level(sh, NamespaceMarks(ds)).value, change)
    decreases |ds|
  {
    hide Over;
    if ds == [] {
    } else {
      assert NamespaceMarks(ds)[1..] == NamespaceMarks(ds[1..]);
      PushOver(base, s, sh, change, NewNamespace(ds[0], n));
      NamespacesOver(base, s + [NewNamespace(ds[0], n)], sh + [ds[0].opens], change, ds[1..], n);
    }
  }

  /** The rest of a line's head, after its class head, if that is accepted. */
  lemma HeadOver(base: seq<Block>, s: seq<Block>, sh: Shape, change: int, l: Line)
    requires Over(base, s, sh, change)
    ensures Over(base, ConsumeHead(s, l), if AcceptsClass(s, l) then sh + [false] else sh, change)
  {
    hide Over;
    var pushed, next := PushClass(s, l), if AcceptsClass(s, l) then sh + [false] else sh;
    if AcceptsClass(s, l) {
      PushOver(base, s, sh, change, NewClass(l.classDecl.value, l.number));
    }
    var checked := CheckBegin(pushed, l);
    if checked != pushed {
      Waiting(base, pushed, next, change);
      TopOver(base, pushed, next, change, Top(checked), 0);
    }
    var r := ConsumeHead(s, l);
    if r != checked {
      assert r == SetTop(checked, Top(r));
      TopOver(base, checked, next, change, Top(r), 0);
    }
  }

  lemma Waiting(base: seq<Block>, s: seq<Block>, sh: Shape, change: int)
    requires Over(base, s, sh, change)
    ensures !SeenOpenBrace(s) ==> sh != []
  {
  }

  lemma CountOver(base: seq<Block>, s: seq<Block>, sh: Shape, change: int, l: Line)
    requires Over(base, s, sh, change)
    ensures Over(base, CountParentheses(s, l), sh, if sh == [] then change + l.depthChange else change)
  {
    if s == [] {
    } else {
      TopOver(base, s, sh, change, CountIn(Top(s), l), l.depthChange);
    }
  }

  /** What a line does once its parentheses are counted. */
  function Rest(x: seq<Block>, l: Line): seq<Block> {
    ConsumeTokens(ConsumeHead(PushNamespaces(x, l.namespaces, l.number), l), l.tokens, l.number)
  }

  lemma RestOfLine(s: seq<Block>, l: Line)
    ensures UpdateStack(s, l) == Rest(CountParentheses(s, l), l)
  {
  }

  /** It leads where its marks lead. */
  lemma RestOver(base: seq<Block>, x: seq<Block>, sh: Shape, change: int, l: Line)
    requires Over(base, x, sh, change) && Level(sh, RestMarks(x, l)).Some?
    ensures Over(base, Rest(x, l), Level(sh, RestMarks(x, l)).value, change)
  {
    hide Over, Level, ConsumeHead, AcceptsClass;
    var y := PushNamespaces(x, l.namespaces, l.number);
    var a, b, c := NamespaceMarks(l.namespaces), if AcceptsClass(y, l) then [Head] else [], TokenMarks(l.tokens);
    LevelConcat(sh, a + b, c);
    LevelConcat(sh, a, b);
    NamespacesOver(base, x, sh, change, l.namespaces, l.number);
    var inside := Level(sh, a).value;
    LevelHead(inside, AcceptsClass(y, l));
    HeadOver(base, y, inside, change, l);
    TokensOver(base, ConsumeHead(y, l), Level(inside, b).value, change, l.tokens, l.number);
  }

  lemma LevelHead(sh: Shape, accepted: bool)
    ensures Level(sh, if accepted then [Head] else []) == Some(if accepted then sh + [false] else sh)
  {
    LevelOne(sh, Head);
  }

  lemma LineOver(base: seq<Block>, s: seq<Block>, sh: Shape, change: int, l: Line)
    requires Over(base, s, sh, change) && Level(sh, LineMarks(s, l)).Some?
    ensures Over(base, UpdateStack(s, l), Level(sh, LineMarks(s, l)).value,
                 if sh == [] then change + l.depthChange else change)
  {
    hide Over, Level, RestMarks;
    CountOver(base, s, sh, change, l);
    RestOver(base, CountParentheses(s, l), sh, if sh == [] then change + l.depthChange else change, l);
    RestOfLine(s, l);
  }

  /** The parentheses of the lines at whose beginning no block of the text is open. */
  function OuterChange(sh: Shape, s: seq<Block>, ls: seq<Line>): int
    decreases |ls|
  {
    if ls == [] then 0
    else
      (if sh == [] then ls[0].depthChange else 0)
      + (match Level(sh, LineMarks(s, ls[0]))
         case None => 0
         case Some(next) => OuterChange(next, UpdateStack(s, ls[0]), ls[1..]))
  }

  lemma {:induction false} LinesOver(base: seq<Block>, s: seq<Block>, sh: Shape, change: int, ls: seq<Line>)
    requires Over(base, s, sh, change) && Level(sh, ReadMarks(s, ls)).Some?
    ensures Over(base, RunStack(s, ls), Level(sh, ReadMarks(s, ls)).value, change + OuterChange(sh, s, ls))
    decreases |ls|
  {
    hide Over, Level, UpdateStack, LineMarks;
    if ls == [] {
      LevelNothing(sh);
    } else {
      var r := UpdateStack(s, ls[0]);
      LevelConcat(sh, LineMarks(s, ls[0]), ReadMarks(r, ls[1..]));
      LineOver(base, s, sh, change, ls[0]);
      LinesOver(base, r, Level(sh, LineMarks(s, ls[0])).value,
                if sh == [] then change + ls[0].depthChange else change, ls[1..]);
    }
  }

  lemma LevelNothing(sh: Shape)
    ensures Level(sh, []) == Some(sh)
  {
  }

  // ----- whole files -----

  /** A file that closes no block but its own leaves on the stack the blocks that it leaves open,
      and changes none below the innermost block it found.  That one counts the parentheses of
      exactly the lines at whose beginning no block of the file is open. */
  lemma FileDepth(d: Doc, st: State)
    requires WellFormed(d) && SeenOpenBrace(st.stack)
    requires Level([], ReadMarks(st.stack, Kept(d))).Some?
    ensures var r := Run(st, Lines(d));
      && r.saved == st.saved
      && Over(st.stack, r.stack, Level([], ReadMarks(st.stack, Kept(d))).value, OuterChange([], st.stack, Kept(d)))
  {
    hide Level, RunStack, ReadMarks, Over, OuterChange;
    FileStack(d, st);
    OverSelf(st.stack);
    LinesOver(st.stack, st.stack, [], 0, Kept(d));
  }

  /** A file that closes what it opens leaves the stack as it was: every block below the innermost
      unchanged, and the innermost the same block. */
  lemma BalancedFile(d: Doc, st: State)
    requires WellFormed(d) && SeenOpenBrace(st.stack)
    requires Balanced(ReadMarks(st.stack, Kept(d)))
    ensures var r := Run(st, Lines(d));
      && r.saved == st.saved && |r.stack| == |st.stack|
      && (st.stack != [] ==>
            && Pop(r.stack) == Pop(st.stack)
            && SameBlock(Top(st.stack), Top(r.stack), OuterChange([], st.stack, Kept(d))))
  {
    hide Level, ReadMarks, Over, OuterChange;
    FileDepth(d, st);
    OverItself(st.stack, Run(st, Lines(d)).stack, OuterChange([], st.stack, Kept(d)));
  }

  // ----- what can be told from the text alone -----

  /** What may be a class head, unless `InTemplateArgumentList` tells that it is none. */
  function WrittenMarks(l: Line): seq<Mark> {
    NamespaceMarks(l.namespaces)
    + (if l.classDecl.Some? && !l.classDecl.value.inTemplate then [Head] else [])
    + TokenMarks(l.tokens)
  }

  function AllMarks(ls: seq<Line>): seq<Mark> {
    if ls == [] then [] else WrittenMarks(ls[0]) + AllMarks(ls[1..])
  }

  /** How a block begins: with a bare brace, with a namespace or class head and later its brace,
      or with a namespace and its brace at once. */
  datatype Opening = Bare(kind: BraceKind) | Headed(kind: BraceKind) | Named

  function OpeningMarks(o: Opening): seq<Mark> {
    match o
    case Bare(k) => [Tok(OpenBrace(k))]
    case Headed(k) => [Head] + [Tok(OpenBrace(k))]
    case Named => [Enter]
  }

  /** A balanced text: blocks, each closed by its own brace, and, between them, statements and
      parentheses, with forward declarations and the like. */
  datatype Body =
    | Nothing
    | Braced(opening: Opening, inside: Body, rest: Body)
    | Ended(headed: bool, closeParen: bool, rest: Body)

  function BodyMarks(b: Body): seq<Mark> {
    match b
    case Nothing => []
    case Braced(o, inside, rest) => OpeningMarks(o) + BodyMarks(inside) + [Tok(CloseBrace)] + BodyMarks(rest)
    case Ended(headed, paren, rest) =>
      (if headed then [Head] else []) + [Tok(if paren then CloseParen else Semicolon)] + BodyMarks(rest)
  }

  /** `ns` is `ms` without some of its heads. */
  ghost predicate Thins(ms: seq<Mark>, ns: seq<Mark>)
    decreases |ms|
  {
    if ms == [] then ns == []
    else
      || (ns != [] && ns[0] == ms[0] && Thins(ms[1..], ns[1..]))
      || (ms[0] == Head && Thins(ms[1..], ns))
  }

  lemma {:induction false} ThinsSelf(ms: seq<Mark>)
    ensures Thins(ms, ms)
    decreases |ms|
  {
    if ms == [] {
    } else {
      ThinsSelf(ms[1..]);
    }
  }

  lemma {:induction false} ThinsConcat(a: seq<Mark>, b: seq<Mark>, x: seq<Mark>, y: seq<Mark>)
    requires Thins(a, x) && Thins(b, y)
    ensures Thins(a + b, x + y)
    decreases |a|
  {
    if a == [] {
      assert a + b == b && x + y == y;
    } else {
      assert (a + b)[1..] == a[1..] + b && (a + b)[0] == a[0];
      if x != [] && x[0] == a[0] && Thins(a[1..], x[1..]) {
        assert (x + y)[1..] == x[1..] + y && (x + y)[0] == x[0];
        ThinsConcat(a[1..], b, x[1..], y);
      } else {
        ThinsConcat(a[1..], b, x, y);
      }
    }
  }

  /** The tracker reads what is written, but for heads that it does not accept. */
  lemma {:induction false} ReadsWritten(s: seq<Block>, ls: seq<Line>)
    ensures Thins(AllMarks(ls), ReadMarks(s, ls))
    decreases |ls|
  {
    hide Thins, UpdateStack, WrittenMarks, LineMarks;
    if ls == [] {
      ThinsSelf([]);
    } else {
      ReadsLine(CountParentheses(s, ls[0]), ls[0]);
      assert LineMarks(s, ls[0]) == RestMarks(CountParentheses(s, ls[0]), ls[0]) by { LineMarksIs(s, ls[0]); }
      ReadsWritten(UpdateStack(s, ls[0]), ls[1..]);
      var rest := ReadMarks(UpdateStack(s, ls[0]), ls[1..]);
      ThinsConcat(WrittenMarks(ls[0]), AllMarks(ls[1..]), LineMarks(s, ls[0]), rest);
    }
  }

  lemma LineMarksIs(s: seq<Block>, l: Line)
    ensures LineMarks(s, l) == RestMarks(CountParentheses(s, l), l)
  {
  }

  lemma ReadsLine(x: seq<Block>, l: Line)
    ensures Thins(WrittenMarks(l), RestMarks(x, l))
  {
    hide Thins;
    var a, c := NamespaceMarks(l.namespaces), TokenMarks(l.tokens);
    var written := if l.classDecl.Some? && !l.classDecl.value.inTemplate then [Head] else [];
    var read := if AcceptsClass(PushNamespaces(x, l.namespaces, l.number), l) then [Head] else [];
    ThinsSelf(a);
    ThinsSelf(c);
    ThinsHead(written, read);
    ThinsConcat(a, written, a, read);
    ThinsConcat(a + written, c, a + read, c);
  }

  lemma ThinsHead(written: seq<Mark>, read: seq<Mark>)
    requires read == [] || read == written
    requires written == [] || written == [Head]
    ensures Thins(written, read)
  {
    ThinsSelf(written);
    if written == [Head] {
      assert written[1..] == [];
    }
  }

  /** A text without some of its heads splits where the text does. */
  lemma {:induction false} ThinsSplit(a: seq<Mark>, b: seq<Mark>, ns: seq<Mark>) returns (x: seq<Mark>, y: seq<Mark>)
    requires Thins(a + b, ns)
    ensures ns == x + y && Thins(a, x) && Thins(b, y)
    decreases |a|
  {
    if a == [] {
      assert a + b == b;
      x, y := [], ns;
    } else {
      assert (a + b)[1..] == a[1..] + b && (a + b)[0] == a[0];
      if ns != [] && ns[0] == a[0] && Thins(a[1..] + b, ns[1..]) {
        x, y := ThinsSplit(a[1..], b, ns[1..]);
        x := [ns[0]] + x;
        assert x[1..] + y == ns[1..];
      } else {
        x, y := ThinsSplit(a[1..], b, ns);
      }
    }
  }

  lemma ThinsOne(m: Mark, ns: seq<Mark>)
    requires m != Head && Thins([m], ns)
    ensures ns == [m]
  {
    assert [m][1..] == [];
  }

  lemma ThinOpening(o: Opening, ns: seq<Mark>, sh: Shape)
    requires Thins(OpeningMarks(o), ns) && (sh == [] || Top(sh))
    ensures Level(sh, ns) == Some(sh + [true])
  {
    match o
    case Bare(k) =>
      ThinsOne(Tok(OpenBrace(k)), ns);
      LevelOne(sh, Tok(OpenBrace(k)));
    case Headed(k) =>
      var x, y := ThinsSplit([Head], [Tok(OpenBrace(k))], ns);
      ThinsOne(Tok(OpenBrace(k)), y);
      ThinsOnlyHead(x);
      LevelConcat(sh, x, y);
      LevelHead(sh, x != []);
      LevelOne(if x == [] then sh else sh + [false], Tok(OpenBrace(k)));
      assert SetTop(sh + [false], true) == sh + [true];
    case Named =>
      assert [Enter][1..] == [] && ns == [Enter];
      LevelOne(sh, Enter);
  }

  lemma ThinsOnlyHead(x: seq<Mark>)
    requires Thins([Head], x)
    ensures x == [] || x == [Head]
  {
    assert [Head][1..] == [];
  }

  lemma ThinEnded(headed: bool, t: Token, ns: seq<Mark>, sh: Shape)
    requires t == Semicolon || t == CloseParen
    requires Thins((if headed then [Head] else []) + [Tok(t)], ns) && (sh == [] || Top(sh))
    ensures Level(sh, ns) == Some(sh)
  {
    var x, y := ThinsSplit(if headed then [Head] else [], [Tok(t)], ns);
    ThinsOne(Tok(t), y);
    if headed { ThinsOnlyHead(x); }
    LevelConcat(sh, x, y);
    LevelHead(sh, x != []);
    LevelOne(if x == [] then sh else sh + [false], Tok(t));
  }

  /** A balanced text leads back to where it began, whichever of its heads are accepted. */
  lemma {:induction false} ThinBody(b: Body, ns: seq<Mark>, sh: Shape)
    requires Thins(BodyMarks(b), ns) && (sh == [] || Top(sh))
    ensures Level(sh, ns) == Some(sh)
    decreases b
  {
    hide Thins, Level, Step;
    match b
    case Nothing =>
      ThinsNothing(ns);
      LevelNothing(sh);
    case Braced(o, inside, rest) =>
      var xyz, r := ThinsSplit(OpeningMarks(o) + BodyMarks(inside) + [Tok(CloseBrace)], BodyMarks(rest), ns);
      var xy, z := ThinsSplit(OpeningMarks(o) + BodyMarks(inside), [Tok(CloseBrace)], xyz);
      var x, y := ThinsSplit(OpeningMarks(o), BodyMarks(inside), xy);
      ThinOpening(o, x, sh);
      ThinBody(inside, y, sh + [true]);
      ThinsOne(Tok(CloseBrace), z);
      LevelCloser(sh);
      ThinBody(rest, r, sh);
      LevelConcat(sh, xyz, r);
      LevelConcat(sh, xy, z);
      LevelConcat(sh, x, y);
    case Ended(headed, paren, rest) =>
      var t := if paren then CloseParen else Semicolon;
      var x, r := ThinsSplit((if headed then [Head] else []) + [Tok(t)], BodyMarks(rest), ns);
      ThinEnded(headed, t, x, sh);
      ThinBody(rest, r, sh);
      LevelConcat(sh, x, r);
  }

  lemma ThinsNothing(ns: seq<Mark>)
    requires Thins([], ns)
    ensures ns == []
  {
  }

  lemma LevelCloser(sh: Shape)
    ensures Level(sh + [true], [Tok(CloseBrace)]) == Some(sh)
  {
    LevelOne(sh + [true], Tok(CloseBrace));
    assert Pop(sh + [true]) == sh;
  }

  /** What is written as balanced text is read as such, from any stack. */
  lemma WrittenBalanced(s: seq<Block>, ls: seq<Line>, b: Body)
    requires AllMarks(ls) == BodyMarks(b)
    ensures Balanced(ReadMarks(s, ls))
  {
    ReadsWritten(s, ls);
    ThinBody(b, ReadMarks(s, ls), []);
  }

  /** The same for what stands between the beginning of a block and its closing brace. */
  lemma WrittenBlock(s: seq<Block>, ls: seq<Line>, m: Mark, b: Body) returns (ms: seq<Mark>)
    requires m != Head && AllMarks(ls) == [m] + BodyMarks(b) + [Tok(CloseBrace)]
    ensures ReadMarks(s, ls) == [m] + ms + [Tok(CloseBrace)] && Balanced(ms)
  {
    hide Thins, Level;
    ReadsWritten(s, ls);
    var xy, z := ThinsSplit([m] + BodyMarks(b), [Tok(CloseBrace)], ReadMarks(s, ls));
    var x, y := ThinsSplit([m], BodyMarks(b), xy);
    ThinsOne(Tok(CloseBrace), z);
    ThinsOne(m, x);
    ThinBody(b, y, []);
    ms := y;
  }

  // ----- blocks that close -----

  lemma {:induction false} ConsumeConcat(s: seq<Block>, a: seq<Token>, b: seq<Token>, n: nat)
    ensures ConsumeTokens(s, a + b, n) == ConsumeTokens(ConsumeTokens(s, a, n), b, n)
    decreases |a|
  {
    if a == [] {
      assert a + b == b;
    } else {
      assert (a + b)[1..] == a[1..] + b;
      ConsumeConcat(ConsumeToken(s, a[0], n), a[1..], b, n);
    }
  }

  lemma ConsumeOne(s: seq<Block>, t: Token, n: nat)
    ensures ConsumeTokens(s, [t], n) == ConsumeToken(s, t, n)
  {
    assert [t][1..] == [];
  }

  /** The lines up to token `j` of the last. */
  function CutTo(ls: seq<Line>, j: nat): seq<Line>
    requires ls != [] && j <= |Top(ls).tokens|
  {
    SetTop(ls, Top(ls).(tokens := Top(ls).tokens[..j]))
  }

  /** The first line differs in its tokens at most, and the last ends in token `j - 1`. */
  lemma CutFirst(s: seq<Block>, ls: seq<Line>, j: nat)
    requires ls != [] && 0 < j <= |Top(ls).tokens|
    ensures var cut := CutTo(ls, j);
      && cut != [] && Top(cut).tokens != []
      && cut[0].namespaces == ls[0].namespaces && CountParentheses(s, cut[0]) == CountParentheses(s, ls[0])
      && EnterLine(s, cut[0]) == EnterLine(s, ls[0])
      && AcceptsClass(EnterLine(s, ls[0]), cut[0]) == AcceptsClass(EnterLine(s, ls[0]), ls[0])
  {
  }

  /** The other tokens of the last line are consumed after them. */
  lemma CutRun(s: seq<Block>, ls: seq<Line>, j: nat)
    requires ls != [] && j <= |Top(ls).tokens|
    ensures RunStack(s, ls) == ConsumeTokens(RunStack(s, CutTo(ls, j)), Top(ls).tokens[j..], Top(ls).number)
  {
    hide UpdateStack;
    var init, last, cut := Pop(ls), Top(ls), Top(CutTo(ls, j));
    assert ls == init + [last] && CutTo(ls, j) == init + [cut];
    RunStackConcat(s, init, [last]);
    RunStackConcat(s, init, [cut]);
    RunStackOne(RunStack(s, init), last);
    RunStackOne(RunStack(s, init), cut);
    CutLine(RunStack(s, init), last, j);
  }

  lemma CutLine(s: seq<Block>, l: Line, j: nat)
    requires j <= |l.tokens|
    ensures UpdateStack(s, l) == ConsumeTokens(UpdateStack(s, l.(tokens := l.tokens[..j])), l.tokens[j..], l.number)
  {
    hide ConsumeHead, EnterLine, ConsumeTokens;
    CutHead(s, l, l.tokens[..j]);
    assert l.tokens == l.tokens[..j] + l.tokens[j..];
    ConsumeConcat(ConsumeHead(EnterLine(s, l), l), l.tokens[..j], l.tokens[j..], l.number);
  }

  /** The tokens of a line have no part in what comes before them. */
  lemma CutHead(s: seq<Block>, l: Line, ts: seq<Token>)
    ensures var cut := l.(tokens := ts);
      && ConsumeHead(EnterLine(s, cut), cut) == ConsumeHead(EnterLine(s, l), l)
      && AcceptsClass(EnterLine(s, cut), cut) == AcceptsClass(EnterLine(s, l), l)
  {
  }

  /** Without the last token of the last line. */
  function ShortOfLast(ls: seq<Line>): seq<Line>
    requires ls != [] && Top(ls).tokens != []
  {
    CutTo(ls, |Top(ls).tokens| - 1)
  }

  lemma LastToken(s: seq<Block>, ls: seq<Line>)
    requires ls != [] && Top(ls).tokens != []
    ensures RunStack(s, ls) == ConsumeToken(RunStack(s, ShortOfLast(ls)), Top(Top(ls).tokens), Top(ls).number)
    ensures ReadMarks(s, ls) == ReadMarks(s, ShortOfLast(ls)) + [Tok(Top(Top(ls).tokens))]
  {
    LastTokenRun(s, ls);
    LastTokenMarks(s, ls);
  }

  lemma LastTokenRun(s: seq<Block>, ls: seq<Line>)
    requires ls != [] && Top(ls).tokens != []
    ensures RunStack(s, ls) == ConsumeToken(RunStack(s, ShortOfLast(ls)), Top(Top(ls).tokens), Top(ls).number)
  {
    hide RunStack, ConsumeTokens, ConsumeToken, CutTo;
    var l := Top(ls);
    var j := |l.tokens| - 1;
    CutRun(s, ls, j);
    assert l.tokens[j..] == [Top(l.tokens)];
    ConsumeOne(RunStack(s, ShortOfLast(ls)), Top(l.tokens), l.number);
  }

  lemma LastTokenMarks(s: seq<Block>, ls: seq<Line>)
    requires ls != [] && Top(ls).tokens != []
    ensures ReadMarks(s, ls) == ReadMarks(s, ShortOfLast(ls)) + [Tok(Top(Top(ls).tokens))]
  {
    hide ReadMarks, RunStack, LineMarks;
    var l := Top(ls);
    var init, short := Pop(ls), Top(ShortOfLast(ls));
    assert ls == init + [l] && ShortOfLast(ls) == init + [short];
    ReadMarksConcat(s, init, [l]);
    ReadMarksConcat(s, init, [short]);
    ReadMarksOne(RunStack(s, init), l);
    ReadMarksOne(RunStack(s, init), short);
    LastMark(RunStack(s, init), l);
  }

  lemma LastMark(s: seq<Block>, l: Line)
    requires l.tokens != []
    ensures var short := l.(tokens := l.tokens[..|l.tokens| - 1]);
      LineMarks(s, l) == LineMarks(s, short) + [Tok(Top(l.tokens))]
  {
    hide AcceptsClass, NamespaceMarks;
    CutHead(s, l, l.tokens[..|l.tokens| - 1]);
    assert TokenMarks(l.tokens) == TokenMarks(l.tokens[..|l.tokens| - 1]) + [Tok(Top(l.tokens))];
  }

  /** A head waits for its brace over any number of lines that say nothing about blocks. */
  lemma {:induction false} HeadWaits(s: seq<Block>, h: Block, ls: seq<Line>, k: BraceKind, ms: seq<Mark>)
    returns (g: Block, change: int)
    requires !h.seenOpenBrace && ReadMarks(s + [h], ls) == [Tok(OpenBrace(k))] + ms && Level([], ms).Some?
    ensures g.start == h.start && g.kind == h.kind
    ensures Over(s + [g], RunStack(s + [h], ls), Level([], ms).value, change)
    decreases |ls|
  {
    hide Over, ConsumeHead, EnterLine, Level, LineMarks;
    var l := ls[0];
    var rest := ReadMarks(UpdateStack(s + [h], l), ls[1..]);
    if LineMarks(s + [h], l) == [] {
      NoMarks(s + [h], l);
      var h1 := HeadStays(s, h, l);
      g, change := HeadWaits(s, h1, ls[1..], k, ms);
    } else {
      BraceFirst(s + [h], l, k, rest, ms);
      var h1 := HeadStays(s, h, l);
      g := h1.(seenOpenBrace := true);
      var more := TokenMarks(l.tokens[1..]);
      LevelConcat([], more, rest);
      HeadOpens(s, h1, l.tokens, l.number);
      LinesOver(s + [g], UpdateStack(s + [h], l), Level([], more).value, 0, ls[1..]);
      change := 0 + OuterChange(Level([], more).value, UpdateStack(s + [h], l), ls[1..]);
    }
  }

  lemma NoMarks(s: seq<Block>, l: Line)
    requires LineMarks(s, l) == []
    ensures l.namespaces == [] && l.tokens == [] && !AcceptsClass(EnterLine(s, l), l)
  {
    assert |NamespaceMarks(l.namespaces)| == 0 && |TokenMarks(l.tokens)| == 0;
  }

  /** When a brace is the first mark of a line, the line has nothing but tokens. */
  lemma BraceFirst(s: seq<Block>, l: Line, k: BraceKind, rest: seq<Mark>, ms: seq<Mark>)
    requires LineMarks(s, l) != [] && LineMarks(s, l) + rest == [Tok(OpenBrace(k))] + ms
    ensures l.namespaces == [] && !AcceptsClass(EnterLine(s, l), l)
    ensures l.tokens != [] && l.tokens[0] == OpenBrace(k) && ms == TokenMarks(l.tokens[1..]) + rest
  {
    hide AcceptsClass;
    var a, c := NamespaceMarks(l.namespaces), TokenMarks(l.tokens);
    var b := if AcceptsClass(EnterLine(s, l), l) then [Head] else [];
    assert LineMarks(s, l) == a + b + c;
    FirstIsToken(a, b, c, rest, Tok(OpenBrace(k)), ms);
    assert c[1..] == TokenMarks(l.tokens[1..]);
  }

  lemma FirstIsToken(a: seq<Mark>, b: seq<Mark>, c: seq<Mark>, rest: seq<Mark>, m: Mark, ms: seq<Mark>)
    requires (a != [] ==> a[0] != m) && (b == [] || (b == [Head] && m != Head)) && a + b + c != []
    requires a + b + c + rest == [m] + ms
    ensures a == [] && b == [] && c != [] && c[0] == m && ms == c[1..] + rest
  {
    var all := a + b + c + rest;
    assert all[0] == m && all[1..] == ms;
  }

  lemma HeadStays(s: seq<Block>, h: Block, l: Line) returns (h1: Block)
    requires l.namespaces == [] && !AcceptsClass(EnterLine(s + [h], l), l)
    ensures ConsumeHead(EnterLine(s + [h], l), l) == s + [h1]
    ensures h1.start == h.start && h1.kind == h.kind && h1.seenOpenBrace == h.seenOpenBrace
  {
    var x := s + [h];
    var counted := CountIn(h, l);
    assert EnterLine(x, l) == s + [counted];
    var checked := CheckBegin(s + [counted], l);
    assert checked == s + [Top(checked)];
    var r := ConsumeHead(s + [counted], l);
    assert r == UpdateAccess(checked, l.access) == s + [Top(r)];
    h1 := Top(r);
  }

  lemma HeadOpens(s: seq<Block>, h: Block, ts: seq<Token>, n: nat)
    requires !h.seenOpenBrace && ts != [] && ts[0].OpenBrace? && Level([], TokenMarks(ts[1..])).Some?
    ensures Over(s + [h.(seenOpenBrace := true)], ConsumeTokens(s + [h], ts, n),
                 Level([], TokenMarks(ts[1..])).value, 0)
  {
    hide Level;
    var g := h.(seenOpenBrace := true);
    assert ConsumeToken(s + [h], ts[0], n) == s + [g];
    OverSelf(s + [g]);
    TokensOver(s + [g], s + [g], [], 0, ts[1..], n);
  }

  lemma HeadCloses(s: seq<Block>, h: Block, ls: seq<Line>, k: BraceKind, ms: seq<Mark>)
    requires !h.seenOpenBrace && ls != [] && Top(ls).tokens != [] && Balanced(ms)
    requires ReadMarks(s + [h], ls) == [Tok(OpenBrace(k))] + ms + [Tok(CloseBrace)]
    ensures RunStack(s + [h], ls) == s
  {
    hide Level, ReadMarks;
    LastToken(s + [h], ls);
    SameEnds(ReadMarks(s + [h], ShortOfLast(ls)), Tok(Top(Top(ls).tokens)), [Tok(OpenBrace(k))] + ms, Tok(CloseBrace));
    var g, change := HeadWaits(s, h, ShortOfLast(ls), k, ms);
    Gone(s, g, RunStack(s + [h], ShortOfLast(ls)), change, Top(ls).number);
  }

  lemma SameEnds(a: seq<Mark>, x: Mark, b: seq<Mark>, y: Mark)
    requires a + [x] == b + [y]
    ensures a == b && x == y
  {
    assert Pop(a + [x]) == a && Pop(b + [y]) == b && Top(a + [x]) == x && Top(b + [y]) == y;
  }

  /** The closing brace of the innermost block. */
  lemma Gone(s: seq<Block>, g: Block, y: seq<Block>, change: int, n: nat)
    requires Over(s + [g], y, [], change)
    ensures ConsumeToken(y, CloseBrace, n) == s
  {
    assert Pop(s + [g]) == s;
  }

  /** A block whose head was pushed last is removed by its own closing brace, wherever on a later
      line that stands and whatever is declared inside: token `i` of the last line of `ls`.  What
      follows finds the stack as it was before the head. */
  lemma BlockClosesItself(d: Doc, st: State, s: seq<Block>, h: Block, ls: seq<Line>, i: nat, tail: seq<Line>,
                          k: BraceKind, ms: seq<Mark>)
    requires WellFormed(d) && Kept(d) == ls + tail && st.stack == s + [h] && !h.seenOpenBrace
    requires ls != [] && i < |Top(ls).tokens| && Balanced(ms)
    requires ReadMarks(st.stack, CutTo(ls, i + 1)) == [Tok(OpenBrace(k))] + ms + [Tok(CloseBrace)]
    ensures var l := Top(ls);
      Run(st, Lines(d)) == State(RunStack(ConsumeTokens(s, l.tokens[i + 1..], l.number), tail), st.saved)
  {
    hide Level, ReadMarks;
    FileStack(d, st);
    RunStackConcat(st.stack, ls, tail);
    CutRun(st.stack, ls, i + 1);
    HeadCloses(s, h, CutTo(ls, i + 1), k, ms);
  }

  /** A line that carries the tokens of another and nothing else. */
  function TokensOf(l: Line): Line {
    Line(l.number, NoDirective, 0, false, [], None, false, None, l.tokens)
  }

  /** Right after a head, the tokens of its line may as well stand on the next. */
  lemma TokensApart(s: seq<Block>, h: Block, l: Line)
    requires h.openParentheses == 0 && h.inlineAsm == NoAsm
    ensures UpdateStack(s + [h], TokensOf(l)) == ConsumeTokens(s + [h], l.tokens, l.number)
  {
    var x := s + [h];
    assert CountIn(h, TokensOf(l)) == h;
    assert SetTop(x, h) == x;
  }

  lemma CarriedLines(s: seq<Block>, h: Block, l: Line, more: seq<Line>)
    requires h.openParentheses == 0 && h.inlineAsm == NoAsm
    ensures var x := ConsumeTokens(s + [h], l.tokens, l.number);
      && RunStack(s + [h], [TokensOf(l)] + more) == RunStack(x, more)
      && ReadMarks(s + [h], [TokensOf(l)] + more) == TokenMarks(l.tokens) + ReadMarks(x, more)
  {
    var ls := [TokensOf(l)] + more;
    TokensApart(s, h, l);
    assert ls[1..] == more;
    assert LineMarks(s + [h], TokensOf(l)) == TokenMarks(l.tokens);
  }

  lemma ClassHead(s: seq<Block>, l: Line) returns (h: Block)
    requires AcceptsClass(s, l)
    ensures ConsumeHead(s, l) == s + [h]
    ensures !h.seenOpenBrace && h.openParentheses == 0 && h.inlineAsm == NoAsm
  {
    var pushed := PushClass(s, l);
    assert pushed == s + [NewClass(l.classDecl.value, l.number)];
    var checked := CheckBegin(pushed, l);
    assert Pop(checked) == s && Top(checked).inlineAsm == NoAsm;
    var r := ConsumeHead(s, l);
    assert Pop(r) == s;
    h := Top(r);
    assert r == Pop(r) + [h];
  }

  /** As `BlockClosesItself`, from the line with the class head on, if that is accepted.  Head and
      closing brace may be on the same line. */
  lemma ClassClosesItself(d: Doc, st: State, ls: seq<Line>, i: nat, tail: seq<Line>, k: BraceKind, ms: seq<Mark>)
    requires WellFormed(d) && Kept(d) == ls + tail
    requires ls != [] && i < |Top(ls).tokens| && Balanced(ms)
    requires AcceptsClass(EnterLine(st.stack, ls[0]), ls[0])
    requires ReadMarks(st.stack, CutTo(ls, i + 1))
          == NamespaceMarks(ls[0].namespaces) + [Head] + ([Tok(OpenBrace(k))] + ms + [Tok(CloseBrace)])
    ensures var s, l := EnterLine(st.stack, ls[0]), Top(ls);
      Run(st, Lines(d)) == State(RunStack(ConsumeTokens(s, l.tokens[i + 1..], l.number), tail), st.saved)
  {
    hide Level, AcceptsClass, EnterLine, ReadMarks, RunStack, CutTo, NamespaceMarks;
    FileStack(d, st);
    RunStackConcat(st.stack, ls, tail);
    CutRun(st.stack, ls, i + 1);
    CutFirst(st.stack, ls, i + 1);
    ClassLines(st.stack, CutTo(ls, i + 1), k, ms);
  }

  /** A class definition, with the semicolon after its closing brace. */
  lemma ClassDefinition(d: Doc, st: State, ls: seq<Line>, i: nat, tail: seq<Line>, k: BraceKind, ms: seq<Mark>)
    requires WellFormed(d) && ls != [] && Kept(d) == ls + tail && SeenOpenBrace(EnterLine(st.stack, ls[0]))
    requires i < |Top(ls).tokens| && Top(ls).tokens[i + 1..] == [Semicolon] && Balanced(ms)
    requires AcceptsClass(EnterLine(st.stack, ls[0]), ls[0])
    requires ReadMarks(st.stack, CutTo(ls, i + 1))
          == NamespaceMarks(ls[0].namespaces) + [Head] + ([Tok(OpenBrace(k))] + ms + [Tok(CloseBrace)])
    ensures Run(st, Lines(d)) == State(RunStack(EnterLine(st.stack, ls[0]), tail), st.saved)
  {
    hide Level, AcceptsClass, EnterLine, ReadMarks, RunStack, CutTo, NamespaceMarks;
    ClassClosesItself(d, st, ls, i, tail, k, ms);
    EndingTokens(EnterLine(st.stack, ls[0]), [Semicolon], Top(ls).number);
  }

  lemma ClassLines(s0: seq<Block>, ls: seq<Line>, k: BraceKind, ms: seq<Mark>)
    requires ls != [] && Top(ls).tokens != [] && Balanced(ms)
    requires AcceptsClass(EnterLine(s0, ls[0]), ls[0])
    requires ReadMarks(s0, ls)
          == NamespaceMarks(ls[0].namespaces) + [Head] + ([Tok(OpenBrace(k))] + ms + [Tok(CloseBrace)])
    ensures RunStack(s0, ls) == EnterLine(s0, ls[0])
  {
    hide Level, AcceptsClass, NamespaceMarks, ConsumeTokens, EnterLine, ConsumeHead;
    var l, s := ls[0], EnterLine(s0, ls[0]);
    var h := ClassHead(s, l);
    var x := ConsumeTokens(s + [h], l.tokens, l.number);
    assert UpdateStack(s0, l) == x;
    AfterHead(s0, l, ReadMarks(x, ls[1..]), [Tok(OpenBrace(k))] + ms + [Tok(CloseBrace)]);
    CarriedLines(s, h, l, ls[1..]);
    var carried := [TokensOf(l)] + ls[1..];
    assert Top(carried).tokens == Top(ls).tokens;
    HeadCloses(s, h, carried, k, ms);
  }

  lemma AfterHead(s: seq<Block>, l: Line, rest: seq<Mark>, ms: seq<Mark>)
    requires AcceptsClass(EnterLine(s, l), l)
    requires LineMarks(s, l) + rest == NamespaceMarks(l.namespaces) + [Head] + ms
    ensures TokenMarks(l.tokens) + rest == ms
  {
    hide AcceptsClass, NamespaceMarks;
    var before := NamespaceMarks(l.namespaces) + [Head];
    assert LineMarks(s, l) == before + TokenMarks(l.tokens);
    assert (before + (TokenMarks(l.tokens) + rest))[|before|..] == (before + ms)[|before|..];
  }

  /** A class head is removed by any token but a brace that opens, whatever follows on the line.
      So forward declarations, and arguments with an extra `class`, leave no trace; and a head
      without either takes the closing brace that was meant for the block around it. */
  lemma HeadWithoutBody(s: seq<Block>, l: Line)
    requires AcceptsClass(EnterLine(s, l), l)
    requires l.tokens != [] && !l.tokens[0].OpenBrace?
    ensures UpdateStack(s, l) == ConsumeTokens(EnterLine(s, l), l.tokens[1..], l.number)
  {
    var before := EnterLine(s, l);
    var h := ClassHead(before, l);
    assert Pop(before + [h]) == before;
  }

  // ----- namespaces -----

  /** The first namespace of a line, and the line without it. */
  lemma FirstNamespace(x: seq<Block>, l: Line)
    requires l.namespaces != [] && l.namespaces[0].opens
    ensures var base, less := x + [NewNamespace(l.namespaces[0], l.number)], l.(namespaces := l.namespaces[1..]);
      Rest(x, l) == Rest(base, less) && RestMarks(x, l) == [Enter] + RestMarks(base, less)
  {
    assert NamespaceMarks(l.namespaces) == [Enter] + NamespaceMarks(l.namespaces[1..]);
  }

  /** A namespace that a line opens first is removed by its own closing brace, on whatever line
      and wherever on it that stands and whatever is declared inside, further namespaces on the
      first line included; what follows finds the stack as it was. */
  lemma NamespacesClose(d: Doc, st: State, ls: seq<Line>, i: nat, tail: seq<Line>, ms: seq<Mark>)
    requires WellFormed(d) && Kept(d) == ls + tail
    requires ls != [] && i < |Top(ls).tokens| && Balanced(ms)
    requires ls[0].namespaces != [] && ls[0].namespaces[0].opens
    requires ReadMarks(st.stack, CutTo(ls, i + 1)) == [Enter] + ms + [Tok(CloseBrace)]
    ensures var s, l := CountParentheses(st.stack, ls[0]), Top(ls);
      Run(st, Lines(d)) == State(RunStack(ConsumeTokens(s, l.tokens[i + 1..], l.number), tail), st.saved)
  {
    hide Level, ReadMarks, RunStack, CutTo, CountParentheses;
    FileStack(d, st);
    RunStackConcat(st.stack, ls, tail);
    CutRun(st.stack, ls, i + 1);
    CutFirst(st.stack, ls, i + 1);
    NamespaceLines(st.stack, CutTo(ls, i + 1), ms);
  }

  lemma NamespaceLines(s: seq<Block>, ls: seq<Line>, ms: seq<Mark>)
    requires ls != [] && Top(ls).tokens != [] && Balanced(ms)
    requires ls[0].namespaces != [] && ls[0].namespaces[0].opens
    requires ReadMarks(s, ls) == [Enter] + ms + [Tok(CloseBrace)]
    ensures RunStack(s, ls) == CountParentheses(s, ls[0])
  {
    hide Level, Over, Rest, RestMarks, UpdateStack, ConsumeToken;
    var short, x := ShortOfLast(ls), CountParentheses(s, ls[0]);
    var l := short[0];
    LastToken(s, ls);
    SameEnds(ReadMarks(s, short), Tok(Top(Top(ls).tokens)), [Enter] + ms, Tok(CloseBrace));
    var g, less := NewNamespace(l.namespaces[0], l.number), l.(namespaces := l.namespaces[1..]);
    FirstNamespace(x, l);
    RestOfLine(s, l);
    var y, rest := Rest(x + [g], less), ReadMarks(UpdateStack(s, l), short[1..]);
    assert ms == RestMarks(x + [g], less) + rest by {
      assert [Enter] + ms == [Enter] + RestMarks(x + [g], less) + rest;
      SameStarts(ms, RestMarks(x + [g], less) + rest);
    }
    LevelConcat([], RestMarks(x + [g], less), rest);
    OverSelf(x + [g]);
    RestOver(x + [g], x + [g], [], 0, less);
    var sh := Level([], RestMarks(x + [g], less)).value;
    LinesOver(x + [g], y, sh, 0, short[1..]);
    Gone(x, g, RunStack(s, short), 0 + OuterChange(sh, y, short[1..]), Top(ls).number);
  }

  lemma SameStarts(a: seq<Mark>, b: seq<Mark>)
    requires [Enter] + a == [Enter] + b
    ensures a == b
  {
    assert ([Enter] + a)[1..] == a && ([Enter] + b)[1..] == b;
  }

  // ----- parentheses and inline assembly -----

  /** In a file that closes no block but its own, the innermost block it finds counts the
      parentheses of exactly the lines at whose beginning no block of the file is open. */
  lemma ParenthesesCounted(d: Doc, st: State)
    requires WellFormed(d) && st.stack != [] && Top(st.stack).seenOpenBrace
    requires Level([], ReadMarks(st.stack, Kept(d))).Some?
    ensures var r, n := Run(st, Lines(d)), |st.stack| - 1;
      && |r.stack| > n && r.stack[..n] == Pop(st.stack)
      && r.stack[n].openParentheses == Top(st.stack).openParentheses + OuterChange([], st.stack, Kept(d))
  {
    hide Level, ReadMarks, OuterChange;
    FileDepth(d, st);
  }

  function DepthChange(ls: seq<Line>): int {
    if ls == [] then 0 else ls[0].depthChange + DepthChange(ls[1..])
  }

  /** Lines without namespaces and braces, in which a class head stands only where the count of
      open parentheses, `n` before the first line, is not 0, or with a token after it. */
  predicate AreArguments(n: int, ls: seq<Line>)
    decreases |ls|
  {
    ls != [] ==>
      var l := ls[0];
      && l.namespaces == []
      && (forall i | 0 <= i < |l.tokens| :: l.tokens[i] == Semicolon || l.tokens[i] == CloseParen)
      && (l.classDecl.Some? && n + l.depthChange == 0 ==> l.classDecl.value.inTemplate || l.tokens != [])
      && AreArguments(n + l.depthChange, ls[1..])
  }

  lemma {:induction false} EndingTokens(s: seq<Block>, ts: seq<Token>, n: nat)
    requires SeenOpenBrace(s) && forall i | 0 <= i < |ts| :: ts[i] == Semicolon || ts[i] == CloseParen
    ensures ConsumeTokens(s, ts, n) == s
    decreases |ts|
  {
    if ts == [] {
    } else {
      EndingTokens(s, ts[1..], n);
    }
  }

  /** The same stack but for the innermost block, and there `change` more open parentheses. */
  predicate Counted(s: seq<Block>, r: seq<Block>, change: int) {
    s != [] && |r| == |s| && Pop(r) == Pop(s) && SameBlock(Top(s), Top(r), change)
  }

  lemma ArgumentLine(s: seq<Block>, l: Line)
    requires s != [] && Top(s).seenOpenBrace && AreArguments(Top(s).openParentheses, [l])
    ensures Counted(s, UpdateStack(s, l), l.depthChange)
  {
    var x := EnterLine(s, l);
    assert Pop(x) == Pop(s);
    if AcceptsClass(x, l) {
      var h := ClassHead(x, l);
      assert Pop(x + [h]) == x;
      EndingTokens(x, l.tokens[1..], l.number);
    } else {
      assert CheckBegin(x, l) == x;
      var y := ConsumeHead(x, l);
      assert Pop(y) == Pop(x);
      EndingTokens(y, l.tokens, l.number);
    }
  }

  lemma {:induction false} ArgumentLines(s: seq<Block>, ls: seq<Line>)
    requires s != [] && Top(s).seenOpenBrace && AreArguments(Top(s).openParentheses, ls)
    ensures Counted(s, RunStack(s, ls), DepthChange(ls))
    decreases |ls|
  {
    hide UpdateStack;
    if ls == [] {
    } else {
      assert [ls[0]][1..] == [];
      ArgumentLine(s, ls[0]);
      ArgumentLines(UpdateStack(s, ls[0]), ls[1..]);
    }
  }

  /** What the count is for: class and struct heads among the arguments of a function, on however
      many lines, leave no trace on the stack. */
  lemma ArgumentsLeaveNoTrace(d: Doc, st: State)
    requires WellFormed(d) && st.stack != [] && Top(st.stack).seenOpenBrace
    requires AreArguments(Top(st.stack).openParentheses, Kept(d))
    ensures var r := Run(st, Lines(d));
      r.saved == st.saved && Counted(st.stack, r.stack, DepthChange(Kept(d)))
  {
    FileStack(d, st);
    ArgumentLines(st.stack, Kept(d));
  }

  /** A block counts as inside assembly only while a parenthesis is open, and as just past it
      only while none is. */
  predicate AsmOk(b: Block) {
    (b.inlineAsm == InsideAsm ==> b.openParentheses != 0) && (b.inlineAsm == EndAsm ==> b.openParentheses == 0)
  }

  predicate AllAsmOk(s: seq<Block>) { forall i | 0 <= i < |s| :: AsmOk(s[i]) }

  predicate SavedAsmOk(saved: seq<Saved>) {
    forall i | 0 <= i < |saved| :: AllAsmOk(saved[i].beforeIf) && AllAsmOk(saved[i].beforeElse)
  }

  predicate StateAsmOk(st: State) { AllAsmOk(st.stack) && SavedAsmOk(st.saved) }

  lemma {:induction false} NamespacesKeepAsm(s: seq<Block>, ds: seq<NamespaceDecl>, n: nat)
    requires AllAsmOk(s)
    ensures AllAsmOk(PushNamespaces(s, ds, n))
    decreases |ds|
  {
    if ds == [] {
    } else {
      NamespacesKeepAsm(s + [NewNamespace(ds[0], n)], ds[1..], n);
    }
  }

  lemma {:induction false} TokensKeepAsm(s: seq<Block>, ts: seq<Token>, n: nat)
    requires AllAsmOk(s)
    ensures AllAsmOk(ConsumeTokens(s, ts, n))
    decreases |ts|
  {
    if ts == [] {
    } else {
      TokensKeepAsm(ConsumeToken(s, ts[0], n), ts[1..], n);
    }
  }

  lemma LineKeepsAsm(s: seq<Block>, line: Line)
    requires AllAsmOk(s)
    ensures AllAsmOk(UpdateStack(s, line))
  {
    var counted := CountParentheses(s, line);
    assert AllAsmOk(counted);
    NamespacesKeepAsm(counted, line.namespaces, line.number);
    var pushed := PushClass(EnterLine(s, line), line);
    assert AllAsmOk(pushed);
    var checked := CheckBegin(pushed, line);
    assert AllAsmOk(checked);
    assert AllAsmOk(ConsumeHead(EnterLine(s, line), line));
    TokensKeepAsm(ConsumeHead(EnterLine(s, line), line), line.tokens, line.number);
  }

  lemma DirectiveKeepsAsm(st: State, d: Directive)
    requires StateAsmOk(st)
    ensures StateAsmOk(UpdatePreprocessor(st, d))
  {
  }

  /** In every run, over text and directives alike, every block on the stack and in every
      checkpoint keeps its assembly state in agreement with its parentheses. */
  lemma {:induction false} AsmSafety(st: State, ls: seq<Line>)
    requires StateAsmOk(st)
    ensures StateAsmOk(Run(st, ls))
    decreases |ls|
  {
    if ls == [] {
    } else {
      DirectiveKeepsAsm(st, ls[0].directive);
      LineKeepsAsm(UpdatePreprocessor(st, ls[0].directive).stack, ls[0]);
      AsmSafety(Update(st, ls[0]), ls[1..]);
    }
  }
}
