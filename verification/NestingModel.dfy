/** The values behind cpplint's `NestingState`: what one line of a file does to the stack of
    open blocks and to the stacks saved at `#if`.

    A line is what the regular expressions of `Update` see in it. */
module NestingModel {
  import opened Basics

  datatype Asm = NoAsm | InsideAsm | EndAsm | BlockAsm

  datatype Access = Public | Private | Protected | Signals

  datatype BlockKind =
    | Plain
    | ExternC
    | Namespace(name: string)
    | Class(className: string, isStruct: bool, indent: nat, lastLine: nat)

  datatype Block = Block(start: nat, kind: BlockKind, seenOpenBrace: bool, openParentheses: int,
                         inlineAsm: Asm, access: Access, isDerived: bool)

  datatype Directive = NoDirective | If | Else | Endif

  /** `namespace name`, and whether a '{' follows it on the line. */
  datatype NamespaceDecl = NamespaceDecl(name: string, opens: bool)

  /** A class head.  `inTemplate` is the answer of `InTemplateArgumentList` after it, and
      `access` the access label in the rest of the line. */
  datatype ClassDecl = ClassDecl(kind: BlockKind, inTemplate: bool, access: Option<Access>)

  datatype BraceKind = PlainBrace | AsmBrace | ExternBrace

  datatype Token = OpenBrace(kind: BraceKind) | CloseBrace | Semicolon | CloseParen

  /** One line: its number, its directive, its '(' minus its ')', whether it starts inline
      assembly, its leading namespaces, a class head, a bare ':', an access label, and its
      braces, semicolons and closing parentheses in order. */
  datatype Line = Line(number: nat, directive: Directive, depthChange: int, startsAsm: bool,
                       namespaces: seq<NamespaceDecl>, classDecl: Option<ClassDecl>,
                       bareColon: bool, access: Option<Access>, tokens: seq<Token>)

  /** The stacks saved for one open `#if`. */
  datatype Saved = Saved(beforeIf: seq<Block>, beforeElse: seq<Block>, seenElse: bool)

  datatype State = State(stack: seq<Block>, saved: seq<Saved>)

  predicate SeenOpenBrace(stack: seq<Block>) {
    stack == [] || Top(stack).seenOpenBrace
  }

  // ----- one line -----

  function UpdatePreprocessor(st: State, d: Directive): State {
    match d
    case NoDirective => st
    case If => State(st.stack, st.saved + [Saved(st.stack, [], false)])
    case Else =>
      if st.saved == [] then st
      else
        var p := Top(st.saved);
        var q := if p.seenElse then p else Saved(p.beforeIf, st.stack, true);
        State(p.beforeIf, SetTop(st.saved, q))
    case Endif =>
      if st.saved == [] then st
      else
        var p := Top(st.saved);
        State(if p.seenElse then p.beforeElse else st.stack, Pop(st.saved))
  }

  function NextAsm(asm: Asm, depthChange: int, parentheses: int, startsAsm: bool): Asm {
    if asm.NoAsm? || asm.EndAsm? then
      if depthChange != 0 && parentheses == 1 && startsAsm then InsideAsm else NoAsm
    else if asm.InsideAsm? && parentheses == 0 then EndAsm
    else asm
  }

  function CountIn(b: Block, line: Line): Block {
    var n := b.openParentheses + line.depthChange;
    b.(openParentheses := n, inlineAsm := NextAsm(b.inlineAsm, line.depthChange, n, line.startsAsm))
  }

  function CountParentheses(stack: seq<Block>, line: Line): seq<Block> {
    if stack == [] then stack else SetTop(stack, CountIn(Top(stack), line))
  }

  function NewNamespace(d: NamespaceDecl, number: nat): Block {
    Block(number, Namespace(d.name), d.opens, 0, NoAsm, Public, false)
  }

  function PushNamespaces(stack: seq<Block>, ds: seq<NamespaceDecl>, number: nat): seq<Block>
    decreases |ds|
  {
    if ds == [] then stack
    else PushNamespaces(stack + [NewNamespace(ds[0], number)], ds[1..], number)
  }

  function NewClass(d: ClassDecl, number: nat): Block {
    var access := if d.kind.Class? && d.kind.isStruct then Public else Private;
    Block(number, d.kind, false, 0, NoAsm, access, false)
  }

  predicate AcceptsClass(stack: seq<Block>, line: Line) {
    line.classDecl.Some? && (stack == [] || Top(stack).openParentheses == 0)
    && !line.classDecl.value.inTemplate
  }

  function PushClass(stack: seq<Block>, line: Line): seq<Block> {
    if AcceptsClass(stack, line) then stack + [NewClass(line.classDecl.value, line.number)] else stack
  }

  /** The check at a block's head notes a base class. */
  function CheckBegin(stack: seq<Block>, line: Line): seq<Block> {
    if !SeenOpenBrace(stack) && Top(stack).kind.Class? && line.bareColon
    then SetTop(stack, Top(stack).(isDerived := true))
    else stack
  }

  function UpdateAccess(stack: seq<Block>, access: Option<Access>): seq<Block> {
    if stack != [] && Top(stack).kind.Class? && access.Some?
    then SetTop(stack, Top(stack).(access := access.value))
    else stack
  }

  function NewBlock(kind: BraceKind, number: nat): Block {
    match kind
    case PlainBrace => Block(number, Plain, true, 0, NoAsm, Public, false)
    case AsmBrace => Block(number, Plain, true, 0, BlockAsm, Public, false)
    case ExternBrace => Block(number, ExternC, true, 0, NoAsm, Public, false)
  }

  function ConsumeToken(stack: seq<Block>, t: Token, number: nat): seq<Block> {
    match t
    case OpenBrace(kind) =>
      if !SeenOpenBrace(stack) then SetTop(stack, Top(stack).(seenOpenBrace := true))
      else stack + [NewBlock(kind, number)]
    case CloseBrace => if stack == [] then stack else Pop(stack)
    case Semicolon => if !SeenOpenBrace(stack) then Pop(stack) else stack
    case CloseParen => if !SeenOpenBrace(stack) then Pop(stack) else stack
  }

  function ConsumeTokens(stack: seq<Block>, ts: seq<Token>, number: nat): seq<Block>
    decreases |ts|
  {
    if ts == [] then stack else ConsumeTokens(ConsumeToken(stack, ts[0], number), ts[1..], number)
  }

  /** The namespaces at the start of a line. */
  function EnterLine(stack: seq<Block>, line: Line): seq<Block> {
    PushNamespaces(CountParentheses(stack, line), line.namespaces, line.number)
  }

  /** The class head after them, and what the rest of the line says about the innermost head. */
  function ConsumeHead(stack: seq<Block>, line: Line): seq<Block> {
    var access := if AcceptsClass(stack, line) then line.classDecl.value.access else line.access;
    UpdateAccess(CheckBegin(PushClass(stack, line), line), access)
  }

  /** What a line does to the stack once its directive has been obeyed. */
  function UpdateStack(stack: seq<Block>, line: Line): seq<Block> {
    ConsumeTokens(ConsumeHead(EnterLine(stack, line), line), line.tokens, line.number)
  }

  function Update(st: State, line: Line): State {
    var s := UpdatePreprocessor(st, line.directive);
    State(UpdateStack(s.stack, line), s.saved)
  }

  function Run(st: State, lines: seq<Line>): State
    decreases |lines|
  {
    if lines == [] then st else Run(Update(st, lines[0]), lines[1..])
  }
}
