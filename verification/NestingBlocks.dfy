/** What the blocks on the nesting stack say: kinds, names, access labels, base classes and inline
    assembly. */
module NestingBlocks {
  import opened Basics
  import opened NestingModel
  import opened NestingLaws

  function NewNamespaces(ds: seq<NamespaceDecl>, n: nat): seq<Block> {
    seq(|ds|, i requires 0 <= i < |ds| => NewNamespace(ds[i], n))
  }

  lemma {:induction false} NamespacesInOrder(s: seq<Block>, ds: seq<NamespaceDecl>, n: nat)
    ensures PushNamespaces(s, ds, n) == s + NewNamespaces(ds, n)
    decreases |ds|
  {
    if ds == [] {
      assert s + NewNamespaces(ds, n) == s;
    } else {
      var first := [NewNamespace(ds[0], n)];
      NamespacesInOrder(s + first, ds[1..], n);
      assert NewNamespaces(ds, n) == first + NewNamespaces(ds[1..], n);
      assert (s + first) + NewNamespaces(ds[1..], n) == s + NewNamespaces(ds, n);
    }
  }

  /** The namespaces at the start of a line are on the stack in order, by their names. */
  lemma NamespacesByName(s: seq<Block>, ds: seq<NamespaceDecl>, n: nat)
    ensures var r := PushNamespaces(s, ds, n);
      && |r| == |s| + |ds| && r[..|s|] == s
      && forall i | 0 <= i < |ds| ::
           r[|s| + i].kind == Namespace(ds[i].name) && r[|s| + i].start == n && r[|s| + i].seenOpenBrace == ds[i].opens
  {
    NamespacesInOrder(s, ds, n);
  }

  /** A class head outside parentheses that is no template argument is a class on the stack: from
      its line, waiting for its brace, with the access of its keyword or of a label after it. */
  lemma ClassIsPushed(s: seq<Block>, l: Line)
    requires l.classDecl.Some? && !l.classDecl.value.inTemplate && l.classDecl.value.kind.Class?
    requires s == [] || Top(s).openParentheses == 0
    ensures var r, d := ConsumeHead(s, l), l.classDecl.value;
      && |r| == |s| + 1 && Pop(r) == s && Top(r).kind == d.kind && Top(r).start == l.number && !Top(r).seenOpenBrace
      && Top(r).isDerived == l.bareColon
      && Top(r).access == (if d.access.Some? then d.access.value else if d.kind.isStruct then Public else Private)
  {
    var pushed := PushClass(s, l);
    assert Pop(pushed) == s;
    var checked := CheckBegin(pushed, l);
    assert Pop(checked) == s;
    var r := UpdateAccess(checked, l.classDecl.value.access);
    assert Pop(r) == s;
  }

  /** Inside parentheses, or as a template argument, it is not. */
  lemma ClassIsNotPushed(s: seq<Block>, l: Line)
    requires l.classDecl.Some?
    requires l.classDecl.value.inTemplate || (s != [] && Top(s).openParentheses != 0)
    ensures |ConsumeHead(s, l)| == |s|
  {
  }

  /** Lines that say nothing about blocks, but for labels and colons. */
  predicate SaysNothing(l: Line) { l.namespaces == [] && l.classDecl == None && l.tokens == [] }

  predicate AllSayNothing(ls: seq<Line>) { forall i | 0 <= i < |ls| :: SaysNothing(ls[i]) }

  /** The last access label of some lines, or `a`. */
  function LastLabel(a: Access, ls: seq<Line>): Access {
    if ls == [] then a
    else if Top(ls).access.Some? then Top(ls).access.value
    else LastLabel(a, Pop(ls))
  }

  predicate SomeColon(ls: seq<Line>) { exists i :: 0 <= i < |ls| && ls[i].bareColon }

  lemma QuietLine(s: seq<Block>, h: Block, l: Line)
    requires SaysNothing(l)
    ensures var r := UpdateStack(s + [h], l);
      && |r| == |s| + 1 && Pop(r) == s
      && Top(r).kind == h.kind && Top(r).start == h.start && Top(r).seenOpenBrace == h.seenOpenBrace
      && Top(r).access == (if h.kind.Class? && l.access.Some? then l.access.value else h.access)
      && Top(r).isDerived == (h.isDerived || (h.kind.Class? && !h.seenOpenBrace && l.bareColon))
      && Top(r).openParentheses == CountIn(h, l).openParentheses && Top(r).inlineAsm == CountIn(h, l).inlineAsm
  {
    var x := EnterLine(s + [h], l);
    assert x == s + [CountIn(h, l)];
    var y := CheckBegin(x, l);
    assert y == s + [Top(y)];
    var r := UpdateAccess(y, l.access);
    assert r == s + [Top(r)] && UpdateStack(s + [h], l) == r;
  }

  /** Over any number of such lines the innermost class has the access of the last label, and
      nothing else on the stack does; while its head waits for its brace, it is a derived class as
      soon as there is a bare colon, and afterwards no colon makes it one. */
  lemma {:induction false} LabelsAndColons(s: seq<Block>, h: Block, ls: seq<Line>)
    requires AllSayNothing(ls)
    ensures var r := RunStack(s + [h], ls);
      && |r| == |s| + 1 && Pop(r) == s && Top(r).kind == h.kind && Top(r).seenOpenBrace == h.seenOpenBrace
      && Top(r).access == (if h.kind.Class? then LastLabel(h.access, ls) else h.access)
      && Top(r).isDerived == (h.isDerived || (h.kind.Class? && !h.seenOpenBrace && SomeColon(ls)))
    decreases |ls|
  {
    hide UpdateStack;
    if ls == [] {
    } else {
      var most, l := Pop(ls), Top(ls);
      assert ls == most + [l];
      LabelsAndColons(s, h, most);
      RunStackConcat(s + [h], most, [l]);
      var x := RunStack(s + [h], most);
      assert x == s + [Top(x)] by { assert x == Pop(x) + [Top(x)]; }
      RunStackOne(x, l);
      QuietLine(s, Top(x), l);
      assert SomeColon(ls) <==> SomeColon(most) || l.bareColon by { ColonStep(most, l); }
    }
  }

  lemma ColonStep(most: seq<Line>, l: Line)
    ensures SomeColon(most + [l]) <==> SomeColon(most) || l.bareColon
  {
    var ls := most + [l];
    assert forall i | 0 <= i < |most| :: ls[i] == most[i];
    assert ls[|most|] == l;
  }

  /** The kind of block that a brace opens where no head waits. */
  lemma BraceOpens(s: seq<Block>, k: BraceKind, n: nat)
    requires SeenOpenBrace(s)
    ensures var r := ConsumeTokens(s, [OpenBrace(k)], n);
      && |r| == |s| + 1 && Pop(r) == s && Top(r).seenOpenBrace && Top(r).start == n && Top(r).openParentheses == 0
      && Top(r).kind == (if k == ExternBrace then ExternC else Plain)
      && Top(r).inlineAsm == (if k == AsmBrace then BlockAsm else NoAsm)
  {
    assert [OpenBrace(k)][1..] == [];
  }

  // ----- inline assembly -----

  /** The block that counts the parentheses of some lines. */
  function CountAll(b: Block, ls: seq<Line>): Block {
    if ls == [] then b else CountIn(CountAll(b, Pop(ls)), Top(ls))
  }

  /** It is what the tracker makes of the innermost block over such lines. */
  lemma {:induction false} TrackerCounts(s: seq<Block>, h: Block, ls: seq<Line>)
    requires AllSayNothing(ls)
    ensures var r := RunStack(s + [h], ls);
      && r != [] && Top(r).inlineAsm == CountAll(h, ls).inlineAsm
      && Top(r).openParentheses == CountAll(h, ls).openParentheses
    decreases |ls|
  {
    hide UpdateStack;
    if ls == [] {
    } else {
      var most, l := Pop(ls), Top(ls);
      assert ls == most + [l];
      TrackerCounts(s, h, most);
      LabelsAndColons(s, h, most);
      RunStackConcat(s + [h], most, [l]);
      var x := RunStack(s + [h], most);
      assert x == s + [Top(x)] by { assert x == Pop(x) + [Top(x)]; }
      RunStackOne(x, l);
      QuietLine(s, Top(x), l);
    }
  }

  /** The open parentheses before line `i`. */
  function Parens(n: int, ls: seq<Line>, i: nat): int
    requires i <= |ls|
  {
    if i == 0 then n else Parens(n, ls, i - 1) + ls[i - 1].depthChange
  }

  /** Assembly starts on line 0, and its parentheses are open up to the last line. */
  predicate IsAsm(n: int, ls: seq<Line>) {
    && |ls| >= 2 && ls[0].startsAsm && ls[0].depthChange != 0 && Parens(n, ls, 1) == 1
    && (forall i | 1 <= i < |ls| :: Parens(n, ls, i) != 0) && Parens(n, ls, |ls|) == 0
  }

  lemma {:induction false} InsideAsmUntil(b: Block, ls: seq<Line>, i: nat)
    requires (b.inlineAsm == NoAsm || b.inlineAsm == EndAsm) && IsAsm(b.openParentheses, ls) && 1 <= i < |ls|
    ensures CountAll(b, ls[..i]).inlineAsm == InsideAsm
    ensures CountAll(b, ls[..i]).openParentheses == Parens(b.openParentheses, ls, i)
    decreases i
  {
    assert Pop(ls[..i]) == ls[..i - 1] && Top(ls[..i]) == ls[i - 1];
    if i == 1 {
      assert ls[..0] == [] && Parens(b.openParentheses, ls, 0) == b.openParentheses;
    } else {
      InsideAsmUntil(b, ls, i - 1);
      assert Parens(b.openParentheses, ls, i) == Parens(b.openParentheses, ls, i - 1) + ls[i - 1].depthChange;
      assert CountAll(b, ls[..i]) == CountIn(CountAll(b, ls[..i - 1]), ls[i - 1]);
    }
  }

  /** A block is inside assembly from the line that opens it with one parenthesis up to the line
      that closes the last; that line is its end. */
  lemma AsmSpan(b: Block, ls: seq<Line>)
    requires (b.inlineAsm == NoAsm || b.inlineAsm == EndAsm) && IsAsm(b.openParentheses, ls)
    ensures forall i | 1 <= i < |ls| :: CountAll(b, ls[..i]).inlineAsm == InsideAsm
    ensures CountAll(b, ls).inlineAsm == EndAsm
  {
    forall i | 1 <= i < |ls|
      ensures CountAll(b, ls[..i]).inlineAsm == InsideAsm
    {
      InsideAsmUntil(b, ls, i);
    }
    InsideAsmUntil(b, ls, |ls| - 1);
    assert Pop(ls) == ls[..|ls| - 1];
  }

  /** Outside of assembly nothing but the start of another is inside; and a block that is all
      assembly stays so. */
  lemma AsmElsewhere(b: Block, l: Line)
    ensures b.inlineAsm == BlockAsm ==> CountIn(b, l).inlineAsm == BlockAsm
    ensures (b.inlineAsm == NoAsm || b.inlineAsm == EndAsm)
      && !(l.startsAsm && l.depthChange != 0 && b.openParentheses + l.depthChange == 1)
      ==> CountIn(b, l).inlineAsm == NoAsm
  {
  }
}
