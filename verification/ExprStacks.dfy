/** The list of pending brackets that cpplint's matchers share and change in place. */
module ExprStacks {
  import opened Basics
  import opened Brackets

  // ----- the outcome of a scan -----

  /** What one character does to a scan. */
  datatype Move = Go(stack: seq<char>) | Hit | Stuck

  /** What one line does to a scan: found the other bracket, gave up, or carries a stack to the
      next line. */
  datatype Scan = Found(at: nat) | Failed | Carry(stack: seq<char>)

  /** Where a search over several lines ends: just past the match or, backward, at it; or
      nowhere.  `last` is the last line it looked at. */
  datatype Place = At(line: nat, pos: nat) | Nowhere(last: nat)

  // ----- stacks of brackets -----

  predicate TopIs(s: seq<char>, c: char) {
    s != [] && s[|s| - 1] == c
  }

  /** The stack without the run of `c` on its top. */
  function DropTop(s: seq<char>, c: char): seq<char> {
    if TopIs(s, c) then DropTop(Pop(s), c) else s
  }

  // ----- erasing the tentative angle brackets of a stack -----

  predicate IsBracket(c: char) { IsOpener(c) || IsCloser(c) }

  function BracketKind(c: char): Kind
    requires IsBracket(c)
  {
    if IsOpener(c) then OpenKind(c) else CloseKind(c)
  }

  /** A forward scan stacks openers and '<', a backward scan closers and '>'. */
  predicate StackOk(stack: seq<char>, angle: char) {
    forall i | 0 <= i < |stack| :: Stackable(stack[i], angle)
  }

  predicate Stackable(c: char, angle: char) {
    c == angle || (if angle == '<' then IsOpener(c) else IsCloser(c))
  }

  function KindOf(c: char): seq<Kind> {
    if IsBracket(c) then [BracketKind(c)] else []
  }

  /** The brackets on a stack, angle brackets erased. */
  function Kinds(stack: seq<char>): seq<Kind> {
    if stack == [] then [] else Kinds(stack[..|stack| - 1]) + KindOf(stack[|stack| - 1])
  }

  /** The brackets above the bottom of the stack. */
  function Above(stack: seq<char>): seq<Kind>
    requires stack != []
  {
    Kinds(stack[1..])
  }

  lemma AbovePush(stack: seq<char>, c: char)
    requires stack != []
    ensures Above(stack + [c]) == Above(stack) + KindOf(c)
  {
    assert (stack + [c])[1..] == stack[1..] + [c];
    assert (stack[1..] + [c])[..|stack| - 1] == stack[1..];
  }

  lemma AbovePop(stack: seq<char>)
    requires |stack| > 1
    ensures Above(stack) == Above(Pop(stack)) + KindOf(stack[|stack| - 1])
  {
    assert stack == Pop(stack) + [stack[|stack| - 1]];
    AbovePush(Pop(stack), stack[|stack| - 1]);
  }

  lemma AboveOne(stack: seq<char>)
    requires |stack| == 1
    ensures Above(stack) == []
  {
  }

  /** Dropping tentative angle brackets keeps the bottom and every bracket above it. */
  lemma {:induction false} DropKeeps(stack: seq<char>, angle: char)
    requires stack != [] && StackOk(stack, angle) && !IsBracket(angle)
    requires stack[0] != angle || Above(stack) != []
    ensures var s := DropTop(stack, angle);
      s != [] && s[0] == stack[0] && Above(s) == Above(stack) && StackOk(s, angle) && s[|s| - 1] != angle
    decreases |stack|
  {
    if !TopIs(stack, angle) {
    } else {
      assert |stack| > 1;
      AbovePop(stack);
      DropKeeps(Pop(stack), angle);
    }
  }

  /** A stack of nothing but tentative angle brackets is emptied. */
  lemma {:induction false} DropAll(stack: seq<char>, angle: char)
    requires stack != [] && StackOk(stack, angle) && stack[0] == angle && !IsBracket(angle)
    requires Above(stack) == []
    ensures DropTop(stack, angle) == []
    decreases |stack|
  {
    if |stack| > 1 {
      AbovePop(stack);
      DropAll(Pop(stack), angle);
    } else {
      assert Pop(stack) == [];
    }
  }

  class ExprStack {
    var items: seq<char>

    constructor ()
      ensures items == []
    {
      items := [];
    }

    method Append(c: char)
      modifies this
      ensures items == old(items) + [c]
    {
      items := items + [c];
    }

    method RemoveLast()
      requires items != []
      modifies this
      ensures items == Pop(old(items))
    {
      items := items[..|items| - 1];
    }

    method RemoveWhileTop(c: char)
      modifies this
      ensures items == DropTop(old(items), c)
    {
      while items != [] && items[|items| - 1] == c
        invariant DropTop(items, c) == DropTop(old(items), c)
        decreases |items|
      {
        RemoveLast();
      }
    }
  }
}
