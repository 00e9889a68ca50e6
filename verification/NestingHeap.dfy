/** cpplint's `NestingState` with its mutable block objects.

    Blocks are updated in place, and the stacks saved at `#if` and `#else` are separate objects
    only because they were deep-copied.  `Valid` says that no block is reachable in two ways;
    every method keeps it, and so each has exactly the effect that the value model gives. */
module NestingHeap {
  import opened Basics
  import M = NestingModel

  class BlockInfo {
    const startingLinenum: nat
    const kind: M.BlockKind
    ghost const owner: nat
    ghost const slot: nat
    var seenOpenBrace: bool
    var openParentheses: int
    var inlineAsm: M.Asm
    var access: M.Access
    var isDerived: bool

    function Value(): M.Block
      reads this
    {
      M.Block(startingLinenum, kind, seenOpenBrace, openParentheses, inlineAsm, access, isDerived)
    }

    constructor (b: M.Block, ghost owner: nat, ghost slot: nat)
      ensures Value() == b && this.owner == owner && this.slot == slot
    {
      this.owner, this.slot := owner, slot;
      startingLinenum, kind := b.start, b.kind;
      seenOpenBrace, openParentheses := b.seenOpenBrace, b.openParentheses;
      inlineAsm, access, isDerived := b.inlineAsm, b.access, b.isDerived;
    }

    method CountParentheses(line: M.Line)
      modifies this
      ensures Value() == M.CountIn(old(Value()), line)
    {
      openParentheses := openParentheses + line.depthChange;
      if inlineAsm.NoAsm? || inlineAsm.EndAsm? {
        if line.depthChange != 0 && openParentheses == 1 && line.startsAsm {
          inlineAsm := M.InsideAsm;
        } else {
          inlineAsm := M.NoAsm;
        }
      } else if inlineAsm.InsideAsm? && openParentheses == 0 {
        inlineAsm := M.EndAsm;
      }
    }

    method SeeOpenBrace()
      modifies this
      ensures Value() == old(Value()).(seenOpenBrace := true)
    {
      seenOpenBrace := true;
    }

    method Derive()
      modifies this
      ensures Value() == old(Value()).(isDerived := true)
    {
      isDerived := true;
    }

    method SetAccess(a: M.Access)
      modifies this
      ensures Value() == old(Value()).(access := a)
    {
      access := a;
    }
  }

  /** The blocks, all from `own`, have these values in order; they carry their place in the
      stack, so they are all different. */
  ghost predicate Show(s: seq<BlockInfo>, values: seq<M.Block>, own: set<BlockInfo>)
    reads own
  {
    |s| == |values| && forall i | 0 <= i < |s| :: s[i] in own && s[i].Value() == values[i] && s[i].slot == i
  }

  /** Blocks of one owner: disjoint from the blocks of any other. */
  ghost predicate OwnedBy(own: set<BlockInfo>, id: nat) {
    forall b <- own :: b.owner == id
  }

  class PreprocessorInfo {
    var stackBeforeIf: seq<BlockInfo>
    var stackBeforeElse: seq<BlockInfo>
    var seenElse: bool

    ghost const id: nat
    ghost var owned: set<BlockInfo>
    ghost var value: M.Saved

    /** The checkpoint shows its value, in blocks of its own, none of them in both stacks. */
    ghost predicate Ok()
      reads this, owned
    {
      && OwnedBy(owned, id)
      && Show(stackBeforeIf, value.beforeIf, owned)
      && Show(stackBeforeElse, value.beforeElse, owned)
      && seenElse == value.seenElse
      && (forall i, j | 0 <= i < |stackBeforeIf| && 0 <= j < |stackBeforeElse| ::
            stackBeforeIf[i] != stackBeforeElse[j])
    }

    constructor (stack: seq<BlockInfo>, ghost values: seq<M.Block>, ghost own: set<BlockInfo>, ghost id: nat)
      requires Show(stack, values, own) && OwnedBy(own, id)
      ensures Ok() && value == M.Saved(values, [], false) && owned == own && this.id == id
    {
      this.id, value, owned := id, M.Saved(values, [], false), own;
      stackBeforeIf, stackBeforeElse, seenElse := stack, [], false;
    }

    /** Remembers the end of the first branch. */
    method SeeElse(stack: seq<BlockInfo>, ghost values: seq<M.Block>, ghost own: set<BlockInfo>)
      requires Ok() && Show(stack, values, own) && OwnedBy(own, id) && own !! owned
      modifies this
      ensures Ok() && value == M.Saved(old(value).beforeIf, values, true) && owned == old(owned) + own
    {
      seenElse, stackBeforeElse := true, stack;
      owned, value := owned + own, M.Saved(value.beforeIf, values, true);
    }
  }

  /** Copies every block of a stack, for a new owner. */
  method DeepCopy(s: seq<BlockInfo>, ghost values: seq<M.Block>, ghost from: set<BlockInfo>, ghost owner: nat)
    returns (c: seq<BlockInfo>, ghost own: set<BlockInfo>)
    requires Show(s, values, from)
    ensures Show(c, values, own) && OwnedBy(own, owner) && fresh(own)
  {
    c, own := [], {};
    for i := 0 to |s|
      invariant |c| == i && fresh(own) && OwnedBy(own, owner)
      invariant Show(c, values[..i], own)
    {
      var b := new BlockInfo(s[i].Value(), owner, i);
      c, own := c + [b], own + {b};
    }
    assert values[..|s|] == values;
  }

  class NestingState {
    var stack: seq<BlockInfo>
    var previousStackTop: BlockInfo?
    var ppStack: seq<PreprocessorInfo>

    // The values that the objects show.
    ghost var blocks: seq<M.Block>
    ghost var saved: seq<M.Saved>

    // The objects of the stack, the objects of the checkpoints, and the ids of their owners.
    ghost var mine: set<BlockInfo>
    ghost var held: set<BlockInfo>
    ghost var infos: set<PreprocessorInfo>
    ghost var stackId: nat
    ghost var nextId: nat

    ghost function State(): M.State
      reads this`blocks, this`saved
    {
      M.State(blocks, saved)
    }

    /** The objects show the values, and no block is reachable in two ways: the blocks of the
        stack and of each checkpoint carry owner ids that differ. */
    ghost predicate Valid()
      reads this, mine, infos, held
    {
      StackOk() && SavedOk()
    }

    ghost predicate StackOk()
      reads this`stack, this`blocks, this`mine, this`stackId, mine
    {
      Show(stack, blocks, mine) && OwnedBy(mine, stackId)
    }

    ghost predicate SavedOk()
      reads this`ppStack, this`saved, this`held, this`infos, this`stackId, this`nextId, infos, held
    {
      && stackId < nextId && |ppStack| == |saved|
      && (forall b <- held :: b.owner < nextId && b.owner != stackId)
      && (forall i, j | 0 <= i < j < |ppStack| :: ppStack[i].id < ppStack[j].id)
      && (forall i | 0 <= i < |ppStack| :: InfoOk(ppStack[i]) && saved[i] == ppStack[i].value)
    }

    ghost predicate InfoOk(p: PreprocessorInfo)
      reads this`held, this`infos, this`stackId, this`nextId, infos, held
    {
      p in infos && p.id < nextId && p.id != stackId && p.owned <= held && p.Ok()
    }

    /** The stack, and then the two stacks of each checkpoint. */
    ghost function StackAt(m: nat): seq<BlockInfo>
      requires m <= 2 * |ppStack|
      reads this`stack, this`ppStack, ppStack
    {
      if m == 0 then stack
      else
        var p := ppStack[(m - 1) / 2];
        if m % 2 == 1 then p.stackBeforeIf else p.stackBeforeElse
    }

    /** No block is reachable in two ways: not from two stacks, nor twice from one. */
    lemma NoSharing(m: nat, i: nat, n: nat, j: nat)
      requires Valid() && m <= n <= 2 * |ppStack| && i < |StackAt(m)| && j < |StackAt(n)|
      ensures StackAt(m)[i] == StackAt(n)[j] ==> m == n && i == j
    {
      if m > 0 {
        var p := ppStack[(m - 1) / 2];
        assert InfoOk(p) && StackAt(m)[i] in p.owned;
      }
      if n > 0 {
        var q := ppStack[(n - 1) / 2];
        assert InfoOk(q) && StackAt(n)[j] in q.owned;
      }
    }

    constructor ()
      ensures Valid() && State() == M.State([], []) && previousStackTop == null
      ensures mine == {} && held == {} && infos == {}
    {
      stack, previousStackTop, ppStack := [], null, [];
      blocks, saved, mine, held, infos := [], [], {}, {}, {};
      stackId, nextId := 0, 1;
    }

    // ----- preprocessor directives -----

    method PushCheckpoint(p: PreprocessorInfo)
      requires SavedOk() && p.id == nextId && p.Ok()
      modifies this`ppStack, this`saved, this`held, this`infos, this`nextId
      ensures SavedOk() && saved == old(saved) + [p.value]
      ensures held == old(held) + p.owned && infos == old(infos) + {p}
    {
      ppStack, infos := ppStack + [p], infos + {p};
      saved, held, nextId := saved + [p.value], held + p.owned, nextId + 1;
    }

    method EnterIf()
      requires Valid()
      modifies this`ppStack, this`saved, this`held, this`infos, this`nextId
      ensures Valid() && State() == M.UpdatePreprocessor(old(State()), M.If)
      ensures fresh(held - old(held)) && fresh(infos - old(infos))
    {
      var copy, own := DeepCopy(stack, blocks, mine, nextId);
      var p := new PreprocessorInfo(copy, blocks, own, nextId);
      PushCheckpoint(p);
    }

    /** At the first `#else` or `#elif`, remembers the stack as it is, in a copy. */
    method RememberFirstBranch(copy: seq<BlockInfo>, ghost values: seq<M.Block>, ghost own: set<BlockInfo>)
      requires SavedOk() && ppStack != [] && Show(copy, values, own) && OwnedBy(own, ppStack[|ppStack| - 1].id)
      requires own !! ppStack[|ppStack| - 1].owned
      modifies this`saved, this`held, ppStack[|ppStack| - 1]
      ensures SavedOk() && held == old(held) + own
      ensures saved == SetTop(old(saved), M.Saved(Top(old(saved)).beforeIf, values, true))
    {
      var p := ppStack[|ppStack| - 1];
      p.SeeElse(copy, values, own);
      held := held + own;
      saved := saved[|saved| - 1 := p.value];
      forall i | 0 <= i < |ppStack|
        ensures InfoOk(ppStack[i]) && saved[i] == ppStack[i].value
      {
        assert old(InfoOk(ppStack[i]));
        assert i < |ppStack| - 1 ==> ppStack[i].id < p.id;
      }
    }

    method SeeFirstElse()
      requires Valid() && ppStack != [] && !ppStack[|ppStack| - 1].seenElse
      modifies this`saved, this`held, ppStack[|ppStack| - 1]
      ensures Valid() && fresh(held - old(held))
      ensures saved == SetTop(old(saved), M.Saved(Top(old(saved)).beforeIf, blocks, true))
    {
      hide SavedOk, Show, OwnedBy;
      TopOk();
      var copy, own := DeepCopy(stack, blocks, mine, ppStack[|ppStack| - 1].id);
      RememberFirstBranch(copy, blocks, own);
    }

    /** Takes a stack of new blocks. */
    method AdoptStack(copy: seq<BlockInfo>, ghost values: seq<M.Block>, ghost own: set<BlockInfo>)
      requires SavedOk() && Show(copy, values, own) && OwnedBy(own, nextId)
      modifies this`stack, this`blocks, this`mine, this`stackId, this`nextId
      ensures Valid() && blocks == values && mine == own
    {
      hide Show, OwnedBy;
      stackId, nextId := nextId, nextId + 1;
      stack, mine, blocks := copy, own, values;
    }

    /** Goes back to the stack before the `#if`, in a copy. */
    method RestoreStack()
      requires Valid() && ppStack != []
      modifies this`stack, this`blocks, this`mine, this`stackId, this`nextId
      ensures Valid() && fresh(mine) && blocks == Top(saved).beforeIf
    {
      var p := ppStack[|ppStack| - 1];
      var copy, own := DeepCopy(p.stackBeforeIf, p.value.beforeIf, p.owned, nextId);
      AdoptStack(copy, p.value.beforeIf, own);
    }

    method EnterElse()
      requires Valid()
      modifies this`stack, this`blocks, this`saved, this`mine, this`held, this`stackId, this`nextId, infos
      ensures Valid() && State() == M.UpdatePreprocessor(old(State()), M.Else)
      ensures fresh(held - old(held)) && fresh(mine - old(mine))
    {
      if ppStack != [] {
        var p := ppStack[|ppStack| - 1];
        assert p in infos;
        if !p.seenElse {
          SeeFirstElse();
        }
        RestoreStack();
      }
    }

    /** `#endif` without `#else`: the checkpoint is dropped. */
    method DropCheckpoint()
      requires SavedOk() && ppStack != []
      modifies this`ppStack, this`saved
      ensures SavedOk() && saved == Pop(old(saved))
    {
      ppStack, saved := ppStack[..|ppStack| - 1], Pop(saved);
    }

    /** The blocks of the last checkpoint become free for the stack. */
    method ReleaseTop()
      requires SavedOk() && ppStack != []
      modifies this`ppStack, this`saved, this`stackId, this`held
      ensures SavedOk() && saved == Pop(old(saved)) && held <= old(held)
      ensures stackId == old(ppStack[|ppStack| - 1].id)
    {
      ghost var p := ppStack[|ppStack| - 1];
      ppStack, saved := ppStack[..|ppStack| - 1], Pop(saved);
      stackId, held := p.id, set b <- held | b.owner != p.id;
    }

    lemma TopOk()
      requires SavedOk() && ppStack != []
      ensures var p := ppStack[|ppStack| - 1]; InfoOk(p) && p.value == Top(saved)
    {
    }

    /** `#endif` after `#else`: back to the end of the first branch.  No copy is made, as the
        checkpoint is dropped. */
    method ReturnToFirstBranch()
      requires Valid() && ppStack != []
      modifies this`stack, this`ppStack, this`blocks, this`saved, this`mine, this`stackId, this`held
      ensures Valid() && held <= old(held) && mine <= old(held)
      ensures blocks == Top(old(saved)).beforeElse && saved == Pop(old(saved))
    {
      hide SavedOk, Show, OwnedBy;
      var p := ppStack[|ppStack| - 1];
      TopOk();
      ReleaseTop();
      assert p.Ok();
      stack, mine, blocks := p.stackBeforeElse, p.owned, p.value.beforeElse;
    }

    method EnterEndif()
      requires Valid()
      modifies this`stack, this`ppStack, this`blocks, this`saved, this`mine, this`stackId, this`held
      ensures Valid() && State() == M.UpdatePreprocessor(old(State()), M.Endif)
      ensures held <= old(held) && (mine == old(mine) || mine <= old(held))
    {
      if ppStack != [] {
        if ppStack[|ppStack| - 1].seenElse {
          ReturnToFirstBranch();
        } else {
          DropCheckpoint();
        }
      }
    }

    method UpdatePreprocessor(d: M.Directive)
      requires Valid()
      modifies this`stack, this`ppStack, this`blocks, this`saved, this`mine, this`held,
               this`infos, this`stackId, this`nextId, infos
      ensures Valid() && State() == M.UpdatePreprocessor(old(State()), d)
      ensures fresh(held - old(held)) && fresh(infos - old(infos))
      ensures forall b <- mine :: b in old(mine) || b in old(held) || fresh(b)
      ensures d.NoDirective? ==> unchanged(this) && unchanged(old(infos))
    {
      match d
      case NoDirective =>
      case If => EnterIf();
      case Else => EnterElse();
      case Endif => EnterEndif();
    }

    // ----- the stack itself; checkpoints and their blocks are outside every frame here -----

    method PushBlock(v: M.Block)
      requires StackOk()
      modifies this`stack, this`blocks, this`mine
      ensures StackOk() && blocks == old(blocks) + [v] && fresh(mine - old(mine))
    {
      var b := new BlockInfo(v, stackId, |stack|);
      stack, blocks, mine := stack + [b], blocks + [v], mine + {b};
    }

    method PopBlock()
      requires StackOk() && stack != []
      modifies this`stack, this`blocks
      ensures StackOk() && blocks == Pop(old(blocks))
    {
      stack, blocks := stack[..|stack| - 1], Pop(blocks);
    }

    method CountParentheses(line: M.Line)
      requires StackOk()
      modifies this`blocks, mine
      ensures StackOk() && blocks == M.CountParentheses(old(blocks), line)
    {
      if stack != [] {
        stack[|stack| - 1].CountParentheses(line);
        blocks := SetTop(blocks, M.CountIn(Top(blocks), line));
      }
    }

    predicate SeenOpenBrace()
      requires StackOk()
      reads this`stack, this`blocks, this`mine, this`stackId, mine
      ensures SeenOpenBrace() == M.SeenOpenBrace(blocks)
    {
      stack == [] || stack[|stack| - 1].seenOpenBrace
    }

    method ConsumeNamespaces(line: M.Line)
      requires StackOk()
      modifies this`stack, this`blocks, this`mine
      ensures StackOk() && fresh(mine - old(mine))
      ensures blocks == M.PushNamespaces(old(blocks), line.namespaces, line.number)
    {
      var ds := line.namespaces;
      for i := 0 to |ds|
        invariant StackOk() && fresh(mine - old(mine))
        invariant M.PushNamespaces(blocks, ds[i..], line.number)
               == M.PushNamespaces(old(blocks), ds, line.number)
      {
        PushBlock(M.NewNamespace(ds[i], line.number));
      }
    }

    /** Pushes a class head unless it is a template argument, and says whether it did. */
    method ConsumeClass(line: M.Line) returns (accepted: bool)
      requires StackOk()
      modifies this`stack, this`blocks, this`mine
      ensures StackOk() && accepted == M.AcceptsClass(old(blocks), line)
      ensures blocks == M.PushClass(old(blocks), line) && fresh(mine - old(mine))
    {
      accepted := line.classDecl.Some?
        && (stack == [] || stack[|stack| - 1].openParentheses == 0)
        && !line.classDecl.value.inTemplate;
      if accepted {
        PushBlock(M.NewClass(line.classDecl.value, line.number));
      }
    }

    method CheckBegin(line: M.Line)
      requires StackOk()
      modifies this`blocks, mine
      ensures StackOk() && blocks == M.CheckBegin(old(blocks), line)
    {
      if !SeenOpenBrace() && stack[|stack| - 1].kind.Class? && line.bareColon {
        stack[|stack| - 1].Derive();
        blocks := SetTop(blocks, Top(blocks).(isDerived := true));
      }
    }

    method UpdateAccess(a: Option<M.Access>)
      requires StackOk()
      modifies this`blocks, mine
      ensures StackOk() && blocks == M.UpdateAccess(old(blocks), a)
    {
      if stack != [] && stack[|stack| - 1].kind.Class? && a.Some? {
        stack[|stack| - 1].SetAccess(a.value);
        blocks := SetTop(blocks, Top(blocks).(access := a.value));
      }
    }

    method ConsumeToken(t: M.Token, number: nat)
      requires StackOk()
      modifies this`stack, this`blocks, this`mine, mine
      ensures StackOk() && blocks == M.ConsumeToken(old(blocks), t, number) && fresh(mine - old(mine))
    {
      match t
      case OpenBrace(kind) =>
        if !SeenOpenBrace() {
          stack[|stack| - 1].SeeOpenBrace();
          blocks := SetTop(blocks, Top(blocks).(seenOpenBrace := true));
        } else {
          PushBlock(M.NewBlock(kind, number));
        }
      case CloseBrace =>
        if stack != [] {
          PopBlock();
        }
      case Semicolon =>
        if !SeenOpenBrace() {
          PopBlock();
        }
      case CloseParen =>
        if !SeenOpenBrace() {
          PopBlock();
        }
    }

    /** Consumes the braces, semicolons and closing parentheses of a line. */
    method ConsumeTokens(line: M.Line)
      requires StackOk()
      modifies this`stack, this`blocks, this`mine, mine
      ensures StackOk() && blocks == M.ConsumeTokens(old(blocks), line.tokens, line.number) && fresh(mine - old(mine))
    {
      var ts := line.tokens;
      for i := 0 to |ts|
        invariant StackOk() && fresh(mine - old(mine))
        invariant M.ConsumeTokens(blocks, ts[i..], line.number)
               == M.ConsumeTokens(old(blocks), ts, line.number)
      {
        ConsumeToken(ts[i], line.number);
      }
    }

    method EnterLine(line: M.Line)
      requires StackOk()
      modifies this`stack, this`blocks, this`mine, mine
      ensures StackOk() && blocks == M.EnterLine(old(blocks), line) && fresh(mine - old(mine))
    {
      CountParentheses(line);
      ConsumeNamespaces(line);
    }

    method ConsumeHead(line: M.Line)
      requires StackOk()
      modifies this`stack, this`blocks, this`mine, mine
      ensures StackOk() && blocks == M.ConsumeHead(old(blocks), line) && fresh(mine - old(mine))
    {
      var accepted := ConsumeClass(line);
      CheckBegin(line);
      UpdateAccess(if accepted then line.classDecl.value.access else line.access);
    }

    /** Everything after the directive. */
    method UpdateStack(line: M.Line)
      requires StackOk()
      modifies this`stack, this`blocks, this`mine, mine
      ensures StackOk() && blocks == M.UpdateStack(old(blocks), line) && fresh(mine - old(mine))
    {
      EnterLine(line);
      ConsumeHead(line);
      ConsumeTokens(line);
    }

    /** A line without a directive: no checkpoint and no block that a checkpoint holds is
        touched, whatever happens to the blocks of the stack. */
    method UpdateText(line: M.Line)
      requires Valid()
      modifies this`stack, this`blocks, this`mine, mine
      ensures Valid() && blocks == M.UpdateStack(old(blocks), line) && fresh(mine - old(mine))
      ensures unchanged(held) && unchanged(infos)
    {
      assert mine !! held;
      UpdateStack(line);
    }

    method Update(line: M.Line)
      requires Valid()
      modifies this, mine, infos, held
      ensures Valid() && State() == M.Update(old(State()), line)
      ensures fresh(held - old(held)) && fresh(infos - old(infos))
      ensures forall b <- mine :: b in old(mine) || b in old(held) || fresh(b)
      ensures previousStackTop == if old(stack) == [] then null else old(stack[|stack| - 1])
    {
      hide M.UpdatePreprocessor, M.UpdateStack, StackOk, SavedOk;
      previousStackTop := if stack == [] then null else stack[|stack| - 1];
      UpdatePreprocessor(line.directive);
      UpdateText(line);
    }

    /** A whole file. */
    method Process(lines: seq<M.Line>)
      requires Valid()
      modifies this, mine, infos, held
      ensures Valid() && State() == M.Run(old(State()), lines)
    {
      for i := 0 to |lines|
        invariant Valid() && M.Run(State(), lines[i..]) == M.Run(old(State()), lines)
        invariant fresh(held - old(held)) && (forall b <- mine :: b in old(mine) || b in old(held) || fresh(b))
        invariant fresh(infos - old(infos))
      {
        Update(lines[i]);
      }
    }
  }
}
