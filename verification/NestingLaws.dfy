/** Laws of the nesting tracker over whole files. */
module NestingLaws {
  import opened Basics
  import opened NestingModel

  lemma {:induction false} RunConcat(st: State, a: seq<Line>, b: seq<Line>)
    ensures Run(st, a + b) == Run(Run(st, a), b)
    decreases |a|
  {
    if a == [] {
      assert a + b == b;
    } else {
      assert (a + b)[1..] == a[1..] + b;
      RunConcat(Update(st, a[0]), a[1..], b);
    }
  }

  lemma RunOne(st: State, l: Line)
    ensures Run(st, [l]) == Update(st, l)
  {
    assert [l][1..] == [];
  }

  // ----- conditional text -----

  /** A file with properly nested conditionals. */
  datatype Doc =
    | Done
    | Text(line: Line, rest: Doc)
    | Cond(head: Line, first: Doc, others: Branches, tail: Line, rest: Doc)

  /** The `#else` and `#elif` branches of a conditional. */
  datatype Branches = NoBranch | Branch(head: Line, body: Doc, more: Branches)

  predicate WellFormed(d: Doc) {
    match d
    case Done => true
    case Text(l, rest) => l.directive == NoDirective && WellFormed(rest)
    case Cond(h, first, others, t, rest) =>
      h.directive == If && t.directive == Endif
      && WellFormed(first) && WellFormedBranches(others) && WellFormed(rest)
  }

  predicate WellFormedBranches(bs: Branches) {
    match bs
    case NoBranch => true
    case Branch(h, body, more) => h.directive == Else && WellFormed(body) && WellFormedBranches(more)
  }

  function Lines(d: Doc): seq<Line> {
    match d
    case Done => []
    case Text(l, rest) => [l] + Lines(rest)
    case Cond(h, first, others, t, rest) =>
      [h] + Lines(first) + BranchLines(others) + [t] + Lines(rest)
  }

  function BranchLines(bs: Branches): seq<Line> {
    match bs
    case NoBranch => []
    case Branch(h, body, more) => [h] + Lines(body) + BranchLines(more)
  }

  /** The file with every branch but the first deleted, at every level. */
  function Kept(d: Doc): seq<Line> {
    match d
    case Done => []
    case Text(l, rest) => [l] + Kept(rest)
    case Cond(h, first, _, t, rest) => [h] + Kept(first) + [t] + Kept(rest)
  }

  /** The later branches of a conditional leave behind what was saved at its `#if` and, once
      there is a later branch, what was saved at the end of its first. */
  lemma {:induction false} BranchesRun(bs: Branches, st: State)
    requires WellFormedBranches(bs) && st.saved != []
    ensures var r := Run(st, BranchLines(bs)); var p := Top(st.saved);
      && r.saved != [] && Pop(r.saved) == Pop(st.saved)
      && (bs.NoBranch? ==> r == st)
      && (bs.Branch? ==> Top(r.saved) == if p.seenElse then p else Saved(p.beforeIf, st.stack, true))
    decreases bs
  {
    match bs
    case NoBranch =>
    case Branch(h, body, more) =>
      var s1 := Update(st, h);
      var s2 := Run(s1, Lines(body));
      RunConcat(st, [h] + Lines(body), BranchLines(more));
      RunConcat(st, [h], Lines(body));
      RunOne(st, h);
      Erasure(body, s1);
      BranchesRun(more, s2);
  }

  /** At `#endif` it makes no difference whether later branches were read. */
  lemma EndifForgets(st: State, s2: State, s3: State, t: Line)
    requires s2.saved == st.saved + [Saved(st.stack, [], false)] && t.directive == Endif
    requires s3 == s2
      || (s3.saved != [] && Pop(s3.saved) == st.saved && Top(s3.saved) == Saved(st.stack, s2.stack, true))
    ensures Run(s3, [t]) == Run(s2, [t]) && Run(s3, [t]).saved == st.saved
  {
    RunOne(s3, t);
    RunOne(s2, t);
  }

  /** Preprocessor handling commutes with branch erasure: from any state, reading a file
      leaves the stack that reading only its first branches leaves, and the saved stacks as
      they were.  Nothing is asked of what the directive lines hold. */
  lemma {:induction false} Erasure(d: Doc, st: State)
    requires WellFormed(d)
    ensures Run(st, Lines(d)) == Run(st, Kept(d))
    ensures Run(st, Lines(d)).saved == st.saved
    decreases d
  {
    match d
    case Done =>
    case Text(l, rest) =>
      RunConcat(st, [l], Lines(rest));
      RunConcat(st, [l], Kept(rest));
      RunOne(st, l);
      Erasure(rest, Update(st, l));
    case Cond(h, first, others, t, rest) =>
      var s1 := Run(st, [h]);
      assert s1.saved == st.saved + [Saved(st.stack, [], false)] by { RunOne(st, h); }
      Erasure(first, s1);
      var s2 := Run(s1, Lines(first));
      BranchesRun(others, s2);
      var s3 := Run(s2, BranchLines(others));
      EndifForgets(st, s2, s3, t);
      Erasure(rest, Run(s3, [t]));
      RunCond(st, h, Lines(first), BranchLines(others), t, Lines(rest));
      RunKeptCond(st, h, Kept(first), t, Kept(rest));
  }

  lemma RunKeptCond(st: State, h: Line, a: seq<Line>, t: Line, c: seq<Line>)
    ensures Run(st, [h] + a + [t] + c) == Run(Run(Run(Run(st, [h]), a), [t]), c)
  {
    RunConcat(st, [h] + a + [t], c);
    RunConcat(st, [h] + a, [t]);
    RunConcat(st, [h], a);
  }

  lemma RunCond(st: State, h: Line, a: seq<Line>, b: seq<Line>, t: Line, c: seq<Line>)
    ensures Run(st, [h] + a + b + [t] + c) == Run(Run(Run(Run(Run(st, [h]), a), b), [t]), c)
  {
    RunConcat(st, [h] + a + b + [t], c);
    RunConcat(st, [h] + a + b, [t]);
    RunConcat(st, [h] + a, b);
    RunConcat(st, [h], a);
  }

  /** Two files that differ only in discarded branches leave the same state. */
  lemma DiscardedBranchesIrrelevant(d: Doc, e: Doc, st: State)
    requires WellFormed(d) && WellFormed(e) && Kept(d) == Kept(e)
    ensures Run(st, Lines(d)) == Run(st, Lines(e))
  {
    Erasure(d, st);
    Erasure(e, st);
  }

  // ----- inside a conditional -----

  /** Every later branch starts from the stack before the `#if`, whatever the branches before it
      did; and the checkpoint keeps that stack and the end of the first branch. */
  lemma BranchStart(st: State, h: Line, first: Doc, others: Branches, e: Line)
    requires h.directive == If && e.directive == Else && WellFormed(first) && WellFormedBranches(others)
    ensures var r := Run(st, [h] + Lines(first) + BranchLines(others) + [e]);
      && r.stack == UpdateStack(st.stack, e)
      && r.saved == st.saved + [Saved(st.stack, Run(st, [h] + Lines(first)).stack, true)]
  {
    hide UpdateStack, BranchLines, Lines;
    var s1, s2 := Run(st, [h]), Run(st, [h] + Lines(first));
    RunOne(st, h);
    RunConcat(st, [h], Lines(first));
    Erasure(first, s1);
    assert s2.saved == st.saved + [Saved(st.stack, [], false)];
    RunConcat(st, [h] + Lines(first), BranchLines(others));
    BranchesRun(others, s2);
    var s3 := Run(s2, BranchLines(others));
    RunConcat(st, [h] + Lines(first) + BranchLines(others), [e]);
    RunOne(s3, e);
    assert Pop(s3.saved) == st.saved && Top(s3.saved).beforeIf == st.stack;
    assert SetTop(s3.saved, Saved(st.stack, s2.stack, true)) == st.saved + [Saved(st.stack, s2.stack, true)];
  }

  /** And so every line inside it finds what the branch itself has made of that stack. */
  lemma InsideBranch(st: State, h: Line, first: Doc, others: Branches, e: Line, d: Doc)
    requires h.directive == If && e.directive == Else
    requires WellFormed(first) && WellFormedBranches(others) && WellFormed(d)
    ensures Run(st, [h] + Lines(first) + BranchLines(others) + [e] + Lines(d)).stack
         == RunStack(UpdateStack(st.stack, e), Kept(d))
  {
    var before := [h] + Lines(first) + BranchLines(others) + [e];
    BranchStart(st, h, first, others, e);
    RunConcat(st, before, Lines(d));
    FileStack(d, Run(st, before));
  }

  /** Inside the first branch it is as if there were no conditional. */
  lemma InsideFirstBranch(st: State, h: Line, d: Doc)
    requires h.directive == If && WellFormed(d)
    ensures Run(st, [h] + Lines(d)).stack == RunStack(UpdateStack(st.stack, h), Kept(d))
  {
    RunConcat(st, [h], Lines(d));
    RunOne(st, h);
    FileStack(d, Run(st, [h]));
  }

  /** `#else`, `#elif` and `#endif` without an `#if` are read as text. */
  lemma StrayDirective(s: seq<Block>, l: Line)
    requires l.directive != If
    ensures Run(State(s, []), [l]) == State(UpdateStack(s, l), [])
  {
    RunOne(State(s, []), l);
  }

  // ----- the stack alone -----

  /** The stack after some lines whose directives are overlooked. */
  function RunStack(s: seq<Block>, ls: seq<Line>): seq<Block>
    decreases |ls|
  {
    if ls == [] then s else RunStack(UpdateStack(s, ls[0]), ls[1..])
  }

  lemma {:induction false} RunStackConcat(s: seq<Block>, a: seq<Line>, b: seq<Line>)
    ensures RunStack(s, a + b) == RunStack(RunStack(s, a), b)
    decreases |a|
  {
    if a == [] {
      assert a + b == b;
    } else {
      assert (a + b)[1..] == a[1..] + b;
      RunStackConcat(UpdateStack(s, a[0]), a[1..], b);
    }
  }

  lemma RunStackOne(s: seq<Block>, l: Line)
    ensures RunStack(s, [l]) == UpdateStack(s, l)
  {
    assert [l][1..] == [];
  }

  lemma {:induction false} KeptStack(d: Doc, st: State)
    requires WellFormed(d)
    ensures Run(st, Kept(d)) == State(RunStack(st.stack, Kept(d)), st.saved)
    decreases d
  {
    hide UpdateStack;
    match d
    case Done =>
    case Text(l, rest) =>
      RunConcat(st, [l], Kept(rest));
      RunStackConcat(st.stack, [l], Kept(rest));
      RunOne(st, l);
      RunStackOne(st.stack, l);
      KeptStack(rest, Update(st, l));
    case Cond(h, first, _, t, rest) =>
      RunKeptCond(st, h, Kept(first), t, Kept(rest));
      RunOne(st, h);
      var s1 := Update(st, h);
      KeptStack(first, s1);
      var s2 := Run(s1, Kept(first));
      RunOne(s2, t);
      assert Update(s2, t) == State(UpdateStack(s2.stack, t), st.saved);
      KeptStack(rest, Update(s2, t));
      RunStackKeptCond(st.stack, h, Kept(first), t, Kept(rest));
  }

  lemma RunStackKeptCond(s: seq<Block>, h: Line, a: seq<Line>, t: Line, c: seq<Line>)
    ensures RunStack(s, [h] + a + [t] + c) == RunStack(UpdateStack(RunStack(UpdateStack(s, h), a), t), c)
  {
    RunStackConcat(s, [h] + a + [t], c);
    RunStackConcat(s, [h] + a, [t]);
    RunStackConcat(s, [h], a);
    RunStackOne(s, h);
    RunStackOne(RunStack(UpdateStack(s, h), a), t);
  }

  /** What a file leaves is what its kept lines make of the stack alone. */
  lemma FileStack(d: Doc, st: State)
    requires WellFormed(d)
    ensures Run(st, Lines(d)) == State(RunStack(st.stack, Kept(d)), st.saved)
  {
    Erasure(d, st);
    KeptStack(d, st);
  }
}
