/** The bracket grammar that all of cpplint's matchers are measured against.

    A text is erased to its round, square and curly brackets and its semicolons.
    `Enclosed` says, with a grammar and no stack, that a text is one bracket pair around
    a balanced inside.  `FeedAll` is the stack machine that reads such a text one character
    at a time; `DoneIff` proves that the two agree. */
module Brackets {

  datatype Kind = Round | Square | Curly

  datatype Sym = Open(kind: Kind) | Close(kind: Kind) | Semi

  /** A balanced text: a list of bracket groups and semicolons. */
  datatype Forest =
    | Empty
    | Group(kind: Kind, inside: Forest, rest: Forest)
    | Stop(rest: Forest)

  function Render(f: Forest): seq<Sym> {
    match f
    case Empty => []
    case Group(k, inside, rest) => [Open(k)] + Render(inside) + [Close(k)] + Render(rest)
    case Stop(rest) => [Semi] + Render(rest)
  }

  /** No semicolon outside every group. */
  predicate NoTopStop(f: Forest) {
    match f
    case Empty => true
    case Group(_, _, rest) => NoTopStop(rest)
    case Stop(_) => false
  }

  function OpenChar(k: Kind): char {
    match k case Round => '(' case Square => '[' case Curly => '{'
  }

  function CloseChar(k: Kind): char {
    match k case Round => ')' case Square => ']' case Curly => '}'
  }

  predicate IsOpener(c: char) { c == '(' || c == '[' || c == '{' }

  predicate IsCloser(c: char) { c == ')' || c == ']' || c == '}' }

  function OpenKind(c: char): Kind
    requires IsOpener(c)
  {
    if c == '(' then Round else if c == '[' then Square else Curly
  }

  function CloseKind(c: char): Kind
    requires IsCloser(c)
  {
    if c == ')' then Round else if c == ']' then Square else Curly
  }

  /** The symbol a character stands for, if any: angle brackets and all else are erased. */
  function SymOf(c: char): seq<Sym> {
    if IsOpener(c) then [Open(OpenKind(c))]
    else if IsCloser(c) then [Close(CloseKind(c))]
    else if c == ';' then [Semi]
    else []
  }

  function Erase(t: string): seq<Sym> {
    if t == [] then [] else Erase(t[..|t| - 1]) + SymOf(t[|t| - 1])
  }

  /** The text is balanced; `strict` forbids semicolons outside every bracket pair. */
  ghost predicate Balanced(t: string, strict: bool) {
    exists f :: Erase(t) == Render(f) && (strict ==> NoTopStop(f))
  }

  /** The text is an opening bracket, a balanced inside and the closing bracket of its kind. */
  ghost predicate Enclosed(t: string) {
    |t| >= 2 && IsOpener(t[0]) && IsCloser(t[|t| - 1])
    && OpenKind(t[0]) == CloseKind(t[|t| - 1])
    && Balanced(t[1..|t| - 1], false)
  }

  // ----- the stack machine on erased text -----

  /** What is known after some text that follows an opener: the groups still open inside it,
      or that it was closed by a bracket of some kind, or that no continuation can close it. */
  datatype Inner = Live(open: seq<Kind>) | Done(kind: Kind) | Dead

  function Feed(st: Inner, c: char, strict: bool): Inner {
    match st
    case Done(_) => Dead
    case Dead => Dead
    case Live(open) =>
      if IsOpener(c) then Live(open + [OpenKind(c)])
      else if IsCloser(c) then
        if open == [] then Done(CloseKind(c))
        else if open[|open| - 1] == CloseKind(c) then Live(open[..|open| - 1])
        else Dead
      else if c == ';' && strict && open == [] then Dead
      else st
  }

  function FeedAll(t: string, strict: bool): Inner {
    if t == [] then Live([]) else Feed(FeedAll(t[..|t| - 1], strict), t[|t| - 1], strict)
  }

  lemma FeedNothing(strict: bool)
    ensures FeedAll([], strict) == Live([])
  {
  }

  function FeedFrom(st: Inner, t: string, strict: bool): Inner {
    if t == [] then st else Feed(FeedFrom(st, t[..|t| - 1], strict), t[|t| - 1], strict)
  }

  lemma {:induction false} EraseConcat(s: string, t: string)
    ensures Erase(s + t) == Erase(s) + Erase(t)
  {
    if t == [] {
      assert s + t == s;
    } else {
      assert (s + t)[..|s + t| - 1] == s + t[..|t| - 1];
      EraseConcat(s, t[..|t| - 1]);
    }
  }

  lemma {:induction false} FeedConcat(s: string, t: string, strict: bool)
    ensures FeedAll(s + t, strict) == FeedFrom(FeedAll(s, strict), t, strict)
  {
    if t == [] {
      assert s + t == s;
    } else {
      assert (s + t)[..|s + t| - 1] == s + t[..|t| - 1];
      FeedConcat(s, t[..|t| - 1], strict);
    }
  }

  /** Once a text is closed or broken, nothing longer is closed or live. */
  lemma {:induction false} FeedFromStuck(st: Inner, t: string, strict: bool)
    requires !st.Live?
    ensures t != [] ==> FeedFrom(st, t, strict) == Dead
    ensures t == [] ==> FeedFrom(st, t, strict) == st
  {
    if t == [] {
    } else {
      FeedFromStuck(st, t[..|t| - 1], strict);
    }
  }

  /** Every proper prefix of a text that is closed or live is live. */
  lemma PrefixLive(s: string, t: string, strict: bool)
    requires t != []
    requires FeedAll(s + t, strict) != Dead
    ensures FeedAll(s, strict).Live?
  {
    FeedConcat(s, t, strict);
    if !FeedAll(s, strict).Live? {
      FeedFromStuck(FeedAll(s, strict), t, strict);
    }
  }

  // ----- machine and grammar agree -----

  function Append(f: Forest, g: Forest): Forest {
    match f
    case Empty => g
    case Group(k, inside, rest) => Group(k, inside, Append(rest, g))
    case Stop(rest) => Stop(Append(rest, g))
  }

  lemma {:induction false} RenderAppend(f: Forest, g: Forest)
    ensures Render(Append(f, g)) == Render(f) + Render(g)
    ensures NoTopStop(f) && NoTopStop(g) ==> NoTopStop(Append(f, g))
  {
    match f
    case Empty =>
    case Group(k, inside, rest) =>
      RenderAppend(rest, g);
    case Stop(rest) =>
      RenderAppend(rest, g);
  }

  /** A word with groups still open: a balanced piece before each pending opener and a
      balanced piece after the last one. */
  datatype Spine = Root(f: Forest) | Inside(outer: Spine, kind: Kind, f: Forest)

  function RenderSpine(s: Spine): seq<Sym> {
    match s
    case Root(f) => Render(f)
    case Inside(outer, k, f) => RenderSpine(outer) + [Open(k)] + Render(f)
  }

  function OpenOf(s: Spine): seq<Kind> {
    match s
    case Root(_) => []
    case Inside(outer, k, _) => OpenOf(outer) + [k]
  }

  predicate RootFreeOfStops(s: Spine) {
    match s
    case Root(f) => NoTopStop(f)
    case Inside(outer, _, _) => RootFreeOfStops(outer)
  }

  /** Adds a balanced piece at the innermost level. */
  function Extend(s: Spine, g: Forest): Spine {
    s.(f := Append(s.f, g))
  }

  lemma ExtendRenders(s: Spine, g: Forest)
    ensures RenderSpine(Extend(s, g)) == RenderSpine(s) + Render(g)
    ensures OpenOf(Extend(s, g)) == OpenOf(s)
    ensures RootFreeOfStops(s) && NoTopStop(g) ==> RootFreeOfStops(Extend(s, g))
    ensures RootFreeOfStops(s) && s.Inside? ==> RootFreeOfStops(Extend(s, g))
  {
    RenderAppend(s.f, g);
  }

  /** Closes the innermost open group. */
  function CloseInner(s: Spine): Spine
    requires s.Inside?
  {
    Extend(s.outer, Group(s.kind, s.f, Empty))
  }

  lemma CloseInnerRenders(s: Spine)
    requires s.Inside?
    ensures RenderSpine(CloseInner(s)) == RenderSpine(s) + [Close(s.kind)]
    ensures OpenOf(CloseInner(s)) == OpenOf(s.outer)
    ensures RootFreeOfStops(s) ==> RootFreeOfStops(CloseInner(s))
  {
    var g := Group(s.kind, s.f, Empty);
    assert NoTopStop(g.rest);
    ExtendRenders(s.outer, g);
    assert Render(g) == [Open(s.kind)] + Render(s.f) + [Close(s.kind)];
  }

  lemma ExtendStop(s: Spine)
    ensures RenderSpine(Extend(s, Stop(Empty))) == RenderSpine(s) + [Semi]
    ensures OpenOf(Extend(s, Stop(Empty))) == OpenOf(s)
    ensures RootFreeOfStops(s) && s.Inside? ==> RootFreeOfStops(Extend(s, Stop(Empty)))
  {
    ExtendRenders(s, Stop(Empty));
    assert Render(Stop(Empty)) == [Semi];
  }

  /** Soundness of the machine: while it is live, the text is a partial word of the grammar. */
  lemma {:induction false} LiveSpine(t: string, strict: bool) returns (s: Spine)
    requires FeedAll(t, strict).Live?
    ensures RenderSpine(s) == Erase(t)
    ensures OpenOf(s) == FeedAll(t, strict).open
    ensures strict ==> RootFreeOfStops(s)
  {
    if t == [] {
      return Root(Empty);
    }
    var c := t[|t| - 1];
    s := LiveSpine(t[..|t| - 1], strict);
    if IsOpener(c) {
      s := Inside(s, OpenKind(c), Empty);
    } else if IsCloser(c) {
      CloseInnerRenders(s);
      s := CloseInner(s);
    } else if c == ';' {
      ExtendStop(s);
      s := Extend(s, Stop(Empty));
    }
  }

  /** The machine on symbols instead of characters. */
  function FeedSym(st: Inner, y: Sym, strict: bool): Inner {
    match st
    case Done(_) => Dead
    case Dead => Dead
    case Live(open) =>
      match y
      case Open(k) => Live(open + [k])
      case Close(k) =>
        if open == [] then Done(k)
        else if open[|open| - 1] == k then Live(open[..|open| - 1])
        else Dead
      case Semi => if strict && open == [] then Dead else st
  }

  function FeedSyms(st: Inner, w: seq<Sym>, strict: bool): Inner
    decreases |w|
  {
    if w == [] then st else FeedSyms(FeedSym(st, w[0], strict), w[1..], strict)
  }

  lemma {:induction false} FeedSymsConcat(st: Inner, v: seq<Sym>, w: seq<Sym>, strict: bool)
    ensures FeedSyms(st, v + w, strict) == FeedSyms(FeedSyms(st, v, strict), w, strict)
    decreases |v|
  {
    if v == [] {
      assert v + w == w;
    } else {
      assert (v + w)[1..] == v[1..] + w;
      FeedSymsConcat(FeedSym(st, v[0], strict), v[1..], w, strict);
    }
  }

  lemma FeedSymsOne(st: Inner, y: Sym, strict: bool)
    ensures FeedSyms(st, [y], strict) == FeedSym(st, y, strict)
  {
    assert [y][1..] == [];
  }

  /** A balanced word leaves the open groups as they were. */
  lemma {:induction false} FeedForest(open: seq<Kind>, f: Forest, strict: bool)
    requires strict && open == [] ==> NoTopStop(f)
    ensures FeedSyms(Live(open), Render(f), strict) == Live(open)
    decreases f
  {
    match f
    case Empty =>
    case Group(k, inside, rest) =>
      var a, b, c, d := [Open(k)], Render(inside), [Close(k)], Render(rest);
      FeedSymsConcat(Live(open), a + b + c, d, strict);
      FeedSymsConcat(Live(open), a + b, c, strict);
      FeedSymsConcat(Live(open), a, b, strict);
      FeedSymsOne(Live(open), Open(k), strict);
      FeedForest(open + [k], inside, strict);
      FeedSymsOne(Live(open + [k]), Close(k), strict);
      assert (open + [k])[..|open|] == open;
      FeedForest(open, rest, strict);
    case Stop(rest) =>
      FeedSymsConcat(Live(open), [Semi], Render(rest), strict);
      FeedSymsOne(Live(open), Semi, strict);
      FeedForest(open, rest, strict);
  }

  /** Only the erased text matters while the machine is live. */
  lemma {:induction false} FeedIsFeedSyms(t: string, strict: bool)
    requires FeedSyms(Live([]), Erase(t), strict).Live?
    ensures FeedAll(t, strict) == FeedSyms(Live([]), Erase(t), strict)
  {
    if t == [] {
    } else {
      var s, c := t[..|t| - 1], t[|t| - 1];
      var mid := FeedSyms(Live([]), Erase(s), strict);
      FeedSymsConcat(Live([]), Erase(s), SymOf(c), strict);
      if SymOf(c) != [] {
        FeedSymsOne(mid, SymOf(c)[0], strict);
      }
      FeedIsFeedSyms(s, strict);
    }
  }

  /** A text is balanced exactly when the machine ends with nothing open. */
  lemma BalancedIff(t: string, strict: bool)
    ensures Balanced(t, strict) <==> FeedAll(t, strict) == Live([])
  {
    if FeedAll(t, strict) == Live([]) {
      var s := LiveSpine(t, strict);
      assert s.Root?;
    }
    if Balanced(t, strict) {
      var f :| Erase(t) == Render(f) && (strict ==> NoTopStop(f));
      FeedForest([], f, strict);
      FeedIsFeedSyms(t, strict);
    }
  }

  /** Soundness and completeness: the machine reports the opener closed by kind `k` exactly at
      the end of a balanced inside followed by a closing bracket of that kind. */
  lemma DoneIff(t: string, k: Kind)
    ensures FeedAll(t, false) == Done(k)
       <==> t != [] && t[|t| - 1] == CloseChar(k) && Balanced(t[..|t| - 1], false)
  {
    if t != [] {
      BalancedIff(t[..|t| - 1], false);
      DoneStep(FeedAll(t[..|t| - 1], false), t[|t| - 1], k);
      assert FeedAll(t, false) == Feed(FeedAll(t[..|t| - 1], false), t[|t| - 1], false);
    }
  }

  lemma DoneStep(st: Inner, c: char, k: Kind)
    ensures Feed(st, c, false) == Done(k) <==> st == Live([]) && c == CloseChar(k)
  {
  }

  // ----- mirror image -----

  function Flip(c: char): char {
    if IsOpener(c) then CloseChar(OpenKind(c))
    else if IsCloser(c) then OpenChar(CloseKind(c))
    else c
  }

  /** The text read from right to left, with each bracket turned round. */
  function Mirror(t: string): string {
    if t == [] then [] else Mirror(t[1..]) + [Flip(t[0])]
  }

  function FlipSym(y: Sym): Sym {
    match y case Open(k) => Close(k) case Close(k) => Open(k) case Semi => Semi
  }

  function MirrorSyms(w: seq<Sym>): seq<Sym> {
    if w == [] then [] else MirrorSyms(w[1..]) + [FlipSym(w[0])]
  }

  function MirrorForest(f: Forest): Forest {
    match f
    case Empty => Empty
    case Group(k, inside, rest) => Append(MirrorForest(rest), Group(k, MirrorForest(inside), Empty))
    case Stop(rest) => Append(MirrorForest(rest), Stop(Empty))
  }

  lemma {:induction false} MirrorConcat(s: string, t: string)
    ensures Mirror(s + t) == Mirror(t) + Mirror(s)
  {
    if s == [] {
      assert s + t == t;
    } else {
      assert (s + t)[1..] == s[1..] + t;
      MirrorConcat(s[1..], t);
    }
  }

  lemma {:induction false} MirrorSymsConcat(v: seq<Sym>, w: seq<Sym>)
    ensures MirrorSyms(v + w) == MirrorSyms(w) + MirrorSyms(v)
  {
    if v == [] {
      assert v + w == w;
    } else {
      assert (v + w)[1..] == v[1..] + w;
      MirrorSymsConcat(v[1..], w);
    }
  }

  lemma {:induction false} MirrorLength(t: string)
    ensures |Mirror(t)| == |t|
  {
    if t == [] {
    } else {
      MirrorLength(t[1..]);
    }
  }

  lemma {:induction false} MirrorTwice(t: string)
    ensures Mirror(Mirror(t)) == t
  {
    if t == [] {
    } else {
      MirrorTwice(t[1..]);
      MirrorConcat(Mirror(t[1..]), [Flip(t[0])]);
      assert [Flip(t[0])][1..] == [];
      assert Mirror([Flip(t[0])]) == [t[0]];
      assert [t[0]] + t[1..] == t;
    }
  }

  lemma EraseOne(c: char)
    ensures Erase([c]) == SymOf(c)
  {
    assert [c][..0] == [];
  }

  lemma FlipErases(c: char)
    ensures SymOf(Flip(c)) == MirrorSyms(SymOf(c))
  {
    if SymOf(c) != [] {
      assert SymOf(c)[1..] == [];
    }
  }

  lemma {:induction false} MirrorErase(t: string)
    ensures Erase(Mirror(t)) == MirrorSyms(Erase(t))
  {
    if t == [] {
    } else {
      var c := t[0];
      calc {
        Erase(Mirror(t));
      ==  { EraseConcat(Mirror(t[1..]), [Flip(c)]); EraseOne(Flip(c)); }
        Erase(Mirror(t[1..])) + SymOf(Flip(c));
      ==  { MirrorErase(t[1..]); FlipErases(c); }
        MirrorSyms(Erase(t[1..])) + MirrorSyms(SymOf(c));
      ==  { MirrorSymsConcat(SymOf(c), Erase(t[1..])); EraseOne(c); }
        MirrorSyms(Erase([c]) + Erase(t[1..]));
      ==  { EraseConcat([c], t[1..]); assert [c] + t[1..] == t; }
        MirrorSyms(Erase(t));
      }
    }
  }

  lemma AppendStops(f: Forest, g: Forest)
    ensures NoTopStop(Append(f, g)) <==> NoTopStop(f) && NoTopStop(g)
  {
  }

  lemma {:induction false} MirrorRender(f: Forest)
    ensures Render(MirrorForest(f)) == MirrorSyms(Render(f))
    ensures NoTopStop(f) ==> NoTopStop(MirrorForest(f))
  {
    hide Append;
    match f
    case Empty =>
    case Group(k, inside, rest) =>
      var a, b, c, d := [Open(k)], Render(inside), [Close(k)], Render(rest);
      MirrorSymsConcat(a + b + c, d);
      MirrorSymsConcat(a + b, c);
      MirrorSymsConcat(a, b);
      assert a[1..] == [] && c[1..] == [];
      MirrorRender(inside);
      MirrorRender(rest);
      var g := Group(k, MirrorForest(inside), Empty);
      RenderAppend(MirrorForest(rest), g);
      AppendStops(MirrorForest(rest), g);
      assert Render(g) == [Open(k)] + Render(MirrorForest(inside)) + [Close(k)];
      assert MirrorSyms(a) == [Close(k)] && MirrorSyms(c) == [Open(k)];
    case Stop(rest) =>
      MirrorSymsConcat([Semi], Render(rest));
      assert [Semi][1..] == [];
      assert MirrorSyms([Semi]) == [Semi];
      MirrorRender(rest);
      RenderAppend(MirrorForest(rest), Stop(Empty));
      assert Render(Stop(Empty)) == [Semi];
  }

  lemma MirrorBalancedOne(t: string, strict: bool)
    requires Balanced(t, strict)
    ensures Balanced(Mirror(t), strict)
  {
    var f :| Erase(t) == Render(f) && (strict ==> NoTopStop(f));
    MirrorErase(t);
    MirrorRender(f);
    assert Erase(Mirror(t)) == Render(MirrorForest(f));
  }

  /** Balance does not depend on the reading direction. */
  lemma MirrorBalanced(t: string, strict: bool)
    ensures Balanced(Mirror(t), strict) <==> Balanced(t, strict)
  {
    if Balanced(t, strict) { MirrorBalancedOne(t, strict); }
    if Balanced(Mirror(t), strict) {
      MirrorBalancedOne(Mirror(t), strict);
      MirrorTwice(t);
    }
  }

  /** An enclosed text is what the machine accepts reading rightwards from its first
      character, and also what it accepts reading leftwards from its last. */
  lemma EnclosedBothWays(t: string)
    requires |t| >= 1
    ensures IsOpener(t[0]) ==>
      (Enclosed(t) <==> FeedAll(t[1..], false) == Done(OpenKind(t[0])))
    ensures IsCloser(t[|t| - 1]) ==>
      (Enclosed(t) <==> FeedAll(Mirror(t[..|t| - 1]), false) == Done(CloseKind(t[|t| - 1])))
  {
    if IsOpener(t[0]) { EnclosedForward(t); }
    if IsCloser(t[|t| - 1]) { EnclosedBackward(t); }
  }

  lemma EnclosedForward(t: string)
    requires t != [] && IsOpener(t[0])
    ensures Enclosed(t) <==> FeedAll(t[1..], false) == Done(OpenKind(t[0]))
  {
    var u, k := t[1..], OpenKind(t[0]);
    DoneIff(u, k);
    if u != [] {
      assert u[..|u| - 1] == t[1..|t| - 1] && u[|u| - 1] == t[|t| - 1];
    }
  }

  lemma EnclosedBackward(t: string)
    requires t != [] && IsCloser(t[|t| - 1])
    ensures Enclosed(t) <==> FeedAll(Mirror(t[..|t| - 1]), false) == Done(CloseKind(t[|t| - 1]))
  {
    var u, k := t[..|t| - 1], CloseKind(t[|t| - 1]);
    DoneIff(Mirror(u), k);
    MirrorLength(u);
    if u != [] {
      assert u[1..] == t[1..|t| - 1] && u[0] == t[0];
      MirrorBalanced(u[1..], false);
      MirrorInit(u);
    }
  }

  lemma MirrorInit(u: string)
    requires u != []
    ensures Mirror(u) == Mirror(u[1..]) + [Flip(u[0])]
    ensures Mirror(u)[..|Mirror(u)| - 1] == Mirror(u[1..])
  {
  }
}
