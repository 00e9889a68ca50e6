/** `escape_shell_cmd` of util.c: a backslash before every character special to the shell, put
    in by shifting the rest of the buffer to the right. */
module ShellEscape {
  import opened CStrings

  /** & ; ` ' " | * ? ~ < > ^ ( ) [ ] { } $ backslash and newline. */
  const SPECIALS: seq<byte> :=
    [38, 59, 96, 39, 34, 124, 42, 63, 126, 60, 62, 94, 40, 41, 91, 93, 123, 125, 36, 92, 10]

  predicate Special(c: byte) { c in SPECIALS }

  function Escaped(s: seq<byte>): seq<byte> {
    if s == [] then []
    else if Special(s[0]) then [BACKSLASH, s[0]] + Escaped(s[1..])
    else [s[0]] + Escaped(s[1..])
  }

  function SpecialCount(s: seq<byte>): nat {
    if s == [] then 0 else SpecialCount(s[1..]) + if Special(s[0]) then 1 else 0
  }

  /** Removes quoting backslashes. */
  function Unquote(t: seq<byte>): seq<byte> {
    if t == [] then []
    else if t[0] == BACKSLASH && |t| >= 2 then [t[1]] + Unquote(t[2..])
    else [t[0]] + Unquote(t[1..])
  }

  /** Read from the left, every special byte is the second half of a pair that a backslash
      begins, and backslashes begin nothing else. */
  predicate Quoted(t: seq<byte>) {
    t != [] ==>
      if t[0] == BACKSLASH then |t| >= 2 && Special(t[1]) && Quoted(t[2..])
      else !Special(t[0]) && Quoted(t[1..])
  }

  // ----- the methods -----

  /** The first place of `c` in the string, or -1. */
  method Ind(s: seq<byte>, c: byte) returns (r: int)
    ensures -1 <= r < |s| && (r == -1 <==> c !in s)
    ensures r >= 0 ==> s[r] == c && c !in s[..r]
  {
    for x := 0 to |s|
      invariant c !in s[..x]
    {
      if s[x] == c {
        return x;
      }
    }
    return -1;
  }

  /** Moves the string from `x` on, its NUL included, one place to the right. */
  method ShiftRight(cmd: array<byte>, x: nat, l: nat, ghost t: seq<byte>)
    requires Holds(cmd, t) && l == |t| && x <= l && l + 1 < cmd.Length
    modifies cmd
    ensures cmd[l + 1] == NUL
    ensures forall i | 0 <= i < x :: cmd[i] == t[i]
    ensures forall i | x < i <= l :: cmd[i] == t[i - 1]
  {
    var y := l + 1;
    while y > x
      invariant x <= y <= l + 1
      invariant forall i | 0 <= i < y && i <= l :: cmd[i] == (t + [NUL])[i]
      invariant forall i | y < i <= l + 1 :: cmd[i] == (t + [NUL])[i - 1]
    {
      cmd[y] := cmd[y - 1];
      y := y - 1;
    }
  }

  /** Puts a backslash before the byte at `x`. */
  method InsertBackslash(cmd: array<byte>, x: nat, l: nat, ghost t: seq<byte>)
    requires Holds(cmd, t) && x < l == |t| && l + 1 < cmd.Length
    modifies cmd
    ensures Holds(cmd, t[..x] + [BACKSLASH] + t[x..])
  {
    ShiftRight(cmd, x, l, t);
    cmd[x] := BACKSLASH;
  }

  method EscapeShellCmd(cmd: array<byte>, ghost s: seq<byte>)
    requires Holds(cmd, s) && |s| + SpecialCount(s) < cmd.Length
    modifies cmd
    ensures Holds(cmd, Escaped(s))
  {
    var l := StrLen(cmd, s);
    var x := 0;
    ghost var done, left := [], s;
    EscapedLength(s);
    assert [] + s == s;
    while cmd[x] != NUL
      invariant x == |done| && l == |done| + |left| && Holds(cmd, done + left)
      invariant Escaped(s) == done + Escaped(left)
      decreases |left|
    {
      ghost var t, c := done + left, left[0];
      assert cmd[x] == t[x] == c;
      EscapedLength(left);
      EscapedStep(done, left);
      var found := Ind(SPECIALS, cmd[x]);
      if found != -1 {
        assert t[..x] == done && t[x..] == left;
        InsertBackslash(cmd, x, l, t);
        l := l + 1;
        x := x + 1;
        done := done + [BACKSLASH, c];
      } else {
        done := done + [c];
      }
      left := left[1..];
      x := x + 1;
    }
    assert left == [] && done + [] == done;
  }

  lemma Regroup(a: seq<byte>, b: seq<byte>, c: seq<byte>)
    ensures a + (b + c) == (a + b) + c
  {
  }

  lemma EscapedStep(done: seq<byte>, left: seq<byte>)
    requires left != []
    ensures var c, rest := left[0], left[1..];
      && done + left == (done + [c]) + rest
      && done + [BACKSLASH] + left == (done + [BACKSLASH, c]) + rest
      && done + Escaped(left) == (if Special(c) then done + [BACKSLASH, c] else done + [c]) + Escaped(rest)
  {
    var c, rest := left[0], left[1..];
    assert left == [c] + rest;
    Regroup(done, [c], rest);
    assert done + [BACKSLASH] + left == (done + [BACKSLASH, c]) + rest;
    Regroup(done, if Special(c) then [BACKSLASH, c] else [c], Escaped(rest));
  }

  // ----- laws -----

  /** The characters that the shell does not read as themselves. */
  lemma SpecialIff(c: byte)
    ensures Special(c) <==> c as char in "&;`'\"|*?~<>^()[]{}$\\\n"
  {
    var chars := "&;`'\"|*?~<>^()[]{}$\\\n";
    assert |chars| == |SPECIALS| && forall i | 0 <= i < |chars| :: chars[i] == SPECIALS[i] as char;
    if Special(c) {
      var i :| 0 <= i < |SPECIALS| && SPECIALS[i] == c;
      assert chars[i] in chars;
    }
    if c as char in chars {
      var i :| 0 <= i < |chars| && chars[i] == c as char;
      assert SPECIALS[i] in SPECIALS;
    }
  }

  /** Escaping goes byte by byte, wherever the byte stands. */
  lemma {:induction false} EscapedAt(p: seq<byte>, c: byte, q: seq<byte>)
    ensures Escaped(p + [c] + q) == Escaped(p) + (if Special(c) then ['\\' as byte, c] else [c]) + Escaped(q)
    decreases |p|
  {
    hide Special;
    var s := p + [c] + q;
    if p == [] {
      assert s[0] == c && s[1..] == q;
    } else {
      assert s[0] == p[0] && s[1..] == p[1..] + [c] + q;
      EscapedAt(p[1..], c, q);
      var head := if Special(p[0]) then [BACKSLASH, p[0]] else [p[0]];
      var here := if Special(c) then ['\\' as byte, c] else [c];
      Regroup(head, Escaped(p[1..]) + here, Escaped(q));
      Regroup(head, Escaped(p[1..]), here);
    }
  }

  /** The escaped text is longer by the number of specials. */
  lemma {:induction false} EscapedLength(s: seq<byte>)
    ensures |Escaped(s)| == |s| + SpecialCount(s)
  {
    if s == [] {
    } else {
      EscapedLength(s[1..]);
    }
  }

  /** Escaping is undone by removing quoting backslashes, and leaves no special unquoted. */
  lemma {:induction false} UnquoteEscaped(s: seq<byte>)
    ensures Unquote(Escaped(s)) == s && Quoted(Escaped(s))
  {
    if s == [] {
    } else {
      UnquoteEscaped(s[1..]);
      var t := Escaped(s);
      if Special(s[0]) {
        assert t[2..] == Escaped(s[1..]);
      } else {
        assert t[1..] == Escaped(s[1..]);
      }
      assert s == [s[0]] + s[1..];
    }
  }

  /** Every text quoted in this way is the escaped form of one text only. */
  lemma {:induction false} EscapedUnquote(t: seq<byte>)
    requires Quoted(t)
    ensures Escaped(Unquote(t)) == t
    decreases |t|
  {
    if t == [] {
    } else {
      if t[0] == BACKSLASH {
        EscapedUnquote(t[2..]);
        assert Unquote(t)[1..] == Unquote(t[2..]);
        assert t == [BACKSLASH, t[1]] + t[2..];
      } else {
        EscapedUnquote(t[1..]);
        assert Unquote(t)[1..] == Unquote(t[1..]);
        assert t == [t[0]] + t[1..];
      }
    }
  }
}
