/** NUL-terminated byte strings in arrays, and the string routines of util.c that work on them
    in place. */
module CStrings {

  newtype byte = b: int | 0 <= b < 256

  const NUL: byte := 0
  const SPACE: byte := 32
  const PERCENT: byte := 37
  const AMPERSAND: byte := 38
  const PLUS: byte := 43
  const EQUALS: byte := 61
  const BACKSLASH: byte := 92

  /** The array holds the string `s` from its start: the bytes of `s`, none of them NUL, and
      then a NUL. */
  ghost predicate Holds(a: array<byte>, s: seq<byte>)
    reads a
  {
    |s| < a.Length && a[|s|] == NUL && forall i | 0 <= i < |s| :: a[i] == s[i] != NUL
  }

  // ----- splitting -----

  /** The bytes before the first `stop`, or all of them. */
  function Word(s: seq<byte>, stop: byte): seq<byte> {
    if s == [] || s[0] == stop then [] else [s[0]] + Word(s[1..], stop)
  }

  /** The bytes after the first `stop`, or none. */
  function Rest(s: seq<byte>, stop: byte): seq<byte> {
    if s == [] then [] else if s[0] == stop then s[1..] else Rest(s[1..], stop)
  }

  /** Splitting loses nothing but the stop, and takes at least one byte from a string that is
      not empty. */
  lemma {:induction false} WordAndRest(s: seq<byte>, stop: byte)
    ensures stop !in Word(s, stop)
    ensures if stop in s then s == Word(s, stop) + [stop] + Rest(s, stop)
            else s == Word(s, stop) && Rest(s, stop) == []
    ensures s != [] ==> |Rest(s, stop)| < |s|
    decreases |s|
  {
    if s != [] && s[0] != stop {
      WordAndRest(s[1..], stop);
      assert s == [s[0]] + s[1..];
    } else if s != [] {
      assert s == [stop] + s[1..];
    }
  }

  lemma {:induction false} WordOf(w: seq<byte>, stop: byte, r: seq<byte>)
    requires stop !in w
    ensures Word(w + [stop] + r, stop) == w && Rest(w + [stop] + r, stop) == r
    ensures Word(w, stop) == w && Rest(w, stop) == []
    decreases |w|
  {
    var s := w + [stop] + r;
    if w == [] {
      assert s[0] == stop && s[1..] == r;
    } else {
      assert s[0] == w[0] && s[1..] == w[1..] + [stop] + r;
      assert w == [w[0]] + w[1..];
      WordOf(w[1..], stop, r);
    }
  }

  lemma {:induction false} RestIsSuffix(s: seq<byte>, stop: byte)
    ensures |Word(s, stop)| <= |s| && Word(s, stop) == s[..|Word(s, stop)|]
    ensures |Rest(s, stop)| <= |s| && Rest(s, stop) == s[|s| - |Rest(s, stop)|..]
    ensures |s| - |Rest(s, stop)| == |Word(s, stop)| + (if |Word(s, stop)| < |s| then 1 else 0)
    ensures forall i | 0 <= i < |Word(s, stop)| :: s[i] != stop
    ensures |Word(s, stop)| < |s| ==> s[|Word(s, stop)|] == stop
  {
    WordAndRest(s, stop);
  }

  /** Moves the bytes of `line` up to `stop` into `word` and shifts the rest to the front. */
  method GetWord(word: array<byte>, line: array<byte>, stop: byte, ghost s: seq<byte>)
    requires word != line && Holds(line, s) && stop != NUL && |Word(s, stop)| < word.Length
    modifies word, line
    ensures Holds(word, Word(s, stop)) && Holds(line, Rest(s, stop))
  {
    RestIsSuffix(s, stop);
    ghost var w, r := Word(s, stop), Rest(s, stop);
    var x := 0;
    while line[x] != NUL && line[x] != stop
      invariant 0 <= x <= |w| && forall i | 0 <= i < x :: word[i] == w[i]
      invariant Holds(line, s)
      decreases |w| - x
    {
      word[x] := line[x];
      x := x + 1;
    }
    word[x] := NUL;
    if line[x] != NUL {
      x := x + 1;
    }
    ShiftLeft(line, x, s);
  }

  /** Copies the string from index `from` on, its NUL included, to the front. */
  method ShiftLeft(line: array<byte>, from: nat, ghost s: seq<byte>)
    requires from <= |s| && Holds(line, s)
    modifies line
    ensures Holds(line, s[from..])
  {
    var x, y := from, 0;
    var c := line[x];
    line[y] := c;
    while c != NUL
      invariant 0 <= y && x == from + y <= |s| && c == line[y] == (s + [NUL])[x]
      invariant forall i | 0 <= i <= y :: line[i] == (s + [NUL])[from + i]
      invariant forall i | y < i <= |s| :: line[i] == (s + [NUL])[i]
      decreases |s| - x
    {
      x, y := x + 1, y + 1;
      c := line[x];
      line[y] := c;
    }
  }

  /** What C sees of a byte sequence: everything before its first NUL. */
  function CutAtNul(s: seq<byte>): seq<byte> {
    Word(s, NUL)
  }

  lemma CutNothing(s: seq<byte>)
    requires NUL !in s
    ensures CutAtNul(s) == s
  {
    WordAndRest(s, NUL);
  }

  method StrLen(line: array<byte>, ghost s: seq<byte>) returns (n: nat)
    requires Holds(line, s)
    ensures n == |s|
  {
    n := 0;
    while line[n] != NUL
      invariant n <= |s|
      decreases |s| - n
    {
      n := n + 1;
    }
  }

  /** As `GetWord`, into new memory. */
  method MakeWord(line: array<byte>, stop: byte, ghost s: seq<byte>) returns (word: array<byte>)
    requires Holds(line, s) && stop != NUL
    modifies line
    ensures fresh(word) && Holds(word, Word(s, stop)) && Holds(line, Rest(s, stop))
  {
    var n := StrLen(line, s);
    word := new byte[n + 1];
    RestIsSuffix(s, stop);
    GetWord(word, line, stop, s);
  }

  // ----- decoding in place -----

  function Spaced(s: seq<byte>): (r: seq<byte>)
    ensures |r| == |s| && forall i | 0 <= i < |s| :: r[i] == if s[i] == PLUS then SPACE else s[i]
  {
    seq(|s|, i requires 0 <= i < |s| => if s[i] == PLUS then SPACE else s[i])
  }

  method PlusToSpace(str: array<byte>, ghost s: seq<byte>)
    requires Holds(str, s)
    modifies str
    ensures Holds(str, Spaced(s))
  {
    var x := 0;
    while str[x] != NUL
      invariant 0 <= x <= |s| && str[|s|] == NUL
      invariant forall i | 0 <= i < |s| :: str[i] == if i < x then Spaced(s)[i] else s[i]
      decreases |s| - x
    {
      if str[x] == PLUS {
        str[x] := SPACE;
      }
      x := x + 1;
    }
  }

  /** `c & 0xdf`: bit 5 cleared. */
  function WithoutCaseBit(c: byte): (r: byte)
    ensures r / 64 == c / 64 && (r / 32) % 2 == 0 && r % 32 == c % 32
  {
    if (c / 32) % 2 == 1 then c - 32 else c
  }

  /** The value of a digit as C computes it from a signed char, sensible or not. */
  function DigitValue(c: byte): int {
    if 65 <= c < 128 then WithoutCaseBit(c) as int - 65 + 10
    else if c < 128 then c as int - 48
    else c as int - 256 - 48
  }

  function X2C(high: byte, low: byte): byte {
    ((DigitValue(high) * 16 + DigitValue(low)) % 256) as byte
  }

  function HexDigit(n: byte, upper: bool): byte
    requires n < 16
  {
    if n < 10 then 48 + n else if upper then 65 + (n - 10) else 97 + (n - 10)
  }

  /** Percent-encoding of a byte, in digits of either case, is undone. */
  lemma X2COfHex(b: byte, upperHigh: bool, upperLow: bool)
    ensures X2C(HexDigit(b / 16, upperHigh), HexDigit(b % 16, upperLow)) == b
  {
    DigitValueOfHex(b / 16, upperHigh);
    DigitValueOfHex(b % 16, upperLow);
    assert (b / 16) as int * 16 + (b % 16) as int == b as int;
  }

  lemma DigitValueOfHex(n: byte, upper: bool)
    requires n < 16
    ensures DigitValue(HexDigit(n, upper)) == n as int
  {
  }

  /** From `y` on, every '%' that the decoder meets is followed by two more bytes. */
  predicate DecodableFrom(s: seq<byte>, y: nat)
    decreases |s| - y
  {
    y >= |s| ||
    if s[y] == PERCENT then y + 2 < |s| && DecodableFrom(s, y + 3) else DecodableFrom(s, y + 1)
  }

  predicate Decodable(s: seq<byte>) { DecodableFrom(s, 0) }

  /** The text from `y` on with every escape decoded. */
  function UnescapeFrom(s: seq<byte>, y: nat): (r: seq<byte>)
    requires DecodableFrom(s, y)
    ensures y <= |s| ==> |r| <= |s| - y
    decreases |s| - y
  {
    if y >= |s| then []
    else if s[y] == PERCENT then [X2C(s[y + 1], s[y + 2])] + UnescapeFrom(s, y + 3)
    else [s[y]] + UnescapeFrom(s, y + 1)
  }

  function Unescape(s: seq<byte>): seq<byte>
    requires Decodable(s)
  {
    UnescapeFrom(s, 0)
  }

  /** Decodes percent escapes in place.  A decoded NUL ends the string early. */
  method UnescapeUrl(url: array<byte>, ghost s: seq<byte>)
    requires Holds(url, s) && Decodable(s)
    modifies url
    ensures Holds(url, CutAtNul(Unescape(s)))
  {
    var x, y := 0, 0;
    ghost var u := UnescapeFrom(s, 0);
    while url[y] != NUL
      invariant 0 <= x <= y <= |s| && DecodableFrom(s, y)
      invariant x <= |u| && u[x..] == UnescapeFrom(s, y)
      invariant forall i | 0 <= i < x :: url[i] == u[i]
      invariant url[|s|] == NUL && forall i | y <= i < |s| :: url[i] == s[i]
      decreases |s| - y
    {
      assert u[x..][0] == u[x] && u[x..][1..] == u[x + 1..];
      url[x] := url[y];
      if url[x] == PERCENT {
        url[x] := X2C(url[y + 1], url[y + 2]);
        y := y + 2;
      }
      x, y := x + 1, y + 1;
    }
    url[x] := NUL;
    CutHolds(url, u);
  }

  /** An array that starts with some bytes and a NUL holds their part before the first NUL. */
  lemma CutHolds(a: array<byte>, u: seq<byte>)
    requires |u| < a.Length && a[|u|] == NUL && forall i | 0 <= i < |u| :: a[i] == u[i]
    ensures Holds(a, CutAtNul(u))
  {
    RestIsSuffix(u, NUL);
  }
}
