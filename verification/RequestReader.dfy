/** Reading a request: `readline` of tcp.cc, and `parse_request`, `tokenize` and the removal of
    the line end from the tokens in server.cc. */
module RequestReader {
  import opened ByteStreams
  import opened CStrings

  const CR: byte := 13
  const LF: byte := 10

  const CRLF: seq<byte> := [CR, LF]

  // ----- lines -----

  predicate IsBreak(c: byte) { c == LF || c == EOF_CHAR }

  /** The length of the text before the first break. */
  function LineEnd(s: seq<byte>): (k: nat)
    ensures k <= |s| && (forall i | 0 <= i < k :: !IsBreak(s[i])) && (k < |s| ==> IsBreak(s[k]))
  {
    if s == [] || IsBreak(s[0]) then 0 else 1 + LineEnd(s[1..])
  }

  /** What `readline` returns: a line with its LF, or what stands before the byte 255 or the end
      of the stream. */
  function LineOf(s: seq<byte>): seq<byte> {
    var k := LineEnd(s);
    s[..k] + if k < |s| && s[k] == LF then [LF] else []
  }

  /** What `readline` leaves in the stream. */
  function AfterLine(s: seq<byte>): seq<byte> {
    var k := LineEnd(s);
    if k < |s| then s[k + 1..] else []
  }

  method ReadLine(sock: ByteStream) returns (str: seq<byte>)
    modifies sock
    ensures str == LineOf(old(sock.rest)) && sock.rest == AfterLine(old(sock.rest))
  {
    ghost var s := sock.rest;
    str := [];
    var c := sock.GetC();
    while c != LF && c != EOF_CHAR
      invariant |str| <= LineEnd(s) && str == s[..|str|]
      invariant if |str| < |s| then c == s[|str|] && sock.rest == s[|str| + 1..] else c == EOF_CHAR && sock.rest == []
      decreases LineEnd(s) - |str|
    {
      str := str + [c];
      c := sock.GetC();
    }
    if c == LF {
      str := str + [LF];
    }
  }

  // ----- tokens -----

  /** The maximal stretches without delimiter. */
  function Tokens(s: seq<byte>, delim: byte): seq<seq<byte>>
    decreases |s|
  {
    if s == [] then []
    else if s[0] == delim then Tokens(s[1..], delim)
    else
      RestIsSuffix(s, delim);
      [Word(s, delim)] + Tokens(s[|Word(s, delim)|..], delim)
  }

  /** `find_first_not_of` (`wanted` false) and `find` (`wanted` true); -1 is npos. */
  method Find(s: seq<byte>, delim: byte, wanted: bool, from: int) returns (i: int)
    requires -1 <= from <= |s|
    ensures i == -1 || (0 <= from <= i < |s| && (s[i] == delim) == wanted)
    ensures from >= 0 ==> forall j | from <= j < (if i == -1 then |s| else i) :: (s[j] == delim) != wanted
  {
    if from == -1 {
      return -1;
    }
    i := from;
    while i < |s| && (s[i] == delim) != wanted
      invariant from <= i <= |s|
      invariant forall j | from <= j < i :: (s[j] == delim) != wanted
    {
      i := i + 1;
    }
    if i == |s| {
      i := -1;
    }
  }

  lemma {:induction false} TokensSkip(s: seq<byte>, delim: byte, from: nat, to: nat)
    requires from <= to <= |s| && forall j | from <= j < to :: s[j] == delim
    ensures Tokens(s[from..], delim) == Tokens(s[to..], delim)
    decreases |s| - from
  {
    if from == to {
    } else {
      assert s[from..][1..] == s[from + 1..];
      TokensSkip(s, delim, from + 1, to);
    }
  }

  lemma TokensTake(s: seq<byte>, delim: byte, start: nat, end: nat)
    requires start < end <= |s| && forall j | start <= j < end :: s[j] != delim
    requires end < |s| ==> s[end] == delim
    ensures Tokens(s[start..], delim) == [s[start..end]] + Tokens(s[end..], delim)
  {
    var t, w := s[start..], s[start..end];
    var r := if end < |s| then s[end + 1..] else [];
    assert t == if end < |s| then w + [delim] + r else w;
    WordOf(w, delim, r);
    assert t[|w|..] == s[end..];
  }

  method Tokenize(str: seq<byte>, delim: byte, out: seq<seq<byte>>) returns (tokens: seq<seq<byte>>)
    ensures tokens == out + Tokens(str, delim)
  {
    tokens := out;
    var end := 0;
    var start := Find(str, delim, false, end);
    ghost var done: nat := if start == -1 then |str| else start;
    TokensSkip(str, delim, 0, done);
    assert str[0..] == str;
    while start != -1
      invariant 0 <= done <= |str| && (start == -1 || done == start < |str|)
      invariant start == -1 ==> done == |str|
      invariant start != -1 ==> str[start] != delim
      invariant out + Tokens(str, delim) == tokens + Tokens(str[done..], delim)
      decreases |str| - done
    {
      end := Find(str, delim, true, start);
      ghost var stop := if end == -1 then |str| else end;
      TokensTake(str, delim, start, stop);
      tokens := tokens + [str[start..if end == -1 then |str| else end]];
      start := Find(str, delim, false, end);
      done := if start == -1 then |str| else start;
      TokensSkip(str, delim, stop, done);
    }
  }

  /** A gap before each token and one after the last, then nothing. */
  function Spread(gaps: seq<seq<byte>>, tokens: seq<seq<byte>>): seq<byte>
    requires |gaps| == |tokens| + 1
  {
    if tokens == [] then gaps[0] else gaps[0] + tokens[0] + Spread(gaps[1..], tokens[1..])
  }

  ghost predicate AllAre(g: seq<byte>, delim: byte) { forall i | 0 <= i < |g| :: g[i] == delim }

  /** Gaps hold only delimiters, and tokens none; only the outer gaps may be empty. */
  ghost predicate Separates(gaps: seq<seq<byte>>, tokens: seq<seq<byte>>, delim: byte) {
    |gaps| == |tokens| + 1
    && (forall i | 0 <= i < |gaps| :: AllAre(gaps[i], delim))
    && (forall i | 0 < i < |tokens| :: gaps[i] != [])
    && forall i | 0 <= i < |tokens| :: tokens[i] != [] && delim !in tokens[i]
  }

  /** Tokenizing finds exactly the tokens that were written down. */
  lemma {:induction false} TokensOfSpread(gaps: seq<seq<byte>>, tokens: seq<seq<byte>>, delim: byte)
    requires Separates(gaps, tokens, delim)
    ensures Tokens(Spread(gaps, tokens), delim) == tokens
    decreases |tokens|
  {
    var s := Spread(gaps, tokens);
    var g := |gaps[0]|;
    assert AllAre(gaps[0], delim);
    assert forall j | 0 <= j < g :: s[j] == gaps[0][j];
    TokensSkip(s, delim, 0, g);
    assert s[0..] == s;
    if tokens == [] {
      assert s[g..] == [];
    } else {
      var rest := Spread(gaps[1..], tokens[1..]);
      var e := g + |tokens[0]|;
      assert tokens[0] != [] && delim !in tokens[0];
      assert s[g..e] == tokens[0] && s[e..] == rest;
      assert rest != [] ==> rest[0] == delim by { NextGap(gaps, tokens, delim); }
      assert forall j | g <= j < e :: s[j] == tokens[0][j - g];
      TokensTake(s, delim, g, e);
      TokensOfSpread(gaps[1..], tokens[1..], delim);
    }
  }

  lemma NextGap(gaps: seq<seq<byte>>, tokens: seq<seq<byte>>, delim: byte)
    requires Separates(gaps, tokens, delim) && tokens != []
    ensures var rest := Spread(gaps[1..], tokens[1..]); rest != [] ==> rest[0] == delim
  {
    var rest := Spread(gaps[1..], tokens[1..]);
    assert AllAre(gaps[1], delim);
    if |tokens| > 1 {
      assert gaps[1] != [] && rest[0] == gaps[1][0];
    } else {
      assert rest == gaps[1];
    }
  }

  /** Every text is its tokens, spread by gaps: tokenizing drops delimiters and nothing else. */
  lemma {:induction false} SpreadOfTokens(s: seq<byte>, delim: byte) returns (gaps: seq<seq<byte>>)
    ensures Separates(gaps, Tokens(s, delim), delim)
    ensures Spread(gaps, Tokens(s, delim)) == s
    decreases |s|
  {
    if s == [] {
      gaps := [[]];
    } else if s[0] == delim {
      var more := SpreadOfTokens(s[1..], delim);
      gaps := [[delim] + more[0]] + more[1..];
      assert AllAre(more[0], delim) && gaps[1..] == more[1..];
      assert s == [delim] + s[1..];
    } else {
      RestIsSuffix(s, delim);
      var w := Word(s, delim);
      var more := SpreadOfTokens(s[|w|..], delim);
      gaps := AddFirst(w, s[|w|..], delim, more);
      assert Tokens(s, delim) == [w] + Tokens(s[|w|..], delim);
      assert w + s[|w|..] == s;
    }
  }

  lemma AddFirst(w: seq<byte>, s: seq<byte>, delim: byte, more: seq<seq<byte>>) returns (gaps: seq<seq<byte>>)
    requires w != [] && delim !in w && (s != [] ==> s[0] == delim)
    requires Separates(more, Tokens(s, delim), delim) && Spread(more, Tokens(s, delim)) == s
    ensures Separates(gaps, [w] + Tokens(s, delim), delim)
    ensures Spread(gaps, [w] + Tokens(s, delim)) == w + s
  {
    gaps := [[]] + more;
    var tokens := Tokens(s, delim);
    assert gaps[1..] == more && ([w] + tokens)[1..] == tokens;
  }

  // ----- the head of a request -----

  /** Right after the first `n` bytes, `readline` has just returned CRLF or nothing. */
  predicate Stops(s: seq<byte>, n: nat)
    requires n <= |s|
  {
    n > 0 &&
    if s[n - 1] == LF then n > 1 && s[n - 2] == CR && LineStart(s, n - 2)
    else s[n - 1] == EOF_CHAR && LineStart(s, n - 1)
  }

  predicate LineStart(s: seq<byte>, n: nat)
    requires n <= |s|
  {
    n == 0 || IsBreak(s[n - 1])
  }

  /** The first `n` bytes are the head: the shortest prefix that stops, or everything. */
  ghost predicate IsHead(s: seq<byte>, n: nat) {
    n <= |s| && (n < |s| ==> Stops(s, n)) && forall m: nat | m < n :: !Stops(s, m)
  }

  /** The bytes other than 255. */
  function Kept(s: seq<byte>): seq<byte> {
    if s == [] then [] else (if s[0] == EOF_CHAR then [] else [s[0]]) + Kept(s[1..])
  }

  lemma {:induction false} KeptConcat(s: seq<byte>, t: seq<byte>)
    ensures Kept(s + t) == Kept(s) + Kept(t)
    decreases |s|
  {
    if s == [] {
      assert s + t == t;
    } else {
      assert (s + t)[0] == s[0] && (s + t)[1..] == s[1..] + t;
      KeptConcat(s[1..], t);
    }
  }

  lemma {:induction false} KeptIff(s: seq<byte>)
    ensures |Kept(s)| <= |s|
    ensures Kept(s) == s <==> EOF_CHAR !in s
    decreases |s|
  {
    if s == [] {
    } else {
      KeptIff(s[1..]);
      assert s == [s[0]] + s[1..];
    }
  }

  predicate IsLast(line: seq<byte>) { line == CRLF || line == [] }

  /** `n` bytes are read, the last of them as `line`, and the head did not end before. */
  ghost predicate Reading(s: seq<byte>, n: nat, line: seq<byte>) {
    n <= |s| && (LineStart(s, n) || n == |s|) && (forall m: nat | m < n :: !Stops(s, m))
    && (Stops(s, n) ==> IsLast(line)) && (IsLast(line) ==> Stops(s, n) || n == |s|)
  }

  /** One more line from the start of a line. */
  lemma LineStep(s: seq<byte>, n: nat) returns (next: nat)
    requires n <= |s| && (LineStart(s, n) || n == |s|) && forall m: nat | m <= n :: !Stops(s, m)
    ensures n <= next <= |s| && AfterLine(s[n..]) == s[next..] && (next == n ==> LineOf(s[n..]) == [])
    ensures Kept(s[..next]) == Kept(s[..n]) + LineOf(s[n..])
    ensures Reading(s, next, LineOf(s[n..]))
  {
    hide Kept, Stops, IsLast;
    var k := LineEnd(s[n..]);
    next := if n + k < |s| then n + k + 1 else |s|;
    KeptLine(s, n, next);
    assert AfterLine(s[n..]) == s[next..];
    if n < next {
      StopsIff(s, n, next);
      assert next < |s| ==> s[next - 1] == s[n..][k];
    } else {
      assert LineOf(s[n..]) == [];
    }
  }

  lemma KeptLine(s: seq<byte>, n: nat, next: nat)
    requires n <= next <= |s|
    requires var k := LineEnd(s[n..]); next == if n + k < |s| then n + k + 1 else |s|
    ensures Kept(s[..next]) == Kept(s[..n]) + LineOf(s[n..])
  {
    assert s[..next] == s[..n] + s[n..next];
    KeptConcat(s[..n], s[n..next]);
    assert s[n..next] == s[n..][..next - n];
    KeptPiece(s[n..], next - n);
  }

  /** Of a line and its break, `Kept` keeps what `readline` does. */
  lemma KeptPiece(t: seq<byte>, m: nat)
    requires m == if LineEnd(t) < |t| then LineEnd(t) + 1 else |t|
    ensures Kept(t[..m]) == LineOf(t)
  {
    hide Kept;
    var k := LineEnd(t);
    if k < |t| {
      KeptThrough(t, k);
    } else {
      assert t[..m] == t[..k] == t;
      KeptPlain(t);
      assert LineOf(t) == t + [] == t;
    }
  }

  lemma KeptPlain(t: seq<byte>)
    requires forall i | 0 <= i < |t| :: !IsBreak(t[i])
    ensures Kept(t) == t
  {
    KeptIff(t);
  }

  lemma KeptThrough(t: seq<byte>, k: nat)
    requires k < |t| && IsBreak(t[k]) && forall i | 0 <= i < k :: !IsBreak(t[i])
    ensures Kept(t[..k + 1]) == t[..k] + if t[k] == LF then [LF] else []
  {
    hide Kept;
    assert t[..k + 1] == t[..k] + [t[k]];
    KeptPlain(t[..k]);
    KeptConcat(t[..k], [t[k]]);
    KeptBreak(t[k]);
  }

  lemma KeptBreak(c: byte)
    requires IsBreak(c)
    ensures Kept([c]) == if c == LF then [LF] else []
  {
    assert [c][1..] == [];
  }

  lemma StopsIff(s: seq<byte>, n: nat, next: nat)
    requires n < next <= |s| && LineStart(s, n)
    requires var k := LineEnd(s[n..]); next == if n + k < |s| then n + k + 1 else |s|
    ensures forall m: nat | n < m < next :: !Stops(s, m)
    ensures Stops(s, next) <==> IsLast(LineOf(s[n..]))
  {
    var t := s[n..];
    var k := LineEnd(t);
    assert forall i | n <= i < n + k :: s[i] == t[i - n];
    assert n + k < |s| ==> s[n + k] == t[k];
    var l := LineOf(t);
    if l == CRLF {
      assert k == 1 by { assert l[0] == CR && l[1] == LF; }
      assert t[0] == l[0];
    }
  }

  class HttpRequest {
    var messageBody: seq<byte>
  }

  /** Reads one more line and keeps it in the message body. */
  method ReadInto(sock: ByteStream, request: HttpRequest, ghost s: seq<byte>, ghost n: nat, ghost body: seq<byte>)
    returns (req: seq<byte>, ghost next: nat)
    requires n <= |s| && (LineStart(s, n) || n == |s|) && forall m: nat | m <= n :: !Stops(s, m)
    requires sock.rest == s[n..] && request.messageBody == body + Kept(s[..n])
    modifies sock, request
    ensures req == LineOf(s[n..]) && n <= next && Reading(s, next, req) && (next == n ==> req == [])
    ensures sock.rest == s[next..] && request.messageBody == body + Kept(s[..next])
  {
    next := LineStep(s, n);
    req := ReadLine(sock);
    request.messageBody := request.messageBody + req;
  }

  /** Reads the head of a request.  Fails if the first line is empty. */
  method ParseRequest(sock: ByteStream, request: HttpRequest)
    returns (failed: bool, tokens: seq<seq<byte>>, ghost n: nat)
    modifies sock, request
    ensures IsHead(old(sock.rest), n) && sock.rest == old(sock.rest)[n..]
    ensures request.messageBody == old(request.messageBody) + Kept(old(sock.rest)[..n])
    ensures failed <==> old(sock.rest) == [] || old(sock.rest)[0] == EOF_CHAR
    ensures tokens == if failed then [] else Tokens(LineOf(old(sock.rest)), SPACE)
  {
    ghost var s, body := sock.rest, request.messageBody;
    assert s[0..] == s && s[..0] == [];
    var req;
    req, n := ReadInto(sock, request, s, 0, body);
    if |req| == 0 {
      return true, [], n;
    }
    tokens := Tokenize(req, SPACE, []);
    while req != CRLF && req != []
      invariant Reading(s, n, req) && sock.rest == s[n..]
      invariant request.messageBody == body + Kept(s[..n])
      decreases |s| - n, |req|
    {
      req, n := ReadInto(sock, request, s, n, body);
    }
    failed := false;
  }

  /** Without the byte 255, the message body is the shortest prefix that ends in an empty line,
      or the whole stream. */
  lemma CleanHead(s: seq<byte>, n: nat)
    requires IsHead(s, n) && EOF_CHAR !in s[..n]
    ensures Kept(s[..n]) == s[..n]
    ensures n < |s| ==> EndsInEmptyLine(s[..n])
    ensures forall m: nat | m < n :: !EndsInEmptyLine(s[..m])
  {
    KeptIff(s[..n]);
    forall m: nat | m <= n
      ensures Stops(s, m) <==> EndsInEmptyLine(s[..m])
    {
      assert forall i | 0 <= i < m :: s[..n][i] == s[i];
      StopsPlain(s, m);
    }
  }

  lemma StopsPlain(s: seq<byte>, m: nat)
    requires m <= |s| && forall i | 0 <= i < m :: s[i] != EOF_CHAR
    ensures Stops(s, m) <==> EndsInEmptyLine(s[..m])
  {
    if m >= 2 {
      assert s[..m][m - 2..] == [s[m - 2], s[m - 1]];
    }
  }

  predicate EndsInEmptyLine(t: seq<byte>) {
    |t| >= 2 && t[|t| - 2..] == CRLF && (|t| == 2 || t[|t| - 3] == LF)
  }

  /** A stream has one head, whatever follows it: the next request is left for the next call. */
  lemma HeadStays(s: seq<byte>, n: nat, more: seq<byte>)
    requires IsHead(s, n) && Stops(s, n)
    ensures forall k: nat :: IsHead(s + more, k) <==> k == n
  {
    forall m: nat | m <= n
      ensures Stops(s + more, m) == Stops(s, m)
    {
    }
  }

  // ----- the request line -----

  /** `strstr(t.c_str(), "\r\n")` finds something: CRLF stands before the first NUL. */
  predicate ShowsCrlf(t: seq<byte>) {
    exists i :: 0 <= i < |t| - 1 && t[i] == CR && t[i + 1] == LF && NUL !in t[..i]
  }

  function Stripped(t: seq<byte>): seq<byte> {
    if ShowsCrlf(t) then t[..|t| - 2] else t
  }

  function StripAll(tokens: seq<seq<byte>>): seq<seq<byte>> {
    seq(|tokens|, i requires 0 <= i < |tokens| => Stripped(tokens[i]))
  }

  method StripTokens(given: seq<seq<byte>>) returns (tokens: seq<seq<byte>>)
    ensures tokens == StripAll(given)
  {
    tokens := given;
    for i := 0 to |tokens|
      invariant |tokens| == |given|
      invariant forall j | 0 <= j < |given| :: tokens[j] == if j < i then Stripped(given[j]) else given[j]
    {
      if ShowsCrlf(tokens[i]) {
        tokens := tokens[i := tokens[i][..|tokens[i]| - 2]];
      }
    }
  }

  function RequestTokens(s: seq<byte>): seq<seq<byte>> {
    StripAll(Tokens(LineOf(s), SPACE))
  }

  /** The start of `handle`: reads a request, and takes the line end off its tokens. */
  method ReceiveRequest(sock: ByteStream, request: HttpRequest)
    returns (failed: bool, tokens: seq<seq<byte>>, ghost n: nat)
    modifies sock, request
    ensures IsHead(old(sock.rest), n) && sock.rest == old(sock.rest)[n..]
    ensures request.messageBody == old(request.messageBody) + Kept(old(sock.rest)[..n])
    ensures failed <==> old(sock.rest) == [] || old(sock.rest)[0] == EOF_CHAR
    ensures tokens == if failed then [] else RequestTokens(old(sock.rest))
  {
    failed, tokens, n := ParseRequest(sock, request);
    if !failed {
      tokens := StripTokens(tokens);
    }
  }

  /** A part of a request line. */
  ghost predicate IsPart(t: seq<byte>) {
    t != [] && SPACE !in t && forall i | 0 <= i < |t| :: !IsBreak(t[i])
  }

  ghost predicate IsGap(g: seq<byte>) { g != [] && AllAre(g, SPACE) }

  lemma LineAsWritten(text: seq<byte>, rest: seq<byte>)
    requires forall i | 0 <= i < |text| :: !IsBreak(text[i])
    ensures LineOf(text + [LF] + rest) == text + [LF] && AfterLine(text + [LF] + rest) == rest
  {
    var s := text + [LF] + rest;
    assert s[|text|] == LF && forall i | 0 <= i < |text| :: s[i] == text[i];
    assert LineEnd(s) == |text|;
    assert s[..|text|] == text && s[|text| + 1..] == rest;
  }

  lemma StrippedPart(t: seq<byte>)
    requires forall i | 0 <= i < |t| :: !IsBreak(t[i])
    ensures Stripped(t) == t
    ensures Stripped(t + CRLF) == t <==> NUL !in t
  {
    var u := t + CRLF;
    assert u[|t|] == CR && u[|t| + 1] == LF && u[..|t|] == t;
    assert forall j | 0 <= j < |t| :: u[j] == t[j] != LF;
  }

  /** The parts of a request line come back, for a version without NUL and for no other. */
  lemma RequestLineRoundTrip(verb: seq<byte>, uri: seq<byte>, version: seq<byte>,
                             gap1: seq<byte>, gap2: seq<byte>, rest: seq<byte>)
    requires IsPart(verb) && IsPart(uri) && IsPart(version) && IsGap(gap1) && IsGap(gap2)
    ensures var s := verb + gap1 + uri + gap2 + version + CRLF + rest;
            AfterLine(s) == rest && (RequestTokens(s) == [verb, uri, version] <==> NUL !in version)
  {
    var text := verb + gap1 + uri + gap2 + version + [CR];
    var s := verb + gap1 + uri + gap2 + version + CRLF + rest;
    assert s == text + [LF] + rest;
    LineAsWritten(text, rest);
    assert text + [LF] == verb + (gap1 + uri + (gap2 + (version + CRLF)));
    TokensOfLine(verb, uri, version, gap1, gap2);
    StrippedTokens(verb, uri, version);
  }

  lemma StrippedTokens(verb: seq<byte>, uri: seq<byte>, version: seq<byte>)
    requires IsPart(verb) && IsPart(uri) && IsPart(version)
    ensures StripAll([verb, uri, version + CRLF]) == [verb, uri, version] <==> NUL !in version
  {
    StrippedPart(verb);
    StrippedPart(uri);
    StrippedPart(version);
    assert StripAll([verb, uri, version + CRLF]) == [verb, uri, Stripped(version + CRLF)];
  }

  lemma TokensOfLine(verb: seq<byte>, uri: seq<byte>, version: seq<byte>, gap1: seq<byte>, gap2: seq<byte>)
    requires IsPart(verb) && IsPart(uri) && IsPart(version) && IsGap(gap1) && IsGap(gap2)
    ensures Tokens(verb + (gap1 + uri + (gap2 + (version + CRLF))), SPACE) == [verb, uri, version + CRLF]
  {
    var last := version + CRLF;
    var g1, t1 := [gap2] + [[]], [last] + [];
    var g2, t2 := [gap1] + g1, [uri] + t1;
    var g3, t3 := [[]] + g2, [verb] + t2;
    SpreadOne(gap2, last, [[]], []);
    assert gap2 + last + [] == gap2 + last;
    SpreadOne(gap1, uri, g1, t1);
    SpreadOne([], verb, g2, t2);
    assert [] + verb == verb;
    assert g3 == [[], gap1, gap2, []] && t3 == [verb, uri, last];
    TokensOfSpread(g3, t3, SPACE);
  }

  lemma SpreadOne(gap: seq<byte>, token: seq<byte>, gaps: seq<seq<byte>>, tokens: seq<seq<byte>>)
    requires |gaps| == |tokens| + 1
    ensures Spread([gap] + gaps, [token] + tokens) == gap + token + Spread(gaps, tokens)
  {
    assert ([gap] + gaps)[1..] == gaps && ([token] + tokens)[1..] == tokens;
  }

  // ----- any line of tokens -----

  /** The tokens of a line with its end: it belongs to the last token, or is one of its own. */
  function WithEnd(tokens: seq<seq<byte>>, gap: seq<byte>, end: seq<byte>): seq<seq<byte>> {
    if tokens != [] && gap == [] then tokens[..|tokens| - 1] + [tokens[|tokens| - 1] + end] else tokens + [end]
  }

  function GapsWithEnd(gaps: seq<seq<byte>>, tokens: seq<seq<byte>>): seq<seq<byte>>
    requires |gaps| == |tokens| + 1
  {
    if tokens != [] && gaps[|tokens|] == [] then gaps else gaps + [[]]
  }

  lemma {:induction false} SpreadWithEnd(gaps: seq<seq<byte>>, tokens: seq<seq<byte>>, end: seq<byte>)
    requires |gaps| == |tokens| + 1
    ensures |GapsWithEnd(gaps, tokens)| == |WithEnd(tokens, gaps[|tokens|], end)| + 1
    ensures Spread(GapsWithEnd(gaps, tokens), WithEnd(tokens, gaps[|tokens|], end)) == Spread(gaps, tokens) + end
    decreases |tokens|
  {
    var gaps', tokens' := GapsWithEnd(gaps, tokens), WithEnd(tokens, gaps[|tokens|], end);
    if tokens == [] {
      assert gaps' == [gaps[0], []] && tokens' == [end];
      assert gaps'[1..] == [[]] && tokens'[1..] == [];
    } else if |tokens| == 1 && gaps[1] == [] {
      assert tokens' == [tokens[0] + end];
      assert Spread(gaps, tokens) == gaps[0] + tokens[0] + gaps[1];
      assert Spread(gaps', tokens') == gaps[0] + (tokens[0] + end) + gaps[1];
    } else {
      SpreadWithEnd(gaps[1..], tokens[1..], end);
      assert gaps'[0] == gaps[0] && tokens'[0] == tokens[0];
      assert gaps'[1..] == GapsWithEnd(gaps[1..], tokens[1..]);
      assert tokens'[1..] == WithEnd(tokens[1..], gaps[|tokens|], end);
      Regroup(gaps[0] + tokens[0], Spread(gaps[1..], tokens[1..]), end);
    }
  }

  lemma Regroup(a: seq<byte>, b: seq<byte>, c: seq<byte>)
    ensures a + (b + c) == (a + b) + c
  {
  }

  lemma EndSeparates(gaps: seq<seq<byte>>, tokens: seq<seq<byte>>, delim: byte, end: seq<byte>)
    requires Separates(gaps, tokens, delim) && end != [] && delim !in end
    ensures Separates(GapsWithEnd(gaps, tokens), WithEnd(tokens, gaps[|tokens|], end), delim)
  {
    var gaps', tokens' := GapsWithEnd(gaps, tokens), WithEnd(tokens, gaps[|tokens|], end);
    forall i | 0 <= i < |gaps'|
      ensures AllAre(gaps'[i], delim)
    {
      if i < |gaps| { assert gaps'[i] == gaps[i]; }
    }
  }

  /** How a token of the request line comes out: as it was written if it stands before the line
      end, and if it carries the line end, without a CRLF that no NUL hides; a lone LF stays. */
  function Received(t: seq<byte>, end: seq<byte>): seq<byte> {
    if end == CRLF && NUL !in t then t else t + end
  }

  /** A line of any tokens, in any spacing, with either line end.  After a trailing space the line
      end is a token of its own. */
  lemma AnyRequestLine(gaps: seq<seq<byte>>, tokens: seq<seq<byte>>, end: seq<byte>, rest: seq<byte>)
    requires Separates(gaps, tokens, SPACE) && (end == CRLF || end == [LF])
    requires forall t <- tokens :: CR !in t && LF !in t && EOF_CHAR !in t
    ensures var s := Spread(gaps, tokens) + end + rest;
      && LineOf(s) == Spread(gaps, tokens) + end && AfterLine(s) == rest
      && RequestTokens(s) ==
           if tokens != [] && gaps[|tokens|] == []
           then tokens[..|tokens| - 1] + [Received(tokens[|tokens| - 1], end)]
           else tokens + [Received([], end)]
  {
    hide Spread, Stripped, Tokens, Separates, LineOf, AfterLine;
    SeparatesGaps(gaps, tokens, SPACE);
    SpreadPlain(gaps, tokens);
    LineWithEnd(Spread(gaps, tokens), end, rest);
    TokensWithEnd(gaps, tokens, end);
    StripWithEnd(tokens, gaps[|tokens|], end);
  }

  lemma SeparatesGaps(gaps: seq<seq<byte>>, tokens: seq<seq<byte>>, delim: byte)
    requires Separates(gaps, tokens, delim)
    ensures |gaps| == |tokens| + 1 && forall i | 0 <= i < |gaps| :: AllAre(gaps[i], delim)
  {
  }

  lemma LineWithEnd(text: seq<byte>, end: seq<byte>, rest: seq<byte>)
    requires LF !in text && EOF_CHAR !in text && (end == CRLF || end == [LF])
    ensures LineOf(text + end + rest) == text + end && AfterLine(text + end + rest) == rest
  {
    hide LineOf, AfterLine;
    var most := text + end[..|end| - 1];
    assert text + end == most + [LF];
    LineAsWritten(most, rest);
  }

  lemma TokensWithEnd(gaps: seq<seq<byte>>, tokens: seq<seq<byte>>, end: seq<byte>)
    requires Separates(gaps, tokens, SPACE) && (end == CRLF || end == [LF])
    ensures Tokens(Spread(gaps, tokens) + end, SPACE) == WithEnd(tokens, gaps[|tokens|], end)
  {
    hide Spread, Tokens;
    SpreadWithEnd(gaps, tokens, end);
    EndSeparates(gaps, tokens, SPACE, end);
    TokensOfSpread(GapsWithEnd(gaps, tokens), WithEnd(tokens, gaps[|tokens|], end), SPACE);
  }

  lemma StripWithEnd(tokens: seq<seq<byte>>, gap: seq<byte>, end: seq<byte>)
    requires (forall t <- tokens :: CR !in t && LF !in t && EOF_CHAR !in t) && (end == CRLF || end == [LF])
    ensures StripAll(WithEnd(tokens, gap, end)) ==
      if tokens != [] && gap == [] then tokens[..|tokens| - 1] + [Received(tokens[|tokens| - 1], end)]
      else tokens + [Received([], end)]
  {
    hide Stripped, Received;
    forall t | t in tokens || t == []
      ensures Stripped(t) == t && Stripped(t + end) == Received(t, end)
    {
      StrippedEnd(t, end);
    }
    assert [] + end == end;
  }

  lemma StrippedEnd(t: seq<byte>, end: seq<byte>)
    requires CR !in t && LF !in t && EOF_CHAR !in t && (end == CRLF || end == [LF])
    ensures Stripped(t) == t && Stripped(t + end) == Received(t, end)
  {
    StrippedPart(t);
    var u := t + end;
    if end == CRLF && NUL !in t {
    } else if end == CRLF {
      assert Stripped(u) == u by { NulHides(t); }
    } else {
      assert forall i | 0 <= i < |t| :: u[i] == t[i] != CR;
    }
  }

  lemma NulHides(t: seq<byte>)
    requires LF !in t && NUL in t
    ensures Stripped(t + CRLF) == t + CRLF
  {
    var u := t + CRLF;
    forall i | 0 <= i < |u| - 1 && u[i] == CR && u[i + 1] == LF
      ensures NUL in u[..i]
    {
      assert i == |t| && u[..i] == t;
    }
  }

  lemma {:induction false} SpreadPlain(gaps: seq<seq<byte>>, tokens: seq<seq<byte>>)
    requires |gaps| == |tokens| + 1 && forall i | 0 <= i < |gaps| :: AllAre(gaps[i], SPACE)
    requires forall t <- tokens :: LF !in t && EOF_CHAR !in t
    ensures LF !in Spread(gaps, tokens) && EOF_CHAR !in Spread(gaps, tokens)
    decreases |tokens|
  {
    assert AllAre(gaps[0], SPACE);
    if tokens != [] {
      assert tokens[0] in tokens;
      SpreadPlain(gaps[1..], tokens[1..]);
    }
  }
}
