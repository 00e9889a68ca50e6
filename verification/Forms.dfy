/** Form decoding in query.c (GET, in memory) and post-query.c (POST, from a stream). */
module Forms {
  import opened ByteStreams
  import opened CStrings

  const MAX_ENTRIES := 10000
  const FIELD_SIZE := 128

  datatype Entry = Entry(name: seq<byte>, val: seq<byte>)

  // ----- what decoding means -----

  /** A field may be decoded if its escapes are complete. */
  predicate FieldOk(w: seq<byte>) { Decodable(Spaced(w)) }

  function DecodeField(w: seq<byte>): Entry
    requires FieldOk(w)
  {
    var u := CutAtNul(Unescape(Spaced(w)));
    Entry(Word(u, EQUALS), Rest(u, EQUALS))
  }

  /** The fields of a query: what stands between the ampersands, but nothing after the last. */
  function Fields(q: seq<byte>): seq<seq<byte>>
    decreases |q|
  {
    if q == [] then []
    else
      WordAndRest(q, AMPERSAND);
      [Word(q, AMPERSAND)] + Fields(Rest(q, AMPERSAND))
  }

  lemma FieldsStep(fields: seq<seq<byte>>, n: nat, left: seq<byte>)
    requires n <= |fields| && fields[n..] == Fields(left) && left != []
    ensures |Rest(left, AMPERSAND)| < |left|
    ensures n < |fields| && fields[n] == Word(left, AMPERSAND) && fields[n + 1..] == Fields(Rest(left, AMPERSAND))
  {
    WordAndRest(left, AMPERSAND);
    assert fields[n] == fields[n..][0] && fields[n + 1..] == fields[n..][1..];
  }

  predicate QueryOk(q: seq<byte>) { forall w <- Fields(q) :: FieldOk(w) }

  function Decode(q: seq<byte>): (es: seq<Entry>)
    requires QueryOk(q)
    ensures |es| == |Fields(q)| && forall i | 0 <= i < |es| :: es[i] == DecodeField(Fields(q)[i])
  {
    seq(|Fields(q)|, i requires 0 <= i < |Fields(q)| => DecodeField(Fields(q)[i]))
  }

  /** The array pair shows an entry. */
  ghost predicate Shows(e: (array<byte>, array<byte>), v: Entry)
    reads e.0, e.1
  {
    e.0 != e.1 && Holds(e.0, v.name) && Holds(e.1, v.val)
  }

  /** The pairs, all of them arrays in `buffers`, show the first of the entries. */
  ghost predicate AllShow(es: seq<(array<byte>, array<byte>)>, vs: seq<Entry>, buffers: set<array<byte>>)
    reads buffers
  {
    |es| <= |vs| && forall i | 0 <= i < |es| :: es[i].0 in buffers && es[i].1 in buffers && Shows(es[i], vs[i])
  }

  lemma AllShowMore(es: seq<(array<byte>, array<byte>)>, e: (array<byte>, array<byte>), vs: seq<Entry>,
                    buffers: set<array<byte>>)
    requires AllShow(es, vs, buffers) && |es| < |vs| && Shows(e, vs[|es|])
    ensures AllShow(es + [e], vs, buffers + {e.0, e.1})
  {
  }

  // ----- GET -----

  /** Decodes one field of the query string into two new buffers. */
  method DecodeNext(cl: array<byte>, ghost q: seq<byte>) returns (name: array<byte>, val: array<byte>)
    requires Holds(cl, q)
    requires FieldOk(Word(q, AMPERSAND)) && |Word(q, AMPERSAND)| < FIELD_SIZE
    modifies cl
    ensures fresh(name) && fresh(val) && Shows((name, val), DecodeField(Word(q, AMPERSAND)))
    ensures Holds(cl, Rest(q, AMPERSAND))
  {
    ghost var w := Word(q, AMPERSAND);
    name, val := new byte[FIELD_SIZE], new byte[FIELD_SIZE];
    GetWord(val, cl, AMPERSAND, q);
    PlusToSpace(val, w);
    UnescapeUrl(val, Spaced(w));
    ghost var u := Unescape(Spaced(w));
    RestIsSuffix(u, NUL);
    RestIsSuffix(CutAtNul(u), EQUALS);
    GetWord(name, val, EQUALS, CutAtNul(u));
  }

  /** The decoding loop of query.c. */
  method DecodeQuery(cl: array<byte>, ghost q: seq<byte>) returns (entries: seq<(array<byte>, array<byte>)>)
    requires Holds(cl, q) && QueryOk(q)
    requires |Fields(q)| <= MAX_ENTRIES && forall w <- Fields(q) :: |w| < FIELD_SIZE
    modifies cl
    ensures |entries| == |Decode(q)|
    ensures forall i | 0 <= i < |entries| :: Shows(entries[i], Decode(q)[i])
  {
    hide DecodeField, FieldOk, Word, Rest, Shows;
    entries := [];
    ghost var left, buffers: set<array<byte>> := q, {};
    ghost var fields, values := Fields(q), Decode(q);
    while cl[0] != NUL
      invariant Holds(cl, left)
      invariant |entries| <= |fields| && fields[|entries|..] == Fields(left)
      invariant AllShow(entries, values, buffers) && cl !in buffers
      decreases |left|
    {
      ghost var n := |entries|;
      FieldsStep(fields, n, left);
      assert fields[n] in fields && values[n] == DecodeField(Word(left, AMPERSAND));
      var name, val := DecodeNext(cl, left);
      AllShowMore(entries, (name, val), values, buffers);
      entries, buffers := entries + [(name, val)], buffers + {name, val};
      left := Rest(left, AMPERSAND);
    }
    assert fields[|entries|..] == [];
  }

  // ----- POST -----

  /** What a reader that counts down from `cl` sees of the stream: its first `cl` bytes, or,
      when it does not hold that many, all of it and the byte stored at its end. */
  function Seen(rest: seq<byte>, cl: int): seq<byte> {
    if 0 <= cl <= |rest| then rest[..cl] else rest + [EOF_CHAR]
  }

  lemma SeenStep(rest: seq<byte>, cl: int)
    requires cl != 0
    ensures var c := if rest == [] then EOF_CHAR else rest[0];
      var more := if rest == [] then [] else rest[1..];
      && Seen(rest, cl) != [] && Seen(rest, cl)[0] == c
      && Seen(rest, cl)[1..] == if rest == [] || cl == 1 then [] else Seen(more, cl - 1)
  {
  }

  /** The first byte decides how a text splits. */
  lemma SplitFirst(w: seq<byte>, b: seq<byte>, stop: byte)
    requires b != [] && stop !in w
    ensures b[0] == stop ==> Word(w + b, stop) == w && Rest(w + b, stop) == b[1..]
    ensures b[0] != stop && b[1..] == [] ==> Word(w + b, stop) == w + b && Rest(w + b, stop) == []
  {
    if b[0] == stop {
      assert w + b == w + [stop] + b[1..];
      WordOf(w, stop, b[1..]);
    } else if b[1..] == [] {
      assert b == [b[0]];
      WordOf(w + b, stop, []);
    }
  }

  /** Reads a field into new memory, counting `cl` down. */
  method FMakeWord(f: ByteStream, stop: byte, cl: int) returns (word: array<byte>, left: int)
    requires cl != 0 && !f.eof
    modifies f
    ensures fresh(word) && Holds(word, CutAtNul(Word(Seen(old(f.rest), cl), stop)))
    ensures Rest(Seen(old(f.rest), cl), stop) == if left != 0 && !f.eof then Seen(f.rest, left) else []
    ensures left != 0 && !f.eof ==> |f.rest| < |old(f.rest)|
  {
    hide Seen, Word, Rest;
    ghost var all := Seen(f.rest, cl);
    var w: seq<byte> := [];
    left := cl;
    assert [] + all == all;
    while true
      invariant left != 0 && !f.eof && stop !in w && |f.rest| <= |old(f.rest)|
      invariant all == w + Seen(f.rest, left)
      decreases |f.rest|
    {
      SeenStep(f.rest, left);
      ghost var b := Seen(f.rest, left);
      var c := f.GetC();
      left := left - 1;
      SplitFirst(w, b, stop);
      if c == stop || f.eof || left == 0 {
        if c != stop {
          assert b == [c];
          w := w + [c];
        }
        break;
      }
      assert b == [c] + b[1..] && w + b == (w + [c]) + b[1..];
      w := w + [c];
    }
    word := ToArray(w);
  }

  /** New memory that holds the bytes and a NUL. */
  method ToArray(w: seq<byte>) returns (word: array<byte>)
    ensures fresh(word) && Holds(word, CutAtNul(w))
  {
    word := new byte[|w| + 1](i requires 0 <= i => if i < |w| then w[i] else NUL);
    CutHolds(word, w);
  }

  /** The fields of a posted body; C cuts each at its first NUL. */
  function PostFields(body: seq<byte>): (fs: seq<seq<byte>>)
    ensures |fs| == |Fields(body)| && forall i | 0 <= i < |fs| :: fs[i] == CutAtNul(Fields(body)[i])
  {
    seq(|Fields(body)|, i requires 0 <= i < |Fields(body)| => CutAtNul(Fields(body)[i]))
  }

  predicate PostOk(body: seq<byte>) { forall w <- PostFields(body) :: FieldOk(w) }

  function DecodePosted(body: seq<byte>): (es: seq<Entry>)
    requires PostOk(body)
    ensures |es| == |PostFields(body)| && forall i | 0 <= i < |es| :: es[i] == DecodeField(PostFields(body)[i])
  {
    seq(|PostFields(body)|, i requires 0 <= i < |PostFields(body)| => DecodeField(PostFields(body)[i]))
  }

  method DecodeNextPosted(f: ByteStream, cl: int) returns (name: array<byte>, val: array<byte>, left: int)
    requires cl != 0 && !f.eof && FieldOk(CutAtNul(Word(Seen(f.rest, cl), AMPERSAND)))
    modifies f
    ensures fresh(name) && fresh(val)
    ensures Shows((name, val), DecodeField(CutAtNul(Word(Seen(old(f.rest), cl), AMPERSAND))))
    ensures Rest(Seen(old(f.rest), cl), AMPERSAND) == if left != 0 && !f.eof then Seen(f.rest, left) else []
    ensures left != 0 && !f.eof ==> |f.rest| < |old(f.rest)|
  {
    ghost var w := CutAtNul(Word(Seen(f.rest, cl), AMPERSAND));
    val, left := FMakeWord(f, AMPERSAND, cl);
    PlusToSpace(val, w);
    UnescapeUrl(val, Spaced(w));
    name := MakeWord(val, EQUALS, CutAtNul(Unescape(Spaced(w))));
  }

  /** The decoding loop of post-query.c, for any CONTENT_LENGTH. */
  method DecodePost(f: ByteStream, contentLength: int) returns (entries: seq<(array<byte>, array<byte>)>)
    requires !f.eof && PostOk(Seen(f.rest, contentLength)) && |Fields(Seen(f.rest, contentLength))| <= MAX_ENTRIES
    modifies f
    ensures |entries| == |DecodePosted(Seen(old(f.rest), contentLength))|
    ensures forall i | 0 <= i < |entries| :: Shows(entries[i], DecodePosted(Seen(old(f.rest), contentLength))[i])
  {
    entries := [];
    var cl := contentLength;
    hide DecodeField, FieldOk, Word, Rest, CutAtNul, Shows;
    ghost var body, buffers: set<array<byte>> := Seen(f.rest, cl), {};
    ghost var fields, values, left := Fields(body), DecodePosted(body), body;
    while cl != 0 && !f.eof
      invariant left == if cl != 0 && !f.eof then Seen(f.rest, cl) else []
      invariant |entries| <= |fields| && fields[|entries|..] == Fields(left)
      invariant AllShow(entries, values, buffers)
      decreases |left|
    {
      ghost var n := |entries|;
      FieldsStep(fields, n, left);
      assert PostFields(body)[n] == CutAtNul(fields[n]);
      assert PostFields(body)[n] in PostFields(body);
      var name, val;
      name, val, cl := DecodeNextPosted(f, cl);
      AllShowMore(entries, (name, val), values, buffers);
      entries, buffers := entries + [(name, val)], buffers + {name, val};
      left := Rest(left, AMPERSAND);
    }
    assert fields[|entries|..] == [];
  }

  // ----- laws -----

  lemma {:induction false} FieldsKeepOut(q: seq<byte>, b: byte)
    requires b !in q
    ensures forall w <- Fields(q) :: b !in w
    decreases |q|
  {
    if q == [] {
    } else {
      WordAndRest(q, AMPERSAND);
      assert forall c <- Word(q, AMPERSAND) :: c in q;
      assert forall c <- Rest(q, AMPERSAND) :: c in q;
      FieldsKeepOut(Rest(q, AMPERSAND), b);
    }
  }

  /** Streaming and in-memory decoding give the same entries on every body without NUL whose
      length is CONTENT_LENGTH. */
  lemma PostIsGet(body: seq<byte>)
    requires NUL !in body && QueryOk(body)
    ensures Seen(body, |body|) == body
    ensures PostOk(body) && DecodePosted(body) == Decode(body)
  {
    FieldsKeepOut(body, NUL);
    forall i | 0 <= i < |Fields(body)|
      ensures PostFields(body)[i] == Fields(body)[i]
    {
      assert Fields(body)[i] in Fields(body);
      CutNothing(Fields(body)[i]);
    }
    assert PostFields(body) == Fields(body);
  }

  /** With another CONTENT_LENGTH the same holds of its first bytes, and where there are not as
      many, of the body with a byte 255 after it: the end of the stream is stored as if read. */
  lemma PostIsGetOf(body: seq<byte>, contentLength: int)
    requires NUL !in body
    requires var text := if 0 <= contentLength <= |body| then body[..contentLength] else body + [255]; QueryOk(text)
    ensures var text := if 0 <= contentLength <= |body| then body[..contentLength] else body + [255];
      PostOk(Seen(body, contentLength)) && DecodePosted(Seen(body, contentLength)) == Decode(text)
  {
    var text := if 0 <= contentLength <= |body| then body[..contentLength] else body + [255];
    PostIsGet(text);
  }

  // ----- the form round trip -----

  /** How a byte may be written: as itself, as '+', or as an escape with digits of any case. */
  datatype Style = Literal | Plus | Escape(upperHigh: bool, upperLow: bool)

  datatype Coded = Coded(b: byte, style: Style)

  /** What may be written how: NUL, '%', '+', and '&' must be escaped. */
  predicate Legal(c: Coded) {
    match c.style
    case Literal => c.b != NUL && c.b != PERCENT && c.b != PLUS && c.b != AMPERSAND
    case Plus => c.b == SPACE
    case Escape(_, _) => true
  }

  function Written(c: Coded): seq<byte> {
    match c.style
    case Literal => [c.b]
    case Plus => [PLUS]
    case Escape(h, l) => [PERCENT, HexDigit(c.b / 16, h), HexDigit(c.b % 16, l)]
  }

  function Text(cs: seq<Coded>): seq<byte> {
    if cs == [] then [] else Written(cs[0]) + Text(cs[1..])
  }

  function Value(cs: seq<Coded>): seq<byte> {
    if cs == [] then [] else [cs[0].b] + Value(cs[1..])
  }

  lemma WrittenBytes(c: Coded)
    requires Legal(c)
    ensures NUL !in Written(c) && AMPERSAND !in Written(c)
  {
  }

  lemma {:induction false} TextBytes(cs: seq<Coded>)
    requires forall c <- cs :: Legal(c)
    ensures NUL !in Text(cs) && AMPERSAND !in Text(cs)
  {
    if cs == [] {
    } else {
      WrittenBytes(cs[0]);
      TextBytes(cs[1..]);
    }
  }

  /** One written byte, once '+' is a space, is that byte or an escape of it. */
  lemma SpacedWritten(c: Coded)
    requires Legal(c)
    ensures var w := Spaced(Written(c));
      if c.style.Escape? then |w| == 3 && w[0] == PERCENT && X2C(w[1], w[2]) == c.b
      else w == [c.b] && c.b != PERCENT
  {
    if c.style.Escape? {
      X2COfHex(c.b, c.style.upperHigh, c.style.upperLow);
      assert Spaced(Written(c)) == Written(c);
    }
  }

  /** Decoding text after any prefix yields the bytes that were written. */
  lemma {:induction false} TextDecodes(p: seq<byte>, cs: seq<Coded>)
    requires forall c <- cs :: Legal(c)
    ensures var s := Spaced(p + Text(cs));
      DecodableFrom(s, |p|) && UnescapeFrom(s, |p|) == Value(cs)
    decreases |cs|
  {
    hide X2C, Written;
    if cs == [] {
    } else {
      var w := Written(cs[0]);
      TextDecodes(p + w, cs[1..]);
      assert p + w + Text(cs[1..]) == p + Text(cs);
      SpacedWritten(cs[0]);
      SpacedPart(p, w, Text(cs[1..]));
      UnescapeWritten(Spaced(p + Text(cs)), |p|, Spaced(w), cs[0].b);
    }
  }

  lemma SpacedPart(p: seq<byte>, w: seq<byte>, q: seq<byte>)
    ensures Spaced(p + w + q)[|p|..|p| + |w|] == Spaced(w)
  {
    assert forall i | 0 <= i < |w| :: (p + w + q)[|p| + i] == w[i];
  }

  /** Decoding starts with the byte that was written first. */
  lemma UnescapeWritten(s: seq<byte>, y: nat, w: seq<byte>, b: byte)
    requires y + |w| <= |s| && s[y..y + |w|] == w
    requires (w == [b] && b != PERCENT) || (|w| == 3 && w[0] == PERCENT && X2C(w[1], w[2]) == b)
    requires DecodableFrom(s, y + |w|)
    ensures DecodableFrom(s, y) && UnescapeFrom(s, y) == [b] + UnescapeFrom(s, y + |w|)
  {
    assert s[y] == s[y..y + |w|][0];
    if |w| == 3 {
      assert s[y + 1] == s[y..y + |w|][1] && s[y + 2] == s[y..y + |w|][2];
    }
  }

  /** A field with a name and a value, or one without '='. */
  datatype Field = Field(name: seq<Coded>, val: seq<Coded>) | Bare(text: seq<Coded>)

  function FieldCodes(f: Field): seq<Coded> {
    match f
    case Field(name, val) => name + [Coded(EQUALS, Literal)] + val
    case Bare(text) => text
  }

  predicate LegalField(f: Field) { forall c <- FieldCodes(f) :: Legal(c) }

  /** What a name and a value may hold to come back: the programs cut a decoded field at its
      first NUL and then at its first '='. */
  predicate Recoverable(name: seq<byte>, val: seq<byte>) {
    NUL !in name && NUL !in val && EQUALS !in name
  }

  /** What a field says: all of a field without '=' is its name. */
  function Meant(f: Field): Entry {
    match f
    case Field(name, val) => Entry(Value(name), Value(val))
    case Bare(text) => Entry(Value(text), [])
  }

  /** The form-urlencoded text of a list of fields. */
  function FormText(fs: seq<Field>): seq<byte> {
    if fs == [] then []
    else if |fs| == 1 then Text(FieldCodes(fs[0]))
    else Text(FieldCodes(fs[0])) + [AMPERSAND] + FormText(fs[1..])
  }

  /** An empty field at the end of a form cannot be told from none. */
  predicate EndsWritten(fs: seq<Field>) {
    fs != [] ==> fs[|fs| - 1] != Bare([])
  }

  lemma {:induction false} ValueConcat(a: seq<Coded>, b: seq<Coded>)
    ensures Value(a + b) == Value(a) + Value(b)
    decreases |a|
  {
    if a == [] {
      assert a + b == b;
    } else {
      assert (a + b)[1..] == a[1..] + b;
      ValueConcat(a[1..], b);
    }
  }

  /** Cutting a decoded field undoes its assembly for recoverable pairs and for no others. */
  lemma CutIff(name: seq<byte>, val: seq<byte>)
    ensures var u := CutAtNul(name + [EQUALS] + val);
      Word(u, EQUALS) == name && Rest(u, EQUALS) == val <==> Recoverable(name, val)
  {
    var all := name + [EQUALS] + val;
    var u := CutAtNul(all);
    WordAndRest(all, NUL);
    WordAndRest(u, EQUALS);
    assert NUL !in u && EQUALS !in Word(u, EQUALS);
    assert forall c <- Word(u, EQUALS) :: c in u;
    assert forall c <- Rest(u, EQUALS) :: c in u;
    if Recoverable(name, val) {
      CutNothing(all);
      WordOf(name, EQUALS, val);
    }
  }

  /** The same where there is no '=' to cut at. */
  lemma CutBareIff(name: seq<byte>)
    ensures var u := CutAtNul(name);
      Word(u, EQUALS) == name && Rest(u, EQUALS) == [] <==> Recoverable(name, [])
  {
    var u := CutAtNul(name);
    WordAndRest(name, NUL);
    WordAndRest(u, EQUALS);
    assert NUL !in u && EQUALS !in Word(u, EQUALS);
    assert forall c <- Word(u, EQUALS) :: c in u;
    if Recoverable(name, []) {
      CutNothing(name);
      WordOf(name, EQUALS, []);
    }
  }

  /** A written field decodes to what it says exactly if that is recoverable. */
  lemma FieldDecodes(f: Field)
    requires LegalField(f)
    ensures var w := Text(FieldCodes(f));
      && FieldOk(w) && (f != Bare([]) ==> w != []) && NUL !in w && AMPERSAND !in w
      && Comes(f, DecodeField(w))
  {
    var cs := FieldCodes(f);
    TextDecodes([], cs);
    assert [] + Text(cs) == Text(cs);
    TextBytes(cs);
    if cs != [] { assert Written(cs[0]) != []; }
    match f
    case Field(name, val) =>
      ValueConcat(name + [Coded(EQUALS, Literal)], val);
      ValueConcat(name, [Coded(EQUALS, Literal)]);
      assert Value([Coded(EQUALS, Literal)]) == [EQUALS];
      CutIff(Value(name), Value(val));
    case Bare(text) =>
      CutBareIff(Value(text));
  }

  /** The fields of a form are what was written, one after the other. */
  lemma FieldsOfForm(fs: seq<Field>)
    requires fs != [] && LegalField(fs[0])
    ensures Fields(FormText(fs)) ==
      if fs == [Bare([])] then [] else [Text(FieldCodes(fs[0]))] + Fields(FormText(fs[1..]))
  {
    hide DecodeField, FieldOk, Text, Comes;
    var w := Text(FieldCodes(fs[0]));
    FieldDecodes(fs[0]);
    BareIsEmpty();
    WordOf(w, AMPERSAND, FormText(fs[1..]));
    if |fs| == 1 {
      assert fs == [fs[0]];
    }
  }

  lemma DecodeStep(q: seq<byte>, w: seq<byte>, rest: seq<byte>)
    requires Fields(q) == [w] + Fields(rest) && FieldOk(w) && QueryOk(rest)
    ensures QueryOk(q) && Decode(q) == [DecodeField(w)] + Decode(rest)
  {
    hide DecodeField, FieldOk, Fields;
  }

  /** The form round trip: in whatever legal way the bytes are written, the form text of a list of
      fields, with '=' or without, decodes to as many entries, but for an empty field at the end;
      and an entry is the name and value that were written exactly if these are recoverable. */
  lemma {:induction false} FormRoundTrip(fs: seq<Field>)
    requires forall f <- fs :: LegalField(f)
    ensures QueryOk(FormText(fs)) && |Decode(FormText(fs))| == if EndsWritten(fs) then |fs| else |fs| - 1
    ensures forall i | 0 <= i < |Decode(FormText(fs))| :: Comes(fs[i], Decode(FormText(fs))[i])
    ensures NUL !in FormText(fs)
    decreases |fs|
  {
    hide DecodeField, FieldOk, Text, FieldCodes, LegalField, Comes;
    var q := FormText(fs);
    if fs == [] {
    } else {
      FieldDecodes(fs[0]);
      FieldsOfForm(fs);
      FormRoundTrip(fs[1..]);
      if fs != [Bare([])] { DecodeStep(q, Text(FieldCodes(fs[0])), FormText(fs[1..])); }
    }
  }

  lemma BareIsEmpty()
    ensures Text(FieldCodes(Bare([]))) == []
  {
  }

  /** The entry is what the field says, if that can come back, and is not, if it cannot. */
  predicate Comes(f: Field, e: Entry) {
    e == Meant(f) <==> Recoverable(Meant(f).name, Meant(f).val)
  }

  /** The same over the wire, with CONTENT_LENGTH set to the length of the text. */
  lemma PostRoundTrip(fs: seq<Field>)
    requires forall f <- fs :: LegalField(f)
    ensures var q := FormText(fs);
      Seen(q, |q|) == q && PostOk(q) && |DecodePosted(q)| == (if EndsWritten(fs) then |fs| else |fs| - 1)
      && forall i | 0 <= i < |DecodePosted(q)| :: Comes(fs[i], DecodePosted(q)[i])
  {
    FormRoundTrip(fs);
    PostIsGet(FormText(fs));
  }
}
