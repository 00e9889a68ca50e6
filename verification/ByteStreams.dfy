/** Reading bytes one at a time, from a C stream or a socket. */
module ByteStreams {
  import opened CStrings

  /** The C value EOF stored in a char: the byte 255 looks the same. */
  const EOF_CHAR: byte := 255

  /** What is still to be read before the end of a file or, for a socket, before the peer closes
      the connection, and whether a read has met that end. */
  class ByteStream {
    var rest: seq<byte>
    var eof: bool

    constructor (body: seq<byte>)
      ensures rest == body && !eof
    {
      rest, eof := body, false;
    }

    method GetC() returns (c: byte)
      modifies this
      ensures old(rest) == [] ==> c == 255 && rest == [] && eof
      ensures old(rest) != [] ==> c == old(rest)[0] && rest == old(rest)[1..] && eof == old(eof)
    {
      if rest == [] {
        eof := true;
        return EOF_CHAR;
      }
      c := rest[0];
      rest := rest[1..];
    }
  }
}
