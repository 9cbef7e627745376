/** NetworkService: the frame codec over one connection's two streams. */
module Network {
  import opened DataStreams
  import opened Streams
  import opened Protocol

  class NetworkService {
    /** The socket whose output and input streams this service wraps. */
    const ch: Channel

    constructor (ch: Channel)
      ensures this.ch == ch
    {
      this.ch := ch;
    }

    /** sendMessage: one writeUTF frame, nothing else; a string whose
        encoding exceeds 65535 bytes fails and writes nothing. */
    method SendMessage(message: JString) returns (r: Result<()>)
      requires ch.Valid()
      modifies ch`sent
      ensures r.Ok? <==> Encodable(message) && !ch.closed
      ensures r.Err? ==> r.fault == (if Encodable(message) then SocketClosed else UtfTooLong)
      ensures ch.sent == if r.Ok? then old(ch.sent) + Frame(Text(message)) else old(ch.sent)
    {
      r := ch.WriteUtf(message);
    }

    /** sendFileMetadata: the name block and only the length prefix of the
        content block; none of the content bytes. */
    method SendFileMetadata(nameBytes: seq<Byte>, contentBytes: seq<Byte>) returns (r: Result<()>)
      requires ch.Valid() && IsArray(nameBytes) && IsArray(contentBytes)
      modifies ch`sent
      ensures r == if ch.closed then Err(SocketClosed) else Ok(())
      ensures ch.sent == if r.Ok? then old(ch.sent) + Block(nameBytes) + U32(|contentBytes|) else old(ch.sent)
    {
      r := ch.WriteInt(|nameBytes|);
      if r.Err? {
        return;
      }
      r := ch.Write(nameBytes);
      if r.Err? {
        return;
      }
      r := ch.WriteInt(|contentBytes|);
    }

    /** sendFileContent: the content bytes themselves; empty content writes
        nothing and cannot fail. */
    method SendFileContent(contentBytes: seq<Byte>) returns (r: Result<()>)
      requires ch.Valid()
      modifies ch`sent
      ensures r == if ch.closed && contentBytes != [] then Err(SocketClosed) else Ok(())
      ensures ch.sent == if r.Ok? then old(ch.sent) + contentBytes else old(ch.sent)
    {
      r := ch.Write(contentBytes);
    }

    /** readDataFromClient: a readInt length, `new byte[length]`, readFully. */
    method ReadDataFromClient() returns (r: Result<seq<Byte>>)
      requires ch.Valid()
      modifies ch`pos
      ensures ch.Valid()
      ensures ch.closed ==> r == Err(SocketClosed) && ch.pos == old(ch.pos)
      ensures !ch.closed ==> Step(r, ch.pos) == ReadBlockAt(ch.incoming, old(ch.pos))
    {
      var length := ch.ReadInt();
      if length.Err? {
        return Err(length.fault);
      }
      if length.value < 0 {
        return Err(NegativeArraySize);
      }
      r := ch.ReadFully(length.value);
    }

    /** readFileNameFromClient: the bytes of one block; the decoding of those
        bytes as UTF-8 into a string is not modelled, so the name is kept as
        its bytes. */
    method ReadFileNameFromClient() returns (r: Result<seq<Byte>>)
      requires ch.Valid()
      modifies ch`pos
      ensures ch.Valid()
      ensures ch.closed ==> r == Err(SocketClosed) && ch.pos == old(ch.pos)
      ensures !ch.closed ==> Step(r, ch.pos) == ReadBlockAt(ch.incoming, old(ch.pos))
    {
      r := ReadDataFromClient();
    }

    /** readFileContentFromClient: exactly what readDataFromClient returns. */
    method ReadFileContentFromClient() returns (r: Result<seq<Byte>>)
      requires ch.Valid()
      modifies ch`pos
      ensures ch.Valid()
      ensures ch.closed ==> r == Err(SocketClosed) && ch.pos == old(ch.pos)
      ensures !ch.closed ==> Step(r, ch.pos) == ReadBlockAt(ch.incoming, old(ch.pos))
    {
      r := ReadDataFromClient();
    }

    /** closeEverything: closes the input stream, the output stream and the socket. */
    method CloseEverything()
      modifies ch`closed
      ensures ch.closed
    {
      ch.Close();
    }
  }

  /** sendFileMetadata followed by sendFileContent writes exactly two
      length-prefixed blocks, the name's and the content's; after the
      sentinel frame, that is one whole file frame. */
  lemma FileFrameInPieces(sent: seq<Byte>, nameBytes: seq<Byte>, contentBytes: seq<Byte>)
    requires IsArray(nameBytes) && IsArray(contentBytes)
    ensures sent + SentinelFrame + Block(nameBytes) + U32(|contentBytes|) + contentBytes
         == sent + FileFrame(nameBytes, contentBytes)
  {
    var a, b, c := Block(nameBytes), U32(|contentBytes|), contentBytes;
    assert b + c == Block(contentBytes);
    assert sent + SentinelFrame + a + b + c == sent + (SentinelFrame + a + (b + c));
  }
}
