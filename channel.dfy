/** One connected socket seen through its DataOutputStream / DataInputStream
    pair. The output is the sequence of bytes written so far; the input is
    everything the peer will ever send, with a read cursor. Closing the socket
    (closeEverything) makes every later read and write fail. */
module Streams {
  import opened DataStreams

  class Channel {
    /** Bytes written to the output stream, oldest first. */
    var sent: seq<Byte>
    /** Every byte the peer sends on this connection. */
    const incoming: seq<Byte>
    /** How many bytes of `incoming` have been read. */
    var pos: nat
    /** Set once the socket and both streams are closed. */
    var closed: bool

    ghost predicate Valid()
      reads this
    {
      pos <= |incoming|
    }

    constructor (incoming: seq<Byte>)
      ensures Valid()
      ensures this.incoming == incoming && sent == [] && pos == 0 && !closed
    {
      this.incoming := incoming;
      sent := [];
      pos := 0;
      closed := false;
    }

    /** writeUTF: the encoding is measured first, and a string whose encoding
        is longer than 65535 bytes is refused before anything is written. */
    method WriteUtf(s: JString) returns (r: Result<()>)
      requires Valid()
      modifies this`sent
      ensures r.Ok? <==> |Utf(s)| <= MaxUtfLength && !closed
      ensures r.Err? ==> r.fault == (if |Utf(s)| > MaxUtfLength then UtfTooLong else SocketClosed)
      ensures sent == if r.Ok? then old(sent) + UtfFrame(s) else old(sent)
    {
      var n := |Utf(s)|;
      if n > MaxUtfLength {
        return Err(UtfTooLong);
      }
      if closed {
        return Err(SocketClosed);
      }
      sent := sent + UtfFrame(s);
      return Ok(());
    }

    /** writeInt. */
    method WriteInt(n: int) returns (r: Result<()>)
      requires Valid() && IsJavaInt(n)
      modifies this`sent
      ensures r == if closed then Err(SocketClosed) else Ok(())
      ensures sent == if r.Ok? then old(sent) + U32(n) else old(sent)
    {
      if closed {
        return Err(SocketClosed);
      }
      sent := sent + U32(n);
      return Ok(());
    }

    /** write(byte[]); an empty array is not handed to the socket, so it
        succeeds even when the socket is closed. */
    method Write(bytes: seq<Byte>) returns (r: Result<()>)
      requires Valid()
      modifies this`sent
      ensures r == if closed && bytes != [] then Err(SocketClosed) else Ok(())
      ensures sent == if r.Ok? then old(sent) + bytes else old(sent)
    {
      if closed && bytes != [] {
        return Err(SocketClosed);
      }
      sent := sent + bytes;
      return Ok(());
    }

    /** readInt. */
    method ReadInt() returns (r: Result<int>)
      requires Valid()
      modifies this`pos
      ensures Valid()
      ensures closed ==> r == Err(SocketClosed) && pos == old(pos)
      ensures !closed ==> Step(r, pos) == ReadIntAt(incoming, old(pos))
    {
      if closed {
        return Err(SocketClosed);
      }
      var step := ReadIntAt(incoming, pos);
      r, pos := step.result, step.next;
    }

    /** readFully into a fresh array of length n; for n == 0 it returns at
        once without touching the socket, closed or not. */
    method ReadFully(n: nat) returns (r: Result<seq<Byte>>)
      requires Valid()
      modifies this`pos
      ensures Valid()
      ensures closed && n > 0 ==> r == Err(SocketClosed) && pos == old(pos)
      ensures !(closed && n > 0) ==> Step(r, pos) == ReadFullyAt(incoming, old(pos), n)
    {
      if closed && n > 0 {
        return Err(SocketClosed);
      }
      var step := ReadFullyAt(incoming, pos, n);
      r, pos := step.result, step.next;
    }

    /** readUTF. */
    method ReadUtf() returns (r: Result<JString>)
      requires Valid()
      modifies this`pos
      ensures Valid()
      ensures closed ==> r == Err(SocketClosed) && pos == old(pos)
      ensures !closed ==> Step(r, pos) == ReadUtfAt(incoming, old(pos))
    {
      if closed {
        return Err(SocketClosed);
      }
      var step := ReadUtfAt(incoming, pos);
      r, pos := step.result, step.next;
    }

    /** Closing the socket and its streams; closing twice is harmless. */
    method Close()
      modifies this`closed
      ensures closed
    {
      closed := true;
    }
  }
}
