/** The server endpoint: writes to and reads from its streams directly, with
    its own inline copy of the file framing, and runs a receive loop in
    which any I/O failure closes the connection. */
module Server {
  import opened DataStreams
  import opened Streams
  import opened Protocol

  /** What sendFileToClient writes: the sentinel frame, then
      writeInt(fileName.length()) — the name's length in UTF-16 code units —
      then the name's bytes, then the content block. */
  function InlineFileFrame(name: JString, nameBytes: seq<Byte>, content: seq<Byte>): (r: seq<Byte>)
    requires |name| < IntLimit && IsArray(nameBytes) && IsArray(content)
    ensures |r| == 7 + 4 + |nameBytes| + 4 + |content|
  {
    SentinelFrame + U32(|name|) + nameBytes + Block(content)
  }

  /** The server's file frame is the shared file frame exactly when the
      name has as many characters as it has bytes, that is, for names the
      platform charset encodes one byte per character. */
  lemma InlineFileFrameAgrees(name: JString, nameBytes: seq<Byte>, content: seq<Byte>)
    requires |name| < IntLimit && IsArray(nameBytes) && IsArray(content)
    ensures InlineFileFrame(name, nameBytes, content) == FileFrame(nameBytes, content)
        <==> |name| == |nameBytes|
  {
    var w, f := InlineFileFrame(name, nameBytes, content), FileFrame(nameBytes, content);
    if |name| == |nameBytes| {
      assert w == SentinelFrame + (U32(|name|) + nameBytes) + Block(content);
    } else if w == f {
      assert w[7..11] == U32(|name|);
      assert f[7..11] == U32(|nameBytes|);
      U32Injective(|name|, |nameBytes|);
      assert false;
    }
  }

  /** For a name of one byte per character the server's transfer is read
      back, by either receive loop, as exactly that file. */
  lemma InlineFileRoundTrip(name: JString, nameBytes: seq<Byte>, content: seq<Byte>)
    requires |name| < IntLimit && IsArray(nameBytes) && IsArray(content)
    requires |name| == |nameBytes|
    ensures var w := InlineFileFrame(name, nameBytes, content);
      Dispatch(w, 0) == Outcome([File(nameBytes, content)], EndOfStream, |w|, false)
  {
    InlineFileFrameAgrees(name, nameBytes, content);
    ClientFileAtServer(nameBytes, content);
  }

  /** The client's file transfer, read by the server's receive loop, is
      the same name bytes and content bytes. */
  lemma ClientFileAtServer(nameBytes: seq<Byte>, content: seq<Byte>)
    requires IsArray(nameBytes) && IsArray(content)
    ensures var w := FileFrame(nameBytes, content);
      Dispatch(w, 0) == Outcome([File(nameBytes, content)], EndOfStream, |w|, false)
  {
    LoneFrame(File(nameBytes, content));
  }

  /** The mismatch made concrete: the one-character name "é" (U+00E9) is
      two bytes in UTF-8, C3 A9, but announced as one. The receiver takes
      C3 as the whole name, reads A9 00 00 00 as the content length, which
      is negative, and the transfer ends with NegativeArraySizeException
      before anything is delivered. */
  lemma NonAsciiNameBreaksTransfer()
    ensures var w := InlineFileFrame([0xE9], [0xC3, 0xA9], []);
      w == [0, 5, 70, 73, 76, 69, 58, 0, 0, 0, 1, 0xC3, 0xA9, 0, 0, 0, 0]
      && Dispatch(w, 0) == Outcome([], NegativeArraySize, 16, true)
  {
    var w := InlineFileFrame([0xE9], [0xC3, 0xA9], []);
    assert U32(1) == [0, 0, 0, 1];
    assert Block([]) == [0, 0, 0, 0];
    assert w == [0, 5, 70, 73, 76, 69, 58, 0, 0, 0, 1, 0xC3, 0xA9, 0, 0, 0, 0];
    SentinelEncoding();
    assert w[0..7] == UtfFrame(Sentinel);
    UtfFrameRoundTrip(w, 0, Sentinel);
    assert ReadUtfAt(w, 0) == Step(Ok(Sentinel), 7);
    AnnouncedNameBlock(w);
    assert ReadFileAt(w, 7) == EventStep(Err(NegativeArraySize), 16, true);
  }

  /** The reader's side of the mismatch: a name block of length 1, then a
      content length with its top bit set. */
  lemma AnnouncedNameBlock(w: seq<Byte>)
    requires w == [0, 5, 70, 73, 76, 69, 58, 0, 0, 0, 1, 0xC3, 0xA9, 0, 0, 0, 0]
    ensures ReadBlockAt(w, 7) == Step(Ok([0xC3]), 12)
    ensures ReadBlockAt(w, 12) == Step(Err(NegativeArraySize), 16)
  {
    assert w[7..11] == [0, 0, 0, 1];
    assert ReadIntAt(w, 7) == Step(Ok(1), 11);
    assert w[11..12] == [0xC3];
    assert w[12..16] == [0xA9, 0, 0, 0];
    assert ReadIntAt(w, 12).result.value < 0;
  }

  lemma InlineFileFrameShape(name: JString, nameBytes: seq<Byte>, content: seq<Byte>)
    requires |name| < IntLimit && IsArray(nameBytes) && IsArray(content)
    ensures InlineFileFrame(name, nameBytes, content)
         == SentinelFrame + U32(|name|) + nameBytes + (U32(|content|) + content)
  {
  }

  /** Five writes in a row append one frame. */
  lemma InOneFrame(sent: seq<Byte>, a: seq<Byte>, b: seq<Byte>, c: seq<Byte>, d: seq<Byte>, e: seq<Byte>)
    ensures sent + a + b + c + d + e == sent + (a + b + c + (d + e))
  {
  }

  class ServerController {
    const ch: Channel
    /** The bubbles this side shows as sent, oldest first. */
    var outgoing: seq<JString>
    /** What the receive loop has shown or saved, oldest first. */
    var delivered: seq<Event>

    ghost predicate Valid()
      reads this, ch
    {
      ch.Valid()
    }

    constructor (ch: Channel)
      requires ch.Valid()
      ensures Valid() && this.ch == ch && outgoing == [] && delivered == []
    {
      this.ch := ch;
      outgoing := [];
      delivered := [];
    }

    /** handleSendMessage: an empty text does nothing; otherwise the text is
        shown as sent and then sent. */
    method HandleSendMessage(message: JString)
      requires Valid()
      modifies this`outgoing, ch`sent, ch`closed
      ensures Valid()
      ensures message == [] ==>
        outgoing == old(outgoing) && ch.sent == old(ch.sent) && ch.closed == old(ch.closed)
      ensures message != [] ==> outgoing == old(outgoing) + [message]
      ensures message != [] && !old(ch.closed) && Encodable(message) ==>
        ch.sent == old(ch.sent) + Frame(Text(message)) && !ch.closed
      ensures message != [] && !(!old(ch.closed) && Encodable(message)) ==>
        ch.sent == old(ch.sent) && ch.closed
    {
      if message != [] {
        outgoing := outgoing + [message];
        SendMessageToClient(message);
      }
    }

    /** sendMessageToClient: writeUTF; a failure, an over-long text
        included, closes the connection. */
    method SendMessageToClient(message: JString)
      requires Valid()
      modifies ch`sent, ch`closed
      ensures Valid()
      ensures !old(ch.closed) && Encodable(message) ==>
        ch.sent == old(ch.sent) + Frame(Text(message)) && !ch.closed
      ensures !(!old(ch.closed) && Encodable(message)) ==>
        ch.sent == old(ch.sent) && ch.closed
    {
      var r := ch.WriteUtf(message);
      if r.Err? {
        HandleServerError();
      }
    }

    /** handleSendFile: nothing happens when the chooser returns no file. */
    method HandleSendFile(choice: Option<ChosenFile>)
      requires Valid() && (choice.Some? ==> IsLoadable(choice.value))
      modifies this`outgoing, ch`sent, ch`closed
      ensures Valid()
      ensures choice.None? ==>
        outgoing == old(outgoing) && ch.sent == old(ch.sent) && ch.closed == old(ch.closed)
      ensures choice.Some? ==> FileSent(choice.value, old(outgoing), old(ch.sent), old(ch.closed))
    {
      if choice.Some? {
        SendFileToClient(choice.value);
      }
    }

    /** The state after sendFileToClient: on an open connection with a
        readable file, the server's inline file frame has been written and
        a non-empty name is shown (messageViewSetUp skips an empty text);
        otherwise nothing is written and the connection is closed. */
    ghost predicate FileSent(f: ChosenFile, outgoing0: seq<JString>, sent0: seq<Byte>, closed0: bool)
      requires IsLoadable(f)
      reads this, ch
    {
      if !closed0 && f.content.Some? then
        ch.sent == sent0 + InlineFileFrame(f.name, f.nameBytes, f.content.value) && !ch.closed
        && outgoing == outgoing0 + (if f.name == [] then [] else [f.name])
      else
        ch.sent == sent0 && ch.closed && outgoing == outgoing0
    }

    /** sendFileToClient: five writes in a row; the first failure skips the
        rest and closes the connection. For a name of one byte per
        character what is written is the shared file frame. */
    method SendFileToClient(f: ChosenFile)
      requires Valid() && IsLoadable(f)
      modifies this`outgoing, ch`sent, ch`closed
      ensures Valid()
      ensures FileSent(f, old(outgoing), old(ch.sent), old(ch.closed))
      ensures !old(ch.closed) && f.content.Some? && |f.name| == |f.nameBytes| ==>
        ch.sent == old(ch.sent) + Frame(File(f.nameBytes, f.content.value))
    {
      if f.content.None? {
        HandleServerError();
        return;
      }
      var content := f.content.value;
      ghost var sent0 := ch.sent;
      SentinelEncoding();
      var r := ch.WriteUtf(Sentinel);
      if r.Ok? {
        r := ch.WriteInt(|f.name|);
      }
      if r.Ok? {
        r := ch.Write(f.nameBytes);
      }
      if r.Ok? {
        r := ch.WriteInt(|content|);
      }
      if r.Ok? {
        r := ch.Write(content);
      }
      // Every write fails on a closed socket and none closes it.
      assert r.Err? <==> ch.closed;
      if r.Err? {
        assert ch.sent == sent0;
        HandleServerError();
        return;
      }
      InOneFrame(sent0, SentinelFrame, U32(|f.name|), f.nameBytes, U32(|content|), content);
      InlineFileFrameShape(f.name, f.nameBytes, content);
      InlineFileFrameAgrees(f.name, f.nameBytes, content);
      outgoing := outgoing + if f.name == [] then [] else [f.name];
    }

    /** receiveMessageFromClient: readUTF and dispatch until a read fails.
        The events delivered are those of Dispatch; any I/O failure, of
        readUTF or inside a file, closes the connection, while a negative
        block length ends the loop and closes nothing. */
    method ReceiveMessageFromClient()
      requires Valid() && !ch.closed
      modifies this`delivered, ch`pos, ch`closed
      ensures Valid()
      ensures var o := Dispatch(ch.incoming, old(ch.pos));
        delivered == old(delivered) + o.events && ch.pos == o.stop
        && ch.closed == IsIOException(o.fault)
    {
      ghost var p0 := ch.pos;
      ghost var done: seq<Event> := [];
      ghost var rest := Dispatch(ch.incoming, p0);
      var running := true;
      var fault := EndOfStream;
      while running
        invariant Valid() && !ch.closed
        invariant delivered == old(delivered) + done
        invariant Dispatch(ch.incoming, p0) == rest.(events := done + rest.events)
        invariant running ==> rest == Dispatch(ch.incoming, ch.pos)
        invariant !running ==> rest.events == [] && rest.stop == ch.pos && rest.fault == fault
        decreases running, |ch.incoming| - ch.pos
      {
        ghost var p := ch.pos;
        var message := ch.ReadUtf();
        if message.Err? {
          fault := message.fault;
          running := false;
        } else {
          ghost var t := ReadUtfAt(ch.incoming, p);
          var r := ProcessReceivedMessage(message.value);
          ghost var step := ReadEventAt(ch.incoming, p);
          assert step == AfterText(ch.incoming, t.next, message.value);
          if r.Ok? {
            DispatchDelivers(ch.incoming, p);
            var e, next := step.result.value, Dispatch(ch.incoming, ch.pos);
            Advance(rest, done, e, next);
            AppendDelivered(old(delivered), done, Delivers(step.result), e);
            done := done + [e];
            rest := next;
          } else {
            fault := r.fault;
            running := false;
          }
        }
      }
      if IsIOException(fault) {
        HandleServerError();
      }
    }

    /** The body of the loop after readUTF: the sentinel starts a file,
        whose failure is passed on; any other text is shown as received. */
    method ProcessReceivedMessage(message: JString) returns (r: Result<()>)
      requires Valid() && !ch.closed
      modifies this`delivered, ch`pos
      ensures Valid()
      ensures Received(r, AfterText(ch.incoming, old(ch.pos), message), old(delivered))
    {
      if message == Sentinel {
        r := ReceiveAndSaveFile();
      } else {
        delivered := delivered + [Text(message)];
        r := Ok(());
      }
    }

    /** What one turn did, given the turn's outcome `step`: the cursor is
        where the turn stopped, its event, if any, has been delivered, and
        its failure, if any, is passed on. */
    ghost predicate Received(r: Result<()>, step: EventStep, delivered0: seq<Event>)
      reads this, ch
    {
      ch.pos == step.next
      && delivered == delivered0 + Delivers(step.result)
      && (r.Ok? <==> step.result.Ok?)
      && (r.Err? ==> r.fault == step.result.fault)
    }

    /** receiveAndSaveFile: readInt, `new byte[length]`, readFully, for the
        name and then for the content; the file is saved and its name shown.
        Every failure propagates to the receive loop. */
    method ReceiveAndSaveFile() returns (r: Result<()>)
      requires Valid() && !ch.closed
      modifies this`delivered, ch`pos
      ensures Valid()
      ensures Received(r, ReadFileAt(ch.incoming, old(ch.pos)), old(delivered))
    {
      var fileNameLength := ch.ReadInt();
      if fileNameLength.Err? {
        return Err(fileNameLength.fault);
      }
      if fileNameLength.value < 0 {
        return Err(NegativeArraySize);
      }
      var fileNameBytes := ch.ReadFully(fileNameLength.value);
      if fileNameBytes.Err? {
        return Err(fileNameBytes.fault);
      }
      var fileContentLength := ch.ReadInt();
      if fileContentLength.Err? {
        return Err(fileContentLength.fault);
      }
      if fileContentLength.value < 0 {
        return Err(NegativeArraySize);
      }
      var fileContentBytes := ch.ReadFully(fileContentLength.value);
      if fileContentBytes.Err? {
        return Err(fileContentBytes.fault);
      }
      delivered := delivered + [File(fileNameBytes.value, fileContentBytes.value)];
      r := Ok(());
    }

    /** handleServerError: logs and closes the streams and the socket. */
    method HandleServerError()
      requires Valid()
      modifies ch`closed
      ensures Valid() && ch.closed
    {
      ch.Close();
    }
  }
}
