/** The client endpoint: sends chat messages and files through NetworkService
    and runs a receive loop over the same connection. */
module Client {
  import opened DataStreams
  import opened Streams
  import opened Protocol
  import opened Network

  class ClientController {
    const ch: Channel
    const net: NetworkService
    /** The bubbles this side shows as sent, oldest first. */
    var outgoing: seq<JString>
    /** What the receive loop has shown or saved, oldest first. */
    var delivered: seq<Event>

    ghost predicate Valid()
      reads this, ch
    {
      net.ch == ch && ch.Valid()
    }

    constructor (ch: Channel)
      requires ch.Valid()
      ensures Valid() && this.ch == ch && outgoing == [] && delivered == []
    {
      this.ch := ch;
      net := new NetworkService(ch);
      outgoing := [];
      delivered := [];
    }

    /** handleSendMessage + processAndSendMessage: an empty text does
        nothing; otherwise the text is shown as sent and then sent. */
    method HandleSendMessage(message: JString)
      requires Valid()
      modifies this`outgoing, ch`sent, ch`closed
      ensures Valid()
      ensures message == [] ==>
        outgoing == old(outgoing) && ch.sent == old(ch.sent) && ch.closed == old(ch.closed)
      ensures message != [] ==> outgoing == old(outgoing) + [message]
      ensures message != [] && !old(ch.closed) && Encodable(message) ==>
        ch.sent == old(ch.sent) + Frame(Text(message)) && !ch.closed
      ensures message != [] && !(!old(ch.closed) && Encodable(message)) ==>
        ch.sent == old(ch.sent) && ch.closed
    {
      if message != [] {
        outgoing := outgoing + [message];
        SendMessageToClient(message);
      }
    }

    /** sendMessageToClient: a failed send is not reported to the caller;
        it tears the connection down. */
    method SendMessageToClient(message: JString)
      requires Valid()
      modifies ch`sent, ch`closed
      ensures Valid()
      ensures !old(ch.closed) && Encodable(message) ==>
        ch.sent == old(ch.sent) + Frame(Text(message)) && !ch.closed
      ensures !(!old(ch.closed) && Encodable(message)) ==>
        ch.sent == old(ch.sent) && ch.closed
    {
      var r := net.SendMessage(message);
      if r.Err? {
        HandleServerError();
      }
    }

    /** handleSendFile: nothing happens when the chooser returns no file. */
    method HandleSendFile(choice: Option<ChosenFile>)
      requires Valid() && (choice.Some? ==> IsLoadable(choice.value))
      modifies this`outgoing, ch`sent, ch`closed
      ensures Valid()
      ensures choice.None? ==>
        outgoing == old(outgoing) && ch.sent == old(ch.sent) && ch.closed == old(ch.closed)
      ensures choice.Some? ==> FileSent(choice.value, old(outgoing), old(ch.sent), old(ch.closed))
    {
      if choice.Some? {
        SendFileToClient(choice.value);
      }
    }

    /** The state after sendFileToClient: on an open connection with a
        readable file, the sentinel frame, the name block and the content
        block follow each other with nothing in between, and then the file's
        name is shown as sent; otherwise nothing is written and the
        connection is closed. */
    ghost predicate FileSent(f: ChosenFile, outgoing0: seq<JString>, sent0: seq<Byte>, closed0: bool)
      requires IsLoadable(f)
      reads this, ch
    {
      if !closed0 && f.content.Some? then
        ch.sent == sent0 + Frame(File(f.nameBytes, f.content.value)) && !ch.closed
        && outgoing == outgoing0 + [f.name]
      else
        ch.sent == sent0 && ch.closed && outgoing == outgoing0
    }

    /** sendFileToClient: the sentinel goes through sendMessageToClient,
        which swallows its failure; sendFileMetadata and sendFileContent are
        still attempted, and the file is shown as sent only after
        sendFileContent returns normally. */
    method SendFileToClient(f: ChosenFile)
      requires Valid() && IsLoadable(f)
      modifies this`outgoing, ch`sent, ch`closed
      ensures Valid()
      ensures FileSent(f, old(outgoing), old(ch.sent), old(ch.closed))
    {
      if f.content.None? {
        HandleServerError();
        return;
      }
      var content := f.content.value;
      ghost var sent0 := ch.sent;
      SentinelEncoding();
      assert Frame(Text(Sentinel)) == SentinelFrame;
      SendMessageToClient(Sentinel);
      var r := net.SendFileMetadata(f.nameBytes, content);
      if r.Ok? {
        r := net.SendFileContent(content);
      }
      if r.Err? {
        HandleServerError();
        return;
      }
      FileFrameInPieces(sent0, f.nameBytes, content);
      outgoing := outgoing + [f.name];
    }

    /** receiveMessageFromServer: readUTF and dispatch until a read fails.
        The events delivered are those of Dispatch. A failure of readUTF
        itself only ends the loop; an I/O failure while reading a file's
        blocks first closes the connection, after which the next readUTF
        fails at once; a negative block length ends the loop without
        closing anything. */
    method ReceiveMessageFromServer()
      requires Valid() && !ch.closed
      modifies this`delivered, ch`pos, ch`closed
      ensures Valid()
      ensures var o := Dispatch(ch.incoming, old(ch.pos));
        delivered == old(delivered) + o.events && ch.pos == o.stop
        && ch.closed == (o.announced && IsIOException(o.fault))
    {
      ghost var p0 := ch.pos;
      ghost var done: seq<Event> := [];
      ghost var rest := Dispatch(ch.incoming, p0);
      var running := true;
      while running
        invariant Valid()
        invariant delivered == old(delivered) + done
        invariant Dispatch(ch.incoming, p0) == rest.(events := done + rest.events)
        invariant running && !ch.closed ==> rest == Dispatch(ch.incoming, ch.pos)
        invariant running && ch.closed ==>
          rest == Outcome([], rest.fault, ch.pos, true) && IsIOException(rest.fault)
        invariant !running ==>
          rest.events == [] && rest.stop == ch.pos
          && ch.closed == (rest.announced && IsIOException(rest.fault))
        decreases running, !ch.closed, |ch.incoming| - ch.pos
      {
        ghost var p := ch.pos;
        var message := ch.ReadUtf();
        if message.Err? {
          running := false;
        } else {
          ghost var t := ReadUtfAt(ch.incoming, p);
          var r := ProcessReceivedMessage(message.value);
          ghost var step := ReadEventAt(ch.incoming, p);
          assert step == AfterText(ch.incoming, t.next, message.value);
          if step.result.Ok? {
            DispatchDelivers(ch.incoming, p);
            var e, next := step.result.value, Dispatch(ch.incoming, ch.pos);
            Advance(rest, done, e, next);
            AppendDelivered(old(delivered), done, Delivers(step.result), e);
            done := done + [e];
            rest := next;
          }
          if r.Err? {
            running := false;
          }
        }
      }
    }

    /** What one turn did, given the turn's outcome `step`: the cursor is
        where the turn stopped and its event, if any, has been delivered; an
        I/O failure (only possible while reading a file) closed the
        connection and is not passed on; a negative block length is passed
        on and closes nothing. */
    ghost predicate Processed(r: Result<()>, step: EventStep, delivered0: seq<Event>)
      reads this, ch
    {
      ch.pos == step.next
      && delivered == delivered0 + Delivers(step.result)
      && (step.result.Ok? ==> r == Ok(()) && !ch.closed)
      && (step.result.Err? && IsIOException(step.result.fault) ==> r == Ok(()) && ch.closed)
      && (step.result.Err? && !IsIOException(step.result.fault) ==> r == Err(step.result.fault) && !ch.closed)
    }

    /** processReceivedMessage: the sentinel starts a file; any other text
        is shown as received, unchanged. */
    method ProcessReceivedMessage(message: JString) returns (r: Result<()>)
      requires Valid() && !ch.closed
      modifies this`delivered, ch`pos, ch`closed
      ensures Valid()
      ensures Processed(r, AfterText(ch.incoming, old(ch.pos), message), old(delivered))
    {
      if message == Sentinel {
        r := ReceiveAndSaveFile();
      } else {
        delivered := delivered + [Text(message)];
        r := Ok(());
      }
    }

    /** receiveAndSaveFile: one name block, then one content block; the
        file is saved and its name shown. */
    method ReceiveAndSaveFile() returns (r: Result<()>)
      requires Valid() && !ch.closed
      modifies this`delivered, ch`pos, ch`closed
      ensures Valid()
      ensures Processed(r, ReadFileAt(ch.incoming, old(ch.pos)), old(delivered))
    {
      var fileName := net.ReadFileNameFromClient();
      if fileName.Err? {
        r := Catch(fileName.fault);
        return;
      }
      var fileContent := net.ReadFileContentFromClient();
      if fileContent.Err? {
        r := Catch(fileContent.fault);
        return;
      }
      delivered := delivered + [File(fileName.value, fileContent.value)];
      r := Ok(());
    }

    /** The `catch (IOException e)` of receiveAndSaveFile. */
    method Catch(f: Fault) returns (r: Result<()>)
      requires Valid()
      modifies ch`closed
      ensures Valid()
      ensures IsIOException(f) ==> r == Ok(()) && ch.closed
      ensures !IsIOException(f) ==> r == Err(f) && ch.closed == old(ch.closed)
    {
      if IsIOException(f) {
        HandleServerError();
        r := Ok(());
      } else {
        r := Err(f);
      }
    }

    /** handleServerError: logs and closes everything. */
    method HandleServerError()
      requires Valid()
      modifies ch`closed
      ensures Valid() && ch.closed
    {
      net.CloseEverything();
    }
  }
}
