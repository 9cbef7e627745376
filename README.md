# Messenger wire framing, modelled in Dafny

The Messenger is a two-window JavaFX chat: a server and a client joined by a
single TCP socket. Each side puts text messages and files on the same
`DataOutputStream` and reads the other side's on a `DataInputStream`.

- A **text** goes out as one `writeUTF` frame: a 2-byte big-endian length, then
  that many bytes of Java's modified UTF-8. Its encoding may be at most 65535
  bytes.
- A **file** goes out as three pieces with nothing between them:
  - the text `"FILE:"`;
  - a name block;
  - a content block.

  A block is a `writeInt` length (4 bytes, big-endian, two's complement)
  followed by that many raw bytes.
- A **receive loop** reads one text at a time. If the text equals `"FILE:"` it
  reads exactly two blocks and saves the file. Any other text is shown as
  received. The server's loop ends at the first read that fails. The client's
  loop, after a failed read inside a file, closes the socket and ends at the
  next `readUTF`, which fails on the closed socket.

The model covers:

- the three core classes:
  - `NetworkService`, the client's frame codec;
  - the client's `ClientController`;
  - the server's `ServerController`, with its own inline encoder and decoder;
- the socket they share, as a `Channel`.

A `Channel` has:

- the bytes written so far, `sent`;
- everything the peer will ever send, `incoming`, with a read cursor `pos`;
- a `closed` flag. A read or write on a closed channel fails at once, except
  a `readFully` or `write` of zero bytes, which returns without touching the
  socket.

Several reads are also written as pure functions on `(incoming, pos)`:
`ReadUtfAt`, `ReadBlockAt`, `ReadFileAt`, `ReadEventAt`, and `Dispatch` for the
whole receive loop. Every stream method is proved to agree with its function.
The properties are then proved about the functions.

Results:

- **Round trip.** Take a list of events with three conditions:
  - no text is `"FILE:"`;
  - every text encodes to at most 65535 bytes;
  - every block is shorter than 2^31.

  Then the receiver delivers exactly those events, in order, and stops at the end
  of the stream (`Protocol.RoundTrip`). Two facts underlie this:
  - modified UTF-8 is decoded back to the same string (`DataStreams.DecodeUtfOfUtf`);
  - an `int` is read back as the same value (`DataStreams.U32RoundTrip`).
- **Sentinel collision.** A chat text `"FILE:"` is written byte for byte like a
  file announcement. The receiver never shows it as a text:
  - the receiver goes on to read two blocks (`Protocol.SentinelCollision`);
  - sent last, the text is lost (`Protocol.LoneSentinelIsLost`);
  - sent before bytes that happen to form two blocks, it is taken for a file
    (`Protocol.SentinelTextThenBlocks`).
- **Server name prefix.** The server writes the name's character count in front
  of the name bytes. Its file frame equals the client's exactly when that count
  equals the number of bytes (`Server.InlineFileFrameAgrees`). A concrete name for
  which the transfer breaks is given under Findings.

Modules, one file each:

- `DataStreams` (`data_streams.dfy`): the wire formats of Java I/O.
  - Bytes, UTF-16 `char`s and `int`s.
  - Big-endian `writeShort`/`writeInt` and their reads.
  - Modified UTF-8, written out per character, with Java's `readUTF` decoder
    including its malformed-input cases.
- `Streams` (`channel.dfy`): the `Channel` class.
- `Protocol` (`protocol.dfy`): the frames, the receive dispatcher, and the round
  trips and sentinel lemmas.
- `Network` (`network_service.dfy`): `NetworkService`.
- `Client` (`client_controller.dfy`): `ClientController`.
- `Server` (`server_controller.dfy`): `ServerController`.

Modelling choices:

- **Exceptions become `Result` values.** A `Fault` names the exception. All are
  `IOException`s except `NegativeArraySize`. That one is the `RuntimeException`
  thrown by `new byte[length]` when `length` is negative, and no `catch` in the
  source handles it.
- **The client's error handling.**
  - An `IOException` while reading a file's blocks is caught inside
    `receiveAndSaveFile`, which closes the connection.
  - The loop then tries `readUTF` once more on the closed socket, and *that*
    read ends the loop.
  - A `readUTF` failure only ends the loop; nothing is closed.
  - `ReceiveMessageFromServer`'s contract gives `closed` as
    "the failure came after a sentinel was read, and it was an `IOException`".
- **The server's error handling.** Any `IOException` ends the loop and closes
  the connection (`closed == IsIOException(fault)`).
- **The loop condition.** `while (socket.isConnected())` stays true for the
  whole life of a connected socket, even after it is closed. In both loops a
  failed read is therefore the only exit.
- **Sending on a closed socket.** A failed write leaves the output untouched,
  and every later write fails too.
  - The client's `sendMessageToClient("FILE:")` swallows its own failure. The
    metadata write is still attempted, fails, and leads to a second close.
  - The file is shown as sent only after `sendFileContent` returns normally.
- **Frames.** No send method changes the read cursor, and no read method
  changes `sent`. The `modifies` clauses state this: a send modifies `ch\`sent`
  and a read modifies `ch\`pos`.

## Model

| member | source | states |
|---|---|---|
| `DataStreams.U32RoundTrip` | MessengerServer/src/main/java/com/messengerServer/NetworkService.java:24-26 | Reading the 4 big-endian bytes `writeInt(n)` writes gives back `n`, for every Java `int` |
| `DataStreams.U32Injective` | MessengerServer/src/main/java/com/messengerServer/NetworkService.java:24-26 | Two different `int`s are never written as the same 4 bytes |
| `DataStreams.U16RoundTrip` | MessengerServer/src/main/java/com/messengerServer/NetworkService.java:19 | `writeUTF`'s 2-byte length prefix reads back as the same length |
| `DataStreams.FromU32` | MessengerServer/src/main/java/com/messengerServer/NetworkService.java:35 | `readInt` gives a Java `int`, and it is negative exactly when the first byte's top bit is set |
| `DataStreams.EncodeChar` | MessengerServer/src/main/java/com/messengerServer/NetworkService.java:19 | Modified UTF-8 uses 1 to 3 bytes per `char`, and exactly 1 for `\u0001`–`\u007F` |
| `DataStreams.Utf` | MessengerServer/src/main/java/com/messengerServer/NetworkService.java:19 | A string's modified UTF-8 is between `|s|` and `3|s|` bytes long |
| `DataStreams.DecodeUtfOfUtf` | MessengerServer/src/main/java/com/messengerServer/ServerController.java:115 | `readUTF`'s decoder inverts `writeUTF`'s encoding, for every string |
| `DataStreams.UtfInjective` | MessengerServer/src/main/java/com/messengerServer/ServerController.java:116 | Different strings have different encodings, so a text equals `"FILE:"` on the wire only if it is `"FILE:"` |
| `DataStreams.ReadUtfAt` | MessengerServer/src/main/java/com/messengerServer/ServerController.java:115 | `readUTF` stays inside the input, and a successful read consumes at least its 2-byte prefix |
| `DataStreams.UtfFrameRoundTrip` | MessengerServer/src/main/java/com/messengerServer/NetworkService.java:18-21 | The bytes of `writeUTF(s)`, read back with `readUTF`, give `s` and move the cursor past exactly those bytes |
| `Streams.Channel.WriteUtf` | MessengerServer/src/main/java/com/messengerServer/NetworkService.java:19 | `writeUTF` succeeds iff the encoding is at most 65535 bytes and the socket is open; on success it appends the length-prefixed encoding, otherwise nothing; the length check comes first |
| `Streams.Channel.WriteInt` | MessengerServer/src/main/java/com/messengerServer/NetworkService.java:24 | `writeInt` appends the 4 big-endian bytes, or fails on a closed socket and appends nothing |
| `Streams.Channel.Write` | MessengerServer/src/main/java/com/messengerServer/NetworkService.java:25 | `write(byte[])` appends the bytes; on a closed socket a non-empty array fails and appends nothing, while an empty one succeeds |
| `Streams.Channel.ReadInt` | MessengerServer/src/main/java/com/messengerServer/NetworkService.java:35 | `readInt` on an open socket agrees with `ReadIntAt`; on a closed one it fails and leaves the cursor alone |
| `Streams.Channel.ReadFully` | MessengerServer/src/main/java/com/messengerServer/NetworkService.java:37 | `readFully` agrees with `ReadFullyAt` on an open socket and for zero bytes on a closed one: it returns n bytes or fails at end of stream with the cursor at the end; reading one or more bytes on a closed socket fails and leaves the cursor alone |
| `Streams.Channel.ReadUtf` | MessengerServer/src/main/java/com/messengerServer/ServerController.java:115 | `readUTF` on an open socket agrees with `ReadUtfAt`; on a closed one it fails and leaves the cursor alone |
| `Streams.Channel.Close` | MessengerServer/src/main/java/com/messengerServer/NetworkService.java:50-64 | After `closeEverything` the socket is closed, and only the flag changes |
| `Protocol.SentinelEncoding` | MessengerServer/src/main/java/com/messengerServer/ServerController.java:171 | `writeUTF("FILE:")` writes the 7 bytes `00 05 'F' 'I' 'L' 'E' ':'` |
| `Protocol.Block` | MessengerServer/src/main/java/com/messengerServer/NetworkService.java:24-26 | A block is 4 bytes longer than its content, and its content follows the 4-byte prefix |
| `Protocol.FileFrame` | MessengerServer/src/main/java/com/messengerServer/NetworkService.java:23-32 | A file transfer is 7 + 4 + name + 4 + content bytes long |
| `Protocol.Frames` | MessengerClient/src/main/java/com/messengerClient/ClientController.java:97-119 | Each event on the wire takes at least 2 bytes |
| `Protocol.FramesAppend` | MessengerClient/src/main/java/com/messengerClient/ClientController.java:97-119 | The bytes of two runs of sends are the first run's bytes followed by the second's |
| `Protocol.ReadBlockAt` | MessengerServer/src/main/java/com/messengerServer/NetworkService.java:34-39 | `readDataFromClient` fails iff fewer than 4 bytes remain, the length L is negative, or fewer than L bytes follow; the fault is `NegativeArraySize` for a negative L and end of stream otherwise; on success it returns the L bytes after the prefix and moves the cursor by exactly 4 + L |
| `Protocol.ReadFileAt` | MessengerServer/src/main/java/com/messengerServer/ServerController.java:131-147 | After the sentinel, exactly one name block and then one content block are read: `4 + name + 4 + content` bytes, with the name right after the first prefix and the content ending at the new cursor |
| `Protocol.AfterText` | MessengerClient/src/main/java/com/messengerClient/ClientController.java:136-142 | A text other than `"FILE:"` is delivered as exactly that text, with nothing more read; the sentinel, and only the sentinel, leads to a file |
| `Protocol.ReadEventAt` | MessengerServer/src/main/java/com/messengerServer/ServerController.java:114-120 | One turn of the loop moves the cursor forward, and a delivered event comes after a sentinel exactly when it is a file |
| `Protocol.Dispatch` | MessengerServer/src/main/java/com/messengerServer/ServerController.java:111-126 | The receive loop stops inside the input, and delivers at most one event per 2 bytes read |
| `Protocol.BlockRoundTrip` | MessengerServer/src/main/java/com/messengerServer/NetworkService.java:23-39 | A block, including an empty one, reads back byte for byte and moves the cursor past it |
| `Protocol.BlocksRoundTrip` | MessengerServer/src/main/java/com/messengerServer/NetworkService.java:23-48 | The bytes of `sendFileMetadata` then `sendFileContent` read back as the name, then the content, including empty content |
| `Protocol.TextRoundTrip` | MessengerClient/src/main/java/com/messengerClient/ClientController.java:136-142 | A text other than the sentinel is delivered unchanged, and the cursor moves past its frame |
| `Protocol.FileFrameRoundTrip` | MessengerClient/src/main/java/com/messengerClient/ClientController.java:106-119 | A file transfer is read back as the same name and content bytes, and delivered as a file |
| `Protocol.FrameRoundTrip` | MessengerClient/src/main/java/com/messengerClient/ClientController.java:136-153 | Any unambiguous event reads back as itself |
| `Protocol.RoundTrip` | MessengerClient/src/main/java/com/messengerClient/ClientController.java:121-134 | Reading the frames of any list of unambiguous events delivers exactly that list, in order, and stops with end of stream at the end of the input |
| `Protocol.StreamRoundTrip` | MessengerServer/src/main/java/com/messengerServer/ServerController.java:111-126 | The same, for a connection read from its first byte |
| `Protocol.LoneFrame` | MessengerServer/src/main/java/com/messengerServer/ServerController.java:111-126 | A connection carrying one unambiguous event delivers that event and then ends |
| `Protocol.DispatchFrame` | MessengerServer/src/main/java/com/messengerServer/ServerController.java:111-126 | A frame at the cursor is delivered in front of whatever the rest of the input delivers |
| `Protocol.SentinelCollision` | MessengerClient/src/main/java/com/messengerClient/ClientController.java:71-76 | A text `"FILE:"`, which passes the non-empty check, makes the receiver go on to read a file; whatever it delivers in that turn is a file, never that text |
| `Protocol.LoneSentinelIsLost` | MessengerClient/src/main/java/com/messengerClient/ClientController.java:136-142 | A connection carrying only the text `"FILE:"` delivers nothing and ends with end of stream while reading the name block |
| `Protocol.SentinelTextThenBlocks` | MessengerClient/src/main/java/com/messengerClient/ClientController.java:136-142 | The text `"FILE:"` followed by two blocks is byte for byte a file transfer, and is delivered as one file |
| `Network.NetworkService.SendMessage` | MessengerServer/src/main/java/com/messengerServer/NetworkService.java:18-21 | `sendMessage` appends exactly the `writeUTF` frame, or fails with nothing written; over-long text fails with `UtfTooLong`, a closed socket with `SocketClosed` |
| `Network.NetworkService.SendFileMetadata` | MessengerServer/src/main/java/com/messengerServer/NetworkService.java:23-27 | It appends the name block and the content's length prefix, and none of the content bytes |
| `Network.NetworkService.SendFileContent` | MessengerServer/src/main/java/com/messengerServer/NetworkService.java:29-32 | It appends exactly the content bytes; empty content writes nothing and succeeds even on a closed socket |
| `Network.FileFrameInPieces` | MessengerServer/src/main/java/com/messengerServer/NetworkService.java:23-32 | The sentinel frame, then the metadata, then the content, form exactly one file transfer: name block then content block |
| `Network.NetworkService.ReadDataFromClient` | MessengerServer/src/main/java/com/messengerServer/NetworkService.java:34-39 | On an open socket it agrees with `ReadBlockAt`; on a closed one it fails and leaves the cursor alone |
| `Network.NetworkService.ReadFileNameFromClient` | MessengerServer/src/main/java/com/messengerServer/NetworkService.java:41-44 | It reads one block, like `readDataFromClient`, and keeps the name as bytes |
| `Network.NetworkService.ReadFileContentFromClient` | MessengerServer/src/main/java/com/messengerServer/NetworkService.java:46-48 | It returns exactly what `readDataFromClient` returns |
| `Network.NetworkService.CloseEverything` | MessengerServer/src/main/java/com/messengerServer/NetworkService.java:50-64 | The connection is closed afterwards |
| `Client.ClientController.HandleSendMessage` | MessengerClient/src/main/java/com/messengerClient/ClientController.java:71-82 | An empty text writes nothing and shows nothing. Any other text is shown as sent, then written as one `writeUTF` frame. If writing fails, nothing is written and the connection is closed |
| `Client.ClientController.SendMessageToClient` | MessengerClient/src/main/java/com/messengerClient/ClientController.java:97-104 | One frame on success; on failure nothing written and the connection closed |
| `Client.ClientController.HandleSendFile` | MessengerClient/src/main/java/com/messengerClient/ClientController.java:84-89 | No chosen file: nothing changes; otherwise as `SendFileToClient` |
| `Client.ClientController.SendFileToClient` | MessengerClient/src/main/java/com/messengerClient/ClientController.java:106-119 | On an open socket with a readable file: the sentinel frame, the name block and the content block are written in that order with nothing between them, the name's prefix being its byte count; the name is then shown as sent. Otherwise nothing is written, nothing is shown, and the connection is closed |
| `Client.ClientController.ReceiveMessageFromServer` | MessengerClient/src/main/java/com/messengerClient/ClientController.java:121-134 | The loop delivers exactly `Dispatch`'s events and stops where `Dispatch` stops; the connection ends up closed exactly when the failing read came after a sentinel and was an `IOException` |
| `Client.ClientController.ProcessReceivedMessage` | MessengerClient/src/main/java/com/messengerClient/ClientController.java:136-142 | The sentinel leads to a file read, and any other text is delivered unchanged. An `IOException` in the file read closes the connection and is not passed on; a negative length is passed on, and the connection stays open |
| `Client.ClientController.ReceiveAndSaveFile` | MessengerClient/src/main/java/com/messengerClient/ClientController.java:144-153 | It agrees with `ReadFileAt`: the file is delivered on success; on an `IOException` the connection is closed |
| `Client.ClientController.Catch` | MessengerClient/src/main/java/com/messengerClient/ClientController.java:150-152 | `catch (IOException e)` closes the connection and swallows the failure; any other exception passes through |
| `Client.ClientController.HandleServerError` | MessengerClient/src/main/java/com/messengerClient/ClientController.java:161-165 | The connection is closed afterwards |
| `Server.InlineFileFrame` | MessengerServer/src/main/java/com/messengerServer/ServerController.java:171-176 | The server's transfer has the same length as the client's for the same bytes |
| `Server.InlineFileFrameAgrees` | MessengerServer/src/main/java/com/messengerServer/ServerController.java:168-176 | The server's bytes equal the client's file transfer iff the name's character count equals its byte count |
| `Server.InlineFileRoundTrip` | MessengerServer/src/main/java/com/messengerServer/ServerController.java:131-139 | For such a name the server's transfer is read back as exactly that file |
| `Server.NonAsciiNameBreaksTransfer` | MessengerServer/src/main/java/com/messengerServer/ServerController.java:172-173 | The name `"é"` with bytes `C3 A9` and empty content is written as `…00 00 00 01 C3 A9 00 00 00 00`. The receiver delivers nothing and fails with `NegativeArraySize` at byte 16 |
| `Server.ClientFileAtServer` | MessengerServer/src/main/java/com/messengerServer/ServerController.java:131-139 | The client's file transfer, read by the server's loop, gives the same name bytes and content bytes |
| `Server.ServerController.HandleSendMessage` | MessengerServer/src/main/java/com/messengerServer/ServerController.java:76-83 | An empty text writes nothing and shows nothing. Any other text is shown as sent, then written as one frame. If writing fails, nothing is written and the connection is closed |
| `Server.ServerController.SendMessageToClient` | MessengerServer/src/main/java/com/messengerServer/ServerController.java:152-160 | One frame on success; a failure, including an over-long text, writes nothing and closes the connection |
| `Server.ServerController.HandleSendFile` | MessengerServer/src/main/java/com/messengerServer/ServerController.java:88-96 | No chosen file: nothing changes; otherwise as `SendFileToClient` |
| `Server.ServerController.SendFileToClient` | MessengerServer/src/main/java/com/messengerServer/ServerController.java:165-182 | On an open socket with a readable file, it writes `writeUTF("FILE:")`, the character count, the name bytes, the content length and the content, in that order, then shows a non-empty name. This is the client's file transfer when the name has one byte per character. Otherwise nothing is written and the connection is closed |
| `Server.ServerController.ReceiveMessageFromClient` | MessengerServer/src/main/java/com/messengerServer/ServerController.java:111-126 | The loop delivers exactly `Dispatch`'s events and stops where `Dispatch` stops; the connection ends up closed exactly when the failure was an `IOException` |
| `Server.ServerController.ProcessReceivedMessage` | MessengerServer/src/main/java/com/messengerServer/ServerController.java:115-120 | A non-sentinel text is delivered verbatim; the sentinel leads to `receiveAndSaveFile`, whose failure passes through |
| `Server.ServerController.ReceiveAndSaveFile` | MessengerServer/src/main/java/com/messengerServer/ServerController.java:131-147 | The inline `readInt`/`new byte[]`/`readFully` steps, twice, agree with `ReadFileAt`: name block, then content block, every failure passed on |
| `Server.ServerController.HandleServerError` | MessengerServer/src/main/java/com/messengerServer/ServerController.java:102-106 | The connection is closed afterwards |

## Left out

- **Presentation is not modelled.** This covers JavaFX, `messageViewSetUp`/`addLabel`, `Platform.runLater`, the scroll listener and `tf_message.clear()`. The bubbles shown become the `outgoing` sequence, and what is received becomes `delivered`. The one thing kept from the server's `messageViewSetUp` is that it shows nothing for an empty text, so an empty file name adds nothing to `outgoing`.
- **The file chooser, `Files.readAllBytes` and saving to disk are inputs, not models.**
  - The chosen file is a value.
  - A failing `readAllBytes` is `content == None`.
  - Saving a received file, through `saveFile` or `FileOutputStream`, always succeeds; an `IOException` from it is not modelled.
- **The platform charset is not modelled.** This covers `getBytes()` and `new String(bytes)`.
  - The sender's name bytes are an input beside the name.
  - Received names stay bytes.
- Network.NetworkService.ReadFileNameFromClient: returns the block's bytes, not their `new String(bytes, StandardCharsets.UTF_8)` decoding (NetworkService.java:43). That decoding uses UTF-8 explicitly, replaces malformed input and is not modelled.
- **Large allocations are assumed to succeed.** `new byte[L]` is taken to succeed for every `0 <= L < 2^31`. In Java a large `L` can throw `OutOfMemoryError`, an `Error` that no `catch` here handles; it ends the receive thread and closes nothing. One such input: the server's name `"éa"` (bytes `C3 A9 61`) with empty content makes the receiver read `61 00 00 00` as the content length, 0x61000000 bytes.
- Protocol.ReadBlockAt: a length that leaves too few bytes is end of stream, even where allocating the array first would throw `OutOfMemoryError`; the client's `Catch` closes the connection there, which Java would not.
- Server.ServerController.ReceiveAndSaveFile: its two `new byte[length]` allocations are assumed to succeed for every non-negative length, as in `Protocol.ReadBlockAt`.
- Network.NetworkService.ReadDataFromClient: its `new byte[length]` is assumed to succeed for every non-negative length, as in `Protocol.ReadBlockAt`.
- Protocol.IsLoadable: asks only that the content, when present, is shorter than 2^31 bytes. `Files.readAllBytes` of a file of 2 GiB or more throws `OutOfMemoryError` (ClientController.java:109, ServerController.java:170), which no `catch` handles; that case is not modelled, and a failing read is only the `IOException` that `content == None` stands for.
- **Socket set-up is left out.** This covers `connectToServer`, `initializeServer` and `ServerSocket.accept`. A controller is built on an already connected `Channel`.
- **Threads are left out.** Each receive loop runs alone, as a sequential method over the peer's bytes. The two directions are independent.
- **Writes are assumed to fail only on a closed socket.**
  - The peer resetting the connection during a write is not modelled.
  - That is why the client's swallowed sentinel failure can only happen when the socket was already closed.
- **`flush` is left out.** It has no effect on the bytes in the model.
- **`closeEverything` closes everything at once and never fails.** Its own caught `IOException` is not modelled.
- **The client's own `NetworkService` is not part of this model.**
  - `MessengerClient`'s copy of `NetworkService.java` and its `MessageDisplayService.java` are not part of this model; only the client's calls into them are (ClientController.java:61, 99, 112-113, 146-147 and 164).
  - The bodies of the client's `NetworkService` methods are assumed to be the same as the server package's, and the client is modelled with that `NetworkService`.
- **Exceptions that end a receive thread are not modelled as such.** An uncaught `RuntimeException`, here `NegativeArraySizeException`, ends the thread. The model returns from the loop with the cursor where the failing read left it.
- `Client.ClientController.ReceiveMessageFromServer`: does not count the extra `readUTF` attempt on a closed socket after a failed file read as a separate step. It fails without moving the cursor, so `pos` and `delivered` are as stated.

## Findings

| source | as written | input that shows it | evidently intended | confidence | as-written member | corrected member |
|---|---|---|---|---|---|---|
| MessengerServer/src/main/java/com/messengerServer/ServerController.java:172 | The name block's prefix is `fileName.length()`, the number of UTF-16 characters, but the bytes written after it are `fileNameBytes`. | The name `"é"` (U+00E9) has the UTF-8 bytes `C3 A9`; take empty content. The receiver takes `C3` as the whole name and reads `A9 00 00 00` as the content length. That length is negative, so `new byte[...]` throws `NegativeArraySizeException` and the file is lost. | Write `fileNameBytes.length` as the prefix, as `NetworkService.sendFileMetadata` does. | not executed | `Server.NonAsciiNameBreaksTransfer` | `Protocol.FileFrameRoundTrip` |

The as-written encoding is `Server.InlineFileFrame`. `Server.InlineFileFrameAgrees` proves that it equals the corrected encoding `Protocol.FileFrame` exactly when the character count equals the byte count. `Protocol.FileFrameRoundTrip` proves that the corrected encoding reads back as the same file. The client and the round-trip lemmas use the corrected encoding. `Server.ServerController.SendFileToClient` keeps the as-written one, because that is what the server does.
