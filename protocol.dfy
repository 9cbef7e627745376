/** The messenger's wire protocol, shared by both endpoints: a text frame is
    a writeUTF string; a file is the sentinel text "FILE:" followed by a name
    block and a content block, each a writeInt length and raw bytes. There is
    no type tag: the receiver tells a file from a message only by comparing
    the text it read with the sentinel. */
module Protocol {
  import opened DataStreams

  /** "FILE:" */
  const Sentinel: JString := [70, 73, 76, 69, 58]

  /** What the receiving side delivers: a chat message, or a file's name
      bytes and content bytes (saved to disk and announced). */
  datatype Event = Text(text: JString) | File(name: seq<Byte>, content: seq<Byte>)

  /** A byte sequence a Java array can hold. */
  predicate IsArray(b: seq<Byte>) {
    |b| < IntLimit
  }

  /** A string writeUTF accepts. */
  predicate Encodable(s: JString) {
    |Utf(s)| <= MaxUtfLength
  }

  /** writeUTF("FILE:"): length 5, then the five ASCII bytes. */
  const SentinelFrame: seq<Byte> := [0, 5, 70, 73, 76, 69, 58]

  lemma SentinelEncoding()
    ensures Encodable(Sentinel)
    ensures UtfFrame(Sentinel) == SentinelFrame
  {
    assert Sentinel[1..][1..][1..][1..][1..] == [];
    assert Utf(Sentinel) == [70, 73, 76, 69, 58];
  }

  /** A length-prefixed byte block: writeInt(bytes.length), then the bytes. */
  function Block(b: seq<Byte>): (r: seq<Byte>)
    requires IsArray(b)
    ensures |r| == 4 + |b| && r[4..] == b
  {
    U32(|b|) + b
  }

  /** The bytes of one file transfer: the sentinel text frame, the name
      block, the content block. */
  function FileFrame(name: seq<Byte>, content: seq<Byte>): (r: seq<Byte>)
    requires IsArray(name) && IsArray(content)
    ensures |r| == 7 + 4 + |name| + 4 + |content|
  {
    SentinelFrame + Block(name) + Block(content)
  }

  /** A file picked for sending: its name, the name's bytes in the platform
      charset (`getName().getBytes()`), and the result of reading its
      content (None when Files.readAllBytes fails). */
  datatype ChosenFile = ChosenFile(name: JString, nameBytes: seq<Byte>, content: Option<seq<Byte>>)

  /** What Java guarantees of a chosen file: every array and string length is an int. */
  predicate IsLoadable(f: ChosenFile) {
    |f.name| < IntLimit && IsArray(f.nameBytes) && (f.content.Some? ==> IsArray(f.content.value))
  }

  /** An event the sending side can put on the wire without an exception. */
  predicate Sendable(e: Event) {
    match e
    case Text(s) => Encodable(s)
    case File(n, c) => IsArray(n) && IsArray(c)
  }

  /** A sendable event the receiver cannot mistake for another: a text is
      not the sentinel. */
  predicate Unambiguous(e: Event) {
    Sendable(e) && (e.Text? ==> e.text != Sentinel)
  }

  predicate AllSendable(es: seq<Event>) {
    forall i :: 0 <= i < |es| ==> Sendable(es[i])
  }

  predicate AllUnambiguous(es: seq<Event>) {
    forall i :: 0 <= i < |es| ==> Unambiguous(es[i])
  }

  function Frame(e: Event): (r: seq<Byte>)
    requires Sendable(e)
    ensures 2 <= |r|
  {
    match e
    case Text(s) => UtfFrame(s)
    case File(n, c) => FileFrame(n, c)
  }

  /** The bytes a sender writes for a sequence of events, in order. */
  function Frames(es: seq<Event>): (r: seq<Byte>)
    requires AllSendable(es)
    ensures |r| >= 2 * |es|
  {
    if es == [] then [] else Frame(es[0]) + Frames(es[1..])
  }

  lemma {:induction false} FramesAppend(a: seq<Event>, b: seq<Event>)
    requires AllSendable(a)
    requires AllSendable(b)
    ensures Frames(a + b) == Frames(a) + Frames(b)
  {
    if a == [] {
      assert a + b == b;
    } else {
      assert (a + b)[1..] == a[1..] + b;
      FramesAppend(a[1..], b);
    }
  }

  // ---------------------------------------------------------------------
  // Reading

  /** readDataFromClient: readInt gives a length L; `new byte[L]` throws for
      a negative L; readFully then needs L more bytes. It fails exactly when
      fewer than 4 bytes remain, L is negative, or fewer than L bytes follow
      the prefix; otherwise it returns the L bytes after the prefix and
      moves the cursor by 4 + L. */
  function ReadBlockAt(inp: seq<Byte>, pos: nat): (r: Step<seq<Byte>>)
    requires pos <= |inp|
    ensures pos <= r.next <= |inp|
    ensures r.result.Ok? <==>
      4 <= |inp| - pos && 0 <= FromU32(inp[pos..pos + 4]) <= |inp| - pos - 4
    ensures r.result.Ok? ==>
      var n := FromU32(inp[pos..pos + 4]);
      r.next == pos + 4 + n && r.result.value == inp[pos + 4..pos + 4 + n]
    ensures r.result.Err? ==>
      r.result.fault ==
        if 4 <= |inp| - pos && FromU32(inp[pos..pos + 4]) < 0 then NegativeArraySize else EndOfStream
    ensures r.result.Err? && r.result.fault == EndOfStream ==> r.next == |inp|
  {
    var len := ReadIntAt(inp, pos);
    match len.result
    case Err(f) => Step(Err(f), len.next)
    case Ok(n) =>
      if n < 0 then Step(Err(NegativeArraySize), len.next)
      else ReadFullyAt(inp, len.next, n)
  }

  /** The outcome of one turn of a receive loop; `announced` records that
      the text read was the sentinel, so that any failure happened while
      reading the file's two blocks. */
  datatype EventStep = EventStep(result: Result<Event>, next: nat, announced: bool)

  /** What follows the sentinel: exactly one name block, then exactly one
      content block; the first failure ends the file. */
  function ReadFileAt(inp: seq<Byte>, pos: nat): (r: EventStep)
    requires pos <= |inp|
    ensures pos <= r.next <= |inp|
    ensures r.announced
    ensures r.result.Ok? ==> r.result.value.File?
    ensures r.result.Ok? ==>
      r.next == pos + 4 + |r.result.value.name| + 4 + |r.result.value.content|
      && r.result.value.name == inp[pos + 4..pos + 4 + |r.result.value.name|]
      && r.result.value.content == inp[r.next - |r.result.value.content|..r.next]
  {
    var name := ReadBlockAt(inp, pos);
    match name.result
    case Err(f) => EventStep(Err(f), name.next, true)
    case Ok(n) =>
      var content := ReadBlockAt(inp, name.next);
      match content.result
      case Err(f) => EventStep(Err(f), content.next, true)
      case Ok(c) => EventStep(Ok(File(n, c)), content.next, true)
  }

  /** What the receiver does with a text it has read: a text other than
      the sentinel is delivered as it is; the sentinel is followed by a file. */
  function AfterText(inp: seq<Byte>, pos: nat, s: JString): (r: EventStep)
    requires pos <= |inp|
    ensures pos <= r.next <= |inp|
    ensures r.announced == (s == Sentinel)
    ensures s != Sentinel ==> r == EventStep(Ok(Text(s)), pos, false)
    ensures r.result.Ok? ==> (r.announced <==> r.result.value.File?)
  {
    if s != Sentinel then EventStep(Ok(Text(s)), pos, false)
    else ReadFileAt(inp, pos)
  }

  /** One turn of the receive loop: readUTF, then AfterText. */
  function ReadEventAt(inp: seq<Byte>, pos: nat): (r: EventStep)
    requires pos <= |inp|
    ensures pos <= r.next <= |inp|
    ensures r.result.Ok? ==> pos + 2 <= r.next
    ensures r.result.Ok? ==> (r.announced <==> r.result.value.File?)
  {
    var t := ReadUtfAt(inp, pos);
    match t.result
    case Err(f) => EventStep(Err(f), t.next, false)
    case Ok(s) => AfterText(inp, t.next, s)
  }

  /** The events a turn delivers: its event, if it has one. */
  function Delivers(r: Result<Event>): (es: seq<Event>)
    ensures |es| <= 1
  {
    if r.Ok? then [r.value] else []
  }

  /** What a receive loop delivers before its first failed read, which read
      failed and how, where the cursor stopped, and whether the failure came
      after a sentinel. */
  datatype Outcome = Outcome(events: seq<Event>, fault: Fault, stop: nat, announced: bool)

  /** The receive dispatcher: turns until a read fails. */
  function Dispatch(inp: seq<Byte>, pos: nat): (o: Outcome)
    requires pos <= |inp|
    ensures pos <= o.stop <= |inp|
    ensures 2 * |o.events| <= o.stop - pos
    decreases |inp| - pos
  {
    var step := ReadEventAt(inp, pos);
    match step.result
    case Err(f) => Outcome([], f, step.next, step.announced)
    case Ok(e) =>
      var rest := Dispatch(inp, step.next);
      rest.(events := [e] + rest.events)
  }

  // ---------------------------------------------------------------------
  // Round trips

  /** Reading a block written as writeInt(length) + bytes returns the same
      bytes, zero-length ones included, and moves past the block. */
  lemma BlockRoundTrip(inp: seq<Byte>, pos: nat, b: seq<Byte>)
    requires IsArray(b)
    requires pos + |Block(b)| <= |inp| && inp[pos..pos + |Block(b)|] == Block(b)
    ensures ReadBlockAt(inp, pos) == Step(Ok(b), pos + |Block(b)|)
  {
    SliceParts(inp, pos, U32(|b|), b);
    U32RoundTrip(|b|);
  }

  /** A text other than the sentinel is delivered unchanged. */
  lemma TextRoundTrip(inp: seq<Byte>, pos: nat, s: JString)
    requires Encodable(s) && s != Sentinel
    requires pos + |UtfFrame(s)| <= |inp| && inp[pos..pos + |UtfFrame(s)|] == UtfFrame(s)
    ensures ReadEventAt(inp, pos) == EventStep(Ok(Text(s)), pos + |UtfFrame(s)|, false)
  {
    UtfFrameRoundTrip(inp, pos, s);
  }

  /** A file frame is read back as exactly one name block then one content
      block, byte for byte. */
  lemma FileFrameRoundTrip(inp: seq<Byte>, pos: nat, name: seq<Byte>, content: seq<Byte>)
    requires IsArray(name) && IsArray(content)
    requires pos + |FileFrame(name, content)| <= |inp|
    requires inp[pos..pos + |FileFrame(name, content)|] == FileFrame(name, content)
    ensures ReadEventAt(inp, pos) == EventStep(Ok(File(name, content)), pos + |FileFrame(name, content)|, true)
  {
    var blocks := Block(name) + Block(content);
    assert FileFrame(name, content) == SentinelFrame + blocks;
    SentinelAt(inp, pos, blocks);
    BlocksRoundTrip(inp, pos + 7, name, content);
    assert ReadEventAt(inp, pos) == AfterText(inp, pos + 7, Sentinel);
  }

  /** The sentinel frame in front of `rest` is read as the sentinel. */
  lemma SentinelAt(inp: seq<Byte>, pos: nat, rest: seq<Byte>)
    requires pos + 7 + |rest| <= |inp| && inp[pos..pos + 7 + |rest|] == SentinelFrame + rest
    ensures ReadUtfAt(inp, pos) == Step(Ok(Sentinel), pos + 7)
    ensures inp[pos + 7..pos + 7 + |rest|] == rest
  {
    SentinelEncoding();
    SliceParts(inp, pos, SentinelFrame, rest);
    UtfFrameRoundTrip(inp, pos, Sentinel);
  }

  /** The two blocks after the sentinel are read back as the name and the content. */
  lemma BlocksRoundTrip(inp: seq<Byte>, pos: nat, name: seq<Byte>, content: seq<Byte>)
    requires IsArray(name) && IsArray(content)
    requires pos + |Block(name)| + |Block(content)| <= |inp|
    requires inp[pos..pos + |Block(name)| + |Block(content)|] == Block(name) + Block(content)
    ensures ReadFileAt(inp, pos) == EventStep(Ok(File(name, content)), pos + |Block(name)| + |Block(content)|, true)
  {
    SliceParts(inp, pos, Block(name), Block(content));
    BlockRoundTrip(inp, pos, name);
    BlockRoundTrip(inp, pos + |Block(name)|, content);
  }

  lemma FrameRoundTrip(inp: seq<Byte>, pos: nat, e: Event)
    requires Unambiguous(e)
    requires pos + |Frame(e)| <= |inp| && inp[pos..pos + |Frame(e)|] == Frame(e)
    ensures ReadEventAt(inp, pos) == EventStep(Ok(e), pos + |Frame(e)|, e.File?)
  {
    match e
    case Text(s) => TextRoundTrip(inp, pos, s);
    case File(n, c) => FileFrameRoundTrip(inp, pos, n, c);
  }

  /** End to end: the receiver delivers, in order, exactly the events whose
      frames follow the cursor, provided no text equals the sentinel, and then
      stops at the end of the stream. */
  lemma {:induction false} RoundTrip(inp: seq<Byte>, pos: nat, es: seq<Event>)
    requires AllUnambiguous(es)
    requires pos <= |inp| && inp[pos..] == Frames(es)
    ensures Dispatch(inp, pos) == Outcome(es, EndOfStream, |inp|, false)
    decreases |es|
  {
    if es == [] {
      assert |inp| == pos;
    } else {
      var e, tail := es[0], es[1..];
      assert Unambiguous(e) && AllUnambiguous(tail);
      assert Frames(es) == Frame(e) + Frames(tail);
      var next := DispatchFrame(inp, pos, e, Frames(tail));
      RoundTrip(inp, next, tail);
      assert [e] + tail == es;
    }
  }

  /** A stream of one unambiguous frame delivers its event and ends. */
  lemma LoneFrame(e: Event)
    requires Unambiguous(e)
    ensures Dispatch(Frame(e), 0) == Outcome([e], EndOfStream, |Frame(e)|, false)
  {
    var inp := Frame(e);
    assert inp[0..] == Frame(e) + [];
    var next := DispatchFrame(inp, 0, e, []);
    assert ReadEventAt(inp, next) == EventStep(Err(EndOfStream), next, false);
  }

  /** An unambiguous frame at the cursor is delivered in front of what the
      rest of the stream delivers. */
  lemma DispatchFrame(inp: seq<Byte>, pos: nat, e: Event, tail: seq<Byte>) returns (next: nat)
    requires Unambiguous(e)
    requires pos <= |inp| && inp[pos..] == Frame(e) + tail
    ensures next == pos + |Frame(e)| <= |inp| && inp[next..] == tail
    ensures var rest := Dispatch(inp, next);
      Dispatch(inp, pos) == rest.(events := [e] + rest.events)
  {
    next := FrameAt(inp, pos, e, tail);
    DispatchDelivers(inp, pos);
  }

  /** One turn over an unambiguous frame followed by anything. */
  lemma FrameAt(inp: seq<Byte>, pos: nat, e: Event, tail: seq<Byte>) returns (next: nat)
    requires Unambiguous(e)
    requires pos <= |inp| && inp[pos..] == Frame(e) + tail
    ensures next == pos + |Frame(e)| <= |inp| && inp[next..] == tail
    ensures ReadEventAt(inp, pos) == EventStep(Ok(e), next, e.File?)
  {
    var f := Frame(e);
    next := pos + |f|;
    SplitSuffix(inp, pos, f, tail);
    FrameRoundTrip(inp, pos, e);
  }

  /** One successful turn of the dispatcher puts its event in front of
      what the rest of the stream delivers. */
  lemma DispatchDelivers(inp: seq<Byte>, pos: nat)
    requires pos <= |inp| && ReadEventAt(inp, pos).result.Ok?
    ensures var step := ReadEventAt(inp, pos);
      var rest := Dispatch(inp, step.next);
      Dispatch(inp, pos) == rest.(events := [step.result.value] + rest.events)
  {
  }

  /** Moving one delivered event from the outcome still to come to the
      events already delivered. */
  lemma Advance(rest: Outcome, done: seq<Event>, e: Event, next: Outcome)
    requires rest == next.(events := [e] + next.events)
    ensures rest.(events := done + rest.events) == next.(events := (done + [e]) + next.events)
  {
    assert done + ([e] + next.events) == (done + [e]) + next.events;
  }

  /** The same move, on the events delivered so far. */
  lemma AppendDelivered(delivered0: seq<Event>, done: seq<Event>, turn: seq<Event>, e: Event)
    requires turn == [e]
    ensures delivered0 + done + turn == delivered0 + (done + [e])
  {
  }

  lemma SplitSuffix(inp: seq<Byte>, pos: nat, a: seq<Byte>, b: seq<Byte>)
    requires pos <= |inp| && inp[pos..] == a + b
    ensures pos + |a| <= |inp|
    ensures inp[pos..pos + |a|] == a && inp[pos + |a|..] == b
  {
    assert inp[pos..pos + |a|] == (a + b)[..|a|];
    assert inp[pos + |a|..] == (a + b)[|a|..];
  }

  /** The same, for a receiver that has read nothing yet. */
  lemma StreamRoundTrip(es: seq<Event>)
    requires AllUnambiguous(es)
    ensures Dispatch(Frames(es), 0) == Outcome(es, EndOfStream, |Frames(es)|, false)
  {
    RoundTrip(Frames(es), 0, es);
  }

  // ---------------------------------------------------------------------
  // The sentinel collision

  /** A chat text equal to "FILE:" is written exactly like a file
      announcement, so the receiver never delivers it as a text: it goes on
      to read a name block and a content block. */
  lemma SentinelCollision(inp: seq<Byte>, pos: nat)
    requires pos + 7 <= |inp|
    requires inp[pos..pos + 7] == Frame(Text(Sentinel))
    ensures Sentinel != [] && !Unambiguous(Text(Sentinel))
    ensures ReadEventAt(inp, pos).announced
    ensures ReadEventAt(inp, pos).result.Ok? ==> ReadEventAt(inp, pos).result.value.File?
  {
    SentinelEncoding();
    UtfFrameRoundTrip(inp, pos, Sentinel);
  }

  /** A message "FILE:" that is the last thing sent leaves the receiver
      waiting for a name block that never comes: nothing is delivered and
      the loop ends at the end of the stream. */
  lemma LoneSentinelIsLost()
    ensures Sendable(Text(Sentinel))
    ensures Dispatch(Frames([Text(Sentinel)]), 0) == Outcome([], EndOfStream, 7, true)
  {
    SentinelEncoding();
    var inp := Frames([Text(Sentinel)]);
    assert [Text(Sentinel)][1..] == [];
    assert inp == Frame(Text(Sentinel)) + Frames([]);
    assert inp == SentinelFrame;
    UtfFrameRoundTrip(inp, 0, Sentinel);
    assert ReadFileAt(inp, 7) == EventStep(Err(EndOfStream), 7, true);
  }

  /** And a message "FILE:" sent just before two blocks' worth of bytes is
      indistinguishable from a file transfer of those bytes. */
  lemma SentinelTextThenBlocks(name: seq<Byte>, content: seq<Byte>)
    requires IsArray(name) && IsArray(content)
    ensures Sendable(Text(Sentinel))
    ensures Frame(Text(Sentinel)) + Block(name) + Block(content) == Frame(File(name, content))
    ensures Dispatch(Frame(Text(Sentinel)) + Block(name) + Block(content), 0).events == [File(name, content)]
  {
    SentinelEncoding();
    var inp := Frame(File(name, content));
    FileFrameRoundTrip(inp, 0, name, content);
    assert ReadUtfAt(inp, |inp|).result.Err?;
  }
}
