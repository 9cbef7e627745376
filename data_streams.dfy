/** The byte formats of java.io.DataOutputStream / DataInputStream that the
    messenger's framing is built on: big-endian 16- and 32-bit integers and
    the "modified UTF-8" of writeUTF/readUTF, together with the blocking
    reads of DataInputStream stated on an input sequence and a cursor. */
module DataStreams {

  /** One octet on the wire. */
  type Byte = b: int | 0 <= b < 256

  /** A Java `char`: one UTF-16 code unit. A Java `String` is a sequence of them. */
  type JChar = c: int | 0 <= c < 0x1_0000
  type JString = seq<JChar>

  /** 2^31: one past the largest Java `int`, and so a bound on the length of
      any Java array or string. */
  const IntLimit: int := 0x8000_0000

  /** writeUTF refuses an encoding longer than this many bytes. */
  const MaxUtfLength: int := 65535

  predicate IsJavaInt(n: int) {
    -IntLimit <= n < IntLimit
  }

  /** What a failed stream operation throws. Every kind but the last is an
      `IOException`; `NegativeArraySize` is the runtime exception of
      `new byte[length]` with a negative length. */
  datatype Fault =
    | EndOfStream        // EOFException: the peer's bytes ran out
    | SocketClosed       // SocketException: this side's socket was closed
    | MalformedUtf       // UTFDataFormatException from readUTF
    | UtfTooLong         // UTFDataFormatException from writeUTF
    | NegativeArraySize  // NegativeArraySizeException

  predicate IsIOException(f: Fault) {
    f != NegativeArraySize
  }

  datatype Result<T> = Ok(value: T) | Err(fault: Fault)

  datatype Option<T> = None | Some(value: T)

  /** The result of a read starting at some cursor, and where the cursor is afterwards. */
  datatype Step<T> = Step(result: Result<T>, next: nat)

  // ---------------------------------------------------------------------
  // Big-endian integers (writeShort/readUnsignedShort, writeInt/readInt)

  function U16(n: nat): (r: seq<Byte>)
    requires n < 0x1_0000
    ensures |r| == 2
  {
    [n / 256, n % 256]
  }

  function FromU16(b: seq<Byte>): (n: nat)
    requires |b| == 2
    ensures n < 0x1_0000
  {
    b[0] as int * 256 + b[1]
  }

  /** writeInt: the two's-complement 32-bit pattern, high byte first. */
  function U32(n: int): (r: seq<Byte>)
    requires IsJavaInt(n)
    ensures |r| == 4
  {
    var u := if n < 0 then n + 0x1_0000_0000 else n;
    [u / 0x100_0000, (u / 0x1_0000) % 256, (u / 256) % 256, u % 256]
  }

  /** readInt: four bytes, high byte first, read back as a signed Java int. */
  function FromU32(b: seq<Byte>): (n: int)
    requires |b| == 4
    ensures IsJavaInt(n)
    ensures (n < 0) == (b[0] >= 128)
  {
    var u := b[0] as int * 0x100_0000 + b[1] as int * 0x1_0000 + b[2] as int * 256 + b[3];
    if u >= IntLimit then u - 0x1_0000_0000 else u
  }

  lemma U16RoundTrip(n: nat)
    requires n < 0x1_0000
    ensures FromU16(U16(n)) == n
  {
  }

  lemma U32RoundTrip(n: int)
    requires IsJavaInt(n)
    ensures FromU32(U32(n)) == n
  {
    // The steps are not needed for validity; they keep the proof cheap and
    // stable across solver seeds.
    var u := if n < 0 then n + 0x1_0000_0000 else n;
    var a, b, c, d := u / 0x100_0000, (u / 0x1_0000) % 256, (u / 256) % 256, u % 256;
    assert u / 0x1_0000 == a * 256 + b;
    assert u / 256 == (a * 256 + b) * 256 + c;
    assert u == a * 0x100_0000 + b * 0x1_0000 + c * 256 + d;
  }

  /** Two Java ints with the same writeInt bytes are equal. */
  lemma U32Injective(m: int, n: int)
    requires IsJavaInt(m) && IsJavaInt(n)
    requires U32(m) == U32(n)
    ensures m == n
  {
    U32RoundTrip(m);
    U32RoundTrip(n);
  }

  // ---------------------------------------------------------------------
  // Modified UTF-8 (java.io.DataOutput.writeUTF, DataInput.readUTF)

  /** The bytes writeUTF emits for one char: one byte for U+0001..U+007F,
      two for U+0000 and U+0080..U+07FF, three for U+0800..U+FFFF. */
  function EncodeChar(c: JChar): (r: seq<Byte>)
    ensures 1 <= |r| <= 3
    ensures (|r| == 1) == (1 <= c < 0x80)
  {
    if 1 <= c < 0x80 then [c]
    else if c < 0x800 then [0xC0 + c / 64, 0x80 + c % 64]
    else [0xE0 + c / 4096, 0x80 + (c / 64) % 64, 0x80 + c % 64]
  }

  /** The modified UTF-8 encoding of a string (without its length prefix). */
  function Utf(s: JString): (r: seq<Byte>)
    ensures |s| <= |r| <= 3 * |s|
  {
    if s == [] then [] else EncodeChar(s[0]) + Utf(s[1..])
  }

  function Cons(c: JChar, rest: Option<JString>): Option<JString> {
    match rest
    case None => None
    case Some(t) => Some([c] + t)
  }

  /** The decoding loop of readUTF over the bytes of one frame: the top four
      bits of each lead byte select a one-, two- or three-byte sequence,
      whose continuation bytes must have the form 10xxxxxx; anything else,
      or a sequence cut off by the end of the frame, is malformed (None). */
  function DecodeUtf(b: seq<Byte>): (r: Option<JString>)
    decreases |b|
  {
    if b == [] then Some([])
    else
      var x: int := b[0];
      if x / 16 <= 7 then Cons(x, DecodeUtf(b[1..]))
      else if x / 16 == 12 || x / 16 == 13 then
        if |b| < 2 || b[1] / 64 != 2 then None
        else Cons((x % 32) * 64 + b[1] as int % 64, DecodeUtf(b[2..]))
      else if x / 16 == 14 then
        if |b| < 3 || b[1] / 64 != 2 || b[2] / 64 != 2 then None
        else Cons((x % 16) * 4096 + (b[1] as int % 64) * 64 + b[2] as int % 64, DecodeUtf(b[3..]))
      else None
  }

  /** Decoding one encoded char in front of any bytes yields that char in
      front of their decoding. */
  lemma DecodeEncodedChar(c: JChar, rest: seq<Byte>)
    ensures DecodeUtf(EncodeChar(c) + rest) == Cons(c, DecodeUtf(rest))
  {
    if 1 <= c < 0x80 {
      DecodeOneByte(c, rest);
    } else if c < 0x800 {
      DecodeTwoBytes(c, rest);
    } else {
      DecodeThreeBytes(c, rest);
    }
  }

  lemma DecodeOneByte(c: JChar, rest: seq<Byte>)
    requires 1 <= c < 0x80
    ensures DecodeUtf(EncodeChar(c) + rest) == Cons(c, DecodeUtf(rest))
  {
  }

  lemma TwoByteArithmetic(c: JChar)
    requires c < 0x800
    ensures var x, y := 0xC0 + c / 64, 0x80 + c % 64;
      (x / 16 == 12 || x / 16 == 13) && y / 64 == 2 && (x % 32) * 64 + y % 64 == c
  {
  }

  lemma DecodeTwoBytes(c: JChar, rest: seq<Byte>)
    requires !(1 <= c < 0x80) && c < 0x800
    ensures DecodeUtf(EncodeChar(c) + rest) == Cons(c, DecodeUtf(rest))
  {
  }

  lemma ThreeByteArithmetic(c: JChar)
    requires 0x800 <= c
    ensures var x, y, z := 0xE0 + c / 4096, 0x80 + (c / 64) % 64, 0x80 + c % 64;
      x / 16 == 14 && y / 64 == 2 && z / 64 == 2 && (x % 16) * 4096 + (y % 64) * 64 + z % 64 == c
  {
    // Not needed for validity; keeps the nonlinear arithmetic cheap.
    assert (c / 64) % 64 + (c / 4096) * 64 == c / 64;
  }

  lemma DecodeThreeBytes(c: JChar, rest: seq<Byte>)
    requires 0x800 <= c
    ensures DecodeUtf(EncodeChar(c) + rest) == Cons(c, DecodeUtf(rest))
  {
    // Not needed for validity; keeps the proof cheap across solver seeds.
    var x, y, z: Byte := 0xE0 + c / 4096, 0x80 + (c / 64) % 64, 0x80 + c % 64;
    var b := [x, y, z] + rest;
    assert EncodeChar(c) + rest == b;
    ThreeByteArithmetic(c);
    assert b[0] == x && b[1] == y && b[2] == z && b[3..] == rest;
  }

  /** readUTF's decoder inverts writeUTF's encoder. */
  lemma {:induction false} DecodeUtfOfUtf(s: JString)
    ensures DecodeUtf(Utf(s)) == Some(s)
  {
    if s != [] {
      DecodeUtfOfUtf(s[1..]);
      DecodeEncodedChar(s[0], Utf(s[1..]));
      assert [s[0]] + s[1..] == s;
    }
  }

  /** So writeUTF's encoding is injective: distinct strings never share bytes. */
  lemma UtfInjective(s: JString, t: JString)
    requires Utf(s) == Utf(t)
    ensures s == t
  {
    DecodeUtfOfUtf(s);
    DecodeUtfOfUtf(t);
  }

  // ---------------------------------------------------------------------
  // Blocking reads of DataInputStream, on the whole input `inp` and a cursor.
  // A read that runs out of bytes has consumed everything that was left.

  /** readFully into an array of length n. */
  function ReadFullyAt(inp: seq<Byte>, pos: nat, n: nat): (r: Step<seq<Byte>>)
    requires pos <= |inp|
    ensures pos <= r.next <= |inp|
  {
    if n <= |inp| - pos then Step(Ok(inp[pos..pos + n]), pos + n)
    else Step(Err(EndOfStream), |inp|)
  }

  /** readUnsignedShort. */
  function ReadU16At(inp: seq<Byte>, pos: nat): (r: Step<nat>)
    requires pos <= |inp|
    ensures pos <= r.next <= |inp|
  {
    if |inp| - pos < 2 then Step(Err(EndOfStream), |inp|)
    else Step(Ok(FromU16(inp[pos..pos + 2])), pos + 2)
  }

  /** readInt. */
  function ReadIntAt(inp: seq<Byte>, pos: nat): (r: Step<int>)
    requires pos <= |inp|
    ensures pos <= r.next <= |inp|
  {
    if |inp| - pos < 4 then Step(Err(EndOfStream), |inp|)
    else Step(Ok(FromU32(inp[pos..pos + 4])), pos + 4)
  }

  /** readUTF: a 2-byte length, readFully of that many bytes, then decoding. */
  function ReadUtfAt(inp: seq<Byte>, pos: nat): (r: Step<JString>)
    requires pos <= |inp|
    ensures pos <= r.next <= |inp|
    ensures r.result.Ok? ==> pos + 2 <= r.next
  {
    var len := ReadU16At(inp, pos);
    match len.result
    case Err(f) => Step(Err(f), len.next)
    case Ok(n) =>
      var body := ReadFullyAt(inp, len.next, n);
      match body.result
      case Err(f) => Step(Err(f), body.next)
      case Ok(bytes) =>
        match DecodeUtf(bytes)
        case None => Step(Err(MalformedUtf), body.next)
        case Some(s) => Step(Ok(s), body.next)
  }

  /** A text frame readUTF will parse: the 2-byte length and the modified UTF-8. */
  function UtfFrame(s: JString): (r: seq<Byte>)
    requires |Utf(s)| <= MaxUtfLength
    ensures |r| == 2 + |Utf(s)|
  {
    U16(|Utf(s)|) + Utf(s)
  }

  /** Reading a text frame written by writeUTF returns the same string and
      moves the cursor just past the frame. */
  lemma UtfFrameRoundTrip(inp: seq<Byte>, pos: nat, s: JString)
    requires |Utf(s)| <= MaxUtfLength
    requires pos + |UtfFrame(s)| <= |inp| && inp[pos..pos + |UtfFrame(s)|] == UtfFrame(s)
    ensures ReadUtfAt(inp, pos) == Step(Ok(s), pos + |UtfFrame(s)|)
  {
    var n := |Utf(s)|;
    SliceParts(inp, pos, U16(n), Utf(s));
    U16RoundTrip(n);
    assert ReadU16At(inp, pos) == Step(Ok(n), pos + 2);
    assert ReadFullyAt(inp, pos + 2, n) == Step(Ok(Utf(s)), pos + 2 + n);
    DecodeUtfOfUtf(s);
  }

  /** Where the two halves of `a + b` lie when it is found at `pos`. */
  lemma SliceParts(inp: seq<Byte>, pos: nat, a: seq<Byte>, b: seq<Byte>)
    requires pos + |a| + |b| <= |inp| && inp[pos..pos + |a| + |b|] == a + b
    ensures inp[pos..pos + |a|] == a
    ensures inp[pos + |a|..pos + |a| + |b|] == b
  {
    assert inp[pos..pos + |a|] == (a + b)[..|a|];
    assert inp[pos + |a|..pos + |a| + |b|] == (a + b)[|a|..];
  }
}
