/** FINS/TCP framing (transport.go:158-195, 209-225; server.go:370-391). */
module Transport {
  import opened Bytes

  /** "FINS" */
  const SIGNATURE: seq<byte> := [0x46, 0x49, 0x4e, 0x53]
  const HANDSHAKE_COMMAND: uint32 := 0
  const DATA_COMMAND: uint32 := 2
  const TWO32: int := 0x1_0000_0000

  datatype Message = Message(command: uint32, errorCode: uint32, body: seq<byte>)

  datatype ParseError = EndOfStream | BadSignature | BadLength(length: uint32)
  datatype Parsed = Parsed(message: Message, rest: seq<byte>) | Rejected(error: ParseError)

  // ---------- Writing ----------

  /** A frame on the wire; its length field is uint32(len(body)+8) and so wraps. */
  function Frame(command: uint32, errorCode: uint32, body: seq<byte>): (b: seq<byte>)
    ensures |b| == 16 + |body|
  {
    SIGNATURE + PutUint32((|body| + 8) % TWO32) + PutUint32(command) + PutUint32(errorCode) + body
  }

  method FinsTCPFrame(command: uint32, body: seq<byte>) returns (frame: array<byte>)
    ensures fresh(frame) && frame[..] == Frame(command, 0, body)
  {
    frame := new byte[16 + |body|](_ => 0);
    Copy(frame, 0, SIGNATURE);
    Copy(frame, 4, PutUint32((|body| + 8) % TWO32));
    Copy(frame, 8, PutUint32(command));
    Copy(frame, 12, PutUint32(0));
    Copy(frame, 16, body);
    assert frame[..] == frame[..16 + |body|];
  }

  /** copy(dst[at:], src), where src fits. */
  method Copy(dst: array<byte>, at: nat, src: seq<byte>)
    requires at + |src| <= dst.Length
    modifies dst
    ensures dst[..at + |src|] == old(dst[..at]) + src
    ensures dst[at + |src|..] == old(dst[at + |src|..])
  {
    forall i | 0 <= i < |src| {
      dst[at + i] := src[i];
    }
    assert dst[..at + |src|] == dst[..at] + dst[at..at + |src|];
  }

  // ---------- Reading ----------

  /** The parser as a function of the whole remaining stream. */
  function Parse(stream: seq<byte>): Parsed {
    if |stream| < 8 then Rejected(EndOfStream)
    else if stream[..4] != SIGNATURE then Rejected(BadSignature)
    else
      var length := Uint32(stream[4..8]);
      if length < 8 then Rejected(BadLength(length))
      else if |stream| < 8 + length then Rejected(EndOfStream)
      else Parsed(Message(Uint32(stream[8..12]), Uint32(stream[12..16]), stream[16..8 + length]), stream[8 + length..])
  }

  /** bufio.Reader over a fixed stream; io.ReadFull takes exactly n bytes or fails at the end. */
  class Reader {
    const stream: seq<byte>
    var pos: nat

    ghost predicate Valid() reads this { pos <= |stream| }

    function Remaining(): seq<byte>
      reads this
      requires Valid()
    {
      stream[pos..]
    }

    constructor (stream: seq<byte>)
      ensures Valid() && Remaining() == stream
    {
      this.stream := stream;
      pos := 0;
    }

    method ReadFull(n: nat) returns (bytes: Option<seq<byte>>)
      requires Valid()
      modifies this
      ensures Valid()
      ensures bytes.Some? <==> n <= |old(Remaining())|
      ensures bytes.Some? ==> bytes.value == old(Remaining())[..n] && Remaining() == old(Remaining())[n..]
    {
      if pos + n > |stream| {
        pos := |stream|;
        return None;
      }
      bytes := Some(stream[pos..pos + n]);
      pos := pos + n;
    }

    /** readFrame of the client; the server's readTCPMessage is the same text. */
    method ReadFrame() returns (r: Parsed)
      requires Valid()
      modifies this
      ensures Valid()
      ensures r.Rejected? <==> Parse(old(Remaining())).Rejected?
      ensures r.Rejected? ==> r == Parse(old(Remaining()))
      ensures r.Parsed? ==> r == Parse(old(Remaining())) && r.rest == Remaining()
    {
      ghost var before := Remaining();
      var header := ReadFull(8);
      if header.None? {
        return Rejected(EndOfStream);
      }
      assert header.value[..4] == before[..4] && header.value[4..8] == before[4..8];
      if header.value[..4] != SIGNATURE {
        return Rejected(BadSignature);
      }
      var length := Uint32(header.value[4..8]);
      if length < 8 {
        return Rejected(BadLength(length));
      }
      var body := ReadFull(length);
      if body.None? {
        return Rejected(EndOfStream);
      }
      assert body.value == before[8..8 + length];
      assert body.value[..4] == before[8..12] && body.value[4..8] == before[12..16];
      assert body.value[8..] == before[16..8 + length] && Remaining() == before[8 + length..];
      return Parsed(Message(Uint32(body.value[..4]), Uint32(body.value[4..8]), body.value[8..]), stream[pos..]);
    }
  }

  // ---------- Framing laws ----------

  /** What the parser makes of a stream, by the four-byte fields it starts with. */
  lemma ParseFields(length: seq<byte>, command: seq<byte>, errorCode: seq<byte>, tail: seq<byte>)
    requires |length| == |command| == |errorCode| == 4
    ensures var n := Uint32(length) - 8;
            Parse(SIGNATURE + length + command + errorCode + tail) == (
              if n < 0 then Rejected(BadLength(Uint32(length)))
              else if n > |tail| then Rejected(EndOfStream)
              else Parsed(Message(Uint32(command), Uint32(errorCode), tail[..n]), tail[n..]))
  {
    var b := SIGNATURE + length + command + errorCode + tail;
    assert b[..4] == SIGNATURE && b[4..8] == length && b[8..12] == command && b[12..16] == errorCode;
    assert b[16..] == tail;
    var end: int := 8 + Uint32(length) as int;
    if 16 <= end <= |b| {
      assert b[16..end] == tail[..end - 16] && b[end..] == tail[end - 16..];
    }
  }

  /** What the parser makes of a frame, in terms of the length its four bytes hold. */
  lemma ParseFrame(m: Message, rest: seq<byte>, length: uint32)
    requires length == (|m.body| + 8) % TWO32
    ensures Parse(Frame(m.command, m.errorCode, m.body) + rest) == (
              if length < 8 then Rejected(BadLength(length))
              else Parsed(m.(body := (m.body + rest)[..length - 8]), (m.body + rest)[length - 8..]))
  {
    var l, c, e := PutUint32(length), PutUint32(m.command), PutUint32(m.errorCode);
    ParseFields(l, c, e, m.body + rest);
    assert Frame(m.command, m.errorCode, m.body) + rest == SIGNATURE + l + c + e + (m.body + rest);
    Uint32RoundTrip(length);
    Uint32RoundTrip(m.command);
    Uint32RoundTrip(m.errorCode);
  }

  lemma FittingFrameParses(m: Message, rest: seq<byte>)
    requires |m.body| + 8 < TWO32
    ensures Parse(Frame(m.command, m.errorCode, m.body) + rest) == Parsed(m, rest)
  {
    assert (|m.body| + 8) % TWO32 == |m.body| + 8;
    ParseFrame(m, rest, |m.body| + 8);
    BodyThenRest(m.body, rest);
  }

  lemma WrappedFrameDoesNot(m: Message, rest: seq<byte>)
    requires |m.body| + 8 >= TWO32
    ensures Parse(Frame(m.command, m.errorCode, m.body) + rest) != Parsed(m, rest)
  {
    var length := (|m.body| + 8) % TWO32;
    ParseFrame(m, rest, length);
    if length >= 8 {
      CutBodyDiffers(m.body, rest, length - 8);
    }
  }

  /** A frame followed by anything parses back to its message, consuming exactly its own bytes,
      if and only if the length field did not wrap. */
  lemma FrameRoundTripWhen(m: Message, rest: seq<byte>)
    ensures Parse(Frame(m.command, m.errorCode, m.body) + rest) == Parsed(m, rest) <==> |m.body| + 8 < TWO32
  {
    if |m.body| + 8 < TWO32 {
      FittingFrameParses(m, rest);
    } else {
      WrappedFrameDoesNot(m, rest);
    }
  }

  lemma BodyThenRest(body: seq<byte>, rest: seq<byte>)
    ensures (body + rest)[..|body|] == body && (body + rest)[|body|..] == rest
  {
  }

  lemma CutBodyDiffers(body: seq<byte>, rest: seq<byte>, n: nat)
    requires n < |body|
    ensures (body + rest)[..n] != body
  {
    assert |(body + rest)[..n]| == n;
  }

  /** Whatever parses is, byte for byte, the frame of the message it parsed to. */
  lemma ParsedBytesReserialise(stream: seq<byte>)
    requires Parse(stream).Parsed?
    ensures var m := Parse(stream).message;
            && stream == Frame(m.command, m.errorCode, m.body) + Parse(stream).rest
            && |m.body| + 8 < TWO32
  {
    var length: int := Uint32(stream[4..8]);
    Pieces(stream, 8 + length);
    FieldsOfFrame(stream[4..8], stream[8..12], stream[12..16], stream[16..8 + length]);
  }

  lemma FieldsOfFrame(length: seq<byte>, command: seq<byte>, errorCode: seq<byte>, body: seq<byte>)
    requires |length| == |command| == |errorCode| == 4 && Uint32(length) == |body| + 8
    ensures Frame(Uint32(command), Uint32(errorCode), body) == SIGNATURE + length + command + errorCode + body
  {
    Uint32Injective(length);
    Uint32Injective(command);
    Uint32Injective(errorCode);
    assert (|body| + 8) % TWO32 == Uint32(length);
  }

  lemma Uint32Is(a: byte, b: byte, c: byte, d: byte)
    ensures Uint32([a, b, c, d]) == 0x100_0000 * (a as int) + 0x1_0000 * (b as int) + 0x100 * (c as int) + d
  {
    var four: seq<byte>, three: seq<byte>, two: seq<byte>, one: seq<byte> := [a, b, c, d], [a, b, c], [a, b], [a];
    assert four[..3] == three && three[..2] == two && two[..1] == one && one[..0] == [];
    assert BigEndianValue(one) == a;
    assert BigEndianValue(two) == 0x100 * (a as int) + b;
    assert BigEndianValue(three) == 0x1_0000 * (a as int) + 0x100 * (b as int) + c;
  }

  /** A frame, byte by byte: "FINS", the length from the command on, the command, no error, the body; the command
      is 2 in a data frame and 0 in a handshake. */
  lemma FrameBytes(command: byte, body: seq<byte>, l0: byte, l1: byte, l2: byte, l3: byte)
    requires |body| + 8 == 0x100_0000 * (l0 as int) + 0x1_0000 * (l1 as int) + 0x100 * (l2 as int) + l3
    ensures Frame(command, 0, body)
         == [0x46, 0x49, 0x4e, 0x53] + [l0, l1, l2, l3] + [0, 0, 0, command] + [0, 0, 0, 0] + body
    ensures DATA_COMMAND == 2 && HANDSHAKE_COMMAND == 0
  {
    Uint32Is(l0, l1, l2, l3);
    Uint32Is(0, 0, 0, command);
    Uint32Is(0, 0, 0, 0);
    FieldsOfFrame([l0, l1, l2, l3], [0, 0, 0, command], [0, 0, 0, 0], body);
  }

  lemma Pieces(b: seq<byte>, end: nat)
    requires 16 <= end <= |b|
    ensures b == b[..4] + b[4..8] + b[8..12] + b[12..16] + b[16..end] + b[end..]
  {
  }

  function Frames(ms: seq<Message>): seq<byte> {
    if ms == [] then [] else Frame(ms[0].command, ms[0].errorCode, ms[0].body) + Frames(ms[1..])
  }

  /** All the messages at the front of a stream, and the bytes where parsing stopped. */
  function ParseAll(stream: seq<byte>): (r: (seq<Message>, seq<byte>))
    decreases |stream|
  {
    var p := Parse(stream);
    if p.Rejected? then ([], stream)
    else
      var (ms, rest) := ParseAll(p.rest);
      ([p.message] + ms, rest)
  }

  /** Any list of messages comes back from the concatenation of their frames, in order, with nothing left over. */
  lemma {:induction false} StreamRoundTrip(ms: seq<Message>)
    requires forall m :: m in ms ==> |m.body| + 8 < TWO32
    ensures ParseAll(Frames(ms)) == (ms, [])
  {
    if ms != [] {
      FrameRoundTripWhen(ms[0], Frames(ms[1..]));
      StreamRoundTrip(ms[1..]);
      assert [ms[0]] + ms[1..] == ms;
    }
  }

  /** Conversely every stream is the frames of the messages read from it, followed by what was not read. */
  lemma {:induction false} StreamReserialises(stream: seq<byte>)
    ensures var (ms, rest) := ParseAll(stream);
            stream == Frames(ms) + rest && Parse(rest).Rejected?
    decreases |stream|
  {
    var p := Parse(stream);
    if p.Parsed? {
      ParsedBytesReserialise(stream);
      StreamReserialises(p.rest);
      var (ms, rest) := ParseAll(p.rest);
      var m := p.message;
      assert ([m] + ms)[1..] == ms;
      assert stream == Frame(m.command, m.errorCode, m.body) + (Frames(ms) + rest);
    }
  }
}
