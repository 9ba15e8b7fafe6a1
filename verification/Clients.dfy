/** The two ways to the simulator's memory: directly (inline_client.go) and as command frames
    over the network (client.go:593-763, 817-839), and where they agree. */
module Clients {
  import opened Bytes
  import opened Driver
  import opened Server
  import T = Transport

  /** An operation's outcome; Crash is a Go run-time panic on either side of the connection. */
  datatype Result<+R> = Ok(value: R) | IncompatibleArea(area: byte) | EndCodeError(endCode: uint16) | Crash

  datatype Unit = Unit

  /** checkIsWordMemoryArea and checkIsBitMemoryArea leave out the CIO area the simulator has. */
  const CLIENT_WORD_AREAS: set<byte> := {DM_WORD, AR_WORD, HR_WORD, WR_WORD}
  const CLIENT_BIT_AREAS: set<byte> := {DM_BIT, AR_BIT, HR_BIT, WR_BIT}

  lemma ClientAreas(area: byte)
    ensures area in CLIENT_WORD_AREAS ==> area in WORD_AREAS && area !in BIT_AREAS
    ensures area in CLIENT_BIT_AREAS ==> area in BIT_AREAS && area !in WORD_AREAS
  {
  }

  // ---------- Converting data ----------

  /** The byte-order loop over a raw answer; it panics when the answer holds fewer than count words. */
  function WordsOf(o: ByteOrder, raw: seq<byte>, count: uint16): Result<seq<uint16>> {
    if 2 * (count as int) > |raw| then Crash
    else Ok(seq(count, i requires 0 <= i < count => Uint16(o, raw[2 * i..2 * i + 2])))
  }

  function BitsOf(raw: seq<byte>, count: uint16): Result<seq<bool>> {
    if count > |raw| then Crash else Ok(seq(count, i requires 0 <= i < count => raw[i] % 2 > 0))
  }

  /** The direct path loops over the raw answer instead, and panics when it holds more than count bits. */
  function BitsOver(raw: seq<byte>, count: uint16): Result<seq<bool>> {
    if |raw| > count then Crash else Ok(seq(count, i requires 0 <= i < count => i < |raw| && raw[i] % 2 > 0))
  }

  /** The words as bytes, two each. */
  function BytesOf(o: ByteOrder, ws: seq<uint16>): (b: seq<byte>)
    ensures |b| == 2 * |ws|
  {
    if ws == [] then [] else BytesOf(o, ws[..|ws| - 1]) + PutUint16(o, ws[|ws| - 1])
  }

  function BitBytes(bits: seq<bool>): (b: seq<byte>)
    ensures |b| == |bits|
  {
    seq(|bits|, i requires 0 <= i < |bits| => if bits[i] then 1 else 0)
  }

  /** uint16(len(data)) */
  function Count<A>(data: seq<A>): uint16 { U16(|data|) }

  /** The payload of a word write; make([]byte, 2*l) is too short, and the loop panics, once 2*l wraps. */
  function Payload(o: ByteOrder, data: seq<uint16>): Option<seq<byte>> {
    if Count(data) >= 0x8000 then None else Some(BytesOf(o, data[..Count(data)]))
  }

  /** make([]byte, 2*len(s)) with s copied in. */
  function StringPayload(s: seq<byte>): (b: seq<byte>)
    ensures |b| == 2 * |s|
  {
    s + seq(|s|, _ => 0)
  }

  function StringCount(s: seq<byte>): uint16 { U16((|s| + 1) / 2) }

  /** bytes.IndexByte(data, 0), or the length if there is no NUL. */
  function UpToNul(data: seq<byte>): (r: seq<byte>)
    ensures r <= data && 0 !in r && (r == data || data[|r|] == 0)
  {
    if data == [] || data[0] == 0 then []
    else
      var r := UpToNul(data[1..]);
      assert [data[0]] + data[1..] == data;
      [data[0]] + r
  }

  method FillWords(o: ByteOrder, raw: seq<byte>, count: uint16) returns (r: Result<seq<uint16>>)
    ensures r == WordsOf(o, raw, count)
  {
    var data := new uint16[count](_ => 0);
    for i := 0 to count
      invariant 2 * i <= |raw|
      invariant forall k :: 0 <= k < i ==> data[k] == Uint16(o, raw[2 * k..2 * k + 2])
    {
      if 2 * i + 2 > |raw| {
        return Crash;
      }
      data[i] := Uint16(o, raw[2 * i..2 * i + 2]);
    }
    assert data[..] == WordsOf(o, raw, count).value;
    return Ok(data[..]);
  }

  method FillBits(raw: seq<byte>, count: uint16) returns (r: Result<seq<bool>>)
    ensures r == BitsOf(raw, count)
  {
    var data := new bool[count](_ => false);
    for i := 0 to count
      invariant i <= |raw|
      invariant forall k :: 0 <= k < i ==> data[k] == (raw[k] % 2 > 0)
    {
      if i >= |raw| {
        return Crash;
      }
      data[i] := raw[i] % 2 > 0;
    }
    assert data[..] == BitsOf(raw, count).value;
    return Ok(data[..]);
  }

  method FillBitsOver(raw: seq<byte>, count: uint16) returns (r: Result<seq<bool>>)
    ensures r == BitsOver(raw, count)
  {
    var bools := new bool[count](_ => false);
    for i := 0 to |raw|
      invariant i <= count
      invariant forall k :: 0 <= k < count ==> bools[k] == (k < i && raw[k] % 2 > 0)
    {
      if i >= count {
        return Crash;
      }
      bools[i] := raw[i] % 2 > 0;
    }
    assert bools[..] == BitsOver(raw, count).value;
    return Ok(bools[..]);
  }

  method PackWords(o: ByteOrder, data: seq<uint16>) returns (r: Option<seq<byte>>)
    ensures r == Payload(o, data)
  {
    var l := Count(data);
    if U16(2 * (l as int)) < 2 * (l as int) {
      return None;
    }
    var bts := [];
    for i := 0 to l
      invariant bts == BytesOf(o, data[..i])
    {
      assert data[..i + 1][..i] == data[..i];
      bts := bts + PutUint16(o, data[i]);
    }
    return Some(bts);
  }

  // ---------- The direct path, as functions ----------

  function Checked(a: Answer): Result<seq<byte>> {
    if a.Panic? then Crash else if a.endCode != NORMAL then EndCodeError(a.endCode) else Ok(a.data)
  }

  function AsWords(r: Result<seq<byte>>, o: ByteOrder, count: uint16): Result<seq<uint16>> {
    match r
    case Ok(raw) => WordsOf(o, raw, count)
    case IncompatibleArea(area) => IncompatibleArea(area)
    case EndCodeError(e) => EndCodeError(e)
    case Crash => Crash
  }

  function AsBits(r: Result<seq<byte>>, count: uint16): Result<seq<bool>> {
    match r
    case Ok(raw) => BitsOf(raw, count)
    case IncompatibleArea(area) => IncompatibleArea(area)
    case EndCodeError(e) => EndCodeError(e)
    case Crash => Crash
  }

  function AsString(r: Result<seq<byte>>): Result<seq<byte>> {
    if r.Ok? then Ok(UpToNul(r.value)) else r
  }

  function AsDone(r: Result<seq<byte>>): Result<Unit> {
    match r
    case Ok(_) => Ok(Unit)
    case IncompatibleArea(area) => IncompatibleArea(area)
    case EndCodeError(e) => EndCodeError(e)
    case Crash => Crash
  }

  function InlineReadBytes(m: Memory, area: byte, address: uint16, count: uint16): Result<seq<byte>>
    requires WellFormed(m)
  {
    if area !in CLIENT_WORD_AREAS then IncompatibleArea(area)
    else Checked(Apply(m, ReadWords(area, address, count)).1)
  }

  function InlineReadWords(m: Memory, o: ByteOrder, area: byte, address: uint16, count: uint16): Result<seq<uint16>>
    requires WellFormed(m)
  {
    AsWords(InlineReadBytes(m, area, address, count), o, count)
  }

  function InlineReadBits(m: Memory, area: byte, address: uint16, bitOffset: byte, count: uint16): Result<seq<bool>>
    requires WellFormed(m)
  {
    if area !in CLIENT_BIT_AREAS then IncompatibleArea(area)
    else
      var raw := Checked(Apply(m, ReadBits(area, address, bitOffset, count)).1);
      if raw.Ok? then BitsOver(raw.value, count) else AsBits(raw, count)
  }

  /** A direct write and its outcome. */
  function InlineWrite(m: Memory, c: Command): (r: (Memory, Result<Unit>))
    requires WellFormed(m)
    ensures WellFormed(r.0)
  {
    (Apply(m, c).0, AsDone(Checked(Apply(m, c).1)))
  }

  function InlineWriteWords(m: Memory, o: ByteOrder, area: byte, address: uint16, data: seq<uint16>)
    : (Memory, Result<Unit>)
    requires WellFormed(m)
  {
    if area !in CLIENT_WORD_AREAS then (m, IncompatibleArea(area))
    else if Payload(o, data).None? then (m, Crash)
    else InlineWrite(m, WriteWords(area, address, Count(data), Payload(o, data).value))
  }

  function InlineWriteBits(m: Memory, area: byte, address: uint16, bitOffset: byte, data: seq<bool>)
    : (Memory, Result<Unit>)
    requires WellFormed(m)
  {
    if area !in CLIENT_BIT_AREAS then (m, IncompatibleArea(area))
    else InlineWrite(m, WriteBits(area, address, bitOffset, Count(data), BitBytes(data[..Count(data)])))
  }

  function InlineWriteString(m: Memory, area: byte, address: uint16, s: seq<byte>): (r: (Memory, Result<Unit>))
    requires WellFormed(m)
    ensures WellFormed(r.0)
  {
    if area !in CLIENT_WORD_AREAS then (m, IncompatibleArea(area))
    else InlineWrite(m, WriteWords(area, address, StringCount(s), StringPayload(s)))
  }

  function InlineReadString(m: Memory, area: byte, address: uint16, count: uint16): Result<seq<byte>>
    requires WellFormed(m)
  {
    AsString(InlineReadBytes(m, area, address, count))
  }

  // ---------- The wire path, as functions ----------

  /** How the client reaches the simulator, and the header fields of its next command. */
  datatype Link = Link(tcp: bool, src: FinsAddress, dst: FinsAddress, sid: byte, clock: seq<byte>)
  {
    ghost predicate Valid() { |clock| <= AREA_SIZE }
  }

  /** One message across the connection: as it is over UDP, in a FINS/TCP data frame over TCP. */
  function Carried(tcp: bool, bytes: seq<byte>): Option<seq<byte>> {
    if !tcp then Some(bytes)
    else
      match T.Parse(T.Frame(T.DATA_COMMAND, 0, bytes))
      case Parsed(m, _) => Some(m.body)
      case Rejected(_) => None
  }

  /** Encode the command, frame it, decode it, handle it, encode the response, frame it, decode it. */
  function Exchange(m: Memory, link: Link, command: seq<byte>): (h: Handled)
    requires WellFormed(m)
    ensures WellFormed(h.memory)
  {
    match Carried(link.tcp, EncodeHeader(DefaultCommandHeader(link.src, link.dst, link.sid)) + command)
    case None => Handled(m, None)
    case Some(frame) =>
      var served := Serve(m, frame, link.clock);
      Handled(served.memory, Received(link.tcp, served.reply))
  }

  /** The client's end: the reply off the connection, decoded. */
  function Received(tcp: bool, reply: Option<seq<byte>>): Option<Response> {
    if reply.None? || Carried(tcp, reply.value).None? then None else DecodeResponse(Carried(tcp, reply.value).value)
  }

  function CheckResponse(r: Option<Response>): Result<seq<byte>> {
    if r.None? then Crash
    else if r.value.endCode != NORMAL then EndCodeError(r.value.endCode)
    else Ok(r.value.data)
  }

  /** A read command over the wire: the simulator's memory afterwards, and the raw answer. */
  function WireRead(m: Memory, link: Link, at: MemoryAddress, count: uint16): (r: (Memory, Result<seq<byte>>))
    requires WellFormed(m)
    ensures WellFormed(r.0)
  {
    var h := Exchange(m, link, CommandBytes(MEMORY_AREA_READ, at, count, []));
    (h.memory, CheckResponse(h.response))
  }

  function WireReadBytes(m: Memory, link: Link, area: byte, address: uint16, count: uint16): (Memory, Result<seq<byte>>)
    requires WellFormed(m)
  {
    if area !in CLIENT_WORD_AREAS then (m, IncompatibleArea(area))
    else WireRead(m, link, MemoryAddress(area, address, 0), count)
  }

  function WireReadWords(m: Memory, link: Link, o: ByteOrder, area: byte, address: uint16, count: uint16)
    : (Memory, Result<seq<uint16>>)
    requires WellFormed(m)
  {
    var (m', raw) := WireReadBytes(m, link, area, address, count);
    (m', AsWords(raw, o, count))
  }

  function WireReadBits(m: Memory, link: Link, area: byte, address: uint16, bitOffset: byte, count: uint16)
    : (Memory, Result<seq<bool>>)
    requires WellFormed(m)
  {
    if area !in CLIENT_BIT_AREAS then (m, IncompatibleArea(area))
    else
      var (m', raw) := WireRead(m, link, MemoryAddress(area, address, bitOffset), count);
      (m', AsBits(raw, count))
  }

  function WireWrite(m: Memory, link: Link, at: MemoryAddress, count: uint16, payload: seq<byte>)
    : (r: (Memory, Result<Unit>))
    requires WellFormed(m)
    ensures WellFormed(r.0)
  {
    var h := Exchange(m, link, CommandBytes(MEMORY_AREA_WRITE, at, count, payload));
    (h.memory, AsDone(CheckResponse(h.response)))
  }

  function WireWriteWords(m: Memory, link: Link, o: ByteOrder, area: byte, address: uint16, data: seq<uint16>)
    : (Memory, Result<Unit>)
    requires WellFormed(m)
  {
    if area !in CLIENT_WORD_AREAS then (m, IncompatibleArea(area))
    else if Payload(o, data).None? then (m, Crash)
    else WireWrite(m, link, MemoryAddress(area, address, 0), Count(data), Payload(o, data).value)
  }

  function WireWriteBits(m: Memory, link: Link, area: byte, address: uint16, bitOffset: byte, data: seq<bool>)
    : (Memory, Result<Unit>)
    requires WellFormed(m)
  {
    if area !in CLIENT_BIT_AREAS then (m, IncompatibleArea(area))
    else WireWrite(m, link, MemoryAddress(area, address, bitOffset), Count(data), BitBytes(data[..Count(data)]))
  }

  function WireWriteString(m: Memory, link: Link, area: byte, address: uint16, s: seq<byte>)
    : (r: (Memory, Result<Unit>))
    requires WellFormed(m)
    ensures WellFormed(r.0)
  {
    if area !in CLIENT_WORD_AREAS then (m, IncompatibleArea(area))
    else WireWrite(m, link, MemoryAddress(area, address, 0), StringCount(s), StringPayload(s))
  }

  function WireReadString(m: Memory, link: Link, area: byte, address: uint16, count: uint16)
    : (Memory, Result<seq<byte>>)
    requires WellFormed(m)
  {
    var (m', raw) := WireReadBytes(m, link, area, address, count);
    (m', AsString(raw))
  }

  // ---------- The wire is transparent ----------

  lemma CarriedIntact(tcp: bool, bytes: seq<byte>)
    requires |bytes| + 8 < T.TWO32
    ensures Carried(tcp, bytes) == Some(bytes)
  {
    T.FrameRoundTripWhen(T.Message(T.DATA_COMMAND, 0, bytes), []);
    assert T.Frame(T.DATA_COMMAND, 0, bytes) + [] == T.Frame(T.DATA_COMMAND, 0, bytes);
  }

  /** Encoding, framing and decoding both ways amount to the handler alone, response header included. */
  lemma ExchangeIsHandle(m: Memory, link: Link, code: uint16, data: seq<byte>)
    requires WellFormed(m) && link.Valid() && 20 + |data| < T.TWO32
    ensures var header := DefaultCommandHeader(link.src, link.dst, link.sid);
            Exchange(m, link, PutUint16(BigEndian, code) + data) == Handle(m, Request(header, code, data), link.clock)
  {
    var header := DefaultCommandHeader(link.src, link.dst, link.sid);
    var frame := EncodeHeader(header) + (PutUint16(BigEndian, code) + data);
    CarriedIntact(link.tcp, frame);
    RequestRoundTrip(link.src, link.dst, link.sid, code, data);
    var h := Handle(m, Request(header, code, data), link.clock);
    if h.response.Some? {
      ResponseShape(m, Request(header, code, data), link.clock);
      ReplyReceived(link.tcp, h.response.value, header);
    }
  }

  /** The client receives a response as it was sent. */
  lemma ReplyReceived(tcp: bool, r: Response, command: Header)
    requires r.header == DefaultResponseHeader(command) && |r.data| <= AREA_SIZE
    ensures Received(tcp, Some(EncodeResponse(r))) == Some(r)
  {
    CarriedIntact(tcp, EncodeResponse(r));
    ResponseRoundTripWhen(r);
  }

  lemma ReadRequested(at: MemoryAddress, count: uint16)
    ensures RequestedCommand(MEMORY_AREA_READ, Designation(at, count)) == Some(ReadAt(at, count))
  {
    DesignationRoundTrip(at, count, []);
    assert Designation(at, count) + [] == Designation(at, count);
  }

  /** How many payload bytes the handler takes for a count: for words, doubled in uint16. */
  function TakenSize(at: MemoryAddress, count: uint16): uint16 {
    if at.memoryArea in BIT_AREAS then count else U16(2 * (count as int))
  }

  /** The handler takes that many bytes of the payload, unless 6 plus the size wraps: then it panics. */
  lemma WriteRequested(at: MemoryAddress, count: uint16, payload: seq<byte>)
    requires at.memoryArea in WORD_AREAS + BIT_AREAS && TakenSize(at, count) <= |payload|
    ensures var size: int := TakenSize(at, count);
            RequestedCommand(MEMORY_AREA_WRITE, Designation(at, count) + payload) == (
              if 6 + size < 0x1_0000 then Some(WriteAt(at, count, payload[..size])) else None)
  {
    DesignationRoundTrip(at, count, payload);
    WriteSliced(at, count, Designation(at, count), payload);
  }

  lemma WriteSliced(at: MemoryAddress, count: uint16, designation: seq<byte>, payload: seq<byte>)
    requires at.memoryArea in WORD_AREAS + BIT_AREAS && TakenSize(at, count) <= |payload|
    requires |designation| == 6
    ensures var size: int := TakenSize(at, count);
            RequestedWrite(at, count, designation + payload) == (
              if 6 + size < 0x1_0000 then Some(WriteAt(at, count, payload[..size])) else None)
  {
    AreaCodesDiffer(at.memoryArea);
    var size: int := TakenSize(at, count);
    if 6 + size < 0x1_0000 {
      assert (designation + payload)[6..6 + size] == payload[..size];
    }
  }

  /** A read command over the wire is the read itself, and leaves the memory as it was. */
  lemma WireReadIsRead(m: Memory, link: Link, at: MemoryAddress, count: uint16)
    requires WellFormed(m) && link.Valid()
    ensures WireRead(m, link, at, count) == (m, Checked(Apply(m, ReadAt(at, count)).1))
  {
    var data := Designation(at, count);
    assert CommandBytes(MEMORY_AREA_READ, at, count, []) == PutUint16(BigEndian, MEMORY_AREA_READ) + data;
    ExchangeIsHandle(m, link, MEMORY_AREA_READ, data);
    ReadRequested(at, count);
    HandledRead(m, Request(DefaultCommandHeader(link.src, link.dst, link.sid), MEMORY_AREA_READ, data), link.clock);
  }

  /** What a client makes of the answer to a read request. */
  lemma HandledRead(m: Memory, r: Request, clock: seq<byte>)
    requires WellFormed(m) && r.commandCode == MEMORY_AREA_READ
    ensures var h := Handle(m, r, clock);
            (h.memory, CheckResponse(h.response))
            == match RequestedCommand(r.commandCode, r.data)
               case Some(c) => (m, Checked(Apply(m, c).1))
               case None => (m, Crash)
  {
  }

  /** Whatever the clock shows, a read command leaves the memory as it was. */
  lemma WireReadKeepsMemory(m: Memory, link: Link, at: MemoryAddress, count: uint16)
    requires WellFormed(m)
    ensures WireRead(m, link, at, count).0 == m
  {
    var header := DefaultCommandHeader(link.src, link.dst, link.sid);
    var data := Designation(at, count);
    assert CommandBytes(MEMORY_AREA_READ, at, count, []) == PutUint16(BigEndian, MEMORY_AREA_READ) + data;
    CarriedIntact(link.tcp, EncodeHeader(header) + (PutUint16(BigEndian, MEMORY_AREA_READ) + data));
    RequestRoundTrip(link.src, link.dst, link.sid, MEMORY_AREA_READ, data);
    ReadRequested(at, count);
  }

  /** A write command over the wire is the write of those bytes, or the handler's panic. */
  lemma WireWriteIsWrite(m: Memory, link: Link, at: MemoryAddress, count: uint16, payload: seq<byte>)
    requires WellFormed(m) && link.Valid() && 26 + |payload| < T.TWO32
    requires at.memoryArea in WORD_AREAS + BIT_AREAS && TakenSize(at, count) <= |payload|
    ensures var size: int := TakenSize(at, count);
            WireWrite(m, link, at, count, payload) == (
              if 6 + size < 0x1_0000 then InlineWrite(m, WriteAt(at, count, payload[..size])) else (m, Crash))
  {
    var data := Designation(at, count) + payload;
    assert CommandBytes(MEMORY_AREA_WRITE, at, count, payload) == PutUint16(BigEndian, MEMORY_AREA_WRITE) + data;
    ExchangeIsHandle(m, link, MEMORY_AREA_WRITE, data);
    WriteRequested(at, count, payload);
    HandledWrite(m, Request(DefaultCommandHeader(link.src, link.dst, link.sid), MEMORY_AREA_WRITE, data), link.clock);
  }

  /** What a client makes of the answer to a write request. */
  lemma HandledWrite(m: Memory, r: Request, clock: seq<byte>)
    requires WellFormed(m) && r.commandCode == MEMORY_AREA_WRITE
    ensures var h := Handle(m, r, clock);
            (h.memory, AsDone(CheckResponse(h.response)))
            == match RequestedCommand(r.commandCode, r.data) case Some(c) => InlineWrite(m, c) case None => (m, Crash)
  {
  }

  // ---------- Agreement ----------

  /** Reads give the same bytes, the same end code or the same panic on both paths, for every input, and leave
      the memory as it was. */
  lemma ReadBytesAgree(m: Memory, link: Link, area: byte, address: uint16, count: uint16)
    requires WellFormed(m) && link.Valid()
    ensures WireReadBytes(m, link, area, address, count) == (m, InlineReadBytes(m, area, address, count))
  {
    ClientAreas(area);
    if area in CLIENT_WORD_AREAS {
      WireReadIsRead(m, link, MemoryAddress(area, address, 0), count);
    }
  }

  lemma ReadWordsAgree(m: Memory, link: Link, o: ByteOrder, area: byte, address: uint16, count: uint16)
    requires WellFormed(m) && link.Valid()
    ensures WireReadWords(m, link, o, area, address, count) == (m, InlineReadWords(m, o, area, address, count))
  {
    ReadBytesAgree(m, link, area, address, count);
  }

  /** A range that is granted, wrapped or not, is as long as was asked for modulo 2^16. */
  lemma GrantedIsWhole(first: nat, size: nat)
    ensures var a := CheckBounds(first, size); a.Granted? ==> a.end - a.start == U16(size)
  {
    U16Sum(size, first);
    var start: int := U16(first);
    U16Sum(start, size);
    var sum: int := start + U16(size);
    assert U16(sum) == if sum < 0x1_0000 then sum else sum - 0x1_0000;
  }

  /** A bit read that succeeds returns exactly as many bits as were asked for. */
  lemma BitsAreWhole(m: Memory, area: byte, address: uint16, bitOffset: byte, count: uint16)
    requires WellFormed(m)
    ensures var raw := Checked(Apply(m, ReadBits(area, address, bitOffset, count)).1);
            raw.Ok? ==> |raw.value| == count
  {
    var c := ReadBits(area, address, bitOffset, count);
    assert c.Size() == count == U16(count);
    GrantedIsWhole(c.First(), c.Size());
  }

  lemma BothBitLoops(raw: seq<byte>, count: uint16)
    requires |raw| == count
    ensures BitsOver(raw, count) == BitsOf(raw, count)
  {
    assert BitsOver(raw, count).value == BitsOf(raw, count).value;
  }

  /** So the two loops agree, though only one of them would notice a short answer. */
  lemma ReadBitsAgree(m: Memory, link: Link, area: byte, address: uint16, bitOffset: byte, count: uint16)
    requires WellFormed(m) && link.Valid()
    ensures WireReadBits(m, link, area, address, bitOffset, count)
        == (m, InlineReadBits(m, area, address, bitOffset, count))
  {
    ClientAreas(area);
    if area in CLIENT_BIT_AREAS {
      WireReadIsRead(m, link, MemoryAddress(area, address, bitOffset), count);
      var raw := Checked(Apply(m, ReadBits(area, address, bitOffset, count)).1);
      if raw.Ok? {
        BitsAreWhole(m, area, address, bitOffset, count);
        BothBitLoops(raw.value, count);
      }
    }
  }

  /** How raw reads end, on both paths: a panic, the bytes, or a range error. */
  lemma ReadBytesOutcome(m: Memory, link: Link, area: byte, address: uint16, count: uint16)
    requires WellFormed(m) && link.Valid() && area in CLIENT_WORD_AREAS
    ensures var r, bounds := InlineReadBytes(m, area, address, count), ReadWords(area, address, count).Bounds();
            && WireReadBytes(m, link, area, address, count).1 == r
            && (r.Crash? <==> bounds.Panics?)
            && (r.Ok? <==> bounds.Granted?)
            && (r.Ok? ==> |r.value| == U16(2 * (count as int)))
            && (bounds.Denied? ==> r == EndCodeError(RANGE_EXCEEDED))
  {
    ClientAreas(area);
    ReadBytesAgree(m, link, area, address, count);
    GrantedIsWhole(address, 2 * (count as int));
  }

  /** A word range that is granted is as long as was asked for exactly when it fits. */
  lemma WordBoundsOutcome(c: Command)
    requires c.OnWords()
    ensures c.Bounds().Granted? && U16(c.Size()) == c.Size() <==> c.First() + c.Size() <= AREA_SIZE
    ensures c.Bounds().Denied? || (c.Bounds().Granted? && U16(c.Size()) == c.Size()) <==> c.Conforms()
  {
    BoundsCheckExactWhen(c.First(), c.Size());
    GrantedIsWhole(c.First(), c.Size());
  }

  lemma WordsOfWhen(o: ByteOrder, raw: seq<byte>, count: uint16)
    requires |raw| == U16(2 * (count as int))
    ensures WordsOf(o, raw, count).Ok? <==> U16(2 * (count as int)) == 2 * (count as int)
    ensures WordsOf(o, raw, count).Ok? || WordsOf(o, raw, count).Crash?
  {
  }

  /** Word reads end in a panic, of the simulator or of the client on a short answer, exactly when the end of the
      range wraps back into the area, and return words exactly for ranges that fit; on both paths. */
  lemma ReadWordsOutcome(m: Memory, link: Link, o: ByteOrder, area: byte, address: uint16, count: uint16)
    requires WellFormed(m) && link.Valid() && area in CLIENT_WORD_AREAS
    ensures var r, c := InlineReadWords(m, o, area, address, count), ReadWords(area, address, count);
            && WireReadWords(m, link, o, area, address, count).1 == r
            && (r.Crash? <==> !c.Conforms())
            && (r.Ok? <==> c.Fits())
            && (r.Crash? || r.Ok? || r == EndCodeError(RANGE_EXCEEDED))
  {
    var c, raw := ReadWords(area, address, count), InlineReadBytes(m, area, address, count);
    ClientAreas(area);
    ReadBytesOutcome(m, link, area, address, count);
    WordBoundsOutcome(c);
    if raw.Ok? {
      WordsOfWhen(o, raw.value, count);
    }
  }

  /** Bit reads end in a panic exactly when the simulator's slice does, and return bits exactly when the wrapped
      bounds are granted; on both paths. */
  lemma ReadBitsOutcome(m: Memory, link: Link, area: byte, address: uint16, bitOffset: byte, count: uint16)
    requires WellFormed(m) && link.Valid() && area in CLIENT_BIT_AREAS
    ensures var r := InlineReadBits(m, area, address, bitOffset, count);
            var bounds := ReadBits(area, address, bitOffset, count).Bounds();
            && WireReadBits(m, link, area, address, bitOffset, count).1 == r
            && (r.Crash? <==> bounds.Panics?)
            && (r.Ok? <==> bounds.Granted?)
            && (bounds.Denied? ==> r == EndCodeError(RANGE_EXCEEDED))
  {
    ClientAreas(area);
    ReadBitsAgree(m, link, area, address, bitOffset, count);
    BitsAreWhole(m, area, address, bitOffset, count);
  }

  lemma WriteTakes(areas: Areas, codes: set<byte>, area: byte, a: Access, payload: seq<byte>, size: nat)
    requires Sized(areas, codes) && (a.Granted? ==> a.start <= a.end <= AREA_SIZE && a.end - a.start == size)
    requires size <= |payload|
    ensures WriteTo(areas, codes, area, a, payload[..size]) == WriteTo(areas, codes, area, a, payload)
  {
    assert payload[..size][..size] == payload[..size];
  }

  /** A write ignores the payload bytes the handler does not take. */
  lemma ExcessIgnored(m: Memory, at: MemoryAddress, count: uint16, payload: seq<byte>)
    requires WellFormed(m) && at.memoryArea in WORD_AREAS + BIT_AREAS && TakenSize(at, count) <= |payload|
    ensures InlineWrite(m, WriteAt(at, count, payload[..TakenSize(at, count)]))
         == InlineWrite(m, WriteAt(at, count, payload))
  {
    AreaCodesDiffer(at.memoryArea);
    var c, size := WriteAt(at, count, payload), TakenSize(at, count);
    assert U16(c.Size()) == size;
    PayloadDoesNotMoveBounds(c, payload[..size]);
    GrantedIsWhole(c.First(), c.Size());
    if c.OnWords() {
      WriteTakes(m.word, WORD_AREAS, c.area, c.Bounds(), payload, size);
    } else {
      WriteTakes(m.bit, BIT_AREAS, c.area, c.Bounds(), payload, size);
    }
  }

  /** The two outcomes of one write once its payload is built: equal unless the handler's slice bound wraps,
      and then only if the simulator's own slice panics as well. */
  lemma WriteAgreesWhen(m: Memory, link: Link, at: MemoryAddress, count: uint16, payload: seq<byte>)
    requires WellFormed(m) && link.Valid() && 26 + |payload| < T.TWO32
    requires at.memoryArea in WORD_AREAS + BIT_AREAS && TakenSize(at, count) <= |payload|
    ensures WireWrite(m, link, at, count, payload) == InlineWrite(m, WriteAt(at, count, payload))
       <==> 6 + (TakenSize(at, count) as int) < 0x1_0000 || WriteAt(at, count, payload).Bounds().Panics?
  {
    WireWriteIsWrite(m, link, at, count, payload);
    ExcessIgnored(m, at, count, payload);
    CrashesWhen(m, WriteAt(at, count, payload));
  }

  lemma CrashesWhen(m: Memory, c: Command)
    requires WellFormed(m) && c.IsWrite() && c.Supported()
    ensures InlineWrite(m, c) == (m, Crash) <==> c.Bounds().Panics?
  {
  }

  lemma PayloadDoesNotMoveBounds(c: Command, other: seq<byte>)
    requires c.IsWrite()
    ensures c.Bounds() == c.(payload := other).Bounds()
  {
  }

  /** Writes give the same memory and the same outcome for every input except some 32765 to 32767 words long,
      where 6 plus the payload size wraps: there the wire path panics and the direct one reports a range error. */
  lemma WriteWordsAgreeWhen(m: Memory, link: Link, o: ByteOrder, area: byte, address: uint16, data: seq<uint16>)
    requires WellFormed(m) && link.Valid()
    ensures WireWriteWords(m, link, o, area, address, data) == InlineWriteWords(m, o, area, address, data)
       <==> || area !in CLIENT_WORD_AREAS
            || !(0x7ffd <= Count(data) <= 0x7fff)
            || WriteWords(area, address, Count(data), []).Bounds().Panics?
  {
    ClientAreas(area);
    if area in CLIENT_WORD_AREAS && Payload(o, data).Some? {
      WordPayloadAgreesWhen(m, link, area, address, Count(data), Payload(o, data).value);
    }
  }

  lemma WordPayloadAgreesWhen(m: Memory, link: Link, area: byte, address: uint16, count: uint16, payload: seq<byte>)
    requires WellFormed(m) && link.Valid() && area in WORD_AREAS && area !in BIT_AREAS
    requires count < 0x8000 && |payload| == 2 * (count as int)
    ensures WireWrite(m, link, MemoryAddress(area, address, 0), count, payload)
         == InlineWrite(m, WriteWords(area, address, count, payload))
       <==> count < 0x7ffd || WriteWords(area, address, count, []).Bounds().Panics?
  {
    var at := MemoryAddress(area, address, 0);
    assert TakenSize(at, count) == 2 * (count as int)
        && WriteAt(at, count, payload) == WriteWords(area, address, count, payload);
    PayloadDoesNotMoveBounds(WriteWords(area, address, count, payload), []);
    WriteAgreesWhen(m, link, at, count, payload);
  }

  lemma WriteBitsAgreeWhen(m: Memory, link: Link, area: byte, address: uint16, bitOffset: byte, data: seq<bool>)
    requires WellFormed(m) && link.Valid()
    ensures WireWriteBits(m, link, area, address, bitOffset, data) == InlineWriteBits(m, area, address, bitOffset, data)
       <==> || area !in CLIENT_BIT_AREAS
            || Count(data) < 0xfffa
            || WriteBits(area, address, bitOffset, Count(data), []).Bounds().Panics?
  {
    ClientAreas(area);
    if area in CLIENT_BIT_AREAS {
      var at, n, payload := MemoryAddress(area, address, bitOffset), Count(data), BitBytes(data[..Count(data)]);
      assert WriteAt(at, n, payload) == WriteBits(area, address, bitOffset, n, payload);
      PayloadDoesNotMoveBounds(WriteBits(area, address, bitOffset, n, payload), []);
      WriteAgreesWhen(m, link, at, n, payload);
    }
  }

  lemma StringIsLongEnough(s: seq<byte>, at: MemoryAddress)
    ensures TakenSize(at, StringCount(s)) <= |StringPayload(s)|
    ensures U16(2 * (StringCount(s) as int)) <= |StringPayload(s)|
  {
    assert StringCount(s) <= |s|;
  }

  /** The same for strings of every length a frame can carry, although their payload is longer than the words
      sent: agreement unless 6 plus the size, doubled in uint16, wraps. */
  lemma WriteStringAgreesWhen(m: Memory, link: Link, area: byte, address: uint16, s: seq<byte>)
    requires WellFormed(m) && link.Valid() && 26 + 2 * |s| < T.TWO32
    ensures WireWriteString(m, link, area, address, s) == InlineWriteString(m, area, address, s)
       <==> || area !in CLIENT_WORD_AREAS
            || 6 + (U16(2 * (StringCount(s) as int)) as int) < 0x1_0000
            || WriteWords(area, address, StringCount(s), []).Bounds().Panics?
  {
    ClientAreas(area);
    if area in CLIENT_WORD_AREAS {
      var at, n, payload := MemoryAddress(area, address, 0), StringCount(s), StringPayload(s);
      StringIsLongEnough(s, at);
      assert WriteAt(at, n, payload) == WriteWords(area, address, n, payload);
      PayloadDoesNotMoveBounds(WriteWords(area, address, n, payload), []);
      WriteAgreesWhen(m, link, at, n, payload);
    }
  }

  /** The disagreement is real: any 32765 words written at the start of the data memory make the handler panic,
      while the direct path reports a range error. */
  lemma LongestWordsDisagree(m: Memory, link: Link, o: ByteOrder, data: seq<uint16>)
    requires WellFormed(m) && link.Valid() && |data| == 32765
    ensures WireWriteWords(m, link, o, DM_WORD, 0, data) == (m, Crash)
    ensures InlineWriteWords(m, o, DM_WORD, 0, data) == (m, EndCodeError(RANGE_EXCEEDED))
  {
    SmallPayload(o, data);
    LongWordWriteCrashes(m, link, BytesOf(o, data));
    LongWriteRefused(m, WriteWords(DM_WORD, 0, 32765, BytesOf(o, data)));
  }

  lemma SmallBitWrite(m: Memory, link: Link, data: seq<bool>)
    requires WellFormed(m) && |data| < 0x1_0000
    ensures WireWriteBits(m, link, DM_BIT, 0, 0, data)
         == WireWrite(m, link, MemoryAddress(DM_BIT, 0, 0), |data|, BitBytes(data))
    ensures InlineWriteBits(m, DM_BIT, 0, 0, data) == InlineWrite(m, WriteBits(DM_BIT, 0, 0, |data|, BitBytes(data)))
  {
    assert Count(data) == |data| && data[..|data|] == data;
  }

  /** The same for any 65530 bits. */
  lemma LongestBitsDisagree(m: Memory, link: Link, data: seq<bool>)
    requires WellFormed(m) && link.Valid() && |data| == 65530
    ensures WireWriteBits(m, link, DM_BIT, 0, 0, data) == (m, Crash)
    ensures InlineWriteBits(m, DM_BIT, 0, 0, data) == (m, EndCodeError(RANGE_EXCEEDED))
  {
    SmallBitWrite(m, link, data);
    LongBitWriteCrashes(m, link, BitBytes(data));
    LongWriteRefused(m, WriteBits(DM_BIT, 0, 0, |data|, BitBytes(data)));
  }

  lemma LongWriteRefused(m: Memory, c: Command)
    requires WellFormed(m) && c.IsWrite() && c.Supported() && c.First() == 0 && c.Size() == 65530
    ensures InlineWrite(m, c) == (m, EndCodeError(RANGE_EXCEEDED))
  {
    assert U16(65530) == 65530;
    RefusedWrite(m, c);
  }

  lemma RefusedWrite(m: Memory, c: Command)
    requires WellFormed(m) && c.IsWrite() && c.Supported() && c.Bounds().Denied?
    ensures InlineWrite(m, c) == (m, EndCodeError(RANGE_EXCEEDED))
  {
  }

  lemma LongWriteCrashes(m: Memory, link: Link, at: MemoryAddress, count: uint16, payload: seq<byte>)
    requires WellFormed(m) && link.Valid()
    requires at.memoryArea in WORD_AREAS + BIT_AREAS && TakenSize(at, count) == |payload| >= 0xfffa
    ensures WireWrite(m, link, at, count, payload) == (m, Crash)
  {
    WireWriteIsWrite(m, link, at, count, payload);
  }

  lemma LongWordWriteCrashes(m: Memory, link: Link, payload: seq<byte>)
    requires WellFormed(m) && link.Valid() && |payload| == 65530
    ensures WireWrite(m, link, MemoryAddress(DM_WORD, 0, 0), 32765, payload) == (m, Crash)
  {
    LongWriteCrashes(m, link, MemoryAddress(DM_WORD, 0, 0), 32765, payload);
  }

  lemma LongBitWriteCrashes(m: Memory, link: Link, payload: seq<byte>)
    requires WellFormed(m) && link.Valid() && |payload| == 65530
    ensures WireWrite(m, link, MemoryAddress(DM_BIT, 0, 0), 65530, payload) == (m, Crash)
  {
    LongWriteCrashes(m, link, MemoryAddress(DM_BIT, 0, 0), 65530, payload);
  }

  // ---------- Round trips ----------

  lemma SliceOfPrefix(a: seq<byte>, b: seq<byte>, lo: nat, hi: nat)
    requires lo <= hi <= |a|
    ensures (a + b)[lo..hi] == a[lo..hi]
  {
  }

  lemma {:induction false} BytesOfAt(o: ByteOrder, ws: seq<uint16>, i: nat)
    requires i < |ws|
    ensures BytesOf(o, ws)[2 * i..2 * i + 2] == PutUint16(o, ws[i])
  {
    if i < |ws| - 1 {
      BytesOfAt(o, ws[..|ws| - 1], i);
      SliceOfPrefix(BytesOf(o, ws[..|ws| - 1]), PutUint16(o, ws[|ws| - 1]), 2 * i, 2 * i + 2);
    }
  }

  lemma WordsRoundTrip(o: ByteOrder, ws: seq<uint16>)
    requires |ws| < 0x8000
    ensures WordsOf(o, BytesOf(o, ws), |ws|) == Ok(ws)
  {
    forall i | 0 <= i < |ws| ensures Uint16(o, BytesOf(o, ws)[2 * i..2 * i + 2]) == ws[i] {
      BytesOfAt(o, ws, i);
      Uint16RoundTrip(o, ws[i]);
    }
    assert WordsOf(o, BytesOf(o, ws), |ws|).value == ws;
  }

  lemma OverwriteThenSlice(buf: seq<byte>, start: nat, end: nat, payload: seq<byte>)
    requires start <= end <= |buf| && |payload| >= end - start
    ensures Overwrite(buf, Granted(start, end), payload)[start..end] == payload[..end - start]
  {
  }

  /** A word write that fits, on the bytes of its area. */
  lemma FittingWrite(m: Memory, area: byte, address: uint16, count: uint16, payload: seq<byte>)
    requires WellFormed(m) && area in WORD_AREAS && (address as int) + 2 * (count as int) <= AREA_SIZE
    ensures var bounds := Granted(address, (address as int) + 2 * (count as int));
            InlineWrite(m, WriteWords(area, address, count, payload))
            == (m.(word := m.word[area := Overwrite(m.word[area], bounds, payload)]), Ok(Unit))
  {
  }

  /** A word read that fits, on the bytes of its area. */
  lemma FittingRead(m: Memory, area: byte, address: uint16, count: uint16)
    requires WellFormed(m) && area in CLIENT_WORD_AREAS && (address as int) + 2 * (count as int) <= AREA_SIZE
    ensures InlineReadBytes(m, area, address, count) == Ok(m.word[area][address..(address as int) + 2 * (count as int)])
  {
  }

  /** Reading back a range just written returns the payload. */
  lemma ReadBack(m: Memory, area: byte, address: uint16, count: uint16, payload: seq<byte>)
    requires WellFormed(m) && area in CLIENT_WORD_AREAS && (address as int) + 2 * (count as int) <= AREA_SIZE
    requires |payload| >= 2 * (count as int)
    ensures var (m', r) := InlineWrite(m, WriteWords(area, address, count, payload));
            && r == Ok(Unit)
            && InlineReadBytes(m', area, address, count) == Ok(payload[..2 * (count as int)])
  {
    ClientAreas(area);
    FittingWrite(m, area, address, count, payload);
    FittingRead(InlineWrite(m, WriteWords(area, address, count, payload)).0, area, address, count);
    OverwriteThenSlice(m.word[area], address, (address as int) + 2 * (count as int), payload);
  }

  /** Words written inside an area come back as they were, in either byte order, by either path. */
  lemma WordsWrittenAreRead(m: Memory, link: Link, o: ByteOrder, area: byte, address: uint16, data: seq<uint16>)
    requires WellFormed(m) && link.Valid() && area in CLIENT_WORD_AREAS && (address as int) + 2 * |data| <= AREA_SIZE
    ensures var (m', r) := InlineWriteWords(m, o, area, address, data);
            && WellFormed(m') && r == Ok(Unit)
            && WireWriteWords(m, link, o, area, address, data) == (m', r)
            && InlineReadWords(m', o, area, address, |data|) == Ok(data)
            && WireReadWords(m', link, o, area, address, |data|) == (m', Ok(data))
  {
    WordsWrittenAreReadInline(m, o, area, address, data);
    WriteWordsAgreeWhen(m, link, o, area, address, data);
    SmallPayload(o, data);
    ReadWordsAgree(InlineWriteWords(m, o, area, address, data).0, link, o, area, address, |data|);
  }

  lemma WordsWrittenAreReadInline(m: Memory, o: ByteOrder, area: byte, address: uint16, data: seq<uint16>)
    requires WellFormed(m) && area in CLIENT_WORD_AREAS && (address as int) + 2 * |data| <= AREA_SIZE
    ensures var (m', r) := InlineWriteWords(m, o, area, address, data);
            WellFormed(m') && r == Ok(Unit) && InlineReadWords(m', o, area, address, |data|) == Ok(data)
  {
    SmallPayload(o, data);
    ReadBack(m, area, address, |data|, BytesOf(o, data));
    WordsRoundTrip(o, data);
  }

  lemma SmallPayload(o: ByteOrder, data: seq<uint16>)
    requires |data| < 0x8000
    ensures Count(data) == |data| && Payload(o, data) == Some(BytesOf(o, data))
    ensures BytesOf(o, data)[..2 * |data|] == BytesOf(o, data)
  {
    assert data[..|data|] == data;
  }

  /** A string that fits comes back, by either path, cut at its first NUL; so it comes back whole exactly
      when it has none, whatever its length's parity. */
  lemma StringsWrittenAreRead(m: Memory, link: Link, area: byte, address: uint16, s: seq<byte>)
    requires WellFormed(m) && link.Valid() && area in CLIENT_WORD_AREAS
        && (address as int) + 2 * ((|s| + 1) / 2) <= AREA_SIZE
    ensures var (m', r) := InlineWriteString(m, area, address, s);
            var n := StringCount(s);
            && r == Ok(Unit)
            && WireWriteString(m, link, area, address, s) == (m', r)
            && InlineReadString(m', area, address, n) == Ok(UpToNul(s))
            && WireReadString(m', link, area, address, n) == (m', Ok(UpToNul(s)))
            && (UpToNul(s) == s <==> 0 !in s)
  {
    StringWrittenIsReadInline(m, area, address, s);
    StringWriteAgrees(m, link, area, address, s);
    ReadBytesAgree(InlineWriteString(m, area, address, s).0, link, area, address, StringCount(s));
  }

  lemma StringWrittenIsReadInline(m: Memory, area: byte, address: uint16, s: seq<byte>)
    requires WellFormed(m) && area in CLIENT_WORD_AREAS && (address as int) + 2 * ((|s| + 1) / 2) <= AREA_SIZE
    ensures var (m', r) := InlineWriteString(m, area, address, s);
            && r == Ok(Unit)
            && InlineReadString(m', area, address, StringCount(s)) == Ok(UpToNul(s))
            && (UpToNul(s) == s <==> 0 !in s)
  {
    var n, payload := StringCount(s), StringPayload(s);
    SentString(s);
    StringBack(m, area, address, n, payload);
    UpToNulOfPadded(s, payload[..2 * (n as int)]);
  }

  lemma StringBack(m: Memory, area: byte, address: uint16, count: uint16, payload: seq<byte>)
    requires WellFormed(m) && area in CLIENT_WORD_AREAS && (address as int) + 2 * (count as int) <= AREA_SIZE
    requires |payload| >= 2 * (count as int)
    ensures var (m', r) := InlineWrite(m, WriteWords(area, address, count, payload));
            r == Ok(Unit) && InlineReadString(m', area, address, count) == Ok(UpToNul(payload[..2 * (count as int)]))
  {
    ReadBack(m, area, address, count, payload);
  }

  /** The words sent are the string, with one NUL after it if its length is odd. */
  lemma SentString(s: seq<byte>)
    requires |s| < 0x1_0000
    ensures StringCount(s) == (|s| + 1) / 2
    ensures var sent := StringPayload(s)[..2 * (StringCount(s) as int)];
            s <= sent && (sent == s || sent[|s|] == 0)
  {
  }

  lemma SmallDouble(n: uint16)
    ensures 2 * (n as int) <= AREA_SIZE ==> 6 + (U16(2 * (n as int)) as int) < 0x1_0000
  {
  }

  lemma StringWriteAgrees(m: Memory, link: Link, area: byte, address: uint16, s: seq<byte>)
    requires WellFormed(m) && link.Valid() && area in CLIENT_WORD_AREAS
    requires (address as int) + 2 * ((|s| + 1) / 2) <= AREA_SIZE
    ensures WireWriteString(m, link, area, address, s) == InlineWriteString(m, area, address, s)
  {
    SentString(s);
    SmallDouble(StringCount(s));
    WriteStringAgreesWhen(m, link, area, address, s);
  }

  lemma {:induction false} UpToNulOfPadded(s: seq<byte>, padded: seq<byte>)
    requires s <= padded && (padded == s || padded[|s|] == 0)
    ensures UpToNul(padded) == UpToNul(s)
    ensures UpToNul(s) == s <==> 0 !in s
  {
    if s != [] && s[0] != 0 {
      UpToNulOfPadded(s[1..], padded[1..]);
      assert s == [s[0]] + s[1..];
    }
  }
}
