/** FINS headers, commands and responses as byte strings (header.go, driver.go:51-171).
    A Go slice expression that would panic on a short frame is a None here. */
module Driver {
  import opened Bytes

  datatype FinsAddress = FinsAddress(network: byte, node: byte, unit: byte)

  const MESSAGE_TYPE_COMMAND: byte := 0
  const MESSAGE_TYPE_RESPONSE: byte := 1

  datatype Header = Header(messageType: byte, responseRequired: bool,
                           src: FinsAddress, dst: FinsAddress, serviceID: byte, gatewayCount: byte)

  function DefaultCommandHeader(src: FinsAddress, dst: FinsAddress, serviceID: byte): Header {
    Header(MESSAGE_TYPE_COMMAND, true, src, dst, serviceID, 2)
  }

  function DefaultResponseHeader(command: Header): Header {
    Header(MESSAGE_TYPE_RESPONSE, false, command.dst, command.src, command.serviceID, 2)
  }

  const HEADER_SIZE: nat := 10

  function EncodeHeader(h: Header): (b: seq<byte>)
    ensures |b| == HEADER_SIZE
  {
    var icf := 0x80 + (if h.responseRequired then 0 else 0x01)
                    + (if h.messageType == MESSAGE_TYPE_RESPONSE then 0x40 else 0);
    [icf, 0, h.gatewayCount,
     h.dst.network, h.dst.node, h.dst.unit,
     h.src.network, h.src.node, h.src.unit,
     h.serviceID]
  }

  /** In Go `icf&1<<k` is `(icf&1)<<k`, so both flags come from bit 0 of the first byte. */
  function DecodeHeader(b: seq<byte>): Header
    requires |b| == HEADER_SIZE
  {
    var icf := b[0];
    Header(if icf % 2 * 0x40 == 0 then MESSAGE_TYPE_COMMAND else MESSAGE_TYPE_RESPONSE,
           icf % 2 == 0,
           FinsAddress(b[6], b[7], b[8]), FinsAddress(b[3], b[4], b[5]), b[9], b[2])
  }

  /** What survives the wire whatever the header: everything but the message type. */
  lemma HeaderFieldsSurvive(h: Header)
    ensures var d := DecodeHeader(EncodeHeader(h));
            d == h.(messageType := if h.responseRequired then MESSAGE_TYPE_COMMAND else MESSAGE_TYPE_RESPONSE)
  {
  }

  /** A header survives the wire exactly when it is a command wanting a response or a response wanting none. */
  lemma HeaderRoundTripWhen(h: Header)
    ensures DecodeHeader(EncodeHeader(h)) == h
       <==> h.messageType == if h.responseRequired then MESSAGE_TYPE_COMMAND else MESSAGE_TYPE_RESPONSE
  {
    HeaderFieldsSurvive(h);
  }

  /** The message type a header of the FINS standard carries, in bit 6 of its first byte. */
  function TypeInBit6(b: seq<byte>): byte
    requires |b| == HEADER_SIZE
  {
    if b[0] / 0x40 % 2 == 0 then MESSAGE_TYPE_COMMAND else MESSAGE_TYPE_RESPONSE
  }

  /** For any ten bytes, the decoded message type is the one in bit 6 if and only if bit 0 equals bit 6: for a
      response that wants a response, 0xc0, it is not. */
  lemma MessageTypeRightWhen(b: seq<byte>)
    requires |b| == HEADER_SIZE
    ensures DecodeHeader(b).messageType == TypeInBit6(b) <==> b[0] % 2 == b[0] / 0x40 % 2
    ensures b[0] == 0xc0 ==>
              DecodeHeader(b).messageType == MESSAGE_TYPE_COMMAND && TypeInBit6(b) == MESSAGE_TYPE_RESPONSE
  {
  }

  // ---------- Memory addresses and commands ----------

  datatype MemoryAddress = MemoryAddress(memoryArea: byte, address: uint16, bitOffset: byte)

  const MEMORY_AREA_READ: uint16 := 0x0101
  const MEMORY_AREA_WRITE: uint16 := 0x0102
  const CLOCK_READ: uint16 := 0x0701

  function EncodeMemoryAddress(m: MemoryAddress): (b: seq<byte>)
    ensures |b| == 4
  {
    [m.memoryArea] + PutUint16(BigEndian, m.address) + [m.bitOffset]
  }

  function DecodeMemoryAddress(b: seq<byte>): MemoryAddress
    requires |b| == 4
  {
    MemoryAddress(b[0], Uint16(BigEndian, b[1..3]), b[3])
  }

  /** The item designation both memory commands carry after their command code. */
  function Designation(m: MemoryAddress, itemCount: uint16): (b: seq<byte>)
    ensures |b| == 6
  {
    EncodeMemoryAddress(m) + PutUint16(BigEndian, itemCount)
  }

  function CommandBytes(code: uint16, m: MemoryAddress, itemCount: uint16, payload: seq<byte>): (b: seq<byte>)
    ensures |b| == 8 + |payload|
  {
    PutUint16(BigEndian, code) + Designation(m, itemCount) + payload
  }

  method ReadCommand(m: MemoryAddress, itemCount: uint16) returns (command: seq<byte>)
    ensures command == CommandBytes(MEMORY_AREA_READ, m, itemCount, [])
  {
    command := FillCommand(MEMORY_AREA_READ, m, itemCount);
  }

  method WriteCommand(m: MemoryAddress, itemCount: uint16, payload: seq<byte>) returns (command: seq<byte>)
    ensures command == CommandBytes(MEMORY_AREA_WRITE, m, itemCount, payload)
  {
    command := FillCommand(MEMORY_AREA_WRITE, m, itemCount);
    command := command + payload;
  }

  /** The eight-byte buffer both builders fill in place. */
  method FillCommand(code: uint16, m: MemoryAddress, itemCount: uint16) returns (command: seq<byte>)
    ensures command == CommandBytes(code, m, itemCount, [])
  {
    var buffer := new byte[8](_ => 0);
    buffer[0], buffer[1] := code / 0x100, code % 0x100;
    buffer[2] := m.memoryArea;
    buffer[3], buffer[4] := m.address / 0x100, m.address % 0x100;
    buffer[5] := m.bitOffset;
    buffer[6], buffer[7] := itemCount / 0x100, itemCount % 0x100;
    return buffer[..];
  }

  lemma DesignationRoundTrip(m: MemoryAddress, itemCount: uint16, payload: seq<byte>)
    ensures var data := Designation(m, itemCount) + payload;
            && DecodeMemoryAddress(data[..4]) == m
            && Uint16(BigEndian, data[4..6]) == itemCount
            && data[6..] == payload
  {
    var data := Designation(m, itemCount) + payload;
    assert data[..4] == EncodeMemoryAddress(m);
    assert data[..4][1..3] == PutUint16(BigEndian, m.address);
    assert data[4..6] == PutUint16(BigEndian, itemCount);
    Uint16RoundTrip(BigEndian, m.address);
    Uint16RoundTrip(BigEndian, itemCount);
  }

  // ---------- Requests and responses ----------

  datatype Request = Request(header: Header, commandCode: uint16, data: seq<byte>)

  datatype Response = Response(header: Header, commandCode: uint16, endCode: uint16, data: seq<byte>)

  function DecodeRequest(b: seq<byte>): (r: Option<Request>)
    ensures r.Some? <==> |b| >= 12
  {
    if |b| < 12 then None
    else Some(Request(DecodeHeader(b[..10]), Uint16(BigEndian, b[10..12]), b[12..]))
  }

  function DecodeResponse(b: seq<byte>): (r: Option<Response>)
    ensures r.Some? <==> |b| >= 14
  {
    if |b| < 14 then None
    else Some(Response(DecodeHeader(b[..10]), Uint16(BigEndian, b[10..12]), Uint16(BigEndian, b[12..14]), b[14..]))
  }

  function EncodeResponse(r: Response): (b: seq<byte>)
    ensures |b| == 14 + |r.data|
  {
    EncodeHeader(r.header) + PutUint16(BigEndian, r.commandCode) + PutUint16(BigEndian, r.endCode) + r.data
  }

  /** The server reads back from a command frame the code, the data and all of the header. */
  lemma RequestRoundTrip(src: FinsAddress, dst: FinsAddress, sid: byte, code: uint16, data: seq<byte>)
    ensures var h := DefaultCommandHeader(src, dst, sid);
            DecodeRequest(EncodeHeader(h) + (PutUint16(BigEndian, code) + data)) == Some(Request(h, code, data))
  {
    var h := DefaultCommandHeader(src, dst, sid);
    var b := EncodeHeader(h) + (PutUint16(BigEndian, code) + data);
    assert b[..10] == EncodeHeader(h) && b[10..12] == PutUint16(BigEndian, code) && b[12..] == data;
    HeaderFieldsSurvive(h);
    Uint16RoundTrip(BigEndian, code);
  }

  /** A response frame survives the wire exactly when its header does. */
  lemma ResponseRoundTripWhen(r: Response)
    ensures DecodeResponse(EncodeResponse(r)) == Some(r.(header := DecodeHeader(EncodeHeader(r.header))))
    ensures DecodeResponse(EncodeResponse(r)) == Some(r)
       <==> r.header.messageType == if r.header.responseRequired then MESSAGE_TYPE_COMMAND else MESSAGE_TYPE_RESPONSE
  {
    var b := EncodeResponse(r);
    assert b[..10] == EncodeHeader(r.header) && b[10..12] == PutUint16(BigEndian, r.commandCode);
    assert b[12..14] == PutUint16(BigEndian, r.endCode) && b[14..] == r.data;
    Uint16RoundTrip(BigEndian, r.commandCode);
    Uint16RoundTrip(BigEndian, r.endCode);
    HeaderRoundTripWhen(r.header);
  }

  /** The response to any frame the server decodes: same service ID, addresses swapped, and it decodes as sent. */
  lemma ResponseAnswers(frame: seq<byte>, endCode: uint16, data: seq<byte>)
    requires |frame| >= 12
    ensures var req := DecodeRequest(frame).value;
            var resp := Response(DefaultResponseHeader(req.header), req.commandCode, endCode, data);
            && DecodeResponse(EncodeResponse(resp)) == Some(resp)
            && resp.header.serviceID == frame[9]
            && resp.header.src == FinsAddress(frame[3], frame[4], frame[5])
            && resp.header.dst == FinsAddress(frame[6], frame[7], frame[8])
  {
    var req := DecodeRequest(frame).value;
    ResponseRoundTripWhen(Response(DefaultResponseHeader(req.header), req.commandCode, endCode, data));
  }

  // ---------- The bytes on the wire ----------

  /** A command frame, byte by byte: code 0x0101 for a read and 0x0102 for a write. */
  lemma CommandFrameBytes(src: FinsAddress, dst: FinsAddress, sid: byte, m: MemoryAddress, n: uint16,
        payload: seq<byte>)
    ensures var header := EncodeHeader(DefaultCommandHeader(src, dst, sid));
            var expected := [0x80, 0x00, 0x02, dst.network, dst.node, dst.unit, src.network, src.node, src.unit, sid];
            var item := [m.memoryArea, m.address / 0x100, m.address % 0x100, m.bitOffset, n / 0x100, n % 0x100];
            && header == expected
            && CommandBytes(MEMORY_AREA_READ, m, n, payload) == [0x01, 0x01] + item + payload
            && CommandBytes(MEMORY_AREA_WRITE, m, n, payload) == [0x01, 0x02] + item + payload
  {
  }

  /** A response frame, byte by byte: the first one has bits 7, 6 and 0 set. */
  lemma ResponseFrameBytes(command: Header, code: uint16, endCode: uint16, data: seq<byte>)
    ensures var dst, src := command.src, command.dst;
            EncodeResponse(Response(DefaultResponseHeader(command), code, endCode, data))
            == [0xc1, 0x00, 0x02, dst.network, dst.node, dst.unit, src.network, src.node, src.unit, command.serviceID,
                code / 0x100, code % 0x100, endCode / 0x100, endCode % 0x100] + data
  {
  }
}
