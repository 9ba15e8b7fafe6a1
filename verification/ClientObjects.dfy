/** The client objects themselves: InlineClient (inline_client.go:14-19, 58-289) and the data paths of
    Client (client.go:528-713, 728-763, 817-876), run against one simulator. */
module ClientObjects {
  import opened Bytes
  import opened Driver
  import opened Server
  import opened Clients
  import T = Transport

  class InlineClient {
    const srv: Server
    var byteOrder: ByteOrder

    /** The buffers of the simulator are not this object. */
    ghost predicate Ready() { srv.Valid() && this !in srv.Repr }

    constructor (srv: Server)
      requires srv.Valid()
      ensures Ready() && this.srv == srv && byteOrder == BigEndian
    {
      this.srv := srv;
      byteOrder := BigEndian;
    }

    method ReadBytes(area: byte, address: uint16, count: uint16) returns (r: Result<seq<byte>>)
      requires Ready()
      ensures r == InlineReadBytes(srv.Contents(), area, address, count)
    {
      if area !in CLIENT_WORD_AREAS {
        return IncompatibleArea(area);
      }
      var raw := srv.ReadWords(area, address, count);
      return Checked(raw);
    }

    method ReadWords(area: byte, address: uint16, count: uint16) returns (r: Result<seq<uint16>>)
      requires Ready()
      ensures r == InlineReadWords(srv.Contents(), byteOrder, area, address, count)
    {
      var raw := ReadBytes(area, address, count);
      if !raw.Ok? {
        return AsWords(raw, byteOrder, count);
      }
      r := FillWords(byteOrder, raw.value, count);
    }

    method ReadString(area: byte, address: uint16, count: uint16) returns (r: Result<seq<byte>>)
      requires Ready()
      ensures r == InlineReadString(srv.Contents(), area, address, count)
    {
      r := ReadBytes(area, address, count);
      r := AsString(r);
    }

    method ReadBits(area: byte, address: uint16, bitOffset: byte, count: uint16) returns (r: Result<seq<bool>>)
      requires Ready()
      ensures r == InlineReadBits(srv.Contents(), area, address, bitOffset, count)
    {
      if area !in CLIENT_BIT_AREAS {
        return IncompatibleArea(area);
      }
      var raw := srv.ReadBits(area, address, bitOffset, count);
      if !Checked(raw).Ok? {
        return AsBits(Checked(raw), count);
      }
      r := FillBitsOver(raw.data, count);
    }

    method WriteWords(area: byte, address: uint16, data: seq<uint16>) returns (r: Result<Unit>)
      requires Ready()
      modifies srv.Repr
      ensures (srv.Contents(), r) == InlineWriteWords(old(srv.Contents()), byteOrder, area, address, data)
    {
      if area !in CLIENT_WORD_AREAS {
        return IncompatibleArea(area);
      }
      var bts := PackWords(byteOrder, data);
      if bts.None? {
        return Crash;
      }
      var a := srv.WriteWords(area, address, Count(data), bts.value);
      return AsDone(Checked(a));
    }

    method WriteString(area: byte, address: uint16, s: seq<byte>) returns (r: Result<Unit>)
      requires Ready()
      modifies srv.Repr
      ensures (srv.Contents(), r) == InlineWriteString(old(srv.Contents()), area, address, s)
    {
      if area !in CLIENT_WORD_AREAS {
        return IncompatibleArea(area);
      }
      var a := srv.WriteWords(area, address, StringCount(s), StringPayload(s));
      return AsDone(Checked(a));
    }

    method WriteBits(area: byte, address: uint16, bitOffset: byte, data: seq<bool>) returns (r: Result<Unit>)
      requires Ready()
      modifies srv.Repr
      ensures (srv.Contents(), r) == InlineWriteBits(old(srv.Contents()), area, address, bitOffset, data)
    {
      if area !in CLIENT_BIT_AREAS {
        return IncompatibleArea(area);
      }
      var a := srv.WriteBits(area, address, bitOffset, Count(data), BitBytes(data[..Count(data)]));
      return AsDone(Checked(a));
    }
  }

  /** One message put on the connection and taken off at the other end. */
  method Carry(tcp: bool, bytes: seq<byte>) returns (r: Option<seq<byte>>)
    ensures r == Carried(tcp, bytes)
  {
    if !tcp {
      return Some(bytes);
    }
    var frame := T.FinsTCPFrame(T.DATA_COMMAND, bytes);
    var reader := new T.Reader(frame[..]);
    var p := reader.ReadFrame();
    return if p.Parsed? then Some(p.message.body) else None;
  }

  method Receive(tcp: bool, reply: Option<seq<byte>>) returns (r: Option<Response>)
    ensures r == Received(tcp, reply)
  {
    if reply.None? {
      return None;
    }
    var bytes := Carry(tcp, reply.value);
    return if bytes.None? then None else DecodeResponse(bytes.value);
  }

  /** tr.Send, the simulator at the other end, and the listen loop's decodeResponse. */
  method ExchangeWith(srv: Server, link: Link, command: seq<byte>) returns (r: Option<Response>)
    requires srv.Valid()
    modifies srv.Repr
    ensures Handled(srv.Contents(), r) == Exchange(old(srv.Contents()), link, command)
  {
    var bts := EncodeHeader(DefaultCommandHeader(link.src, link.dst, link.sid)) + command;
    var arrived := Carry(link.tcp, bts);
    if arrived.None? {
      return None;
    }
    var reply := srv.ServeFrame(arrived.value, link.clock);
    r := Receive(link.tcp, reply);
  }

  class Client {
    const srv: Server
    const tcp: bool
    const src: FinsAddress
    const dst: FinsAddress
    var sid: byte
    var byteOrder: ByteOrder
    var clock: seq<byte>

    /** The buffers of the simulator are not this object. */
    ghost predicate Ready() { srv.Valid() && this !in srv.Repr }

    constructor (srv: Server, tcp: bool, src: FinsAddress, dst: FinsAddress)
      requires srv.Valid()
      ensures Ready() && this.srv == srv && this.tcp == tcp && this.src == src && this.dst == dst
      ensures sid == 0 && byteOrder == BigEndian && clock == []
    {
      this.srv, this.tcp, this.src, this.dst := srv, tcp, src, dst;
      sid, byteOrder, clock := 0, BigEndian, [];
    }

    /** The link as the next command will use it: the service ID is incremented, modulo 256, first. */
    function Next(): (link: Link)
      reads this
      ensures link.sid == (sid + 1) % 0x100 && link.tcp == tcp && link.src == src && link.dst == dst
    {
       Link(tcp, src, dst, (sid + 1) % 0x100, clock)
    }

    method SendCommand(command: seq<byte>) returns (r: Option<Response>)
      requires Ready()
      modifies this`sid, srv.Repr
      ensures sid == old(Next()).sid
      ensures Handled(srv.Contents(), r) == Exchange(old(srv.Contents()), old(Next()), command)
    {
      var link := Next();
      ghost var m := srv.Contents();
      sid := link.sid;
      assert srv.Contents() == m;
      r := ExchangeWith(srv, link, command);
    }

    method Read(at: MemoryAddress, count: uint16) returns (r: Result<seq<byte>>)
      requires Ready()
      modifies this`sid, srv.Repr
      ensures sid == old(Next()).sid && srv.Contents() == old(srv.Contents())
      ensures (srv.Contents(), r) == WireRead(old(srv.Contents()), old(Next()), at, count)
    {
      ghost var m, link := srv.Contents(), Next();
      var command := ReadCommand(at, count);
      var response := SendCommand(command);
      WireReadKeepsMemory(m, link, at, count);
      return CheckResponse(response);
    }

    method ReadBytes(area: byte, address: uint16, count: uint16) returns (r: Result<seq<byte>>)
      requires Ready()
      modifies this`sid, srv.Repr
      ensures sid == if area in CLIENT_WORD_AREAS then old(Next()).sid else old(sid)
      ensures srv.Contents() == old(srv.Contents())
      ensures (srv.Contents(), r) == WireReadBytes(old(srv.Contents()), old(Next()), area, address, count)
    {
      if area !in CLIENT_WORD_AREAS {
        return IncompatibleArea(area);
      }
      r := Read(MemoryAddress(area, address, 0), count);
    }

    method ReadWords(area: byte, address: uint16, count: uint16) returns (r: Result<seq<uint16>>)
      requires Ready()
      modifies this`sid, srv.Repr
      ensures sid == if area in CLIENT_WORD_AREAS then old(Next()).sid else old(sid)
      ensures srv.Contents() == old(srv.Contents())
      ensures (srv.Contents(), r) == WireReadWords(old(srv.Contents()), old(Next()), byteOrder, area, address, count)
    {
      var raw := ReadBytes(area, address, count);
      if !raw.Ok? {
        return AsWords(raw, byteOrder, count);
      }
      r := FillWords(byteOrder, raw.value, count);
    }

    method ReadString(area: byte, address: uint16, count: uint16) returns (r: Result<seq<byte>>)
      requires Ready()
      modifies this`sid, srv.Repr
      ensures sid == if area in CLIENT_WORD_AREAS then old(Next()).sid else old(sid)
      ensures srv.Contents() == old(srv.Contents())
      ensures (srv.Contents(), r) == WireReadString(old(srv.Contents()), old(Next()), area, address, count)
    {
      r := ReadBytes(area, address, count);
      r := AsString(r);
    }

    method ReadBits(area: byte, address: uint16, bitOffset: byte, count: uint16) returns (r: Result<seq<bool>>)
      requires Ready()
      modifies this`sid, srv.Repr
      ensures sid == if area in CLIENT_BIT_AREAS then old(Next()).sid else old(sid)
      ensures srv.Contents() == old(srv.Contents())
      ensures (srv.Contents(), r) == WireReadBits(old(srv.Contents()), old(Next()), area, address, bitOffset, count)
    {
      if area !in CLIENT_BIT_AREAS {
        return IncompatibleArea(area);
      }
      var raw := Read(MemoryAddress(area, address, bitOffset), count);
      if !raw.Ok? {
        return AsBits(raw, count);
      }
      r := FillBits(raw.value, count);
    }

    method Write(at: MemoryAddress, count: uint16, payload: seq<byte>) returns (r: Result<Unit>)
      requires Ready()
      modifies this`sid, srv.Repr
      ensures sid == old(Next()).sid
      ensures (srv.Contents(), r) == WireWrite(old(srv.Contents()), old(Next()), at, count, payload)
    {
      var command := WriteCommand(at, count, payload);
      var response := SendCommand(command);
      return AsDone(CheckResponse(response));
    }

    method WriteWords(area: byte, address: uint16, data: seq<uint16>) returns (r: Result<Unit>)
      requires Ready()
      modifies this`sid, srv.Repr
      ensures sid == if area in CLIENT_WORD_AREAS && Payload(byteOrder, data).Some? then old(Next()).sid else old(sid)
      ensures (srv.Contents(), r) == WireWriteWords(old(srv.Contents()), old(Next()), byteOrder, area, address, data)
    {
      if area !in CLIENT_WORD_AREAS {
        return IncompatibleArea(area);
      }
      var bts := PackWords(byteOrder, data);
      if bts.None? {
        return Crash;
      }
      r := Write(MemoryAddress(area, address, 0), Count(data), bts.value);
    }

    method WriteString(area: byte, address: uint16, s: seq<byte>) returns (r: Result<Unit>)
      requires Ready()
      modifies this`sid, srv.Repr
      ensures sid == if area in CLIENT_WORD_AREAS then old(Next()).sid else old(sid)
      ensures (srv.Contents(), r) == WireWriteString(old(srv.Contents()), old(Next()), area, address, s)
    {
      if area !in CLIENT_WORD_AREAS {
        return IncompatibleArea(area);
      }
      r := Write(MemoryAddress(area, address, 0), StringCount(s), StringPayload(s));
    }

    method WriteBits(area: byte, address: uint16, bitOffset: byte, data: seq<bool>) returns (r: Result<Unit>)
      requires Ready()
      modifies this`sid, srv.Repr
      ensures sid == if area in CLIENT_BIT_AREAS then old(Next()).sid else old(sid)
      ensures (srv.Contents(), r) == WireWriteBits(old(srv.Contents()), old(Next()), area, address, bitOffset, data)
    {
      if area !in CLIENT_BIT_AREAS {
        return IncompatibleArea(area);
      }
      r := Write(MemoryAddress(area, address, bitOffset), Count(data), BitBytes(data[..Count(data)]));
    }
  }
}
