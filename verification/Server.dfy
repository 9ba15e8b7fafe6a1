/** The PLC simulator's memory and request handler (server.go:140-204, 253-287).
    An address is a byte offset into its area, and every bound is computed in uint16. */
module Server {
  import opened Bytes
  import opened Driver

  const AREA_SIZE: nat := 32768

  const NORMAL: uint16 := 0x0000
  const NOT_SUPPORTED: uint16 := 0x0402
  const RANGE_EXCEEDED: uint16 := 0x1104

  const DM_WORD: byte := 0x82
  const WR_WORD: byte := 0xb1
  const HR_WORD: byte := 0xb2
  const AR_WORD: byte := 0xb3
  const CIO_WORD: byte := 0xb0
  const DM_BIT: byte := 0x02
  const WR_BIT: byte := 0x31
  const HR_BIT: byte := 0x32
  const AR_BIT: byte := 0x33
  const CIO_BIT: byte := 0x30

  const WORD_AREAS: set<byte> := {DM_WORD, WR_WORD, HR_WORD, AR_WORD, CIO_WORD}
  const BIT_AREAS: set<byte> := {DM_BIT, WR_BIT, HR_BIT, AR_BIT, CIO_BIT}

  lemma AreaCodesDiffer(area: byte)
    ensures area in WORD_AREAS ==> area !in BIT_AREAS
  {
  }

  // ---------- Memory as a value ----------

  /** The five word areas and the five bit areas; no code is in both. */
  datatype Memory = Memory(word: map<byte, seq<byte>>, bit: map<byte, seq<byte>>)

  type Areas = map<byte, seq<byte>>

  ghost predicate Sized(areas: Areas, codes: set<byte>) {
    areas.Keys == codes && forall a :: a in areas ==> |areas[a]| == AREA_SIZE
  }

  ghost predicate WellFormed(m: Memory) {
    Sized(m.word, WORD_AREAS) && Sized(m.bit, BIT_AREAS)
  }

  function ZeroedArea(): seq<byte> { seq(AREA_SIZE, _ => 0) }

  function ZeroedAreas(codes: set<byte>): (areas: Areas)
    ensures Sized(areas, codes)
  {
    map a | a in codes :: ZeroedArea()
  }

  function InitialMemory(): (m: Memory)
    ensures WellFormed(m)
  {
    Memory(ZeroedAreas(WORD_AREAS), ZeroedAreas(BIT_AREAS))
  }

  // ---------- The bounds check ----------

  /** Outcome of the uint16 bounds check and of the slice expression buf[start:end] behind it. */
  datatype Access = Denied | Panics | Granted(start: nat, end: nat)

  /** The comparison with the area size, then the slice, which panics when the end wrapped below the start. */
  function Window(start: uint16, end: uint16): (a: Access)
    ensures a.Granted? ==> a.start <= a.end <= AREA_SIZE
  {
    if end > AREA_SIZE then Denied else if end < start then Panics else Granted(start, end)
  }

  /** Every sum and product wraps, so only the true bounds modulo 2^16 matter. */
  function CheckBounds(first: nat, size: nat): (a: Access)
    ensures a.Granted? ==> a.start <= a.end <= AREA_SIZE
  {
    Window(U16(first), U16(first + size))
  }

  /** The check does what its error code promises - grant exactly the ranges that fit, deny the others -
      if and only if the end of the range fits in 16 bits or wraps to a value past the area. */
  lemma BoundsCheckExactWhen(first: nat, size: nat)
    requires first + size < 0x4_0000
    ensures CheckBounds(first, size) == (if first + size <= AREA_SIZE then Granted(first, first + size) else Denied)
       <==> first + size < 0x1_0000 || U16(first + size) > AREA_SIZE
  {
  }

  // ---------- Commands on memory ----------

  /** The four memory operations: word or bit access, read or write. */
  datatype Command =
    | ReadWords(area: byte, address: uint16, count: uint16)
    | WriteWords(area: byte, address: uint16, count: uint16, payload: seq<byte>)
    | ReadBits(area: byte, address: uint16, bitOffset: byte, count: uint16)
    | WriteBits(area: byte, address: uint16, bitOffset: byte, count: uint16, payload: seq<byte>)
  {
    predicate OnWords() { ReadWords? || WriteWords? }

    predicate IsWrite() { WriteWords? || WriteBits? }

    /** First byte the command names, before any wrap-around. */
    function First(): nat {
      if OnWords() then address else var a: int := address; a + bitOffset
    }

    /** Number of bytes the command names, before any wrap-around. */
    function Size(): nat {
      var n: int := count;
      if OnWords() then 2 * n else n
    }

    function Bounds(): Access { CheckBounds(First(), Size()) }

    predicate Supported() { area in if OnWords() then WORD_AREAS else BIT_AREAS }

    /** The bounds check decides this command as it promises to (see BoundsCheckExactWhen). */
    predicate Conforms() { First() + Size() < 0x1_0000 || U16(First() + Size()) > AREA_SIZE }

    predicate Fits() { Supported() && First() + Size() <= AREA_SIZE }
  }

  /** The end of a word range as the simulator computes it: the count doubled in uint16, then added in uint16. */
  method WordRange(c: Command) returns (end: uint16)
    requires c.OnWords()
    ensures c.Bounds() == Window(c.address, end)
  {
    var doubled := U16(2 * (c.count as int));
    end := U16(c.address as int + doubled);
    U16Sum(c.address, 2 * (c.count as int));
    assert c.First() == c.address == U16(c.address) && c.Size() == 2 * (c.count as int);
  }

  /** A bit range: the bit offset is added in uint16, then the count in uint16. */
  method BitRange(c: Command) returns (start: uint16, end: uint16)
    requires !c.OnWords()
    ensures c.Bounds() == Window(start, end)
  {
    start := U16(c.address as int + c.bitOffset);
    end := U16(start as int + c.count);
    U16Sum(c.count, c.address as int + c.bitOffset);
  }

  datatype Answer = Answer(endCode: uint16, data: seq<byte>) | Panic

  function Status(a: Access): Answer {
    match a
    case Denied => Answer(RANGE_EXCEEDED, [])
    case Panics => Panic
    case Granted(_, _) => Answer(NORMAL, [])
  }

  /** A copy of the bytes of the window. */
  function Fetch(buf: seq<byte>, a: Access): Answer
    requires |buf| == AREA_SIZE && (a.Granted? ==> a.start <= a.end <= AREA_SIZE)
  {
    if a.Granted? then Answer(NORMAL, buf[a.start..a.end]) else Status(a)
  }

  /** copy(buf[start:end], payload): the shorter length wins. */
  function Overwrite(buf: seq<byte>, a: Access, payload: seq<byte>): (r: seq<byte>)
    requires a.Granted? && a.start <= a.end <= |buf|
    ensures |r| == |buf|
  {
    var n := if |payload| < a.end - a.start then |payload| else a.end - a.start;
    buf[..a.start] + payload[..n] + buf[a.start + n..]
  }

  /** readWords and readBits on the areas of their kind. */
  function ReadFrom(areas: Areas, codes: set<byte>, area: byte, bounds: Access): Answer
    requires Sized(areas, codes) && (bounds.Granted? ==> bounds.start <= bounds.end <= AREA_SIZE)
  {
    if area !in areas then Answer(NOT_SUPPORTED, []) else Fetch(areas[area], bounds)
  }

  /** writeWords and writeBits on the areas of their kind: the new contents and the end code. */
  function WriteTo(areas: Areas, codes: set<byte>, area: byte, bounds: Access, payload: seq<byte>): (r: (Areas, Answer))
    requires Sized(areas, codes) && (bounds.Granted? ==> bounds.start <= bounds.end <= AREA_SIZE)
    ensures Sized(r.0, codes)
  {
    if area !in areas then (areas, Answer(NOT_SUPPORTED, []))
    else if !bounds.Granted? then (areas, Status(bounds))
    else (areas[area := Overwrite(areas[area], bounds, payload)], Status(bounds))
  }

  function Apply(m: Memory, c: Command): (r: (Memory, Answer))
    requires WellFormed(m)
    ensures WellFormed(r.0)
  {
    match c
    case ReadWords(_, _, _) => (m, ReadFrom(m.word, WORD_AREAS, c.area, c.Bounds()))
    case ReadBits(_, _, _, _) => (m, ReadFrom(m.bit, BIT_AREAS, c.area, c.Bounds()))
    case WriteWords(_, _, _, _) =>
      var (word, answer) := WriteTo(m.word, WORD_AREAS, c.area, c.Bounds(), c.payload);
      (m.(word := word), answer)
    case WriteBits(_, _, _, _, _) =>
      var (bit, answer) := WriteTo(m.bit, BIT_AREAS, c.area, c.Bounds(), c.payload);
      (m.(bit := bit), answer)
  }

  // ---------- The request handler ----------

  /** A response, or None where a slice expression of the handler panics. */
  datatype Handled = Handled(memory: Memory, response: Option<Response>)

  /** The read a designation names; the handler looks at the area code only. */
  function ReadAt(at: MemoryAddress, count: uint16): Command {
    if at.memoryArea in BIT_AREAS then ReadBits(at.memoryArea, at.address, at.bitOffset, count)
    else ReadWords(at.memoryArea, at.address, count)
  }

  /** The write a designation names. */
  function WriteAt(at: MemoryAddress, count: uint16, payload: seq<byte>): Command {
    if at.memoryArea in BIT_AREAS then WriteBits(at.memoryArea, at.address, at.bitOffset, count, payload)
    else WriteWords(at.memoryArea, at.address, count, payload)
  }

  /** The write in a request's data, or None where data[6:6+size] panics: its end is a uint16 sum of
      a uint16 product, and wraps for the largest counts. An unknown area is refused before the slice. */
  function RequestedWrite(at: MemoryAddress, count: uint16, data: seq<byte>): Option<Command>
    requires |data| >= 6
  {
    if at.memoryArea !in WORD_AREAS + BIT_AREAS then Some(WriteWords(at.memoryArea, at.address, count, []))
    else
      var size: int := if at.memoryArea in BIT_AREAS then count else U16(2 * (count as int));
      var end := U16(6 + size);
      if end < 6 || end > |data| then None else Some(WriteAt(at, count, data[6..end]))
  }

  /** The memory command a request carries, or None where reading it out of the data panics. */
  function RequestedCommand(commandCode: uint16, data: seq<byte>): Option<Command> {
    if |data| < 6 then None
    else
      var at, count := DecodeMemoryAddress(data[..4]), Uint16(BigEndian, data[4..6]);
      if commandCode == MEMORY_AREA_READ then Some(ReadAt(at, count)) else RequestedWrite(at, count, data)
  }

  function Handle(m: Memory, r: Request, clock: seq<byte>): (h: Handled)
    requires WellFormed(m)
    ensures WellFormed(h.memory)
  {
    var header := DefaultResponseHeader(r.header);
    if r.commandCode == MEMORY_AREA_READ || r.commandCode == MEMORY_AREA_WRITE then
      var c := RequestedCommand(r.commandCode, r.data);
      if c.None? then Handled(m, None)
      else
        var (m', answer) := Apply(m, c.value);
        if answer.Panic? then Handled(m', None)
        else Handled(m', Some(Response(header, r.commandCode, answer.endCode, answer.data)))
    else if r.commandCode == CLOCK_READ then Handled(m, Some(Response(header, r.commandCode, NORMAL, clock)))
    else Handled(m, Some(Response(header, r.commandCode, NOT_SUPPORTED, [])))
  }

  /** Every response echoes the command, has the default response header and holds at most an area; a clock read
      is answered with the clock reading, and a command the simulator does not know is refused; neither changes
      anything. */
  lemma ResponseShape(m: Memory, r: Request, clock: seq<byte>)
    requires WellFormed(m) && |clock| <= AREA_SIZE
    ensures var response := Handle(m, r, clock).response;
            response.Some? ==>
              && response.value.header == DefaultResponseHeader(r.header)
              && response.value.commandCode == r.commandCode
              && |response.value.data| <= AREA_SIZE
    ensures r.commandCode == 0x0701 ==>
              Handle(m, r, clock) == Handled(m, Some(Response(DefaultResponseHeader(r.header), 0x0701, 0x0000, clock)))
    ensures r.commandCode !in {0x0101, 0x0102, 0x0701} ==>
              Handle(m, r, clock) == Handled(m,
                  Some(Response(DefaultResponseHeader(r.header), r.commandCode, 0x0402, [])))
  {
  }

  /** What the simulator sends back for the bytes of a command frame, or None where it panics. */
  datatype Served = Served(memory: Memory, reply: Option<seq<byte>>)

  function Serve(m: Memory, frame: seq<byte>, clock: seq<byte>): (r: Served)
    requires WellFormed(m)
    ensures WellFormed(r.memory)
  {
    match DecodeRequest(frame)
    case None => Served(m, None)
    case Some(request) =>
      var h := Handle(m, request, clock);
      Served(h.memory, if h.response.None? then None else Some(EncodeResponse(h.response.value)))
  }

  // ---------- The simulator object ----------

  type Buffers = map<byte, array<byte>>

  /** One buffer of its own for every area code. */
  ghost predicate Separate(buffers: Buffers, codes: set<byte>) {
    && buffers.Keys == codes
    && (forall a :: a in buffers ==> buffers[a].Length == AREA_SIZE)
    && (forall a, b :: a in buffers && b in buffers && a != b ==> buffers[a] != buffers[b])
  }

  ghost function Snapshot(buffers: Buffers, codes: set<byte>): (areas: Areas)
    requires Separate(buffers, codes)
    reads buffers.Values
    ensures Sized(areas, codes)
  {
    map a | a in buffers :: buffers[a][..]
  }

  class Server {
    const wordAreas: Buffers
    const bitAreas: Buffers

    /** The ten buffers. */
    ghost const Repr: set<object>

    ghost predicate Valid() {
      && Separate(wordAreas, WORD_AREAS) && Separate(bitAreas, BIT_AREAS)
      && wordAreas.Values !! bitAreas.Values
      && wordAreas.Values <= Repr && bitAreas.Values <= Repr
    }

    ghost function Contents(): (m: Memory)
      requires Valid()
      reads Repr
      ensures WellFormed(m)
    {
      Memory(Snapshot(wordAreas, WORD_AREAS), Snapshot(bitAreas, BIT_AREAS))
    }

    constructor ()
      ensures Valid() && fresh(Repr)
      ensures Contents() == InitialMemory()
    {
      var words := NewWordAreas();
      var bits := NewBitAreas();
      wordAreas, bitAreas := words, bits;
      Repr := words.Values + bits.Values;
    }

    method ReadWords(area: byte, address: uint16, count: uint16) returns (r: Answer)
      requires Valid()
      ensures r == Apply(Contents(), Command.ReadWords(area, address, count)).1
    {
      var end := WordRange(Command.ReadWords(area, address, count));
      r := Slice(wordAreas, WORD_AREAS, area, address, end);
    }

    method WriteWords(area: byte, address: uint16, count: uint16, payload: seq<byte>) returns (r: Answer)
      requires Valid()
      modifies Repr
      ensures (Contents(), r) == Apply(old(Contents()), Command.WriteWords(area, address, count, payload))
    {
      var end := WordRange(Command.WriteWords(area, address, count, payload));
      r := Store(wordAreas, WORD_AREAS, area, address, end, payload);
    }

    method ReadBits(area: byte, address: uint16, bitOffset: byte, count: uint16) returns (r: Answer)
      requires Valid()
      ensures r == Apply(Contents(), Command.ReadBits(area, address, bitOffset, count)).1
    {
      var start, end := BitRange(Command.ReadBits(area, address, bitOffset, count));
      r := Slice(bitAreas, BIT_AREAS, area, start, end);
    }

    method WriteBits(area: byte, address: uint16, bitOffset: byte, count: uint16, payload: seq<byte>)
      returns (r: Answer)
      requires Valid()
      modifies Repr
      ensures (Contents(), r) == Apply(old(Contents()), Command.WriteBits(area, address, bitOffset, count, payload))
    {
      var start, end := BitRange(Command.WriteBits(area, address, bitOffset, count, payload));
      r := Store(bitAreas, BIT_AREAS, area, start, end, payload);
    }

    /** The four calls the handler dispatches to. */
    method Execute(c: Command) returns (answer: Answer)
      requires Valid()
      modifies Repr
      ensures (Contents(), answer) == Apply(old(Contents()), c)
    {
      match c
      case ReadWords(area, address, count) => answer := this.ReadWords(area, address, count);
      case ReadBits(area, address, bitOffset, count) => answer := this.ReadBits(area, address, bitOffset, count);
      case WriteWords(area, address, count, payload) => answer := this.WriteWords(area, address, count, payload);
      case WriteBits(area, address, bitOffset, count, payload) =>
        answer := this.WriteBits(area, address, bitOffset, count, payload);
    }

    /** handler; the clock reading stands for encodeClock(time.Now()). */
    method Handler(r: Request, clock: seq<byte>) returns (response: Option<Response>)
      requires Valid()
      modifies Repr
      ensures Handled(Contents(), response) == Handle(old(Contents()), r, clock)
    {
      var header := DefaultResponseHeader(r.header);
      if r.commandCode == CLOCK_READ {
        return Some(Response(header, r.commandCode, NORMAL, clock));
      }
      if r.commandCode != MEMORY_AREA_READ && r.commandCode != MEMORY_AREA_WRITE {
        return Some(Response(header, r.commandCode, NOT_SUPPORTED, []));
      }
      var c := RequestedCommand(r.commandCode, r.data);
      if c.None? {
        return None;
      }
      var answer := Execute(c.value);
      if answer.Panic? {
        return None;
      }
      return Some(Response(header, r.commandCode, answer.endCode, answer.data));
    }

    /** decodeRequest, handler, encodeResponse: one datagram of udpLoop, one frame of handleTCPConn. */
    method ServeFrame(frame: seq<byte>, clock: seq<byte>) returns (reply: Option<seq<byte>>)
      requires Valid()
      modifies Repr
      ensures Served(Contents(), reply) == Serve(old(Contents()), frame, clock)
    {
      if |frame| < 12 {
        return None;
      }
      var response := Handler(DecodeRequest(frame).value, clock);
      return if response.None? then None else Some(EncodeResponse(response.value));
    }
  }

  ghost predicate Zeroed(buffers: Buffers) reads buffers.Values {
    forall a :: a in buffers ==> buffers[a][..] == ZeroedArea()
  }

  /** Zeroed buffers are a zeroed memory, area by area. */
  lemma ZeroedSnapshot(buffers: Buffers, codes: set<byte>)
    requires Separate(buffers, codes) && Zeroed(buffers)
    ensures Snapshot(buffers, codes) == ZeroedAreas(codes)
  {
  }

  /** One more zeroed buffer, under its own code. */
  method AddArea(areas: Buffers, ghost codes: set<byte>, code: byte) returns (more: Buffers)
    requires Separate(areas, codes) && Zeroed(areas)
    ensures Separate(more, codes + {code}) && Zeroed(more)
    ensures fresh(more.Values - areas.Values)
  {
    var b := new byte[AREA_SIZE](_ => 0);
    assert b[..] == ZeroedArea();
    more := areas[code := b];
  }

  function CodeSet(codes: seq<byte>): set<byte> { set c | c in codes }

  /** A zeroed buffer of its own for every code. */
  method NewAreas(codes: seq<byte>) returns (areas: Buffers)
    ensures Separate(areas, CodeSet(codes)) && fresh(areas.Values)
    ensures Snapshot(areas, CodeSet(codes)) == ZeroedAreas(CodeSet(codes))
  {
    areas := map[];
    for i := 0 to |codes|
      invariant Separate(areas, CodeSet(codes[..i])) && Zeroed(areas) && fresh(areas.Values)
    {
      areas := AddArea(areas, CodeSet(codes[..i]), codes[i]);
      assert CodeSet(codes[..i + 1]) == CodeSet(codes[..i]) + {codes[i]};
    }
    assert codes[..|codes|] == codes;
    ZeroedSnapshot(areas, CodeSet(codes));
  }

  method NewWordAreas() returns (areas: Buffers)
    ensures Separate(areas, WORD_AREAS) && fresh(areas.Values) && Snapshot(areas, WORD_AREAS) == ZeroedAreas(WORD_AREAS)
  {
    assert CodeSet([DM_WORD, WR_WORD, HR_WORD, AR_WORD, CIO_WORD]) == WORD_AREAS;
    areas := NewAreas([DM_WORD, WR_WORD, HR_WORD, AR_WORD, CIO_WORD]);
  }

  method NewBitAreas() returns (areas: Buffers)
    ensures Separate(areas, BIT_AREAS) && fresh(areas.Values) && Snapshot(areas, BIT_AREAS) == ZeroedAreas(BIT_AREAS)
  {
    assert CodeSet([DM_BIT, WR_BIT, HR_BIT, AR_BIT, CIO_BIT]) == BIT_AREAS;
    areas := NewAreas([DM_BIT, WR_BIT, HR_BIT, AR_BIT, CIO_BIT]);
  }

  /** Area lookup, bounds check and copy out. */
  method Slice(buffers: Buffers, ghost codes: set<byte>, area: byte, start: uint16, end: uint16) returns (r: Answer)
    requires Separate(buffers, codes)
    ensures r == ReadFrom(Snapshot(buffers, codes), codes, area, Window(start, end))
  {
    if area !in buffers {
      return Answer(NOT_SUPPORTED, []);
    }
    if end > AREA_SIZE {
      return Answer(RANGE_EXCEEDED, []);
    }
    if end < start {
      return Panic;
    }
    return Answer(NORMAL, buffers[area][start..end]);
  }

  /** Area lookup, bounds check and copy in. */
  method Store(buffers: Buffers, ghost codes: set<byte>, area: byte, start: uint16, end: uint16, payload: seq<byte>)
    returns (r: Answer)
    requires Separate(buffers, codes)
    modifies buffers.Values
    ensures (Snapshot(buffers, codes), r)
        == WriteTo(old(Snapshot(buffers, codes)), codes, area, Window(start, end), payload)
  {
    if area !in buffers {
      return Answer(NOT_SUPPORTED, []);
    }
    if end > AREA_SIZE {
      return Answer(RANGE_EXCEEDED, []);
    }
    if end < start {
      return Panic;
    }
    ghost var before := Snapshot(buffers, codes);
    CopyIn(buffers[area], start, end, payload);
    assert forall a :: a in buffers && a != area ==> buffers[a][..] == before[a];
    assert Snapshot(buffers, codes) == before[area := Overwrite(before[area], Granted(start, end), payload)];
    return Answer(NORMAL, []);
  }

  /** copy(buf[start:end], payload) */
  method CopyIn(buf: array<byte>, start: nat, end: nat, payload: seq<byte>)
    requires start <= end <= buf.Length
    modifies buf
    ensures buf[..] == Overwrite(old(buf[..]), Granted(start, end), payload)
  {
    var n := if |payload| < end - start then |payload| else end - start;
    for i := 0 to n
      invariant forall k :: 0 <= k < buf.Length ==>
                  buf[k] == if start <= k < start + i then payload[k - start] else old(buf[k])
    {
      buf[start + i] := payload[i];
    }
  }
}
