/** What the clients' writes leave in the simulator's memory, byte by byte, and which areas the clients refuse
    (client.go:666-764, 993-1011; inline_client.go:182-289). */
module ClientWrites {
  import opened Bytes
  import opened Driver
  import opened Server
  import opened MemoryLaws
  import opened Clients

  /** The memory after these bytes were put in an area from a start on, and nowhere else. */
  ghost predicate Holds(m: Memory, m': Memory, onWords: bool, area: byte, start: int, p: seq<byte>) {
    && WellFormed(m) && WellFormed(m')
    && forall cell: Cell :: cell.Exists() ==>
         ByteAt(m', cell) ==
           if cell.onWords == onWords && cell.area == area && start <= cell.index < start + |p|
           then p[cell.index - start] else ByteAt(m, cell)
  }

  lemma LandedWrite(m: Memory, c: Command, onWords: bool, area: byte, start: int, p: seq<byte>)
    requires Lands(m, c, onWords, area, start, p)
    ensures InlineWrite(m, c).1 == Ok(Unit) && Holds(m, InlineWrite(m, c).0, onWords, area, start, p)
  {
  }

  // ---------- Bits ----------

  /** A bit is stored as a byte, 1 or 0. */
  lemma BitIsOneOrZero(data: seq<bool>, k: nat)
    requires k < |data|
    ensures BitBytes(data)[k] == if data[k] then 1 else 0
  {
  }

  lemma BitsReadBack(m: Memory, m': Memory, area: byte, address: uint16, bitOffset: byte, data: seq<bool>)
    requires area in CLIENT_BIT_AREAS && (address as int) + bitOffset + |data| <= 32768
    requires Holds(m, m', false, area, (address as int) + bitOffset, BitBytes(data))
    ensures InlineReadBits(m', area, address, bitOffset, |data|) == Ok(data)
  {
    ClientAreas(area);
    var start: nat := (address as int) + bitOffset;
    BitsComeFrom(m', area, address, bitOffset, |data|);
    var raw := m'.bit[area][start..start + |data|];
    forall k | 0 <= k < |data| ensures raw[k] == if data[k] then 1 else 0 {
      BitIsOneOrZero(data, k);
      var cell := Cell(false, area, start + k);
      assert cell.Exists() && ByteAt(m', cell) == raw[k];
    }
    assert BitsOver(raw, |data|).value == data;
  }

  /** Bits written inside an area come back as they were, by either path; in between, each is a byte 1 or 0 at
      address plus bit offset plus its position, and no other byte of any area has changed. */
  lemma {:induction false} BitsWrittenAreRead(m: Memory, link: Link, area: byte, address: uint16, bitOffset: byte,
        data: seq<bool>)
    requires WellFormed(m) && link.Valid() && area in CLIENT_BIT_AREAS
    requires (address as int) + bitOffset + |data| <= 32768
    ensures var (m', r) := InlineWriteBits(m, area, address, bitOffset, data);
            && r == Ok(Unit) && WireWriteBits(m, link, area, address, bitOffset, data) == (m', r)
            && Holds(m, m', false, area, (address as int) + bitOffset, BitBytes(data))
            && InlineReadBits(m', area, address, bitOffset, |data|) == Ok(data)
            && WireReadBits(m', link, area, address, bitOffset, |data|) == (m', Ok(data))
    ensures forall k :: 0 <= k < |data| ==> BitBytes(data)[k] == if data[k] then 1 else 0
  {
    ClientAreas(area);
    assert Count(data) == |data| && data[..|data|] == data;
    var c, start := WriteBits(area, address, bitOffset, |data|, BitBytes(data)), (address as int) + bitOffset;
    BitsLand(m, area, address, bitOffset, BitBytes(data));
    LandedWrite(m, c, false, area, start, BitBytes(data));
    WriteBitsAgreeWhen(m, link, area, address, bitOffset, data);
    var m' := InlineWriteBits(m, area, address, bitOffset, data).0;
    BitsReadBack(m, m', area, address, bitOffset, data);
    ReadBitsAgree(m', link, area, address, bitOffset, |data|);
  }

  // ---------- Words ----------

  /** A word is stored as two bytes, the high one first in big-endian order and last in little-endian order. */
  function WordsStored(o: ByteOrder, data: seq<uint16>): (p: seq<byte>)
    ensures |p| == 2 * |data|
  {
    if data == [] then []
    else
      var w := data[|data| - 1];
      WordsStored(o, data[..|data| - 1]) + if o.BigEndian? then [w / 256, w % 256] else [w % 256, w / 256]
  }

  lemma {:induction false} BytesOfAreStored(o: ByteOrder, data: seq<uint16>)
    ensures BytesOf(o, data) == WordsStored(o, data)
  {
    if data != [] {
      BytesOfAreStored(o, data[..|data| - 1]);
    }
  }

  /** Words written inside an area are at its address, in the client's byte order, and nothing else has changed. */
  lemma {:induction false} WordsWrittenAreStored(m: Memory, link: Link, o: ByteOrder, area: byte, address: uint16,
        data: seq<uint16>)
    requires WellFormed(m) && link.Valid() && area in CLIENT_WORD_AREAS && (address as int) + 2 * |data| <= 32768
    ensures var (m', r) := InlineWriteWords(m, o, area, address, data);
            && r == Ok(Unit) && WireWriteWords(m, link, o, area, address, data) == (m', r)
            && Holds(m, m', true, area, address, WordsStored(o, data))
  {
    ClientAreas(area);
    SmallPayload(o, data);
    BytesOfAreStored(o, data);
    WordsLand(m, area, address, |data|, BytesOf(o, data));
    LandedWrite(m, WriteWords(area, address, |data|, BytesOf(o, data)), true, area, address, BytesOf(o, data));
    WordsWrittenAreRead(m, link, o, area, address, data);
  }

  // ---------- Strings ----------

  /** A string is stored as it is, with one NUL after it if its length is odd. */
  function StringStored(s: seq<byte>): seq<byte> { if |s| % 2 == 0 then s else s + [0] }

  /** A string written inside an area is at its address, and nothing else has changed. */
  lemma StringWrittenIsStored(m: Memory, link: Link, area: byte, address: uint16, s: seq<byte>)
    requires WellFormed(m) && link.Valid() && area in CLIENT_WORD_AREAS
    requires (address as int) + 2 * ((|s| + 1) / 2) <= 32768
    ensures var (m', r) := InlineWriteString(m, area, address, s);
            && r == Ok(Unit) && WireWriteString(m, link, area, address, s) == (m', r)
            && Holds(m, m', true, area, address, StringStored(s))
  {
    ClientAreas(area);
    SentString(s);
    var n, payload := StringCount(s), StringPayload(s);
    var used := payload[..2 * (n as int)];
    assert used == StringStored(s);
    var at := MemoryAddress(area, address, 0);
    assert TakenSize(at, n) == |used|;
    ExcessIgnored(m, at, n, payload);
    assert WriteAt(at, n, payload) == WriteWords(area, address, n, payload);
    assert WriteAt(at, n, used) == WriteWords(area, address, n, used);
    WordsLand(m, area, address, n, used);
    LandedWrite(m, WriteWords(area, address, n, used), true, area, address, used);
    StringsWrittenAreRead(m, link, area, address, s);
  }

  // ---------- Areas the clients refuse ----------

  /** Word reads are refused, on both paths and before anything is sent, for all areas but the DM, work, holding
      and auxiliary word areas. */
  lemma WordReadsRefusedWhen(m: Memory, link: Link, o: ByteOrder, area: byte, address: uint16, n: uint16)
    requires WellFormed(m)
    ensures InlineReadWords(m, o, area, address, n).IncompatibleArea? <==> area !in {0x82, 0xb1, 0xb2, 0xb3}
    ensures InlineReadString(m, area, address, n).IncompatibleArea? <==> area !in {0x82, 0xb1, 0xb2, 0xb3}
    ensures area !in {0x82, 0xb1, 0xb2, 0xb3} ==>
              && WireReadWords(m, link, o, area, address, n) == (m, IncompatibleArea(area))
              && WireReadString(m, link, area, address, n) == (m, IncompatibleArea(area))
  {
    assert CLIENT_WORD_AREAS == {0x82, 0xb1, 0xb2, 0xb3};
  }

  lemma WriteIsNotRefused(m: Memory, c: Command)
    requires WellFormed(m)
    ensures !InlineWrite(m, c).1.IncompatibleArea?
  {
  }

  /** The same for word and string writes, which then change nothing. */
  lemma WordWritesRefusedWhen(m: Memory, link: Link, o: ByteOrder, area: byte, address: uint16, data: seq<uint16>)
    requires WellFormed(m)
    ensures InlineWriteWords(m, o, area, address, data).1.IncompatibleArea? <==> area !in {0x82, 0xb1, 0xb2, 0xb3}
    ensures area !in {0x82, 0xb1, 0xb2, 0xb3} ==>
              && InlineWriteWords(m, o, area, address, data) == (m, IncompatibleArea(area))
              && WireWriteWords(m, link, o, area, address, data) == (m, IncompatibleArea(area))
  {
    assert CLIENT_WORD_AREAS == {0x82, 0xb1, 0xb2, 0xb3};
    if area in CLIENT_WORD_AREAS && Payload(o, data).Some? {
      WriteIsNotRefused(m, WriteWords(area, address, Count(data), Payload(o, data).value));
    }
  }

  lemma StringWritesRefusedWhen(m: Memory, link: Link, area: byte, address: uint16, s: seq<byte>)
    requires WellFormed(m)
    ensures InlineWriteString(m, area, address, s).1.IncompatibleArea? <==> area !in {0x82, 0xb1, 0xb2, 0xb3}
    ensures area !in {0x82, 0xb1, 0xb2, 0xb3} ==>
              && InlineWriteString(m, area, address, s) == (m, IncompatibleArea(area))
              && WireWriteString(m, link, area, address, s) == (m, IncompatibleArea(area))
  {
    assert CLIENT_WORD_AREAS == {0x82, 0xb1, 0xb2, 0xb3};
    WriteIsNotRefused(m, WriteWords(area, address, StringCount(s), StringPayload(s)));
  }

  /** And bit operations for all but the bit areas of the same four. */
  lemma {:induction false} BitAreasRefusedWhen(m: Memory, link: Link, area: byte, address: uint16,
        bitOffset: byte, n: uint16, data: seq<bool>)
    requires WellFormed(m)
    ensures var refused := area !in {0x02, 0x31, 0x32, 0x33};
            && (refused ==> InlineReadBits(m, area, address, bitOffset, n) == IncompatibleArea(area))
            && (refused ==> WireReadBits(m, link, area, address, bitOffset, n) == (m, IncompatibleArea(area)))
            && (refused ==> InlineWriteBits(m, area, address, bitOffset, data) == (m, IncompatibleArea(area)))
            && (refused ==> WireWriteBits(m, link, area, address, bitOffset, data) == (m, IncompatibleArea(area)))
            && (!refused ==> !InlineReadBits(m, area, address, bitOffset, n).IncompatibleArea?)
            && (!refused ==> !InlineWriteBits(m, area, address, bitOffset, data).1.IncompatibleArea?)
  {
  }
}
