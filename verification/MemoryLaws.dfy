/** What a run of commands leaves in the simulator's memory: last write wins (server.go:142-204). */
module MemoryLaws {
  import opened Bytes
  import opened Server

  /** One byte of one area. */
  datatype Cell = Cell(onWords: bool, area: byte, index: nat)
  {
    predicate Exists() { area in (if onWords then WORD_AREAS else BIT_AREAS) && index < AREA_SIZE }
  }

  function ByteAt(m: Memory, cell: Cell): byte
    requires WellFormed(m) && cell.Exists()
  {
    if cell.onWords then m.word[cell.area][cell.index] else m.bit[cell.area][cell.index]
  }

  function Run(m: Memory, cs: seq<Command>): (r: Memory)
    requires WellFormed(m)
    ensures WellFormed(r)
  {
    if cs == [] then m else Apply(Run(m, cs[..|cs| - 1]), cs[|cs| - 1]).0
  }

  /** The byte a command puts in a cell: the window its bounds leave is filled from the payload, as far as
      that goes. A range that is denied or panics stores nothing. */
  function Stored(c: Command, cell: Cell): Option<byte> {
    var w := c.Bounds();
    if c.IsWrite() && c.Supported() && c.OnWords() == cell.onWords && c.area == cell.area
      && w.Granted? && w.start <= cell.index < w.end && cell.index - w.start < |c.payload|
    then Some(c.payload[cell.index - w.start])
    else None
  }

  /** For a conforming command the window is its own range if that fits, and nothing otherwise. */
  lemma ConformingWindow(c: Command)
    requires c.Supported()
    ensures c.Conforms() ==> c.Bounds() == if c.Fits() then Granted(c.First(), c.First() + c.Size()) else Denied
    ensures c.Fits() ==> c.Conforms()
  {
    BoundsCheckExactWhen(c.First(), c.Size());
  }

  /** The last byte written over a cell, or 0 if there is none. */
  function LastStored(cs: seq<Command>, cell: Cell): byte {
    if cs == [] then 0
    else
      match Stored(cs[|cs| - 1], cell)
      case Some(b) => b
      case None => LastStored(cs[..|cs| - 1], cell)
  }

  // ---------- The end code ----------

  /** An area the simulator does not have changes nothing, whatever the range. */
  lemma UnsupportedAreaRefused(m: Memory, c: Command)
    requires WellFormed(m) && !c.Supported()
    ensures Apply(m, c) == (m, Answer(NOT_SUPPORTED, []))
  {
  }

  /** For every command and memory: the simulator answers, and answers "normal" exactly for ranges inside an area
      it has, if and only if the command conforms or names no such area; any other command panics or completes on
      a wrapped range. What is refused changes nothing. */
  lemma AnswerExactWhen(m: Memory, c: Command)
    requires WellFormed(m)
    ensures var a := Apply(m, c).1;
            && (a.Answer? && (a.endCode == 0x0000 <==> c.Fits()) <==> c.Conforms() || !c.Supported())
            && (!c.Supported() ==> Apply(m, c) == (m, Answer(0x0402, [])))
            && (c.Supported() && c.Conforms() && !c.Fits() ==> Apply(m, c) == (m, Answer(0x1104, [])))
  {
    if c.Supported() {
      BoundsCheckExactWhen(c.First(), c.Size());
    } else {
      UnsupportedAreaRefused(m, c);
    }
  }

  /** The departure is real: reading twice the size of an area from its start is "normal" and returns nothing,
      and a byte range that ends at 65536 panics. */
  lemma WrappedRangesMisjudged(m: Memory)
    requires WellFormed(m)
    ensures Apply(m, ReadWords(DM_WORD, 0, 0x8000)).1 == Answer(NORMAL, [])
    ensures Apply(m, ReadBits(DM_BIT, 0xffff, 0, 1)).1 == Panic
  {
    assert m.word[DM_WORD][0..0] == [];
  }

  // ---------- Last write wins ----------

  lemma OverwriteAt(buf: seq<byte>, a: Access, payload: seq<byte>, k: nat)
    requires a.Granted? && a.start <= a.end <= |buf| && k < |buf|
    ensures Overwrite(buf, a, payload)[k] ==
              if a.start <= k < a.end && k - a.start < |payload| then payload[k - a.start] else buf[k]
  {
  }

  /** One command changes exactly the cells it stores to. */
  lemma StepStores(m: Memory, c: Command, cell: Cell)
    requires WellFormed(m) && cell.Exists()
    ensures ByteAt(Apply(m, c).0, cell) == match Stored(c, cell) case Some(b) => b case None => ByteAt(m, cell)
  {
    if c.IsWrite() && c.Bounds().Granted? && c.OnWords() == cell.onWords && c.area == cell.area {
      OverwriteAt(if cell.onWords then m.word[cell.area] else m.bit[cell.area], c.Bounds(), c.payload, cell.index);
    }
  }

  /** After any run from start-up every byte of every area is the last value written over it, or 0. */
  lemma {:induction false} LastWriteWins(cs: seq<Command>, cell: Cell)
    requires cell.Exists()
    ensures ByteAt(Run(InitialMemory(), cs), cell) == LastStored(cs, cell)
  {
    if cs != [] {
      LastWriteWins(cs[..|cs| - 1], cell);
      StepStores(Run(InitialMemory(), cs[..|cs| - 1]), cs[|cs| - 1], cell);
    }
  }

  /** A read that is granted returns the bytes of its window. */
  lemma ReadReturnsBytes(m: Memory, c: Command, k: nat)
    requires WellFormed(m) && !c.IsWrite() && c.Supported() && c.Bounds().Granted?
    ensures var a, w := Apply(m, c).1, c.Bounds();
            && a.Answer? && a.endCode == NORMAL && |a.data| == w.end - w.start
            && (k < w.end - w.start ==> a.data[k] == ByteAt(m, Cell(c.OnWords(), c.area, w.start + k)))
  {
  }

  /** A read granted after any run returns those bytes of its window, all of them, and nothing else. */
  lemma WindowReturnsLastWrites(cs: seq<Command>, c: Command, k: nat)
    requires !c.IsWrite() && c.Supported() && c.Bounds().Granted?
    ensures var a, w := Apply(Run(InitialMemory(), cs), c).1, c.Bounds();
            && a.Answer? && a.endCode == NORMAL && |a.data| == w.end - w.start
            && (k < w.end - w.start ==> a.data[k] == LastStored(cs, Cell(c.OnWords(), c.area, w.start + k)))
  {
    var w, m := c.Bounds(), Run(InitialMemory(), cs);
    ReadReturnsBytes(m, c, k);
    if k < w.end - w.start {
      var cell := Cell(c.OnWords(), c.area, w.start + k);
      LastWriteWins(cs, cell);
      assert ByteAt(m, cell) == LastStored(cs, cell);
    }
  }

  /** A read that fits returns the bytes of its own range. */
  lemma FittingReadReturns(m: Memory, c: Command, k: nat)
    requires WellFormed(m) && !c.IsWrite() && c.Fits()
    ensures var a := Apply(m, c).1;
            && a.Answer? && a.endCode == NORMAL && |a.data| == c.Size()
            && (k < c.Size() ==> a.data[k] == ByteAt(m, Cell(c.OnWords(), c.area, c.First() + k)))
  {
    ConformingWindow(c);
    ReadReturnsBytes(m, c, k);
  }

  /** So after any run it returns the last writes over that range. */
  lemma ReadReturnsLastWrites(cs: seq<Command>, c: Command, k: nat)
    requires !c.IsWrite() && c.Fits()
    ensures var a := Apply(Run(InitialMemory(), cs), c).1;
            && a.Answer? && a.endCode == NORMAL && |a.data| == c.Size()
            && (k < c.Size() ==> a.data[k] == LastStored(cs, Cell(c.OnWords(), c.area, c.First() + k)))
  {
    FittingReadReturns(Run(InitialMemory(), cs), c, k);
    if k < c.Size() {
      LastWriteWins(cs, Cell(c.OnWords(), c.area, c.First() + k));
    }
  }

  // ---------- When word accesses are independent ----------

  /** |p| / 2 words at an address. */
  predicate FitsAt(p: seq<byte>, address: uint16) { |p| % 2 == 0 && (address as int) + |p| <= AREA_SIZE }

  function WordCount(p: seq<byte>, address: uint16): uint16
    requires FitsAt(p, address)
  {
    |p| / 2
  }

  function WriteAtAddress(area: byte, address: uint16, p: seq<byte>): (c: Command)
    requires FitsAt(p, address)
    ensures area in WORD_AREAS ==> c.Fits() && c.First() == address && c.Size() == |p|
  {
    WriteWords(area, address, WordCount(p, address), p)
  }

  /** What reading p's words back returns, after p was written at a and then q at b. */
  function ReadAfterBoth(m: Memory, area: byte, a: uint16, p: seq<byte>, b: uint16, q: seq<byte>): Answer
    requires WellFormed(m) && FitsAt(p, a) && FitsAt(q, b)
  {
    var written := Apply(Apply(m, WriteAtAddress(area, a, p)).0, WriteAtAddress(area, b, q)).0;
    Apply(written, ReadWords(area, a, WordCount(p, a))).1
  }

  /** The two payloads hold the same byte wherever both put one. */
  ghost predicate AgreeWhereBothWrite(a: uint16, p: seq<byte>, b: uint16, q: seq<byte>) {
    forall i: nat :: i < |p| && b <= a + i < b + |q| ==> p[i] == q[a + i - b]
  }

  lemma ByteAfterBoth(m: Memory, area: byte, a: uint16, p: seq<byte>, b: uint16, q: seq<byte>, i: nat)
    requires WellFormed(m) && area in WORD_AREAS && FitsAt(p, a) && FitsAt(q, b) && i < |p|
    ensures var r := ReadAfterBoth(m, area, a, p, b, q);
            && r.Answer? && r.endCode == NORMAL && |r.data| == |p|
            && r.data[i] == if b <= a + i < b + |q| then q[a + i - b] else p[i]
  {
    var c1, c2, read := WriteAtAddress(area, a, p), WriteAtAddress(area, b, q), ReadWords(area, a, WordCount(p, a));
    var cell := Cell(true, area, a + i);
    ConformingWindow(c1);
    ConformingWindow(c2);
    ConformingWindow(read);
    StepStores(m, c1, cell);
    StepStores(Apply(m, c1).0, c2, cell);
    ReadReturnsBytes(Apply(Apply(m, c1).0, c2).0, read, i);
  }

  lemma NoWordsReadBack(m: Memory, area: byte, a: uint16, b: uint16, q: seq<byte>)
    requires WellFormed(m) && area in WORD_AREAS && FitsAt([], a) && FitsAt(q, b)
    ensures ReadAfterBoth(m, area, a, [], b, q) == Answer(NORMAL, [])
  {
    var read := ReadWords(area, a, 0);
    ConformingWindow(read);
    ReadReturnsBytes(Apply(Apply(m, WriteAtAddress(area, a, [])).0, WriteAtAddress(area, b, q)).0, read, 0);
  }

  /** For every memory, area, pair of ranges inside it and payloads: words written at a survive a later write at
      b if and only if the two payloads agree on the bytes both ranges cover. */
  lemma WordsSurviveWhen(m: Memory, area: byte, a: uint16, p: seq<byte>, b: uint16, q: seq<byte>)
    requires WellFormed(m) && area in WORD_AREAS && FitsAt(p, a) && FitsAt(q, b)
    ensures ReadAfterBoth(m, area, a, p, b, q) == Answer(NORMAL, p) <==> AgreeWhereBothWrite(a, p, b, q)
  {
    if p == [] {
      NoWordsReadBack(m, area, a, b, q);
    } else {
      ByteAfterBoth(m, area, a, p, b, q, 0);
      var data := ReadAfterBoth(m, area, a, p, b, q).data;
      forall i: nat | i < |p| ensures data[i] == if b <= a + i < b + |q| then q[a + i - b] else p[i] {
        ByteAfterBoth(m, area, a, p, b, q, i);
      }
      assert AgreeWhereBothWrite(a, p, b, q) ==> data == p;
    }
  }

  ghost predicate AllSurvive(m: Memory, area: byte, a: uint16, n: nat, b: uint16, k: nat)
    requires WellFormed(m)
  {
    forall p: seq<byte>, q: seq<byte> :: |p| == 2 * n && |q| == 2 * k && FitsAt(p, a) && FitsAt(q, b) ==>
      ReadAfterBoth(m, area, a, p, b, q) == Answer(NORMAL, p)
  }

  function Filled(n: nat, v: byte): seq<byte> { seq(n, _ => v) }

  /** FINS addresses count words, so n words at a and k words at b should be independent whenever
      a + n <= b or b + k <= a. Here they are, for all payloads, if and only if the addresses lie twice as far
      apart: addresses are byte offsets. */
  lemma WordsIndependentWhen(m: Memory, area: byte, a: uint16, n: nat, b: uint16, k: nat)
    requires WellFormed(m) && area in WORD_AREAS && 0 < n && 0 < k
    requires (a as int) + 2 * n <= AREA_SIZE && (b as int) + 2 * k <= AREA_SIZE
    ensures AllSurvive(m, area, a, n, b, k) <==> a + 2 * n <= b || b + 2 * k <= a
  {
    if a + 2 * n <= b || b + 2 * k <= a {
      forall p: seq<byte>, q: seq<byte> | |p| == 2 * n && |q| == 2 * k && FitsAt(p, a) && FitsAt(q, b)
        ensures ReadAfterBoth(m, area, a, p, b, q) == Answer(NORMAL, p)
      {
        WordsSurviveWhen(m, area, a, p, b, q);
      }
    } else {
      var p, q := Filled(2 * n, 0), Filled(2 * k, 1);
      WordsSurviveWhen(m, area, a, p, b, q);
      var i: nat := if a <= b then b - a else 0;
      assert b <= a + i < b + |q| && p[i] != q[a + i - b];
    }
  }

  lemma TwoBytesAgree(a: uint16, p: seq<byte>, b: uint16, q: seq<byte>)
    requires |p| == |q| == 2
    ensures AgreeWhereBothWrite(a, p, b, q) <==>
              (b <= a < b + 2 ==> p[0] == q[a - b]) && (b <= a + 1 < b + 2 ==> p[1] == q[a + 1 - b])
  {
  }

  /** Single words: neighbours must share a byte, and unequal words at one address overwrite each other. */
  lemma OneWordSurvivesWhen(m: Memory, area: byte, a: uint16, p: seq<byte>, b: uint16, q: seq<byte>)
    requires WellFormed(m) && area in WORD_AREAS && |p| == |q| == 2 && FitsAt(p, a) && FitsAt(q, b)
    ensures ReadAfterBoth(m, area, a, p, b, q) == Answer(NORMAL, p)
       <==> || a + 2 <= b || b + 2 <= a || (a == b && p == q)
            || (b == a + 1 && q[0] == p[1]) || (a == b + 1 && q[1] == p[0])
  {
    WordsSurviveWhen(m, area, a, p, b, q);
    TwoBytesAgree(a, p, b, q);
    if a == b {
      assert p == [p[0], p[1]] && q == [q[0], q[1]];
    }
  }

  /** The smallest case: a word written at the next address overwrites half of the previous one. */
  lemma NeighbouringWordsOverlap(m: Memory, area: byte)
    requires WellFormed(m) && area in WORD_AREAS
    ensures ReadAfterBoth(m, area, 100, [1, 2], 101, [3, 4]) == Answer(NORMAL, [1, 3])
  {
    ByteAfterBoth(m, area, 100, [1, 2], 101, [3, 4], 0);
    ByteAfterBoth(m, area, 100, [1, 2], 101, [3, 4], 1);
    assert ReadAfterBoth(m, area, 100, [1, 2], 101, [3, 4]).data == [1, 3];
  }

  // ---------- Where accesses land ----------

  /** A write of bytes p to an area puts p[k] in cell start + k of that area and leaves every other cell. */
  ghost predicate Lands(m: Memory, c: Command, onWords: bool, area: byte, start: int, p: seq<byte>) {
    && WellFormed(m)
    && Apply(m, c).1 == Answer(0x0000, [])
    && forall cell: Cell :: cell.Exists() ==>
         ByteAt(Apply(m, c).0, cell) ==
           if cell.onWords == onWords && cell.area == area && start <= cell.index < start + |p|
           then p[cell.index - start] else ByteAt(m, cell)
  }

  lemma FittingWriteLands(m: Memory, c: Command)
    requires WellFormed(m) && c.IsWrite() && c.Fits() && |c.payload| == c.Size()
    ensures Lands(m, c, c.OnWords(), c.area, c.First(), c.payload)
  {
    ConformingWindow(c);
    forall cell: Cell | cell.Exists()
      ensures ByteAt(Apply(m, c).0, cell) ==
                if cell.onWords == c.OnWords() && cell.area == c.area
                  && c.First() <= cell.index < c.First() + |c.payload|
                then c.payload[cell.index - c.First()] else ByteAt(m, cell)
    {
      StepStores(m, c, cell);
    }
  }

  /** A word write starts at its address, two bytes a word. */
  lemma WordsLand(m: Memory, area: byte, address: uint16, n: uint16, p: seq<byte>)
    requires WellFormed(m) && area in WORD_AREAS && |p| == 2 * (n as int) && (address as int) + |p| <= 32768
    ensures Lands(m, WriteWords(area, address, n, p), true, area, address, p)
  {
    FittingWriteLands(m, WriteWords(area, address, n, p));
  }

  /** A bit write starts at its address plus its bit offset, a byte a bit. */
  lemma BitsLand(m: Memory, area: byte, address: uint16, bitOffset: byte, p: seq<byte>)
    requires WellFormed(m) && area in BIT_AREAS && (address as int) + bitOffset + |p| <= 32768
    ensures Lands(m, WriteBits(area, address, bitOffset, |p|, p), false, area, (address as int) + bitOffset, p)
  {
    FittingWriteLands(m, WriteBits(area, address, bitOffset, |p|, p));
  }

  /** So do the reads. */
  lemma WordsComeFrom(m: Memory, area: byte, address: uint16, n: uint16)
    requires WellFormed(m) && area in WORD_AREAS && (address as int) + 2 * (n as int) <= 32768
    ensures Apply(m, ReadWords(area, address, n))
         == (m, Answer(0x0000, m.word[area][address..(address as int) + 2 * (n as int)]))
  {
    ConformingWindow(ReadWords(area, address, n));
  }

  lemma BitsComeFrom(m: Memory, area: byte, address: uint16, bitOffset: byte, n: uint16)
    requires WellFormed(m) && area in BIT_AREAS && (address as int) + bitOffset + n <= 32768
    ensures Apply(m, ReadBits(area, address, bitOffset, n))
         == (m, Answer(0x0000, m.bit[area][(address as int) + bitOffset..(address as int) + bitOffset + n]))
  {
    ConformingWindow(ReadBits(area, address, bitOffset, n));
  }

  /** The bit at (a, i), read after v was written there and then w at (b, j). */
  function BitAfterBoth(m: Memory, area: byte, a: uint16, i: byte, v: byte, b: uint16, j: byte, w: byte): Answer
    requires WellFormed(m)
  {
    var written := Apply(Apply(m, WriteBits(area, a, i, 1, [v])).0, WriteBits(area, b, j, 1, [w])).0;
    Apply(written, ReadBits(area, a, i, 1)).1
  }

  lemma BitAfterBothIs(m: Memory, area: byte, a: uint16, i: byte, v: byte, b: uint16, j: byte, w: byte)
    requires WellFormed(m) && area in BIT_AREAS && (a as int) + i < 32768 && (b as int) + j < 32768
    ensures BitAfterBoth(m, area, a, i, v, b, j, w)
         == Answer(0x0000, [if (a as int) + i == (b as int) + j then w else v])
  {
    var m1 := Apply(m, WriteBits(area, a, i, 1, [v])).0;
    var m2 := Apply(m1, WriteBits(area, b, j, 1, [w])).0;
    BitLands(m, area, a, i, v, (a as int) + i);
    BitLands(m1, area, b, j, w, (a as int) + i);
    BitsComeFrom(m2, area, a, i, 1);
    SliceOfOne(m2.bit[area], (a as int) + i);
  }

  lemma SliceOfOne(buf: seq<byte>, at: nat)
    requires at < |buf|
    ensures buf[at..at + 1] == [buf[at]]
  {
  }

  lemma BitLands(m: Memory, area: byte, b: uint16, j: byte, w: byte, at: nat)
    requires WellFormed(m) && area in BIT_AREAS && (b as int) + j < 32768 && at < 32768
    ensures Apply(m, WriteBits(area, b, j, 1, [w])).0.bit[area][at]
         == if at == (b as int) + j then w else m.bit[area][at]
  {
    BitsLand(m, area, b, j, [w]);
    var cell := Cell(false, area, at);
    assert cell.Exists() && ByteAt(m, cell) == m.bit[area][at];
  }

  /** Single bits at (a, i) and (b, j) are independent, for all values, if and only if address plus offset differ. */
  lemma BitsIndependentWhen(m: Memory, area: byte, a: uint16, i: byte, b: uint16, j: byte)
    requires WellFormed(m) && area in BIT_AREAS && (a as int) + i < 32768 && (b as int) + j < 32768
    ensures (forall v: byte, w: byte :: BitAfterBoth(m, area, a, i, v, b, j, w) == Answer(0x0000, [v]))
       <==> (a as int) + i != (b as int) + j
  {
    forall v: byte, w: byte
      ensures BitAfterBoth(m, area, a, i, v, b, j, w)
           == Answer(0x0000, [if (a as int) + i == (b as int) + j then w else v])
    {
      BitAfterBothIs(m, area, a, i, v, b, j, w);
    }
    assert BitAfterBoth(m, area, a, i, 0, b, j, 1) == Answer(0x0000, [0]) ==> (a as int) + i != (b as int) + j;
  }
}
