/** Fixed-width unsigned numbers as Go uses them, big- and little-endian words,
    and the few sequence facts the other modules share. */
module Bytes {
  type byte = x: int | 0 <= x < 0x100
  type uint16 = x: int | 0 <= x < 0x1_0000
  type uint32 = x: int | 0 <= x < 0x1_0000_0000
  type uint64 = x: int | 0 <= x < 0x1_0000_0000_0000_0000

  datatype Option<+T> = None | Some(value: T)
  {
    function GetOr(default: T): T { if Some? then value else default }
  }

  /** Conversion to uint16, and the result of every uint16 addition or multiplication. */
  function U16(x: int): uint16 { x % 0x1_0000 }

  lemma ZeroOrFar(n: int, d: int)
    requires n > 0
    ensures d == 0 || n * d >= n || n * d <= -n
  {
    if d > 0 {
      assert n * d == n * (d - 1) + n && n * (d - 1) >= 0;
    } else if d < 0 {
      assert n * d == -n - n * (-d - 1) && n * (-d - 1) >= 0;
    }
  }

  lemma RemainderIs(a: int, n: int, q: int, r: int)
    requires 0 <= r < n && a == n * q + r
    ensures a % n == r
  {
    var d := a / n - q;
    assert n * d == r - a % n;
    ZeroOrFar(n, d);
  }

  /** A multiple of n makes no difference modulo n. */
  lemma MultipleDropped(x: int, n: int, q: int)
    requires n > 0
    ensures (x + n * q) % n == x % n
  {
    var k := x / n;
    assert x + n * q == n * (k + q) + x % n;
    RemainderIs(x + n * q, n, k + q, x % n);
  }

  /** Wrapping an addend first makes no difference. */
  lemma U16Sum(x: int, y: int)
    ensures U16(x + U16(y)) == U16(x + y)
  {
    var q := y / 0x1_0000;
    assert x + y == x + U16(y) + 0x1_0000 * q;
    MultipleDropped(x + U16(y), 0x1_0000, q);
  }

  /** binary.ByteOrder */
  datatype ByteOrder = BigEndian | LittleEndian

  /** Two digits of a number written in base 256. */
  function Join(high: int, low: int): int { high * 0x100 + low }

  function PutUint16(o: ByteOrder, v: uint16): (b: seq<byte>)
    ensures |b| == 2
  {
    if o.BigEndian? then [v / 0x100, v % 0x100] else [v % 0x100, v / 0x100]
  }

  function Uint16(o: ByteOrder, b: seq<byte>): uint16
    requires |b| == 2
  {
    if o.BigEndian? then Join(b[0], b[1]) else Join(b[1], b[0])
  }

  /** The n low-order bytes of v, most significant first. */
  function BigEndianBytes(v: nat, n: nat): (b: seq<byte>)
    ensures |b| == n
  {
    if n == 0 then [] else BigEndianBytes(v / 0x100, n - 1) + [v % 0x100]
  }

  function BigEndianValue(b: seq<byte>): nat {
    if b == [] then 0 else Join(BigEndianValue(b[..|b| - 1]), b[|b| - 1])
  }

  /** The 32-bit fields of a FINS/TCP header are big-endian. */
  function PutUint32(v: uint32): (b: seq<byte>)
    ensures |b| == 4
  {
    BigEndianBytes(v, 4)
  }

  function Uint32(b: seq<byte>): uint32
    requires |b| == 4
  {
    BigEndianValueBelow(b);
    Power256(4);
    BigEndianValue(b)
  }

  function Pow256(n: nat): nat { if n == 0 then 1 else 0x100 * Pow256(n - 1) }

  lemma Power256(n: nat)
    requires n == 4
    ensures Pow256(n) == 0x1_0000_0000
  {
    assert Pow256(1) == 0x100 && Pow256(2) == 0x1_0000 && Pow256(3) == 0x100_0000;
  }

  lemma {:induction false} BigEndianValueBelow(b: seq<byte>)
    ensures BigEndianValue(b) < Pow256(|b|)
  {
    if b != [] {
      BigEndianValueBelow(b[..|b| - 1]);
    }
  }

  /** A number below 256^n survives being written in n bytes. */
  lemma {:induction false} BigEndianRoundTrip(v: nat, n: nat)
    requires v < Pow256(n)
    ensures BigEndianValue(BigEndianBytes(v, n)) == v
  {
    if n != 0 {
      BigEndianRoundTrip(v / 0x100, n - 1);
      assert BigEndianBytes(v, n)[..n - 1] == BigEndianBytes(v / 0x100, n - 1);
    }
  }

  lemma {:induction false} BigEndianInjective(b: seq<byte>)
    ensures BigEndianBytes(BigEndianValue(b), |b|) == b
  {
    if b != [] {
      var high, low := BigEndianValue(b[..|b| - 1]), b[|b| - 1];
      assert Join(high, low) / 0x100 == high && Join(high, low) % 0x100 == low;
      BigEndianInjective(b[..|b| - 1]);
    }
  }

  lemma Uint16RoundTrip(o: ByteOrder, v: uint16)
    ensures Uint16(o, PutUint16(o, v)) == v
  {
  }

  lemma Uint32RoundTrip(v: uint32)
    ensures Uint32(PutUint32(v)) == v
  {
    Power256(4);
    BigEndianRoundTrip(v, 4);
  }

  lemma Uint32Injective(b: seq<byte>)
    requires |b| == 4
    ensures PutUint32(Uint32(b)) == b
  {
    BigEndianInjective(b);
  }
}
