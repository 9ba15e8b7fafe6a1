/** Binary-coded decimal (driver.go:173-226): the encoder, the decoder with its
    overflow detection, and the exact range on which that detection is right. */
module Bcd {
  import opened Bytes

  const TWO63: int := 0x8000_0000_0000_0000
  const TWO64: int := 0x1_0000_0000_0000_0000

  /** The largest running value for which x*5 still fits in 64 bits. */
  const SAFE_PREFIX: int := (TWO64 - 1) / 5

  const TERMINATOR: int := 0xf

  type nibble = n: int | 0 <= n < 16

  datatype BcdError = BadHighDigit(digit: nibble) | BadLowDigit(digit: nibble) | Overflow
  datatype Decoded = Value(x: uint64) | Failed(error: BcdError)

  // ---------- One multiply-and-add step ----------

  /** timesTenPlusCatchingOverflow: every operation below is uint64 arithmetic. */
  function TimesTenPlus(x: uint64, digit: nibble): Decoded {
    var x5: uint64 := (x * 4 % TWO64 + x) % TWO64;
    var x10: uint64 := x5 * 2 % TWO64;
    if x5 >= TWO63 || x10 > TWO64 - 1 - digit then Failed(Overflow)
    else Value((x10 + digit) % TWO64)
  }

  /** What the step is for: the exact product, or an overflow error. */
  function ExactTimesTenPlus(x: int, digit: nibble): Decoded
    requires 0 <= x
  {
    if 10 * x + digit < TWO64 then Value(10 * x + digit) else Failed(Overflow)
  }

  lemma ModularSum(x: int)
    ensures (x * 4 % TWO64 + x) % TWO64 == 5 * x % TWO64
  {
    var p, q := x * 4 / TWO64, 5 * x / TWO64;
    var sum := x * 4 % TWO64 + x;
    assert 5 * x == sum + TWO64 * p;
    assert sum == 5 * x % TWO64 + TWO64 * (q - p);
    MultipleDropped(5 * x % TWO64, TWO64, q - p);
  }

  lemma StepFromProduct(x: uint64, digit: nibble)
    ensures var y := 5 * x % TWO64;
            TimesTenPlus(x, digit) ==
              if y >= TWO63 || 2 * y + digit >= TWO64 then Failed(Overflow) else Value(2 * y + digit)
  {
    ModularSum(x);
  }

  /** The step is right exactly up to SAFE_PREFIX, or where the wrapped product still looks too large. */
  lemma TimesTenPlusExactWhen(x: uint64, digit: nibble)
    ensures TimesTenPlus(x, digit) == ExactTimesTenPlus(x, digit)
       <==> x <= SAFE_PREFIX || 5 * x % TWO64 >= TWO63 || 2 * (5 * x % TWO64) + digit >= TWO64
  {
    StepFromProduct(x, digit);
    if x <= SAFE_PREFIX {
      assert 5 * x % TWO64 == 5 * x;
    }
  }

  /** The smallest power of two the check misses: 2^62 * 10 + d comes back as 2^63 + d. */
  lemma TimesTenPlusMissesOverflow(digit: nibble)
    ensures TimesTenPlus(0x4000_0000_0000_0000, digit) == Value(TWO63 + digit)
    ensures ExactTimesTenPlus(0x4000_0000_0000_0000, digit) == Failed(Overflow)
  {
  }

  // ---------- Nibble strings ----------

  function Nibbles(bcd: seq<byte>): (ns: seq<nibble>)
    ensures |ns| == 2 * |bcd|
  {
    seq(2 * |bcd|, i requires 0 <= i < 2 * |bcd| => if i % 2 == 0 then bcd[i / 2] / 16 else bcd[i / 2] % 16)
  }

  /** The error for a nibble above 9; an even number of nibbles left means it is a high one. */
  function BadDigit(ns: seq<nibble>): BcdError
    requires ns != []
  {
    if |ns| % 2 == 0 then BadHighDigit(ns[0]) else BadLowDigit(ns[0])
  }

  /** What decodeBCD computes, nibble by nibble, with its own 64-bit step. */
  function Scan(ns: seq<nibble>, x: uint64): Decoded {
    if ns == [] || ns == [TERMINATOR] then Value(x)
    else if ns[0] > 9 then Failed(BadDigit(ns))
    else
      var next := TimesTenPlus(x, ns[0]);
      if next.Failed? then next else Scan(ns[1..], next.x)
  }

  /** What decodeBCD should compute: the same string over unbounded integers. */
  function ExactScan(ns: seq<nibble>, x: int): Decoded
    requires 0 <= x < TWO64
  {
    if ns == [] || ns == [TERMINATOR] then Value(x)
    else if ns[0] > 9 then Failed(BadDigit(ns))
    else if 10 * x + ns[0] >= TWO64 then Failed(Overflow)
    else ExactScan(ns[1..], 10 * x + ns[0])
  }

  /** Every digit is read while the exact running value is at most SAFE_PREFIX. */
  predicate PrefixesSafe(ns: seq<nibble>, x: int)
    requires 0 <= x
  {
    ns == [] || ns[0] > 9 || (x <= SAFE_PREFIX && PrefixesSafe(ns[1..], 10 * x + ns[0]))
  }

  // ---------- The decoder ----------

  method DecodeBCD(bcd: seq<byte>) returns (r: Decoded)
    ensures r == Scan(Nibbles(bcd), 0)
  {
    var x: uint64 := 0;
    for i := 0 to |bcd|
      invariant Scan(Nibbles(bcd), 0) == Scan(Nibbles(bcd[i..]), x)
    {
      var hi, lo := bcd[i] / 16, bcd[i] % 16;
      ghost var ns := Nibbles(bcd[i..]);
      assert bcd[i..][1..] == bcd[i + 1..];
      assert ns[1..] == [lo] + Nibbles(bcd[i + 1..]) && ns[2..] == Nibbles(bcd[i + 1..]) && ns[1..][1..] == ns[2..];
      if hi > 9 {
        return Failed(BadHighDigit(hi));
      }
      r := TimesTenPlus(x, hi);
      if r.Failed? {
        return;
      }
      x := r.x;
      if lo == TERMINATOR && i == |bcd| - 1 {
        assert ns[1..] == [TERMINATOR];
        return;
      }
      assert ns[1..] != [TERMINATOR];
      if lo > 9 {
        return Failed(BadLowDigit(lo));
      }
      r := TimesTenPlus(x, lo);
      if r.Failed? {
        return;
      }
      x := r.x;
    }
    assert bcd[|bcd|..] == [];
    return Value(x);
  }

  /** Wherever decoding stands, the next byte is rejected for its high half first, then for its low half unless
      that is the terminator at the very end. */
  lemma BadByteRejected(b: byte, rest: seq<byte>, x: uint64)
    ensures b / 16 > 9 ==> Scan(Nibbles([b] + rest), x) == Failed(BadHighDigit(b / 16))
    ensures b / 16 <= 9 && TimesTenPlus(x, b / 16).Value? && b % 16 > 9 && !(b % 16 == 15 && rest == []) ==>
              Scan(Nibbles([b] + rest), x) == Failed(BadLowDigit(b % 16))
    ensures b / 16 <= 9 && TimesTenPlus(x, b / 16).Value? && b % 16 == 15 && rest == [] ==>
              Scan(Nibbles([b] + rest), x) == TimesTenPlus(x, b / 16)
  {
    var ns, low := Nibbles([b] + rest), Nibbles([b] + rest)[1..];
    assert ns[0] == b / 16 && ns[1] == b % 16 && low[0] == b % 16;
    if rest == [] {
      assert low == [b % 16];
    }
  }

  lemma {:induction false} SafeScanIsExact(ns: seq<nibble>, x: uint64)
    requires PrefixesSafe(ns, x)
    ensures Scan(ns, x) == ExactScan(ns, x)
  {
    if ns != [] && ns[0] <= 9 {
      TimesTenPlusExactWhen(x, ns[0]);
      if 10 * x + ns[0] < TWO64 {
        SafeScanIsExact(ns[1..], 10 * x + ns[0]);
      }
    }
  }

  lemma {:induction false} UnsafeScanOverflows(ns: seq<nibble>, x: uint64)
    requires !PrefixesSafe(ns, x)
    ensures ExactScan(ns, x) == Failed(Overflow)
  {
    if x <= SAFE_PREFIX && 10 * x + ns[0] < TWO64 {
      UnsafeScanOverflows(ns[1..], 10 * x + ns[0]);
    }
  }

  /** The step from this value overflows and the check sees it: the product, cut to 64 bits, is still too large. */
  predicate Seen(x: nat, digit: nibble) { 5 * x % TWO64 >= TWO63 || 2 * (5 * x % TWO64) + digit >= TWO64 }

  /** Reading on from the unbounded value x, some digit makes the check fire. */
  predicate Caught(ns: seq<nibble>, x: nat) {
    ns != [] && ns != [TERMINATOR] && ns[0] <= 9 && (Seen(x, ns[0]) || Caught(ns[1..], 10 * x + ns[0]))
  }

  lemma ProductOfCut(x: nat)
    ensures 5 * (x % TWO64) % TWO64 == 5 * x % TWO64
  {
    var cut, p := x % TWO64, x / TWO64;
    assert x == cut + TWO64 * p;
    MultipleDropped(5 * cut, TWO64, 5 * p);
  }

  lemma CutOfProduct(x: nat, digit: nibble)
    ensures (10 * x + digit) % TWO64 == (2 * (5 * x % TWO64) + digit) % TWO64
  {
    var y, q := 5 * x % TWO64, 5 * x / TWO64;
    assert 5 * x == y + TWO64 * q;
    MultipleDropped(2 * y + digit, TWO64, 2 * q);
  }

  /** The step on a value cut to 64 bits fails when the overflow is seen, and else gives the next value cut. */
  lemma StepOnCutValue(x: nat, digit: nibble)
    ensures TimesTenPlus(x % TWO64, digit) ==
              if Seen(x, digit) then Failed(Overflow) else Value((10 * x + digit) % TWO64)
  {
    ProductOfCut(x);
    CutOfProduct(x, digit);
    StepFromProduct(x % TWO64, digit);
    SmallIsUncut(2 * (5 * x % TWO64) + digit);
  }

  lemma SmallIsUncut(v: nat)
    ensures v < TWO64 ==> v % TWO64 == v
  {
  }

  /** The decoder works on the unbounded value cut to 64 bits, and reports overflow exactly where it is caught. */
  lemma {:induction false} ScanOverflowsWhen(ns: seq<nibble>, x: nat)
    ensures Scan(ns, x % TWO64) == Failed(Overflow) <==> Caught(ns, x)
  {
    if ns != [] && ns != [TERMINATOR] && ns[0] <= 9 {
      StepOnCutValue(x, ns[0]);
      ScanOverflowsWhen(ns[1..], 10 * x + ns[0]);
    }
  }

  /** For every byte string, decodeBCD is right if and only if each digit is read at a value of at most
      SAFE_PREFIX or the overflow is caught, both told from the digits alone. Outside the safe strings the right
      answer is an overflow error, so a decode that succeeds there is always wrong. */
  lemma DecodeExactWhen(bcd: seq<byte>)
    ensures var ns := Nibbles(bcd);
            && (Scan(ns, 0) == ExactScan(ns, 0) <==> PrefixesSafe(ns, 0) || Caught(ns, 0))
            && (!PrefixesSafe(ns, 0) ==> ExactScan(ns, 0) == Failed(Overflow))
            && (!PrefixesSafe(ns, 0) ==> (Scan(ns, 0) == Failed(Overflow) <==> Caught(ns, 0)))
  {
    ScanExactWhen(Nibbles(bcd), 0);
  }

  lemma {:induction false} ScanExactWhen(ns: seq<nibble>, x: uint64)
    ensures Scan(ns, x) == ExactScan(ns, x) <==> PrefixesSafe(ns, x) || Caught(ns, x)
    ensures !PrefixesSafe(ns, x) ==> ExactScan(ns, x) == Failed(Overflow)
    ensures !PrefixesSafe(ns, x) ==> (Scan(ns, x) == Failed(Overflow) <==> Caught(ns, x))
  {
    SmallIsUncut(x);
    ScanOverflowsWhen(ns, x);
    if PrefixesSafe(ns, x) {
      SafeScanIsExact(ns, x);
    } else {
      UnsafeScanOverflows(ns, x);
    }
  }

  // ---------- Decimal values ----------

  function Number(ds: seq<nibble>): nat {
    if ds == [] then 0 else 10 * Number(ds[..|ds| - 1]) + ds[|ds| - 1]
  }

  ghost predicate AllDigits(ds: seq<nibble>) { forall i :: 0 <= i < |ds| ==> ds[i] <= 9 }

  lemma {:induction false} NumberOfPrefix(ds: seq<nibble>, k: nat)
    requires k <= |ds|
    ensures Number(ds[..k]) <= Number(ds)
  {
    if k == |ds| {
      assert ds[..k] == ds;
    } else {
      assert ds[..|ds| - 1][..k] == ds[..k];
      NumberOfPrefix(ds[..|ds| - 1], k);
    }
  }

  lemma {:induction false} ExactScanFrom(ds: seq<nibble>, tail: seq<nibble>, k: nat)
    requires AllDigits(ds) && k <= |ds| && (tail == [] || tail == [TERMINATOR])
    requires Number(ds[..k]) < TWO64
    ensures ExactScan(ds[k..] + tail, Number(ds[..k]))
         == if Number(ds) < TWO64 then Value(Number(ds)) else Failed(Overflow)
    decreases |ds| - k
  {
    if k == |ds| {
      assert ds[..k] == ds && ds[k..] + tail == tail;
    } else {
      assert ds[..k + 1][..k] == ds[..k];
      assert (ds[k..] + tail)[1..] == ds[k + 1..] + tail;
      assert (ds[k..] + tail)[0] <= 9;
      NumberOfPrefix(ds, k + 1);
      if Number(ds[..k + 1]) < TWO64 {
        ExactScanFrom(ds, tail, k + 1);
      }
    }
  }

  /** The reference decoder is the decimal value of the digit string, or overflow when it needs 65 bits. */
  lemma ExactScanIsDecimalValue(ds: seq<nibble>, tail: seq<nibble>)
    requires AllDigits(ds) && (tail == [] || tail == [TERMINATOR])
    ensures ExactScan(ds + tail, 0) == if Number(ds) < TWO64 then Value(Number(ds)) else Failed(Overflow)
  {
    assert ds[0..] == ds && ds[..0] == [];
    ExactScanFrom(ds, tail, 0);
  }

  /** Ten bytes whose twenty digits spell 4 * 10^19, above 2^64, yet decode without an error. */
  lemma DecodeMissesOverflow()
    ensures var ns := Nibbles([0x40, 0, 0, 0, 0, 0, 0, 0, 0, 0]);
            Scan(ns, 0) == Value(40_000_000_000_000_000_000 - 2 * TWO64) && ExactScan(ns, 0) == Failed(Overflow)
  {
    var bcd: seq<byte> := [0x40, 0, 0, 0, 0, 0, 0, 0, 0, 0];
    assert forall i :: 1 <= i < 10 ==> bcd[i] == 0;
    var ns := Nibbles(bcd);
    assert ns[0] == 4 && |ns| == 20;
    assert forall i :: 1 <= i < 20 ==> ns[i] == 0;
    TwentyDigits(ns);
  }

  lemma TwentyDigits(ns: seq<nibble>)
    requires |ns| == 20 && ns[0] == 4 && forall i :: 1 <= i < 20 ==> ns[i] == 0
    ensures Scan(ns, 0) == Value(40_000_000_000_000_000_000 - 2 * TWO64)
    ensures ExactScan(ns, 0) == Failed(Overflow)
  {
    assert Scan(ns, 0) == Scan(ns[1..], 4) && ExactScan(ns, 0) == ExactScan(ns[1..], 4) by {
      TimesTenPlusExactWhen(0, 4);
    }
    SixZeros(ns, 1, 4);
    SixZeros(ns, 7, 4_000_000);
    SixZeros(ns, 13, 4_000_000_000_000);
    assert ns[19..] == [0];
    LastDigitMissed();
  }

  lemma LastDigitMissed()
    ensures Scan([0], 4_000_000_000_000_000_000) == Value(40_000_000_000_000_000_000 - 2 * TWO64)
    ensures ExactScan([0], 4_000_000_000_000_000_000) == Failed(Overflow)
  {
    var zero: seq<nibble> := [0];
    assert zero[1..] == [];
    assert TimesTenPlus(4_000_000_000_000_000_000, 0) == Value(40_000_000_000_000_000_000 - 2 * TWO64);
  }

  lemma SixZeros(ns: seq<nibble>, k: nat, x: uint64)
    requires k + 6 < |ns| && (forall i :: k <= i < k + 6 ==> ns[i] == 0) && 1_000_000 * x < TWO64
    ensures Scan(ns[k..], x) == Scan(ns[k + 6..], 1_000_000 * x)
    ensures ExactScan(ns[k..], x) == ExactScan(ns[k + 6..], 1_000_000 * x)
  {
    TwoZeros(ns, k, x);
    TwoZeros(ns, k + 2, 100 * x);
    TwoZeros(ns, k + 4, 10_000 * x);
  }

  lemma TwoZeros(ns: seq<nibble>, k: nat, x: uint64)
    requires k + 2 < |ns| && ns[k] == ns[k + 1] == 0 && 100 * x < TWO64
    ensures Scan(ns[k..], x) == Scan(ns[k + 2..], 100 * x)
    ensures ExactScan(ns[k..], x) == ExactScan(ns[k + 2..], 100 * x)
  {
    ZeroDigit(ns, k, x);
    ZeroDigit(ns, k + 1, 10 * x);
  }

  lemma ZeroDigit(ns: seq<nibble>, k: nat, x: uint64)
    requires k < |ns| && ns[k] == 0 && 10 * x <= TWO64 - 1
    ensures Scan(ns[k..], x) == Scan(ns[k + 1..], 10 * x)
    ensures ExactScan(ns[k..], x) == ExactScan(ns[k + 1..], 10 * x)
  {
    TimesTenPlusExactWhen(x, 0);
    assert ns[k..][1..] == ns[k + 1..];
  }

  // ---------- The encoder ----------

  /** Decimal digits, most significant first; none for 0. */
  function Digits(x: nat): (ds: seq<nibble>)
  {
    if x == 0 then [] else Digits(x / 10) + [x % 10]
  }

  /** The nibbles encodeBCD promises: the digits (a lone 0 for zero), padded to whole bytes by the terminator. */
  function EncodedNibbles(x: nat): seq<nibble> {
    var ds := if x == 0 then [0] else Digits(x);
    if |ds| % 2 == 1 then ds + [TERMINATOR] else ds
  }

  /** The first loop of encodeBCD. */
  method CountDigits(value: uint64) returns (n: nat)
    ensures n == |Digits(value)|
  {
    n := 0;
    var xx: uint64 := value;
    while xx > 0
      invariant n + |Digits(xx)| == |Digits(value)|
      decreases xx
    {
      xx := xx / 10;
      n := n + 1;
    }
  }

  method EncodeBCD(value: uint64) returns (encoded: seq<byte>)
    ensures Nibbles(encoded) == EncodedNibbles(value)
  {
    if value == 0 {
      return [TERMINATOR];
    }
    var n := CountDigits(value);
    var bcd := new byte[(n + 1) / 2](_ => 0);
    var x: uint64 := value;
    if n % 2 == 1 {
      Store(bcd, (n - 1) / 2, Pack(x % 10, TERMINATOR));
      x := x / 10;
      n := n - 1;
      NibblesOfPack(value % 10, TERMINATOR, []);
    } else {
      assert bcd[n / 2..] == [];
    }
    FillDigits(bcd, EncodedNibbles(value), x, n / 2);
    return bcd[..];
  }

  function Pack(hi: nibble, lo: nibble): byte { hi * 16 + lo }

  lemma NibblesOfPack(hi: nibble, lo: nibble, rest: seq<byte>)
    ensures Nibbles([Pack(hi, lo)] + rest) == [hi, lo] + Nibbles(rest)
  {
  }

  /** The byte holding the last two digits of x. */
  function LowPair(x: nat): byte { Pack(x / 10 % 10, x % 10) }

  lemma MoveTwoDigits(x: nat, done: seq<byte>)
    requires |Digits(x)| >= 2
    ensures Digits(x) + Nibbles(done) == Digits(x / 100) + Nibbles([LowPair(x)] + done)
    ensures |Digits(x)| == |Digits(x / 100)| + 2
  {
    assert x / 10 / 10 == x / 100;
    NibblesOfPack(x / 10 % 10, x % 10, done);
    assert Digits(x) == Digits(x / 100) + [x / 10 % 10, x % 10];
  }

  method Store(bcd: array<byte>, i: nat, b: byte)
    requires i < bcd.Length
    modifies bcd
    ensures bcd[i..] == [b] + old(bcd[i + 1..])
    ensures bcd[..i] == old(bcd[..i])
  {
    bcd[i] := b;
  }

  /** The second loop of encodeBCD: two digits a byte, from the least significant pair backwards. */
  method FillDigits(bcd: array<byte>, ghost target: seq<nibble>, start: uint64, pairs: nat)
    requires pairs <= bcd.Length && |Digits(start)| == 2 * pairs
    requires target == Digits(start) + Nibbles(bcd[pairs..])
    modifies bcd
    ensures Nibbles(bcd[..]) == target
  {
    var x := start;
    for i := pairs downto 0
      invariant |Digits(x)| == 2 * i
      invariant target == Digits(x) + Nibbles(bcd[i..])
    {
      ghost var done := bcd[i + 1..];
      Store(bcd, i, LowPair(x));
      MoveTwoDigits(x, done);
      x := x / 100;
    }
    assert bcd[0..] == bcd[..];
  }

  lemma {:induction false} ScanOfDigits(x: uint64, rest: seq<nibble>)
    requires rest == [] || rest == [TERMINATOR]
    ensures Scan(Digits(x) + rest, 0) == Value(x)
    ensures PrefixesSafe(Digits(x) + rest, 0)
  {
    ScanOfLongerDigits(x, rest);
    if x == 0 {
      assert Digits(x) + rest == rest;
    }
  }

  /** Reading the last digit of x after the others. */
  lemma LastDigit(x: uint64, rest: seq<nibble>)
    ensures Scan([x % 10] + rest, x / 10) == Scan(rest, x)
    ensures PrefixesSafe(rest, x) ==> PrefixesSafe([x % 10] + rest, x / 10)
  {
    var more := [x % 10] + rest;
    assert more[0] == x % 10 && more[1..] == rest;
    TimesTenPlusExactWhen(x / 10, x % 10);
  }

  /** Reading the digits of x brings the decoder to running value x, each step within the safe range. */
  lemma {:induction false} ScanOfLongerDigits(x: uint64, rest: seq<nibble>)
    ensures x > 0 ==> Scan(Digits(x) + rest, 0) == Scan(rest, x)
    ensures PrefixesSafe(rest, x) ==> PrefixesSafe(Digits(x) + rest, 0)
  {
    if x == 0 {
      assert Digits(x) + rest == rest;
    } else {
      var more := [x % 10] + rest;
      assert Digits(x) + rest == Digits(x / 10) + more;
      ScanOfLongerDigits(x / 10, more);
      LastDigit(x, rest);
      if x / 10 == 0 {
        assert Digits(x / 10) + more == more;
      }
    }
  }

  /** decodeBCD(encodeBCD(x)) == x for every uint64, with no step outside the safe range. */
  lemma RoundTrip(x: uint64, encoded: seq<byte>)
    requires Nibbles(encoded) == EncodedNibbles(x)
    ensures Scan(Nibbles(encoded), 0) == Value(x)
    ensures PrefixesSafe(Nibbles(encoded), 0)
  {
    if x == 0 {
      var ns: seq<nibble> := [0, TERMINATOR];
      assert Nibbles(encoded) == ns && ns[1..] == [TERMINATOR];
    } else {
      ScanOfDigits(x, []);
      assert Digits(x) + [] == Digits(x);
      ScanOfDigits(x, [TERMINATOR]);
    }
  }

  /** The round trip as the two routines run it. */
  method EncodeThenDecode(x: uint64) returns (r: Decoded)
    ensures r == Value(x)
  {
    var encoded := EncodeBCD(x);
    RoundTrip(x, encoded);
    r := DecodeBCD(encoded);
  }
}
