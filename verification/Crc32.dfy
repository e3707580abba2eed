/** xcrc32: what the table-driven loop computes, and which alterations of a block it never misses. */
module Crc32 {
  import opened Word32
  import opened CrcTable

  // ---- Bit-serial division ----

  /** One message bit: the register is multiplied by x, the bit enters at x^32, and the polynomial
      x^32 + POLY is subtracted if the top coefficient came out set. */
  function BitStep(crc: bv32, bit: bool): bv32 {
    if Top(crc) != bit then Xor(Shl(crc), POLY) else Shl(crc)
  }

  function BitSerial(crc: bv32, bits: seq<bool>): bv32 {
    if bits == [] then crc else BitStep(BitSerial(crc, bits[..|bits| - 1]), bits[|bits| - 1])
  }

  lemma {:induction false} BitSerialConcat(crc: bv32, a: seq<bool>, b: seq<bool>)
    ensures BitSerial(crc, a + b) == BitSerial(BitSerial(crc, a), b)
  {
    if b == [] {
      assert a + b == a;
    } else {
      assert (a + b)[..|a + b| - 1] == a + b[..|b| - 1];
      BitSerialConcat(crc, a, b[..|b| - 1]);
    }
  }

  /** The i-th bit of a byte, most significant first. */
  function ByteBit(b: bv8, i: nat): bool
    requires i < 8
  {
    b & (0x80 >> i) != 0
  }

  function BitsOfByte(b: bv8): (bits: seq<bool>)
    ensures |bits| == 8
  {
    [ByteBit(b, 0), ByteBit(b, 1), ByteBit(b, 2), ByteBit(b, 3),
     ByteBit(b, 4), ByteBit(b, 5), ByteBit(b, 6), ByteBit(b, 7)]
  }

  function Bits(buf: seq<bv8>): (bits: seq<bool>)
    ensures |bits| == 8 * |buf|
  {
    if buf == [] then [] else Bits(buf[..|buf| - 1]) + BitsOfByte(buf[|buf| - 1])
  }

  // ---- One table step is eight bit steps ----

  /** The word does not reach the top bit in fewer than n shifts. */
  ghost predicate Clear(lo: bv32, n: nat) {
    forall k :: 0 <= k < n ==> !Top(Shifted(lo, k))
  }

  /** What does not reach the top bit only moves up. */
  lemma {:induction false} TurnedSplit(hi: bv32, lo: bv32, n: nat)
    requires Clear(lo, n)
    ensures Turned(Xor(hi, lo), n) == Xor(Turned(hi, n), Shifted(lo, n))
  {
    TurnedXor(hi, lo, n);
    TurnedClear(lo, n);
  }

  lemma {:induction false} TurnedClear(lo: bv32, n: nat)
    requires Clear(lo, n)
    ensures Turned(lo, n) == Shifted(lo, n)
  {
    if n > 0 {
      TurnedClear(lo, n - 1);
      assert !Top(Shifted(lo, n - 1));
      ShiftBitWords(Shifted(lo, n - 1));
    }
  }

  const TOP: bv32 := 0x80000000

  lemma BitStepIsTurn(crc: bv32, bit: bool)
    ensures BitStep(crc, bit) == ShiftBit(Xor(crc, if bit then TOP else 0))
  {
    TopOut(crc);
    ShiftBitWords(crc);
    ShiftBitWords(Xor(crc, TOP));
    hide Xor, Shl, Top, ShiftBit;
    XorZero(crc, 0);
  }

  lemma TopOut(crc: bv32)
    ensures Top(Xor(crc, TOP)) == !Top(crc) && Shl(Xor(crc, TOP)) == Shl(crc)
  {
  }

  /** Where the i-th bit of a byte stands before the byte is turned in. */
  function Place(i: nat): bv32
    requires i < 8
  {
    if i == 0 then 0x80000000 else if i == 1 then 0x40000000 else if i == 2 then 0x20000000
    else if i == 3 then 0x10000000 else if i == 4 then 0x08000000 else if i == 5 then 0x04000000
    else if i == 6 then 0x02000000 else 0x01000000
  }

  /** The first n bits of a byte, in place. */
  function Placed(b: bv8, n: nat): bv32
    requires n <= 8
  {
    if n == 0 then 0 else Xor(Placed(b, n - 1), if ByteBit(b, n - 1) then Place(n - 1) else 0)
  }

  lemma PlaceMovesUp(i: nat)
    requires 0 < i < 8
    ensures Shl(Place(i)) == Place(i - 1) && !Top(Place(i))
  {
  }

  lemma {:induction false} PlaceShifted(i: nat, k: nat)
    requires k <= i < 8
    ensures Shifted(Place(i), k) == Place(i - k)
  {
    if k > 0 {
      PlaceShifted(i, k - 1);
      PlaceMovesUp(i - k + 1);
    }
  }

  lemma {:induction false} PlaceReachesTop(i: nat)
    requires i < 8
    ensures Shifted(Place(i), i) == TOP && Clear(Place(i), i)
  {
    PlaceShifted(i, i);
    forall k | 0 <= k < i ensures !Top(Shifted(Place(i), k)) {
      PlaceShifted(i, k);
      PlaceMovesUp(i - k);
    }
  }

  /** Bits that enter at the top one by one might as well have been combined with the register first. */
  lemma {:induction false} BitsInPlace(crc: bv32, b: bv8, n: nat)
    requires n <= 8
    ensures BitSerial(crc, BitsOfByte(b)[..n]) == Turned(Xor(crc, Placed(b, n)), n)
  {
    hide Xor, Shl, Top, BitStep, ShiftBit, Place, ByteBit, BitsOfByte, Clear;
    if n == 0 {
      XorZero(crc, 0);
      assert BitsOfByte(b)[..0] == [];
    } else {
      BitsInPlace(crc, b, n - 1);
      var bits := BitsOfByte(b);
      assert bits[..n][..n - 1] == bits[..n - 1];
      ByteBitAt(b, n - 1);
      var before, bit := Xor(crc, Placed(b, n - 1)), ByteBit(b, n - 1);
      BitStepIsTurn(Turned(before, n - 1), bit);
      PlaceReachesTop(n - 1);
      TurnedSplit(before, Place(n - 1), n - 1);
      XorLaws(crc, Placed(b, n - 1), Place(n - 1));
      XorZero(Turned(before, n - 1), 0);
      XorZero(Placed(b, n - 1), 0);
    }
  }

  lemma ByteBitAt(b: bv8, i: nat)
    requires i < 8
    ensures BitsOfByte(b)[i] == ByteBit(b, i)
  {
    hide ByteBit;
  }

  function Index(crc: bv32, b: bv8): bv8 { ((crc >> 24) as bv8) ^ b }

  /** The table step of xcrc32. */
  function ByteStep(crc: bv32, b: bv8): bv32 { Xor(crc << 8, Table(Index(crc, b))) }

  lemma {:induction false} PlacedByte(b: bv8)
    ensures Placed(b, 8) == (b as bv32) << 24
  {
    PlacedNext(b);
    hide Xor, Place, ByteBit;
    assert Placed(b, 1) == ((b & 0x80) as bv32) << 24;
    assert Placed(b, 2) == ((b & 0xC0) as bv32) << 24;
    assert Placed(b, 3) == ((b & 0xE0) as bv32) << 24;
    assert Placed(b, 4) == ((b & 0xF0) as bv32) << 24;
    assert Placed(b, 5) == ((b & 0xF8) as bv32) << 24;
    assert Placed(b, 6) == ((b & 0xFC) as bv32) << 24;
    assert Placed(b, 7) == ((b & 0xFE) as bv32) << 24;
  }

  lemma PlacedNext(b: bv8)
    ensures Xor(0, if ByteBit(b, 0) then Place(0) else 0) == ((b & 0x80) as bv32) << 24
    ensures Xor(((b & 0x80) as bv32) << 24, if ByteBit(b, 1) then Place(1) else 0) == ((b & 0xC0) as bv32) << 24
    ensures Xor(((b & 0xC0) as bv32) << 24, if ByteBit(b, 2) then Place(2) else 0) == ((b & 0xE0) as bv32) << 24
    ensures Xor(((b & 0xE0) as bv32) << 24, if ByteBit(b, 3) then Place(3) else 0) == ((b & 0xF0) as bv32) << 24
    ensures Xor(((b & 0xF0) as bv32) << 24, if ByteBit(b, 4) then Place(4) else 0) == ((b & 0xF8) as bv32) << 24
    ensures Xor(((b & 0xF8) as bv32) << 24, if ByteBit(b, 5) then Place(5) else 0) == ((b & 0xFC) as bv32) << 24
    ensures Xor(((b & 0xFC) as bv32) << 24, if ByteBit(b, 6) then Place(6) else 0) == ((b & 0xFE) as bv32) << 24
    ensures Xor(((b & 0xFE) as bv32) << 24, if ByteBit(b, 7) then Place(7) else 0) == (b as bv32) << 24
  {
  }

  /** The three low bytes of the register. */
  function Rest(crc: bv32): bv32 { crc & 0x00ffffff }

  lemma IndexUp(crc: bv32, b: bv8)
    ensures (Index(crc, b) as bv32) << 24 == Xor(crc & 0xff000000, (b as bv32) << 24)
  {
  }

  lemma TwoParts(crc: bv32)
    ensures Xor(crc & 0xff000000, Rest(crc)) == crc
  {
  }

  lemma TopAndRest(crc: bv32, b: bv8)
    ensures Xor(crc, (b as bv32) << 24) == Xor((Index(crc, b) as bv32) << 24, Rest(crc))
  {
    IndexUp(crc, b);
    TwoParts(crc);
    hide Xor, Rest, Index;
    XorLaws(crc & 0xff000000, Rest(crc), (b as bv32) << 24);
  }

  lemma ClearValues(crc: bv32)
    ensures var lo := Rest(crc);
            && !Top(lo) && !Top(Shl(lo)) && !Top(Shl(Shl(lo))) && !Top(Shl(Shl(Shl(lo))))
            && !Top(Shl(Shl(Shl(Shl(lo)))))
            && !Top(Shl(Shl(Shl(Shl(Shl(lo)))))) && !Top(Shl(Shl(Shl(Shl(Shl(Shl(lo)))))))
            && !Top(Shl(Shl(Shl(Shl(Shl(Shl(Shl(lo)))))))) && Shl(Shl(Shl(Shl(Shl(Shl(Shl(Shl(lo)))))))) == crc << 8
  {
  }

  lemma RestIsClear(crc: bv32)
    ensures Clear(Rest(crc), 8) && Shifted(Rest(crc), 8) == crc << 8
  {
    hide Rest, Shl, Top;
    ClearValues(crc);
    var lo := Rest(crc);
    assert Shifted(lo, 1) == Shl(lo);
    assert Shifted(lo, 3) == Shl(Shl(Shl(lo)));
    assert Shifted(lo, 5) == Shl(Shl(Shl(Shl(Shl(lo)))));
    assert Shifted(lo, 7) == Shl(Shl(Shl(Shl(Shl(Shl(Shl(lo)))))));
  }

  /** The table does the work of eight divisions by one bit each. */
  lemma {:induction false} ByteStepIsEightBits(crc: bv32, b: bv8)
    ensures ByteStep(crc, b) == BitSerial(crc, BitsOfByte(b))
  {
    hide Xor, Shl, Top, BitStep, ShiftBit, Table, Eight, Index, Placed, BitsOfByte, Clear, Rest;
    BitsInPlace(crc, b, 8);
    assert BitsOfByte(b)[..8] == BitsOfByte(b);
    PlacedByte(b);
    TopAndRest(crc, b);
    var hi := (Index(crc, b) as bv32) << 24;
    RestIsClear(crc);
    TurnedSplit(hi, Rest(crc), 8);
    TableIsGenerated(Index(crc, b));
    EightTurns(hi);
    XorLaws(Turned(hi, 8), crc << 8, 0);
  }

  /** xcrc32 is bit-serial division of the buffer's bits by x^32 + POLY, from the given register. */
  method Xcrc32(buf: array<bv8>, init: bv32) returns (crc: bv32)
    ensures crc == BitSerial(init, Bits(buf[..]))
  {
    hide BitSerial, ByteStep, BitsOfByte;
    crc := init;
    var i := 0;
    assert BitSerial(init, []) == init by { EmptyDivision(init); }
    while i < buf.Length
      invariant 0 <= i <= buf.Length && crc == BitSerial(init, Bits(buf[..i]))
    {
      ByteStepIsEightBits(crc, buf[i]);
      assert buf[..i + 1][..i] == buf[..i];
      BitSerialConcat(init, Bits(buf[..i]), BitsOfByte(buf[i]));
      crc := ByteStep(crc, buf[i]);
      i := i + 1;
    }
    assert buf[..i] == buf[..];
  }

  lemma {:induction false} EmptyDivision(init: bv32)
    ensures BitSerial(init, []) == init
  {
  }

  function Crc(init: bv32, buf: seq<bv8>): bv32 { BitSerial(init, Bits(buf)) }

  lemma {:induction false} BitsConcat(a: seq<bv8>, b: seq<bv8>)
    ensures Bits(a + b) == Bits(a) + Bits(b)
  {
    hide BitsOfByte;
    if b == [] {
      assert a + b == a;
    } else {
      assert (a + b)[..|a + b| - 1] == a + b[..|b| - 1];
      BitsConcat(a, b[..|b| - 1]);
    }
  }

  /** The CRC of data in two buffers is the CRC of the second from the CRC of the first. */
  lemma CrcConcat(init: bv32, a: seq<bv8>, b: seq<bv8>)
    ensures Crc(init, a + b) == Crc(Crc(init, a), b)
  {
    BitsConcat(a, b);
    BitSerialConcat(init, Bits(a), Bits(b));
  }

  // ---- Burst errors ----

  function Difference(a: seq<bool>, b: seq<bool>): (d: seq<bool>)
    requires |a| == |b|
    ensures |d| == |a| && forall i :: 0 <= i < |a| ==> d[i] == (a[i] != b[i])
  {
    if a == [] then [] else Difference(a[..|a| - 1], b[..|b| - 1]) + [a[|a| - 1] != b[|b| - 1]]
  }

  lemma BitStepXor(s: bv32, t: bv32, a: bool, b: bool)
    ensures Xor(BitStep(s, a), BitStep(t, b)) == BitStep(Xor(s, t), a != b)
  {
    hide Xor, Shl, Top;
    XorTop(s, t);
    XorShl(s, t);
    XorLaws(Shl(s), POLY, Shl(t));
    XorLaws(Shl(s), Shl(t), POLY);
    XorLaws(Xor(Shl(s), Shl(t)), POLY, POLY);
    XorLaws(Xor(Shl(s), POLY), Shl(t), POLY);
    XorZero(POLY, 0);
    XorZero(Xor(Shl(s), Shl(t)), 0);
  }

  /** The registers of two messages differ by the register of their difference. */
  lemma {:induction false} DivisionIsLinear(s: bv32, t: bv32, a: seq<bool>, b: seq<bool>)
    requires |a| == |b|
    ensures Xor(BitSerial(s, a), BitSerial(t, b)) == BitSerial(Xor(s, t), Difference(a, b))
  {
    hide Xor, BitStep;
    if a != [] {
      var n := |a| - 1;
      DivisionIsLinear(s, t, a[..n], b[..n]);
      BitStepXor(BitSerial(s, a[..n]), BitSerial(t, b[..n]), a[n], b[n]);
      assert Difference(a, b)[..n] == Difference(a[..n], b[..n]);
    }
  }

  /** The k lowest bits are zero. */
  ghost predicate LowZero(c: bv32, k: nat)
    requires k <= 32
  {
    forall i :: 0 <= i < k ==> !Bit(c, i)
  }

  lemma PolyIsOdd(c: bv32)
    ensures Bit(POLY, 0) && !Bit(Shl(c), 0) && Bit(Xor(Shl(c), POLY), 0)
  {
  }

  /** Undoing one step: an even register tells that nothing was subtracted. */
  lemma StepBack(c: bv32, bit: bool, k: nat)
    requires k < 32 && LowZero(BitStep(c, bit), k + 1)
    ensures LowZero(c, k)
  {
    PolyIsOdd(c);
    hide Xor, Shl, Top, Bit;
    assert !Bit(BitStep(c, bit), 0);
    forall i | 0 <= i < k ensures !Bit(c, i) {
      BitShl(c, i);
      assert !Bit(BitStep(c, bit), i + 1);
    }
  }

  /** Undoing up to 31 steps from zero leaves an even register. */
  lemma {:induction false} StepsBack(d: seq<bool>, from: nat, to: nat)
    requires from <= to <= |d| && to - from < 32 && BitSerial(0, d[..to]) == 0
    ensures LowZero(BitSerial(0, d[..from]), 32 - (to - from))
    decreases |d| - from
  {
    if from == to {
      forall i | 0 <= i < 32 ensures !Bit(0, i) {
        ZeroBits(i);
      }
    } else {
      StepsBack(d, from + 1, to);
      assert d[..from + 1][..from] == d[..from];
      StepBack(BitSerial(0, d[..from]), d[from], 32 - (to - from));
    }
  }

  lemma ZeroStep()
    ensures BitStep(0, false) == 0 && BitStep(0, true) == POLY
  {
  }

  /** Zeros neither create nor remove a difference. */
  lemma {:induction false} LeadingZeros(d: seq<bool>, n: nat)
    requires n <= |d| && forall i :: 0 <= i < n ==> !d[i]
    ensures BitSerial(0, d[..n]) == 0
  {
    ZeroStep();
    hide BitStep;
    if n > 0 {
      LeadingZeros(d, n - 1);
      assert d[..n][..n - 1] == d[..n - 1];
    }
  }

  lemma StepToZero(c: bv32)
    ensures BitStep(c, false) == 0 ==> c == 0
  {
    PolyIsOdd(c);
    ZeroBits(0);
    ShlZero(c);
    hide Xor, Shl, Top, Bit;
  }

  lemma {:induction false} TrailingZeros(d: seq<bool>, n: nat)
    requires n <= |d| && (forall i :: n <= i < |d| ==> !d[i]) && BitSerial(0, d) == 0
    ensures BitSerial(0, d[..n]) == 0
    decreases |d| - n
  {
    hide BitStep;
    if n == |d| {
      assert d[..n] == d;
    } else {
      TrailingZeros(d, n + 1);
      assert d[..n + 1][..n] == d[..n];
      StepToZero(BitSerial(0, d[..n]));
    }
  }

  /** A difference that is confined to 32 consecutive bits never divides out. */
  lemma {:induction false} BurstIsSeen(d: seq<bool>, p: nat)
    requires p < |d| && d[p] && (forall i :: 0 <= i < p ==> !d[i]) && (forall i :: p + 32 <= i < |d| ==> !d[i])
    ensures BitSerial(0, d) != 0
  {
    hide BitStep, Bit;
    if BitSerial(0, d) == 0 {
      var end := if p + 32 <= |d| then p + 32 else |d|;
      TrailingZeros(d, end);
      StepsBack(d, p + 1, end);
      LeadingZeros(d, p);
      assert d[..p + 1][..p] == d[..p];
      ZeroStep();
      PolyIsOdd(0);
      assert false;
    }
  }

  /** Two messages of equal length that differ, and only within 32 consecutive bits, have different
      registers, whatever they started from. */
  lemma {:induction false} BurstDetected(init: bv32, a: seq<bool>, b: seq<bool>, j: nat)
    requires |a| == |b| && a != b
    requires forall i :: 0 <= i < |a| && a[i] != b[i] ==> j <= i < j + 32
    ensures BitSerial(init, a) != BitSerial(init, b)
  {
    hide BitSerial;
    var d := Difference(a, b);
    var p := FirstDifference(a, b);
    BurstIsSeen(d, p);
    DivisionIsLinear(init, init, a, b);
    XorZero(init, init);
    XorZero(BitSerial(init, a), BitSerial(init, b));
  }

  lemma FirstDifference(a: seq<bool>, b: seq<bool>) returns (p: nat)
    requires |a| == |b| && a != b
    ensures p < |a| && a[p] != b[p] && forall i :: 0 <= i < p ==> a[i] == b[i]
  {
    p := 0;
    while a[p] == b[p]
      invariant p < |a| && (forall i :: 0 <= i < p ==> a[i] == b[i])
      invariant exists i :: p <= i < |a| && a[i] != b[i]
      decreases |a| - p
    {
      p := p + 1;
    }
  }

  lemma {:induction false} BitAt(buf: seq<bv8>, i: nat, k: nat)
    requires i < |buf| && k < 8
    ensures Bits(buf)[8 * i + k] == ByteBit(buf[i], k)
  {
    hide ByteBit, BitsOfByte;
    var n := |buf| - 1;
    if i == n {
      ByteBitAt(buf[i], k);
    } else {
      BitAt(buf[..n], i, k);
    }
  }

  lemma EqualBytes(x: bv8, y: bv8)
    requires forall k :: 0 <= k < 8 ==> ByteBit(x, k) == ByteBit(y, k)
    ensures x == y
  {
    assert ByteBit(x, 0) == ByteBit(y, 0) && ByteBit(x, 1) == ByteBit(y, 1) && ByteBit(x, 2) == ByteBit(y, 2);
    assert ByteBit(x, 3) == ByteBit(y, 3) && ByteBit(x, 4) == ByteBit(y, 4) && ByteBit(x, 5) == ByteBit(y, 5);
    assert ByteBit(x, 6) == ByteBit(y, 6) && ByteBit(x, 7) == ByteBit(y, 7);
  }

  /** Any two buffers of equal length that differ, and only within four consecutive bytes, have
      different CRCs from the same start. */
  lemma FourBytesDetected(init: bv32, a: seq<bv8>, b: seq<bv8>, j: nat)
    requires |a| == |b| && a != b
    requires forall i :: 0 <= i < |a| && a[i] != b[i] ==> j <= i < j + 4
    ensures Crc(init, a) != Crc(init, b)
  {
    hide ByteBit, Bits, BitSerial;
    var x, y := Bits(a), Bits(b);
    forall i | 0 <= i < |x| && x[i] != y[i] ensures 8 * j <= i < 8 * j + 32 {
      BitAt(a, i / 8, i % 8);
      BitAt(b, i / 8, i % 8);
    }
    if x == y {
      forall i | 0 <= i < |a| ensures a[i] == b[i] {
        forall k | 0 <= k < 8 ensures ByteBit(a[i], k) == ByteBit(b[i], k) {
          BitAt(a, i, k);
          BitAt(b, i, k);
        }
        EqualBytes(a[i], b[i]);
      }
    }
    BurstDetected(init, x, y, 8 * j);
  }
}
