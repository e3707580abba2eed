/** Algebra of 32-bit words. Each operation is a named function and each law a lemma about single
    operations, so that longer arguments need no bit-level reasoning. */
module Word32 {
  function Xor(a: bv32, b: bv32): bv32 { a ^ b }

  function Or(a: bv32, b: bv32): bv32 { a | b }

  function And(a: bv32, b: bv32): bv32 { a & b }

  function Shl(a: bv32): bv32 { a << 1 }

  function Pred(a: bv32): bv32 { a - 1 }

  predicate Top(a: bv32) { a & 0x80000000 != 0 }

  function Shifted(c: bv32, n: nat): bv32 {
    if n == 0 then c else Shl(Shifted(c, n - 1))
  }

  /** The word with the i-th bit alone set. */
  function OneHot(i: nat): bv32 {
    if i == 0 then 1 else Shl(OneHot(i - 1))
  }

  predicate Bit(a: bv32, i: nat)
    requires i < 32
  {
    And(a, OneHot(i)) != 0
  }

  // ---- Laws ----

  lemma XorLaws(a: bv32, b: bv32, c: bv32)
    ensures Xor(Xor(a, b), c) == Xor(Xor(a, c), b)
    ensures Xor(Xor(a, b), c) == Xor(a, Xor(b, c))
    ensures Xor(a, b) == Xor(b, a)
  {
  }

  lemma XorZero(a: bv32, b: bv32)
    ensures Xor(a, 0) == a && Xor(0, a) == a && Xor(a, a) == 0
    ensures Xor(a, b) == 0 <==> a == b
  {
  }

  lemma XorShl(a: bv32, b: bv32)
    ensures Shl(Xor(a, b)) == Xor(Shl(a), Shl(b))
  {
  }

  lemma XorTop(a: bv32, b: bv32)
    ensures Top(Xor(a, b)) == (Top(a) != Top(b))
  {
  }

  lemma ShlZero(a: bv32)
    ensures Shl(a) == 0 && !Top(a) <==> a == 0
  {
  }

  lemma ZeroBits(i: nat)
    requires i < 32
    ensures !Bit(0, i)
  {
  }

  lemma LowestBits(a: bv32, b: bv32)
    ensures !Bit(Shl(a), 0)
    ensures Bit(Xor(a, b), 0) == (Bit(a, 0) != Bit(b, 0))
  {
  }

  lemma EightShl(x: bv32)
    ensures Shl(Shl(Shl(Shl(Shl(Shl(Shl(Shl(x)))))))) == x << 8
  {
  }

  lemma EightUp(i: nat)
    ensures OneHot(i + 8) == OneHot(i) << 8
  {
    hide Shl;
    EightShl(OneHot(i));
    assert OneHot(i + 2) == Shl(Shl(OneHot(i)));
    assert OneHot(i + 4) == Shl(Shl(OneHot(i + 2)));
    assert OneHot(i + 6) == Shl(Shl(OneHot(i + 4)));
    assert OneHot(i + 8) == Shl(Shl(OneHot(i + 6)));
  }

  lemma {:induction false} FirstEight(i: nat)
    requires i < 8
    ensures OneHot(i) in {0x01, 0x02, 0x04, 0x08, 0x10, 0x20, 0x40, 0x80} && (i < 7 ==> OneHot(i) != 0x80)
  {
    assert OneHot(0) == 1 && OneHot(1) == 2 && OneHot(2) == 4 && OneHot(3) == 8;
    assert OneHot(4) == 0x10 && OneHot(5) == 0x20;
    assert OneHot(6) == 0x40 && OneHot(7) == 0x80;
  }

  /** Up to bit 30 the single bit is not the top one. */
  lemma {:induction false} NotTopYet(i: nat)
    requires i < 31
    ensures !Top(OneHot(i))
  {
    var r := i % 8;
    FirstEight(r);
    EightUp(r);
    EightUp(r + 8);
    EightUp(r + 16);
  }

  lemma AndShl(a: bv32, h: bv32)
    ensures And(Shl(a), Shl(h)) == Shl(And(a, h)) && (!Top(h) ==> !Top(And(a, h)))
  {
  }

  /** A shift moves every bit up by one. */
  lemma BitShl(a: bv32, i: nat)
    requires i < 31
    ensures Bit(Shl(a), i + 1) == Bit(a, i)
  {
    hide Shl, Top, And;
    NotTopYet(i);
    AndShl(a, OneHot(i));
    ShlZero(And(a, OneHot(i)));
    ZeroShl();
    assert OneHot(i + 1) == Shl(OneHot(i));
  }

  lemma ZeroShl()
    ensures Shl(0) == 0 && !Top(0)
  {
  }

  // ---- Sets of bits ----

  lemma AndOr(a: bv32, b: bv32, h: bv32)
    ensures And(Or(a, b), h) == Or(And(a, h), And(b, h))
  {
  }

  lemma OrZero(x: bv32, y: bv32)
    ensures Or(x, y) == 0 <==> x == 0 && y == 0
  {
  }

  lemma OrBit(a: bv32, b: bv32, i: nat)
    requires i < 32
    ensures Bit(Or(a, b), i) == (Bit(a, i) || Bit(b, i))
  {
    hide OneHot, And, Or;
    AndOr(a, b, OneHot(i));
    OrZero(And(a, OneHot(i)), And(b, OneHot(i)));
  }

  lemma OneAndShl(h: bv32)
    ensures 1 & Shl(h) == 0 && OneHot(0) == 1 && 1 & OneHot(0) != 0
  {
  }

  lemma {:induction false} OneHotBit(j: nat, i: nat)
    requires j < 32 && i < 32
    ensures Bit(OneHot(j), i) == (i == j)
  {
    if j == 0 {
      OneAndShl(if i == 0 then 0 else OneHot(i - 1));
    } else if i == 0 {
      LowestBits(OneHot(j - 1), 0);
      assert OneHot(j) == Shl(OneHot(j - 1));
    } else {
      OneHotBit(j - 1, i - 1);
      BitShl(OneHot(j - 1), i - 1);
    }
  }

  lemma {:induction false} BitShifted(d: bv32, k: nat, i: nat)
    requires i + k < 32
    ensures Bit(Shifted(d, k), i + k) == Bit(d, i)
  {
    hide Bit, Shl;
    if k > 0 {
      BitShifted(d, k - 1, i);
      BitShl(Shifted(d, k - 1), i + k - 1);
    }
  }

  lemma TopIsBit31(d: bv32)
    ensures Top(d) == Bit(d, 31)
  {
    FirstEight(7);
    assert OneHot(7) == 0x80;
    EightUp(7);
    EightUp(15);
    EightUp(23);
  }

  lemma {:induction false} EightShifts(d: bv32, n: nat)
    ensures Shifted(d, n + 8) == Shifted(d, n) << 8
  {
    hide Shl;
    EightShl(Shifted(d, n));
    assert Shifted(d, n + 2) == Shl(Shl(Shifted(d, n)));
    assert Shifted(d, n + 4) == Shl(Shl(Shifted(d, n + 2)));
    assert Shifted(d, n + 6) == Shl(Shl(Shifted(d, n + 4)));
    assert Shifted(d, n + 8) == Shl(Shl(Shifted(d, n + 6)));
  }

  lemma {:induction false} AllShiftedOut(d: bv32)
    ensures Shifted(d, 32) == 0
  {
    EightShifts(d, 0);
    EightShifts(d, 8);
    EightShifts(d, 16);
    EightShifts(d, 24);
    FourBytesOut(d);
  }

  lemma FourBytesOut(d: bv32)
    ensures (((d << 8) << 8) << 8) << 8 == 0
  {
  }

  lemma {:induction false} NoBitsFrom(d: bv32, k: nat)
    requires k <= 32 && forall i :: 0 <= i < 32 ==> !Bit(d, i)
    ensures Shifted(d, k) == 0
    decreases 32 - k
  {
    hide Bit, Shl, Top;
    if k == 32 {
      AllShiftedOut(d);
    } else {
      NoBitsFrom(d, k + 1);
      BitShifted(d, k, 31 - k);
      TopIsBit31(Shifted(d, k));
      ShlZero(Shifted(d, k));
    }
  }

  lemma AndXor(a: bv32, b: bv32, h: bv32)
    ensures And(Xor(a, b), h) == Xor(And(a, h), And(b, h))
  {
  }

  lemma AndShlShr(a: bv32, h: bv32)
    ensures !Top(h) ==> And(a, Shl(h)) == Shl(And(a >> 1, h))
    ensures Shl(0) == 0 && And(a, 1) in {0, 1}
  {
  }

  /** A single-bit word meets another word in that bit or not at all. */
  lemma {:induction false} OnlyBit(a: bv32, i: nat)
    requires i < 32
    ensures And(a, OneHot(i)) == 0 || And(a, OneHot(i)) == OneHot(i)
  {
    hide And, Shl, Top;
    if i == 0 {
      AndShlShr(a, 0);
    } else {
      OnlyBit(a >> 1, i - 1);
      NotTopYet(i - 1);
      AndShlShr(a, OneHot(i - 1));
    }
  }

  lemma XorBit(a: bv32, b: bv32, i: nat)
    requires i < 32
    ensures Bit(Xor(a, b), i) == (Bit(a, i) != Bit(b, i))
  {
    hide OneHot, And, Xor;
    OnlyBit(a, i);
    OnlyBit(b, i);
    AndXor(a, b, OneHot(i));
    XorZero(And(a, OneHot(i)), And(b, OneHot(i)));
  }

  /** Words with the same bits are equal. */
  lemma SameBits(a: bv32, b: bv32)
    requires forall i :: 0 <= i < 32 ==> Bit(a, i) == Bit(b, i)
    ensures a == b
  {
    hide Bit, Xor;
    forall i | 0 <= i < 32 ensures !Bit(Xor(a, b), i) {
      XorBit(a, b, i);
    }
    NoBitsFrom(Xor(a, b), 0);
    XorZero(a, b);
  }
}
