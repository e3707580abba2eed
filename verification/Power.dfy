/** pow_i64: exponentiation by squaring in 64-bit signed arithmetic. */
module Power {
  const INT64_MAX: int := 0x7fff_ffff_ffff_ffff
  const INT64_MIN: int := -0x8000_0000_0000_0000
  const SQRT_INT64_MAX: int := 3037000499

  type i64 = x: int | INT64_MIN <= x <= INT64_MAX

  predicate Fits(x: int) { INT64_MIN <= x <= INT64_MAX }

  function Pow(x: int, y: nat): int {
    if y == 0 then 1 else x * Pow(x, y - 1)
  }

  /** A 64-bit product; what C leaves undefined on overflow wraps, as the processor has it. */
  function Mul64(a: i64, b: i64): i64 {
    (a * b + 0x8000_0000_0000_0000) % 0x1_0000_0000_0000_0000 - 0x8000_0000_0000_0000
  }

  lemma MulFits(a: i64, b: i64)
    requires Fits(a * b)
    ensures Mul64(a, b) == a * b
  {
    var v := a * b;
    assert (v + 0x8000_0000_0000_0000) % 0x1_0000_0000_0000_0000 == v + 0x8000_0000_0000_0000;
  }

  lemma {:induction false} PowAdd(x: int, m: nat, n: nat)
    ensures Pow(x, m + n) == Pow(x, m) * Pow(x, n)
  {
    if m > 0 {
      PowAdd(x, m - 1, n);
      var a, b := Pow(x, m - 1), Pow(x, n);
      assert x * (a * b) == (x * a) * b;
    }
  }

  lemma {:induction false} PowSquare(x: int, n: nat)
    ensures Pow(x, 2 * n) == Pow(x * x, n)
  {
    if n > 0 {
      PowSquare(x, n - 1);
      PowAdd(x, 2, 2 * (n - 1));
      assert Pow(x, 1) == x;
      assert Pow(x, 2) == x * x;
    }
  }

  /** One halving of the exponent. */
  lemma {:induction false} Halve(x: int, y: nat)
    ensures Pow(x, y) == (if y % 2 == 1 then x else 1) * Pow(x * x, y / 2)
  {
    PowSquare(x, y / 2);
    if y % 2 == 1 {
      assert y == 2 * (y / 2) + 1;
    } else {
      assert y == 2 * (y / 2);
    }
  }

  lemma {:induction false} PowPositive(x: int, y: nat)
    requires x >= 1
    ensures Pow(x, y) >= 1 && (y > 0 ==> Pow(x, y) >= x)
  {
    if y > 0 {
      PowPositive(x, y - 1);
    }
  }

  /** Multiplying by a positive number never brings a value closer to zero. */
  lemma {:induction false} Away(a: int, p: int)
    requires p >= 1
    ensures if a >= 0 then a * p >= a else a * p <= a
    decreases p
  {
    if p > 1 {
      Away(a, p - 1);
      assert a * p == a * (p - 1) + a;
    }
  }

  /** A factor of a product fits if the product does and the other factor is positive. */
  lemma FactorFits(a: int, p: int)
    requires p >= 1 && Fits(a * p)
    ensures Fits(a)
  {
    Away(a, p);
  }

  lemma ProductFitsSquareFits(a: int, p: int, q: int)
    requires a != 0 && p >= q >= 1 && Fits(a * p)
    ensures q <= 0x8000_0000_0000_0000
  {
    if a > 0 {
      assert p <= a * p;
    } else {
      assert a * p <= -p;
    }
  }

  lemma SquareMonotone(a: nat, b: nat)
    requires a <= b
    ensures a * a <= b * b
  {
    assert a * a <= a * b <= b * b;
  }

  /** Beyond the guard a square does not fit, and up to it it does. */
  lemma SquareBound(x: int)
    ensures x > SQRT_INT64_MAX || x < -SQRT_INT64_MAX <==> x * x > 0x8000_0000_0000_0000
    ensures -SQRT_INT64_MAX <= x <= SQRT_INT64_MAX ==> Fits(x * x)
  {
    var a: nat := if x < 0 then -x else x;
    assert a * a == x * x;
    assert 3037000500 * 3037000500 == 9223372037000250000 && 3037000499 * 3037000499 == 9223372030926249001;
    if a > SQRT_INT64_MAX {
      SquareMonotone(3037000500, a);
    } else {
      SquareMonotone(a, 3037000499);
    }
  }

  /** What is still to be multiplied in: res * (x*x)^y is the answer. */
  ghost predicate Pending(total: int, res: int, x: int, y: nat) {
    x != 0 && res != 0 && total == res * Pow(x * x, y)
  }

  lemma PendingStep(total: int, res: int, x: int, y: nat)
    requires Pending(total, res, x, y) && y > 0
    ensures Pending(total, res * (if y % 2 == 1 then x * x else 1), x * x, y / 2)
    ensures Fits(total) ==> -SQRT_INT64_MAX <= x <= SQRT_INT64_MAX && Fits(x * x)
    ensures Fits(total) ==> Fits(res * (if y % 2 == 1 then x * x else 1))
  {
    var s := x * x;
    assert s >= 1;
    Halve(s, y);
    var f, p := if y % 2 == 1 then s else 1, Pow(s * s, y / 2);
    assert res * (f * p) == (res * f) * p;
    PowPositive(s * s, y / 2);
    PowPositive(s, y);
    SquareBound(x);
    if Fits(total) {
      ProductFitsSquareFits(res, Pow(s, y), s);
      FactorFits(res * f, p);
    }
  }

  /** pow_i64: exact, and free of overflow, for every base and exponent whose power fits 64 bits. When
      the guard gives up, the power does not fit. */
  method PowI64(x0: i64, y0: nat) returns (res: i64, ghost overflowed: bool, ghost guarded: bool)
    requires y0 < 256
    ensures Fits(Pow(x0, y0)) <==> res == Pow(x0, y0)
    ensures Fits(Pow(x0, y0)) ==> !overflowed
    ensures guarded ==> res == 0 && !Fits(Pow(x0, y0))
  {
    overflowed, guarded := false, false;
    ghost var total := Pow(x0, y0);
    if x0 == 1 || y0 == 0 {
      PowOfOne(y0);
      return 1, overflowed, guarded;
    }
    if x0 == 0 {
      return 0, overflowed, guarded;
    }
    var x: i64, y := x0, y0;
    Halve(x, y);
    res := if y % 2 == 1 then x else 1;
    y := y / 2;
    while y > 0
      invariant overflowed ==> !Fits(total)
      invariant !overflowed ==> Pending(total, res, x, y)
    {
      if !overflowed {
        PendingStep(total, res, x, y);
      }
      if x > SQRT_INT64_MAX {
        guarded := true;
        return 0, overflowed, guarded;
      }
      if !overflowed {
        if Fits(x * x) {
          MulFits(x, x);
        } else {
          overflowed := true;
        }
      }
      x := Mul64(x, x);
      if y % 2 == 1 {
        if !overflowed {
          if Fits(res * x) {
            MulFits(res, x);
          } else {
            overflowed := true;
          }
        }
        res := Mul64(res, x);
      }
      y := y / 2;
    }
  }

  lemma {:induction false} PowOfOne(y: nat)
    ensures Pow(1, y) == 1
  {
    if y > 0 {
      PowOfOne(y - 1);
    }
  }
}
