/** Bits of the arbitrary-precision integers (`big_int`) that the compiler computes with.
    Negative numbers have infinitely many leading ones, as in two's complement. */
module BigInt {

  function Pow2(n: nat): nat {
    if n == 0 then 1 else 2 * Pow2(n - 1)
  }

  function Abs(n: int): nat {
    if n < 0 then -n else n
  }

  predicate Bit(n: int, i: nat)
    decreases i
  {
    if i == 0 then n % 2 == 1 else Bit(n / 2, i - 1)
  }

  /** `a & b`. */
  function And(a: int, b: int): int
    decreases Abs(a)
  {
    if a == 0 || b == 0 then 0
    else if a == -1 then b
    else if b == -1 then a
    else 2 * And(a / 2, b / 2) + (a % 2) * (b % 2)
  }

  /** `n >> k`. */
  function ShiftRight(n: int, k: nat): int
    decreases k
  {
    if k == 0 then n else ShiftRight(n / 2, k - 1)
  }

  lemma {:induction false} BitOfConstant(n: int, i: nat)
    requires n == 0 || n == -1
    ensures Bit(n, i) == (n == -1)
  {
    if i > 0 {
      BitOfConstant(n, i - 1);
    }
  }

  lemma {:induction false} BitAnd(a: int, b: int, i: nat)
    ensures Bit(And(a, b), i) == (Bit(a, i) && Bit(b, i))
    decreases i
  {
    if a == 0 || b == 0 {
      BitOfConstant(0, i);
    } else if a == -1 || b == -1 {
      BitOfConstant(-1, i);
    } else {
      var h := And(a / 2, b / 2);
      assert (2 * h + (a % 2) * (b % 2)) / 2 == h;
      if i > 0 {
        BitAnd(a / 2, b / 2, i - 1);
      }
    }
  }

  /** Integers are equal if all their bits are. */
  lemma {:induction false} SameBits(a: int, b: int)
    requires forall i :: Bit(a, i) == Bit(b, i)
    ensures a == b
    decreases Abs(a) + Abs(b)
  {
    assert Bit(a, 0) == Bit(b, 0);
    if (a == 0 || a == -1) && (b == 0 || b == -1) {
    } else {
      forall i: nat ensures Bit(a / 2, i) == Bit(b / 2, i) {
        assert Bit(a, i + 1) == Bit(b, i + 1);
      }
      SameBits(a / 2, b / 2);
    }
  }

  lemma {:induction false} BitShiftRight(n: int, k: nat, i: nat)
    ensures Bit(ShiftRight(n, k), i) == Bit(n, i + k)
    decreases k
  {
    if k > 0 {
      BitShiftRight(n / 2, k - 1, i);
    }
  }

  /** Numbers below a power of two have no bits from there on. */
  lemma {:induction false} HighBitsClear(n: nat, w: nat, i: nat)
    requires n < Pow2(w) && w <= i
    ensures !Bit(n, i)
  {
    if w == 0 {
      BitOfConstant(0, i);
    } else {
      HighBitsClear(n / 2, w - 1, i - 1);
    }
  }

  /** ... and the converse. */
  lemma {:induction false} BoundFromBits(n: nat, w: nat)
    requires forall i | i >= w :: !Bit(n, i)
    ensures n < Pow2(w)
    decreases w, n
  {
    if w == 0 {
      assert !Bit(n, 0);
      if n > 0 {
        forall i: nat ensures !Bit(n / 2, i) {
          assert !Bit(n, i + 1);
        }
        BoundFromBits(n / 2, 0);
      }
    } else {
      forall i | i >= w - 1 ensures !Bit(n / 2, i) {
        assert !Bit(n, i + 1);
      }
      BoundFromBits(n / 2, w - 1);
    }
  }

  lemma {:induction false} AndNonNegative(a: int, b: int)
    ensures And(a, b) >= 0 <==> a >= 0 || b >= 0
    decreases Abs(a)
  {
    if a != 0 && b != 0 && a != -1 && b != -1 {
      AndNonNegative(a / 2, b / 2);
      var h := And(a / 2, b / 2);
      var low := (a % 2) * (b % 2);
      assert low == 0 || low == 1;
      assert And(a, b) == 2 * h + low;
    }
  }

  lemma {:induction false} AndBound(a: int, b: int, w: nat)
    requires 0 <= b < Pow2(w)
    ensures 0 <= And(a, b) < Pow2(w)
  {
    AndNonNegative(a, b);
    forall i | i >= w ensures !Bit(And(a, b), i) {
      BitAnd(a, b, i);
      HighBitsClear(b, w, i);
    }
    BoundFromBits(And(a, b), w);
  }

  /** Toggling bit `i` of a number. */
  function Toggle(n: nat, i: nat): nat {
    if i == 0 then (if n % 2 == 0 then n + 1 else n - 1) else 2 * Toggle(n / 2, i - 1) + n % 2
  }

  lemma {:induction false} BitToggle(n: nat, i: nat, j: nat)
    ensures Bit(Toggle(n, i), j) == (Bit(n, j) != (i == j))
    decreases j
  {
    if i > 0 {
      assert Toggle(n, i) / 2 == Toggle(n / 2, i - 1);
    } else {
      assert Toggle(n, i) / 2 == n / 2;
    }
    if i > 0 && j > 0 {
      BitToggle(n / 2, i - 1, j - 1);
    }
  }

  /** The number of one bits. */
  function PopCount(n: nat): nat {
    if n == 0 then 0 else PopCount(n / 2) + n % 2
  }

  /** The index of the lowest one bit. */
  function Lsb(n: int): nat
    requires n != 0
    decreases Abs(n)
  {
    if n % 2 == 1 then 0 else 1 + Lsb(n / 2)
  }

  lemma {:induction false} BitLsb(n: int, i: nat)
    requires n != 0 && i <= Lsb(n)
    ensures Bit(n, i) == (i == Lsb(n))
    decreases i
  {
    if i > 0 {
      BitLsb(n / 2, i - 1);
    }
  }

  lemma {:induction false} PopCountBound(n: nat, w: nat)
    requires n < Pow2(w)
    ensures PopCount(n) <= w
  {
    if w > 0 {
      PopCountBound(n / 2, w - 1);
    }
  }

  /** A number of `w` bits has `w` ones only if all its bits are ones. */
  lemma {:induction false} AllOnes(n: nat, w: nat, i: nat)
    requires n < Pow2(w) && PopCount(n) == w && i < w
    ensures Bit(n, i)
  {
    PopCountBound(n / 2, w - 1);
    if i > 0 {
      AllOnes(n / 2, w - 1, i - 1);
    }
  }

  /** All ones up to `w` already account for `w`: more bits mean a larger count. */
  lemma {:induction false} OnesCounted(n: nat, w: nat)
    requires forall i | 0 <= i < w :: Bit(n, i)
    ensures PopCount(n) >= w
    ensures n >= Pow2(w) ==> PopCount(n) > w
    decreases w
  {
    if w == 0 {
      if n > 0 {
        PopCountPositive(n);
      }
    } else {
      assert Bit(n, 0);
      forall i | 0 <= i < w - 1 ensures Bit(n / 2, i) {
        assert Bit(n, i + 1);
      }
      OnesCounted(n / 2, w - 1);
    }
  }

  lemma {:induction false} PopCountPositive(n: nat)
    requires n > 0
    ensures PopCount(n) > 0
  {
    if n > 1 {
      PopCountPositive(n / 2);
    }
  }

  /** `v & (v - 1)` drops the lowest one bit. */
  lemma {:induction false} DropLowestOne(v: nat)
    requires v > 0
    ensures 0 <= And(v, v - 1) < v && PopCount(And(v, v - 1)) == PopCount(v) - 1
  {
    if v % 2 == 1 {
      OddLowestOne(v);
    } else {
      DropLowestOne(v / 2);
      EvenLowestOne(v);
    }
  }

  lemma OddLowestOne(v: nat)
    requires v % 2 == 1
    ensures And(v, v - 1) == v - 1 && PopCount(v - 1) == PopCount(v) - 1
  {
    AndSelf(v / 2);
    assert (v - 1) / 2 == v / 2 && (v - 1) % 2 == 0;
    assert PopCount(v) == PopCount(v / 2) + 1;
    assert v > 1 ==> PopCount(v - 1) == PopCount(v / 2);
    assert v > 1 ==> And(v, v - 1) == 2 * And(v / 2, v / 2);
  }

  lemma EvenLowestOne(v: nat)
    requires v > 0 && v % 2 == 0 && And(v / 2, v / 2 - 1) >= 0
    ensures And(v, v - 1) == 2 * And(v / 2, v / 2 - 1)
    ensures PopCount(And(v, v - 1)) == PopCount(And(v / 2, v / 2 - 1)) && PopCount(v) == PopCount(v / 2)
  {
    assert (v - 1) / 2 == v / 2 - 1;
    var h := And(v / 2, v / 2 - 1);
    assert (2 * h) / 2 == h && (2 * h) % 2 == 0;
  }

  lemma {:induction false} AndSelf(v: nat)
    ensures And(v, v) == v
  {
    if v > 0 {
      AndSelf(v / 2);
    }
  }

  /** `bitcount` of lib/gmputil.h; negative numbers give `~0U`. */
  method BitCount(v0: int) returns (rv: int)
    ensures rv == if v0 < 0 then 0xffff_ffff else PopCount(v0)
  {
    if v0 < 0 {
      return 0xffff_ffff;
    }
    var v: nat := v0;
    rv := 0;
    while v != 0
      invariant rv + PopCount(v) == PopCount(v0)
    {
      DropLowestOne(v);
      v := And(v, v - 1);
      rv := rv + 1;
    }
  }

  function Log2(v: int): int
    decreases Abs(v)
  {
    if v <= 0 then -1 else 1 + Log2(v / 2)
  }

  lemma {:induction false} Log2Bounds(v: int)
    requires v > 0
    ensures Log2(v) >= 0 && Pow2(Log2(v)) <= v < Pow2(Log2(v) + 1)
  {
    if v > 1 {
      Log2Bounds(v / 2);
    }
  }

  /** `floor_log2` of lib/gmputil.h: the width of a number, less one. */
  method FloorLog2(v0: int) returns (rv: int)
    ensures v0 <= 0 ==> rv == -1
    ensures v0 > 0 ==> rv >= 0 && Pow2(rv) <= v0 < Pow2(rv + 1)
  {
    var v := v0;
    rv := -1;
    while v > 0
      invariant rv + 1 + Log2(v) == Log2(v0)
    {
      rv := rv + 1;
      v := v / 2;
    }
    if v0 > 0 {
      Log2Bounds(v0);
    }
  }

  lemma {:induction false} Pow2Grows(a: nat, b: nat)
    requires a <= b
    ensures Pow2(a) <= Pow2(b)
    ensures a < b ==> Pow2(a) < Pow2(b)
  {
    if a < b {
      Pow2Grows(a, b - 1);
      Pow2Positive(b - 1);
    }
  }

  lemma {:induction false} Pow2Positive(n: nat)
    ensures Pow2(n) > 0
  {
    if n > 0 {
      Pow2Positive(n - 1);
    }
  }

  /** `a | b`. */
  function Or(a: nat, b: nat): nat {
    if a == 0 then b else 2 * Or(a / 2, b / 2) + if a % 2 == 1 || b % 2 == 1 then 1 else 0
  }

  lemma {:induction false} BitOr(a: nat, b: nat, i: nat)
    ensures Bit(Or(a, b), i) == (Bit(a, i) || Bit(b, i))
    decreases i
  {
    if a == 0 {
      BitOfConstant(0, i);
    } else if i > 0 {
      BitOr(a / 2, b / 2, i - 1);
      assert Or(a, b) / 2 == Or(a / 2, b / 2);
    }
  }

  /** A number with more bits is no smaller. */
  lemma {:induction false} MoreBits(a: nat, b: nat)
    requires forall i | Bit(a, i) :: Bit(b, i)
    ensures a <= b
    decreases a
  {
    if a > 0 {
      assert Bit(a, 0) ==> Bit(b, 0);
      forall i: nat | Bit(a / 2, i) ensures Bit(b / 2, i) {
        assert Bit(a, i + 1) ==> Bit(b, i + 1);
      }
      MoreBits(a / 2, b / 2);
    }
  }

  /** `a & ~m`. */
  lemma {:induction false} AndNot(a: nat, m: nat)
    ensures And(a, -1 - m) == a - And(a, m) && 0 <= And(a, m) <= m
    decreases a
  {
    if a > 0 && m > 0 {
      AndNot(a / 2, m / 2);
      var k := -1 - m;
      assert k / 2 == -1 - m / 2 && k % 2 == 1 - m % 2;
      assert And(a, k) == 2 * And(a / 2, k / 2) + if a % 2 == 1 then k % 2 else 0;
      assert And(a, m) == 2 * And(a / 2, m / 2) + if a % 2 == 1 then m % 2 else 0;
    }
  }

  /** The number of bits of a number without leading zeros. */
  function Width(n: nat): nat {
    if n == 0 then 0 else 1 + Width(n / 2)
  }

  lemma {:induction false} WidthBounds(n: nat)
    requires n > 0
    ensures Width(n) > 0 && Pow2(Width(n) - 1) <= n < Pow2(Width(n)) && Bit(n, Width(n) - 1)
  {
    if n > 1 {
      WidthBounds(n / 2);
    }
  }

  lemma {:induction false} ShiftRightKeepsSign(n: nat, k: nat)
    ensures ShiftRight(n, k) >= 0
    decreases k
  {
    if k > 0 {
      ShiftRightKeepsSign(n / 2, k - 1);
    }
  }

  lemma DoubleProduct(a: int, p: int, q: int)
    requires q == 2 * p
    ensures a * q == 2 * (a * p)
  {
  }

  lemma {:induction false} MaskHalves(n: nat, k: nat)
    requires k > 0
    ensures And(n, Pow2(k) - 1) == 2 * And(n / 2, Pow2(k - 1) - 1) + n % 2
  {
    Pow2Positive(k - 1);
    var m := Pow2(k) - 1;
    assert m == 2 * (Pow2(k - 1) - 1) + 1;
    assert m / 2 == Pow2(k - 1) - 1 && m % 2 == 1;
  }

  /** A number is put together from what a shift leaves and what a mask keeps. */
  lemma {:induction false} ShiftAndMask(n: nat, k: nat)
    ensures n == ShiftRight(n, k) * Pow2(k) + And(n, Pow2(k) - 1)
    ensures 0 <= And(n, Pow2(k) - 1) < Pow2(k)
    decreases k
  {
    if k > 0 {
      ShiftAndMask(n / 2, k - 1);
      MaskHalves(n, k);
      DoubleProduct(ShiftRight(n / 2, k - 1), Pow2(k - 1), Pow2(k));
    }
  }

  lemma {:induction false} BitsOfFullMask(w: nat, i: nat)
    ensures Bit(Pow2(w) - 1, i) == (i < w)
    decreases w
  {
    if w == 0 {
      BitOfConstant(0, i);
    } else {
      Pow2Positive(w - 1);
      assert (Pow2(w) - 1) / 2 == Pow2(w - 1) - 1;
      if i > 0 {
        BitsOfFullMask(w - 1, i - 1);
      }
    }
  }
}
