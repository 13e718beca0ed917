/** The arithmetic of `bitvec::expand`: sizes are rounded up so that they have few significant bits. */
module SizeBits {
  import opened BigInt

  /** One of the `w` bits from `i` on is set. */
  ghost predicate AnyFrom(n: nat, i: nat, w: nat) {
    exists j | i <= j < i + w :: Bit(n, j)
  }

  /** Every bit of `m` tells whether one of `w` bits of `n` from there on is set. */
  ghost predicate IsSmeared(n: nat, m: nat, w: nat) {
    forall i: nat {:trigger Bit(m, i)} :: Bit(m, i) <==> AnyFrom(n, i, w)
  }

  /** Each step doubles the reach. */
  lemma SmearStep(n: nat, m: nat, w: nat)
    requires IsSmeared(n, m, w)
    ensures ShiftRight(m, w) >= 0 && IsSmeared(n, Or(m, ShiftRight(m, w)), 2 * w)
  {
    ShiftRightKeepsSign(m, w);
    var m' := Or(m, ShiftRight(m, w));
    forall i: nat ensures Bit(m', i) <==> AnyFrom(n, i, 2 * w) {
      BitOr(m, ShiftRight(m, w), i);
      BitShiftRight(m, w, i);
      assert Bit(m, i + w) <==> AnyFrom(n, i + w, w);
      NextBits(n, i, w);
    }
  }

  lemma NextBits(n: nat, i: nat, w: nat)
    ensures AnyFrom(n, i, 2 * w) <==> AnyFrom(n, i, w) || AnyFrom(n, i + w, w)
  {
  }

  /** `n |= n >> 1`, and so on by 2, 4, 8 and 16: each bit of the result tells whether one of 32 bits is
      set. Of a number below two to the power of 32 these are all bits from the highest one down. */
  method Smear(n: nat) returns (m: nat)
    requires n > 0
    ensures IsSmeared(n, m, 32) && n <= m < 2 * n
    ensures n < 0x1_0000_0000 ==> m == Pow2(Width(n)) - 1
  {
    m := n;
    Unsmeared(n);
    SmearStep(n, m, 1);
    m := Or(m, ShiftRight(m, 1));
    SmearStep(n, m, 2);
    m := Or(m, ShiftRight(m, 2));
    SmearStep(n, m, 4);
    m := Or(m, ShiftRight(m, 4));
    SmearStep(n, m, 8);
    m := Or(m, ShiftRight(m, 8));
    SmearStep(n, m, 16);
    m := Or(m, ShiftRight(m, 16));
    SmearedSize(n, m, 32);
    if n < 0x1_0000_0000 {
      ShortWidth(n);
      SmearedAll(n, m);
    }
  }

  lemma Unsmeared(n: nat)
    ensures IsSmeared(n, n, 1)
  {
    forall i: nat ensures Bit(n, i) <==> AnyFrom(n, i, 1) {
    }
  }

  lemma SmearedSize(n: nat, m: nat, w: nat)
    requires n > 0 && w > 0 && IsSmeared(n, m, w)
    ensures n <= m < 2 * n && m < Pow2(Width(n))
  {
    WidthBounds(n);
    var top := Width(n);
    forall i: nat | Bit(n, i) ensures Bit(m, i) {
      assert AnyFrom(n, i, w);
    }
    MoreBits(n, m);
    forall i: nat | i >= top ensures !Bit(m, i) {
      if AnyFrom(n, i, w) {
        var j :| i <= j < i + w && Bit(n, j);
        HighBitsClear(n, top, j);
      }
    }
    BoundFromBits(m, top);
  }

  lemma SmearedAll(n: nat, m: nat)
    requires n > 0 && IsSmeared(n, m, 32) && Width(n) <= 32
    ensures m == Pow2(Width(n)) - 1
  {
    SmearedSize(n, m, 32);
    forall i: nat ensures Bit(m, i) == (i < Width(n)) {
      SmearedBit(n, m, i);
    }
    FullMaskOnly(m, Width(n));
  }

  lemma FullMaskOnly(m: nat, w: nat)
    requires forall i: nat :: Bit(m, i) == (i < w)
    ensures m == Pow2(w) - 1
  {
    forall i: nat ensures Bit(m, i) == Bit(Pow2(w) - 1, i) {
      BitsOfFullMask(w, i);
    }
    SameBits(m, Pow2(w) - 1);
  }

  lemma SmearedBit(n: nat, m: nat, i: nat)
    requires n > 0 && IsSmeared(n, m, 32) && Width(n) <= 32 && m < Pow2(Width(n))
    ensures Bit(m, i) == (i < Width(n))
  {
    WidthBounds(n);
    if i < Width(n) {
      assert AnyFrom(n, i, 32);
    } else {
      HighBitsClear(m, Width(n), i);
    }
  }

  lemma ShortWidth(n: nat)
    requires 0 < n < 0x1_0000_0000
    ensures Width(n) <= 32
  {
    WidthBounds(n);
    assert Pow2(32) == 0x1_0000_0000 by {
      assert Pow2(8) == 0x100;
      assert Pow2(16) == 0x1_0000;
      assert Pow2(24) == 0x100_0000;
    }
    if Width(n) > 32 {
      Pow2Grows(32, Width(n) - 1);
    }
  }

  ghost predicate IsMultiple(n: int, p: nat) {
    exists q: nat :: n == q * p
  }

  /** `newsize` rounded up by at most a quarter, to a multiple of a power of two that is more than an
      eighth of it, unless it is huge. */
  method RoundUp(newsize: nat) returns (r: nat)
    ensures newsize <= r <= newsize + newsize / 4
    ensures newsize < 8 ==> r == newsize
    ensures 8 <= newsize < 0x8_0000_0000 ==>
      newsize / 8 < Pow2(Width(newsize / 8)) && IsMultiple(r, Pow2(Width(newsize / 8)))
  {
    r := newsize;
    var m := newsize / 8;
    if m != 0 {
      m := Smear(m);
      Rounded(newsize + m, m, Width(newsize / 8));
      r := And(newsize + m, -1 - m);
      WidthBounds(newsize / 8);
    }
  }

  lemma Rounded(n: nat, m: nat, k: nat)
    ensures n - m <= And(n, -1 - m) <= n
    ensures m == Pow2(k) - 1 ==> IsMultiple(And(n, -1 - m), Pow2(k))
  {
    AndNot(n, m);
    if m == Pow2(k) - 1 {
      ShiftAndMask(n, k);
      ShiftRightKeepsSign(n, k);
      var q: nat := ShiftRight(n, k);
      assert And(n, -1 - m) == q * Pow2(k);
    }
  }
}
