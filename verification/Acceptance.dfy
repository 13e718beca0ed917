/** Which key expressions of an entry are translated without an error, and which are not. */
module Acceptance {
  import opened BigInt
  import opened MatchMeaning
  import opened EntriesConverter
  import opened Wrappers

  /** Of `w` bits the lowest `q` are zeros and the others ones. */
  ghost predicate IsPrefixMask(mask: int, w: nat) {
    exists q: nat :: q <= w && mask == Pow2(w) - Pow2(q)
  }

  lemma {:induction false} PrefixMaskCounts(w: nat, q: nat)
    requires q < w
    ensures var n := Pow2(w) - Pow2(q); n > 0 && Lsb(n) == q && PopCount(n) == w - q
    decreases w
  {
    var n := Pow2(w) - Pow2(q);
    if q > 0 {
      PrefixMaskCounts(w - 1, q - 1);
      assert n == 2 * (Pow2(w - 1) - Pow2(q - 1));
    } else if w > 1 {
      PrefixMaskCounts(w - 1, 0);
      assert n == 2 * (Pow2(w - 1) - 1) + 1;
    }
  }

  lemma {:induction false} PrefixMaskBits(w: nat, q: nat, i: nat)
    requires q <= w
    ensures Bit(Pow2(w) - Pow2(q), i) <==> q <= i < w
    decreases q
  {
    if q == 0 {
      BitsOfFullMask(w, i);
    } else {
      assert Pow2(w) - Pow2(q) == 2 * (Pow2(w - 1) - Pow2(q - 1));
      if i > 0 {
        PrefixMaskBits(w - 1, q - 1, i - 1);
      }
    }
  }

  lemma PassesTest(mask: int, w: nat)
    requires 0 < mask < Pow2(w) && IsPrefixCount(mask, w)
    ensures Lsb(mask) < w && mask == Pow2(w) - Pow2(Lsb(mask))
  {
    var n := Pow2(w) - Pow2(Lsb(mask));
    PrefixBits(mask, w, 0);
    forall i: nat ensures Bit(mask, i) == Bit(n, i) {
      PrefixBits(mask, w, i);
      PrefixMaskBits(w, Lsb(mask), i);
    }
    SameBits(mask, n);
  }

  /** Within the width the test of `addLpm` is passed by prefix masks and by no others. */
  lemma PrefixMaskExactly(mask: nat, w: nat)
    requires mask < Pow2(w)
    ensures mask == 0 || IsPrefixCount(mask, w) <==> IsPrefixMask(mask, w)
  {
    if mask == 0 {
      assert mask == Pow2(w) - Pow2(w);
    } else {
      if IsPrefixCount(mask, w) {
        PassesTest(mask, w);
      }
      if q: nat :| q <= w && mask == Pow2(w) - Pow2(q) {
        PrefixMaskCounts(w, q);
      }
    }
  }

  /** `_` is accepted by all kinds but exact. */
  lemma DefaultAccepted(kind: MatchKind, w: nat)
    ensures Accepted(kind, Default, w) <==> kind != Exact
  {
  }

  /** A value is accepted by all supported kinds if it is not negative. */
  lemma ValueAccepted(kind: MatchKind, e: Expr, w: nat)
    requires Value(e).Some?
    ensures Accepted(kind, e, w) <==> kind != Unsupported && Value(e).value >= 0
  {
    SimpleExpr(e);
  }

  /** A masked value is accepted by a ternary field if the mask is not negative, by an LPM field if the mask is that of
      a prefix, and by no other. */
  lemma MaskAccepted(kind: MatchKind, l: Expr, r: Expr, w: nat)
    requires Value(l).Some? && Value(r).Some?
    ensures kind == Ternary ==> (Accepted(kind, Mask(l, r), w) <==> Value(r).value >= 0)
    ensures kind == Lpm && r.Constant? && 0 <= r.n < Pow2(w) ==> (Accepted(kind, Mask(l, r), w) <==> IsPrefixMask(r.n, w))
    ensures kind != Ternary && kind != Lpm ==> !Accepted(kind, Mask(l, r), w)
  {
    SimpleExpr(l);
    SimpleExpr(r);
    if kind == Lpm && r.Constant? && 0 <= r.n < Pow2(w) {
      PrefixMaskExactly(r.n, w);
    }
  }

  /** A range is accepted by a range field if it is not empty and does not begin below 0, and by no other. */
  lemma RangeAccepted(kind: MatchKind, l: Expr, r: Expr, w: nat)
    requires Value(l).Some? && Value(r).Some?
    ensures Accepted(kind, Range(l, r), w) <==> kind == RangeKind && 0 <= Value(l).value <= Value(r).value
  {
    SimpleExpr(l);
    SimpleExpr(r);
  }
}
