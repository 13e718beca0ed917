/** The sets of keys that masks stand for. */
module MaskSets {
  import opened BigInt

  /** The key `k` has the value `v` under the mask. */
  ghost predicate Under(k: int, mask: int, v: int) {
    And(k, mask) == v
  }

  ghost predicate SameKeys(w: nat, mask: int, v: int, mask': int, v': int) {
    forall k | 0 <= k < Pow2(w) :: Under(k, mask, v) <==> Under(k, mask', v')
  }

  /** Two masked values match the same keys of `w` bits, if one of them matches any, exactly if the masks are
      the same within the width and the values are. */
  lemma SameMaskedKeys(w: nat, mask: nat, v: nat, mask': int, v': int)
    requires mask < Pow2(w) && v < Pow2(w) && And(v, mask) == v
    ensures SameKeys(w, mask, v, mask', v') <==> And(mask', Pow2(w) - 1) == mask && v' == v
  {
    Pow2Positive(w);
    var low := And(mask', Pow2(w) - 1);
    if low == mask {
      forall k | 0 <= k < Pow2(w) ensures And(k, mask') == And(k, mask) {
        WithinWidth(k, mask', w);
      }
      assert SameKeys(w, mask, v, mask', v') ==> (Under(v, mask, v) <==> Under(v, mask', v'));
    } else {
      var i := DifferentBit(low, mask);
      DifferentMasks(w, mask, v, mask', i);
      var k := Toggle(v, i);
      assert SameKeys(w, mask, v, mask', v') ==>
        (Under(v, mask, v) <==> Under(v, mask', v')) && (Under(k, mask, v) <==> Under(k, mask', v'));
    }
  }

  /** Of a key only the bits of the mask within the width matter. */
  lemma WithinWidth(k: nat, mask: int, w: nat)
    requires k < Pow2(w)
    ensures And(k, mask) == And(k, And(mask, Pow2(w) - 1))
  {
    forall i: nat ensures Bit(And(k, mask), i) == Bit(And(k, And(mask, Pow2(w) - 1)), i) {
      BitAnd(k, mask, i);
      BitAnd(mask, Pow2(w) - 1, i);
      BitAnd(k, And(mask, Pow2(w) - 1), i);
      BitsOfFullMask(w, i);
      if i >= w {
        HighBitsClear(k, w, i);
      }
    }
    SameBits(And(k, mask), And(k, And(mask, Pow2(w) - 1)));
  }

  lemma DifferentBit(a: int, b: int) returns (i: nat)
    requires a != b
    ensures Bit(a, i) != Bit(b, i)
  {
    if forall j: nat :: Bit(a, j) == Bit(b, j) {
      SameBits(a, b);
    }
    i :| Bit(a, i) != Bit(b, i);
  }

  /** Toggling a bit that only one of two masks has changes the value under that mask only. */
  lemma DifferentMasks(w: nat, mask: nat, v: nat, mask': int, i: nat)
    requires mask < Pow2(w) && v < Pow2(w) && Bit(And(mask', Pow2(w) - 1), i) != Bit(mask, i)
    ensures Toggle(v, i) < Pow2(w)
    ensures And(Toggle(v, i), mask) == And(v, mask) <==> And(Toggle(v, i), mask') != And(v, mask')
  {
    BitsOfFullMask(w, i);
    BitAnd(mask', Pow2(w) - 1, i);
    if i >= w {
      HighBitsClear(mask, w, i);
    }
    ToggleWithin(v, i, w);
    ToggleUnder(v, i, mask);
    ToggleUnder(v, i, mask');
  }

  lemma ToggleWithin(v: nat, i: nat, w: nat)
    requires v < Pow2(w) && i < w
    ensures Toggle(v, i) < Pow2(w)
  {
    forall j: nat | j >= w ensures !Bit(Toggle(v, i), j) {
      BitToggle(v, i, j);
      HighBitsClear(v, w, j);
    }
    BoundFromBits(Toggle(v, i), w);
  }

  lemma ToggleUnder(v: nat, i: nat, mask: int)
    ensures And(Toggle(v, i), mask) == And(v, mask) <==> !Bit(mask, i)
  {
    BitAnd(Toggle(v, i), mask, i);
    BitAnd(v, mask, i);
    BitToggle(v, i, i);
    if !Bit(mask, i) {
      forall j: nat ensures Bit(And(Toggle(v, i), mask), j) == Bit(And(v, mask), j) {
        BitAnd(Toggle(v, i), mask, j);
        BitAnd(v, mask, j);
        BitToggle(v, i, j);
      }
      SameBits(And(Toggle(v, i), mask), And(v, mask));
    }
  }

  /** A mask matches all keys only if it has no bits within the width. */
  lemma AllKeys(w: nat, mask: int, v: int)
    ensures (forall k | 0 <= k < Pow2(w) :: Under(k, mask, v)) <==> And(mask, Pow2(w) - 1) == 0 && v == 0
  {
    Pow2Positive(w);
    SameMaskedKeys(w, 0, 0, mask, v);
    forall k: int ensures Under(k, 0, 0) {
      assert And(k, 0) == 0;
    }
    assert SameKeys(w, 0, 0, mask, v) <==> forall k | 0 <= k < Pow2(w) :: Under(k, mask, v);
  }
}
