/** `P4RuntimeEntriesConverter`: turns the `const entries` of a table into messages. */
module EntriesConverter {
  import opened BigInt
  import opened Bytestrings
  import opened MatchMeaning
  import opened Wrappers
  import MaskSets

  /** A `TableEntry` message; a priority of 0 is an unset one. */
  datatype TableEntry = TableEntry(tableId: nat, matches: seq<FieldMatch>, priority: nat)

  /** Numbers have to fit the field when they are written (control-plane/bytestrings.cpp:36-37). Type checking
      sees to that as long as no cast changes the number. */
  ghost predicate Fits(e: Expr, w: nat) {
    Value(e).Some? ==> Value(e).value < Pow2(w)
  }

  /** A member that is written has to be of an enum as wide as the field. */
  ghost predicate EnumFits(e: Expr, w: nat) {
    EnumWidth(e).Some? ==> EnumWidth(e).value == w
  }

  /** The bits of a number that has been cast fit the field: it has been cast to the type of the field. */
  ghost predicate CastFits(e: Expr, w: nat) {
    Meant(e) == Value(e) || (Meant(e).Some? ==> 0 <= Meant(e).value < Pow2(w))
  }

  /** Expressions for which a number is written: that takes a width. String-like keys have none. */
  ghost predicate NeedsWidth(kind: MatchKind, e: Expr) {
    match kind
    case Ternary =>
      !e.Default? && (e.Mask? ==> Value(e.left).Some? && Value(e.right).Some? && Value(e.right) != Some(0))
    case RangeKind =>
      if e.Range? then Value(e.left).Some? && Value(e.right).Some? && !(Value(e.left) == Value(e.right) == Some(0)) else IsSimple(e)
    case Unsupported => false
    case _ => IsSimple(e)
  }

  /** What is taken for granted of a key expression of the given kind: the converter stops with a bug if not, or, for
      the type that a bound has been cast to, the type checker with an error. */
  ghost predicate Typed(kind: MatchKind, e: Expr, w: nat) {
    && (NeedsWidth(kind, e) ==> w > 0)
    && match e
       case Mask(l, r) =>
         (match kind
          case Lpm =>
            && r.Constant? && r.n >= 0
            && (Value(l).Some? ==> And(Value(l).value, r.n) < Pow2(w))
          case Ternary =>
            && Fits(r, w)
            && (Value(l).Some? && Value(r).Some? ==> And(Value(l).value, Value(r).value) < Pow2(w))
          case _ => true)
       case Range(l, r) => kind == RangeKind ==> Fits(l, w) && Fits(r, w) && CastFits(l, w) && CastFits(r, w)
       case _ => kind != Unsupported ==> Fits(e, w) && EnumFits(e, w)
  }

  ghost predicate IsSimple(e: Expr) {
    Value(e).Some? && Value(e).value >= 0
  }

  /** The key expressions for which a match is written, or none for a don't care. */
  ghost predicate Translatable(kind: MatchKind, e: Expr, w: nat) {
    match kind
    case Exact => IsSimple(e)
    case Lpm =>
      e.Default? || if e.Mask? then Value(e.left).Some? && e.right.Constant? &&
                      (e.right.n == 0 || (e.right.n > 0 && IsPrefixCount(e.right.n, w))) else IsSimple(e)
    case Ternary =>
      e.Default? || if e.Mask? then Value(e.left).Some? && IsSimple(e.right) else IsSimple(e)
    case RangeKind =>
      e.Default? || if e.Range? then Value(e.right).Some? && IsSimple(e.left) && Value(e.left).value <= Value(e.right).value else IsSimple(e)
    case Optional => e.Default? || IsSimple(e)
    case Unsupported => e.Default?
  }

  /** One of the values is not found, and nothing is reported of the other. */
  ghost predicate SilentPair(l: Expr, r: Expr) {
    (Silent(l) && (Silent(r) || Value(r).Some?)) || (Silent(r) && Value(l).Some?)
  }

  /** The key expressions that are given up without an error. */
  ghost predicate GivenUp(kind: MatchKind, e: Expr) {
    match kind
    case Lpm => if e.Mask? then Silent(e.left) else Silent(e)
    case Ternary => if e.Mask? then SilentPair(e.left, e.right) else Silent(e)
    case RangeKind => if e.Range? then SilentPair(e.left, e.right) else Silent(e)
    case Unsupported => false
    case _ => Silent(e)
  }

  /** No error is reported. */
  ghost predicate Accepted(kind: MatchKind, e: Expr, w: nat) {
    Translatable(kind, e, w) || GivenUp(kind, e)
  }

  ghost predicate MatchesAll(e: Expr, w: nat) {
    forall k | 0 <= k < Pow2(w) :: Matches(e, k)
  }

  /** The mask is what it means within the width, and so is the value under it. */
  ghost predicate MaskKept(l: Expr, r: Expr, w: nat) {
    && Meant(l).Some? && Meant(r).Some? && Value(l).Some? && Value(r).Some?
    && And(Meant(r).value, Pow2(w) - 1) == Value(r).value
    && And(Meant(l).value, Meant(r).value) == And(Value(l).value, Value(r).value)
  }

  /** What is written means what the expression means: no cast has changed a single value or a bound, what a mask
      keeps of a value, or the mask, which is within the width; and what is given up is left out and matches
      everything. */
  ghost predicate KeepsMeaning(kind: MatchKind, e: Expr, w: nat) {
    if GivenUp(kind, e) then kind != Exact && kind != Optional && MatchesAll(e, w)
    else
      match e
      case Mask(l, r) => kind == Lpm || kind == Ternary ==> MaskKept(l, r, w)
      case Range(l, r) => kind == RangeKind ==> Meant(l) == Value(l) && Meant(r) == Value(r)
      case _ => Meant(e) == Value(e)
  }

  /** A single value that is given up matches everything only if there is just the value 0. */
  lemma SilentValue(e: Expr, w: nat)
    requires Silent(e)
    ensures MatchesAll(e, w) <==> w == 0 && Meant(e) == Some(0)
  {
    if w > 0 {
      Pow2Positive(w - 1);
      assert !Matches(e, 0) || !Matches(e, 1);
    } else {
      assert Matches(e, 0) <==> Meant(e) == Some(0);
    }
  }

  /** A mask matches everything only if it is 0 within the width. */
  lemma SilentMask(e: Expr, w: nat)
    requires e.Mask? && Meant(e.left).Some? && Meant(e.right).Some?
    ensures MatchesAll(e, w) <==> And(Meant(e.right).value, Pow2(w) - 1) == 0 && And(Meant(e.left).value, Meant(e.right).value) == 0
  {
    var v, mask := Meant(e.left).value, Meant(e.right).value;
    MaskSets.AllKeys(w, mask, And(v, mask));
    assert forall k :: Matches(e, k) <==> MaskSets.Under(k, mask, And(v, mask));
  }

  /** A range does only if it is the whole range. */
  lemma SilentRange(e: Expr, w: nat)
    requires e.Range? && Meant(e.left).Some? && Meant(e.right).Some?
    ensures MatchesAll(e, w) <==> Meant(e.left).value <= 0 && Meant(e.right).value >= Pow2(w) - 1
  {
    Pow2Positive(w);
    if MatchesAll(e, w) {
      assert Matches(e, 0) && Matches(e, Pow2(w) - 1);
    }
  }

  lemma ExactLowered(fieldId: nat, v: nat, bs: seq<byte>, w: nat, e: Expr, m: MatchSpec)
    requires v < Pow2(w) && Value(e) == Some(v) && bs != [] && Decode(bs) == v
    requires m == ExactMatch(bs) || m == OptionalMatch(bs)
    ensures Lowered([FieldMatch(fieldId, m)], fieldId, w, e) <==> Meant(e) == Value(e)
  {
    SingleValueLowered(FieldMatch(fieldId, m), w, e);
  }

  /** A canonical match of exactly the value found keeps the meaning exactly if that is the value meant. */
  lemma SingleValueLowered(m: FieldMatch, w: nat, e: Expr)
    requires IsSimple(e) && Value(e).value < Pow2(w) && Canonical(m.spec, w)
    requires forall k | 0 <= k < Pow2(w) :: FieldHolds(m.spec, w, k) <==> k == Value(e).value
    ensures Lowered([m], m.fieldId, w, e) <==> Meant(e) == Value(e)
  {
    forall k | 0 <= k < Pow2(w) ensures SameMeaning([m], w, e, k) <==> (Meant(e) == Some(k) <==> k == Value(e).value) {
      OneMatch(m, w, e, k);
    }
    assert SameMeaning([m], w, e, Value(e).value) <==> Meant(e) == Value(e);
  }

  /** With a single match the entry holds if that match does. */
  lemma OneMatch(m: FieldMatch, w: nat, e: Expr, k: int)
    ensures SameMeaning([m], w, e, k) <==> (Matches(e, k) <==> FieldHolds(m.spec, w, k))
  {
    assert forall x | x in [m] :: x == m;
    assert m in [m];
  }

  lemma SimpleLpmLowered(fieldId: nat, bs: seq<byte>, w: nat, e: Expr)
    requires w > 0 && IsSimple(e) && Value(e).value < Pow2(w) && Decode(bs) == Value(e).value
    ensures Lowered([FieldMatch(fieldId, LpmMatch(bs, w))], fieldId, w, e) <==> Meant(e) == Value(e)
  {
    SingleValueLowered(FieldMatch(fieldId, LpmMatch(bs, w)), w, e);
  }

  lemma SimpleTernaryLowered(fieldId: nat, bs: seq<byte>, mask: seq<byte>, w: nat, e: Expr)
    requires w > 0 && IsSimple(e) && Value(e).value < Pow2(w) && Decode(bs) == Value(e).value
    requires Decode(mask) == Pow2(w) - 1
    ensures Lowered([FieldMatch(fieldId, TernaryMatch(bs, mask))], fieldId, w, e) <==> Meant(e) == Value(e)
  {
    Pow2Positive(w - 1);
    FullMask(Decode(bs), w);
    forall k | 0 <= k < Pow2(w) ensures FieldHolds(TernaryMatch(bs, mask), w, k) <==> k == Value(e).value {
      FullMask(k, w);
    }
    SingleValueLowered(FieldMatch(fieldId, TernaryMatch(bs, mask)), w, e);
  }

  lemma SimpleRangeLowered(fieldId: nat, bs: seq<byte>, w: nat, e: Expr)
    requires w > 0 && IsSimple(e) && Value(e).value < Pow2(w) && Decode(bs) == Value(e).value
    ensures Lowered([FieldMatch(fieldId, RangeMatch(bs, bs))], fieldId, w, e) <==> Meant(e) == Value(e)
  {
    Pow2Positive(w - 1);
    SingleValueLowered(FieldMatch(fieldId, RangeMatch(bs, bs)), w, e);
  }

  lemma PartsSimple(e: Expr)
    ensures e.Mask? || e.Range? ==> forall x | x == e.left || x == e.right ::
      && (Meant(x).Some? <==> Value(x).Some? || Silent(x)) && !(Value(x).Some? && Silent(x))
  {
    if e.Mask? || e.Range? {
      SimpleExpr(e.left);
      SimpleExpr(e.right);
    }
  }

  /** Nothing written matches everything. */
  lemma NothingLowered(fieldId: nat, w: nat, e: Expr)
    ensures Lowered([], fieldId, w, e) <==> MatchesAll(e, w)
  {
    assert forall k :: SameMeaning([], w, e, k) <==> Matches(e, k);
  }

  lemma DontCareLowered(fieldId: nat, w: nat, e: Expr)
    requires e.Default?
    ensures Lowered([], fieldId, w, e)
  {
    NothingLowered(fieldId, w, e);
  }

  /** A mask of 0 is left out, which is right exactly if it means nothing else. */
  lemma ZeroMaskLowered(fieldId: nat, w: nat, e: Expr)
    requires e.Mask? && Value(e.left).Some? && Value(e.right) == Some(0)
    ensures Lowered([], fieldId, w, e) <==> MaskKept(e.left, e.right, w)
  {
    NothingLowered(fieldId, w, e);
    SimpleExpr(e.left);
    SimpleExpr(e.right);
    SilentMask(e, w);
    assert And(Value(e.left).value, 0) == 0;
  }

  /** So is the whole range. */
  lemma WholeRangeLowered(fieldId: nat, w: nat, e: Expr)
    requires e.Range? && Value(e.left) == Some(0) && Value(e.right) == Some(Pow2(w) - 1)
    requires CastFits(e.left, w) && CastFits(e.right, w)
    ensures Lowered([], fieldId, w, e) <==> Meant(e.left) == Value(e.left) && Meant(e.right) == Value(e.right)
  {
    NothingLowered(fieldId, w, e);
    SimpleExpr(e.left);
    SimpleExpr(e.right);
    SilentRange(e, w);
  }

  /** The message for an LPM mask keeps the meaning exactly if the mask is within the width and no cast has
      changed what it keeps of the value. */
  lemma LpmMaskLowered(fieldId: nat, bs: seq<byte>, w: nat, e: Expr)
    requires e.Mask? && Value(e.left).Some? && e.right.Constant? && e.right.n > 0 && IsPrefixCount(e.right.n, w)
    requires Decode(bs) == And(Value(e.left).value, e.right.n) < Pow2(w)
    ensures Lowered([FieldMatch(fieldId, LpmMatch(bs, w - Lsb(e.right.n)))], fieldId, w, e) <==> MaskKept(e.left, e.right, w)
  {
    var mask, v, m := e.right.n, Decode(bs), FieldMatch(fieldId, LpmMatch(bs, w - Lsb(e.right.n)));
    SimpleExpr(e.left);
    MaskTwice(Value(e.left).value, mask);
    if mask < Pow2(w) {
      NarrowLpmMaskLowered(fieldId, bs, w, e);
    } else {
      Pow2Positive(w);
      AndBound(mask, Pow2(w) - 1, w);
      var k := WideMaskIsNoPrefix(v, mask, w);
      OneMatch(m, w, e, k);
      OneMatch(m, w, e, v);
      assert Matches(e, k) <==> Matches(e, v);
      assert !SameMeaning([m], w, e, k) || !SameMeaning([m], w, e, v);
    }
  }

  /** If the mask is within the width, that is the case if the value and the value meant agree under it. */
  lemma LpmMaskWithinWidth(fieldId: nat, bs: seq<byte>, w: nat, e: Expr)
    requires e.Mask? && Value(e.left).Some? && Meant(e.left) == Value(e.left)
    requires e.right.Constant? && e.right.n > 0 && IsPrefixCount(e.right.n, w)
    requires Decode(bs) == And(Value(e.left).value, e.right.n) < Pow2(w)
    ensures Lowered([FieldMatch(fieldId, LpmMatch(bs, w - Lsb(e.right.n)))], fieldId, w, e) <==> e.right.n < Pow2(w)
  {
    LpmMaskLowered(fieldId, bs, w, e);
    Pow2Positive(w);
    AndBound(e.right.n, Pow2(w) - 1, w);
    if e.right.n < Pow2(w) {
      FullMask(e.right.n, w);
    }
  }

  /** `(bit<8>)(bit<4>)(bit<8>)E.A`, where `E.A` is 31 in 8 bits: it means 15 and is written as 31. */
  function Lossy(): Expr {
    Cast(Bits(8, false), Cast(Bits(4, false), Cast(Bits(8, false), EnumMember(31, 8))))
  }

  lemma LossyCast()
    ensures Typed(Exact, Lossy(), 8) && Accepted(Exact, Lossy(), 8) && !KeepsMeaning(Exact, Lossy(), 8)
    ensures Value(Lossy()) == Some(31) && Meant(Lossy()) == Some(15)
    ensures Matches(Lossy(), 15) && !Matches(Lossy(), 31) && !Lowered([FieldMatch(1, ExactMatch([31]))], 1, 8, Lossy())
  {
    Power8();
    LossyValue();
    var bs: seq<byte> := [31];
    assert bs[..0] == [] && Decode(bs) == 31;
    ExactLowered(1, 31, bs, 8, Lossy(), ExactMatch(bs));
  }

  lemma LossyValue()
    ensures Value(Lossy()) == Some(31) && Meant(Lossy()) == Some(15) && EnumFits(Lossy(), 8)
  {
    Power8();
    assert Wrap(31, Bits(8, false)) == 31;
    assert Wrap(31, Bits(4, false)) == 15;
  }

  lemma Power8()
    ensures Pow2(8) == 256 && Pow2(4) == 16
  {
    assert Pow2(4) == 16;
  }

  /** Under a mask of the lowest bits it keeps its meaning, and under one of the bits that are lost it does not. */
  lemma LossyCastMasked()
    ensures Typed(Ternary, Mask(Lossy(), Constant(15)), 8) && KeepsMeaning(Ternary, Mask(Lossy(), Constant(15)), 8)
    ensures Typed(Ternary, Mask(Lossy(), Constant(16)), 8) && !KeepsMeaning(Ternary, Mask(Lossy(), Constant(16)), 8)
  {
    LossyCast();
    Power8();
    Bits31();
    KeptUnder(Lossy(), 31, 15, 15, 8);
    KeptUnder(Lossy(), 31, 15, 16, 8);
  }

  /** Under a constant mask within the width it matters only what the mask keeps. */
  lemma KeptUnder(l: Expr, value: int, meant: int, mask: nat, w: nat)
    requires Value(l) == Some(value) && Meant(l) == Some(meant) && 0 < w && mask < Pow2(w)
    ensures Typed(Ternary, Mask(l, Constant(mask)), w)
    ensures KeepsMeaning(Ternary, Mask(l, Constant(mask)), w) <==> And(meant, mask) == And(value, mask)
  {
    SimpleExpr(l);
    FullMask(mask, w);
    AndBound(value, mask, w);
    var r := Constant(mask);
    assert MaskKept(l, r, w) <==> And(meant, mask) == And(value, mask);
    assert KeepsMeaning(Ternary, Mask(l, r), w) <==> MaskKept(l, r, w);
  }

  lemma Bits31()
    ensures And(31, 15) == 15 && And(15, 15) == 15 && And(31, 16) == 16 && And(15, 16) == 0
  {
    AndSelf(15);
    assert And(7, 7) == 7;
    assert And(15, 7) == 7;
    assert And(7, 8) == 0;
    assert And(15, 8) == 8;
  }

  /** `(bit<8>)(int<8>)(int<4>)(bit<4>)(bit<8>)E.B`, where `E.B` is 15: the sign is extended, so it means 255. */
  lemma SignExtended()
    ensures var e := Cast(Bits(8, false), Cast(Bits(8, true), Cast(Bits(4, true), Cast(Bits(4, false), Cast(Bits(8, false), EnumMember(15, 8))))));
            Typed(Exact, e, 8) && Accepted(Exact, e, 8) && Meant(e) == Some(255) && Value(e) == Some(15)
  {
    Power8();
  }

  /** `0 &&& 22` on 4 bits passes the test, as 22 has three ones and ends in one zero; it matches 8, which
      has no prefix of three zeros. */
  lemma WideLpmMask()
    ensures var e, m := Mask(Constant(0), Constant(22)), LpmMatch([0], 3);
            && Typed(Lpm, e, 4) && Translatable(Lpm, e, 4) && !KeepsMeaning(Lpm, e, 4)
            && Matches(e, 8) && !FieldHolds(m, 4, 8) && !Lowered([FieldMatch(1, m)], 1, 4, e)
  {
    var e := Mask(Constant(0), Constant(22));
    Bits22();
    assert IsPrefixCount(22, 4);
    LpmMaskLowered(1, [0], 4, e);
    AndBound(22, 15, 4);
  }

  lemma Bits22()
    ensures Lsb(22) == 1 && PopCount(22) == 3 && Pow2(4) == 16
    ensures And(0, 22) == 0 && And(8, 22) == 0 && Decode([0]) == 0
    ensures ShiftRight(8, 1) == 4 && ShiftRight(0, 1) == 0
  {
    assert PopCount(5) == 2;
    assert PopCount(11) == 3;
    assert And(2, 5) == 0;
    assert And(4, 11) == 0;
  }

  lemma NarrowLpmMaskLowered(fieldId: nat, bs: seq<byte>, w: nat, e: Expr)
    requires e.Mask? && Value(e.left).Some? && e.right.Constant? && 0 < e.right.n < Pow2(w) && IsPrefixCount(e.right.n, w)
    requires Decode(bs) == And(Value(e.left).value, e.right.n) < Pow2(w)
    ensures Lowered([FieldMatch(fieldId, LpmMatch(bs, w - Lsb(e.right.n)))], fieldId, w, e) <==> MaskKept(e.left, e.right, w)
  {
    var mask, v, m := e.right.n, Decode(bs), FieldMatch(fieldId, LpmMatch(bs, w - Lsb(e.right.n)));
    MaskTwice(Value(e.left).value, mask);
    PrefixBits(mask, w, 0);
    forall i | 0 <= i < Lsb(mask) ensures !Bit(v, i) {
      BitAnd(v, mask, i);
      BitLsb(mask, i);
    }
    forall k | 0 <= k < Pow2(w) ensures FieldHolds(m.spec, w, k) <==> And(k, mask) == v {
      PrefixAgree(k, v, mask, w);
    }
    MaskedLowered(m, mask, v, w, e);
  }

  /** A canonical match of the keys with value `v` under the mask found keeps the meaning exactly if the mask
      and the value under it are those meant. */
  lemma MaskedLowered(m: FieldMatch, mask: nat, v: nat, w: nat, e: Expr)
    requires e.Mask? && Value(e.left).Some? && Value(e.right) == Some(mask) && 0 < mask < Pow2(w)
    requires v == And(Value(e.left).value, mask) < Pow2(w) && Canonical(m.spec, w)
    requires forall k | 0 <= k < Pow2(w) :: FieldHolds(m.spec, w, k) <==> And(k, mask) == v
    ensures Lowered([m], m.fieldId, w, e) <==> MaskKept(e.left, e.right, w)
  {
    SimpleExpr(e.left);
    SimpleExpr(e.right);
    MaskTwice(Value(e.left).value, mask);
    var mask', v' := Meant(e.right).value, And(Meant(e.left).value, Meant(e.right).value);
    forall k | 0 <= k < Pow2(w)
      ensures SameMeaning([m], w, e, k) <==> (MaskSets.Under(k, mask, v) <==> MaskSets.Under(k, mask', v'))
    {
      OneMatch(m, w, e, k);
    }
    MaskSets.SameMaskedKeys(w, mask, v, mask', v');
    assert (forall k | 0 <= k < Pow2(w) :: SameMeaning([m], w, e, k)) <==> MaskSets.SameKeys(w, mask, v, mask', v');
  }

  lemma TernaryMaskLowered(fieldId: nat, bs: seq<byte>, mask: seq<byte>, w: nat, e: Expr)
    requires e.Mask? && Value(e.left).Some? && IsSimple(e.right) && 0 < Value(e.right).value < Pow2(w)
    requires Decode(bs) == And(Value(e.left).value, Value(e.right).value) && Decode(mask) == Value(e.right).value
    ensures Lowered([FieldMatch(fieldId, TernaryMatch(bs, mask))], fieldId, w, e) <==> MaskKept(e.left, e.right, w)
  {
    AndBound(Value(e.left).value, Value(e.right).value, w);
    MaskTwice(Value(e.left).value, Value(e.right).value);
    MaskedLowered(FieldMatch(fieldId, TernaryMatch(bs, mask)), Decode(mask), Decode(bs), w, e);
  }

  lemma RangeLowered(fieldId: nat, low: seq<byte>, high: seq<byte>, w: nat, e: Expr)
    requires e.Range? && Value(e.left) == Some(Decode(low)) && Value(e.right) == Some(Decode(high))
    requires Decode(low) <= Decode(high) < Pow2(w) && !(Decode(low) == 0 && Decode(high) == Pow2(w) - 1)
    requires CastFits(e.left, w) && CastFits(e.right, w)
    ensures Lowered([FieldMatch(fieldId, RangeMatch(low, high))], fieldId, w, e) <==>
      Meant(e.left) == Value(e.left) && Meant(e.right) == Value(e.right)
  {
    SimpleExpr(e.left);
    SimpleExpr(e.right);
    var m, l, r := FieldMatch(fieldId, RangeMatch(low, high)), Meant(e.left).value, Meant(e.right).value;
    forall k | 0 <= k < Pow2(w) ensures SameMeaning([m], w, e, k) <==> (l <= k <= r <==> Decode(low) <= k <= Decode(high)) {
      OneMatch(m, w, e, k);
    }
    assert SameMeaning([m], w, e, Decode(low)) && SameMeaning([m], w, e, Decode(high)) ==> l <= Decode(low) && Decode(high) <= r;
    assert l <= Decode(high) && Decode(low) <= r ==>
      (SameMeaning([m], w, e, l) && l < Decode(low) ==> false) && (SameMeaning([m], w, e, r) && r > Decode(high) ==> false);
  }

  /** Matches are added to the last entry, the one being built. */
  ghost function Extended(updates: seq<TableEntry>, ms: seq<FieldMatch>): (r: seq<TableEntry>)
    requires updates != []
    ensures ms == [] ==> r == updates
  {
    var last := |updates| - 1;
    assert updates[last].matches + [] == updates[last].matches;
    updates[last := updates[last].(matches := updates[last].matches + ms)]
  }

  class Converter {
    var updates: seq<TableEntry>
    var errors: nat

    constructor ()
      ensures updates == [] && errors == 0
    {
      updates, errors := [], 0;
    }

    /** What each of the translations of one key expression does. */
    twostate predicate Translated(kind: MatchKind, fieldId: nat, e: Expr, w: nat, ms: seq<FieldMatch>)
      reads this
    {
      && old(updates) != [] && updates == Extended(old(updates), ms)
      && errors >= old(errors) && AllOfKind(ms, kind)
      && (errors == old(errors) <==> Accepted(kind, e, w))
      && (errors == old(errors) ==> (Lowered(ms, fieldId, w, e) <==> KeepsMeaning(kind, e, w)))
    }

    method AddMatch(m: FieldMatch)
      requires updates != []
      modifies this`updates
      ensures updates == Extended(old(updates), [m])
    {
      var last := |updates| - 1;
      updates := updates[last := updates[last].(matches := updates[last].matches + [m])];
    }

    method ConvertSimpleKeyExpression(e: Expr, w: nat) returns (r: Option<seq<byte>>)
      requires (IsSimple(e) ==> w > 0) && Fits(e, w) && EnumFits(e, w)
      modifies this`errors
      ensures r.Some? <==> IsSimple(e)
      ensures r.Some? ==> r.value != [] && Decode(r.value) == Value(e).value
      ensures errors == if r.Some? || Silent(e) then old(errors) else old(errors) + 1
      decreases e
    {
      match e {
        case Constant(n) => r := StringReprConstant(n, w);
        case BoolLiteral(b) => r := StringReprConstant(if b then 1 else 0, w);
        case EnumMember(n, _) => r := StringReprConstant(n, w);
        case Cast(_, x) =>
          r := ConvertSimpleKeyExpression(x, w);
          return;
        case Unresolved(_) => return None;
        case _ => r := None;
      }
      if r == None {
        errors := errors + 1;
      }
    }

    method SimpleKeyExpressionValue(e: Expr) returns (r: Option<int>)
      modifies this`errors
      ensures r == Value(e)
      ensures errors == if r.Some? || Silent(e) then old(errors) else old(errors) + 1
      decreases e
    {
      match e {
        case Constant(n) => r := Some(n);
        case BoolLiteral(b) => r := Some(if b then 1 else 0);
        case EnumMember(n, _) => r := Some(n);
        case Unresolved(_) => r := None;
        case Cast(_, x) => r := SimpleKeyExpressionValue(x);
        case _ =>
          errors := errors + 1;
          r := None;
      }
    }

    /** `stringReprConstant`, which reports negative values. */
    method Repr(value: int, w: nat) returns (r: Option<seq<byte>>)
      requires (value >= 0 ==> w > 0) && value < Pow2(w)
      modifies this`errors
      ensures r.Some? <==> value >= 0
      ensures r.Some? ==> Decode(r.value) == value
      ensures errors == if r.Some? then old(errors) else old(errors) + 1
    {
      r := StringReprConstant(value, w);
      if r == None {
        errors := errors + 1;
      }
    }

    method AddExact(fieldId: nat, e: Expr, w: nat) returns (ghost ms: seq<FieldMatch>)
      requires updates != [] && Typed(Exact, e, w)
      modifies this
      ensures Translated(Exact, fieldId, e, w, ms)
    {
      SimpleExpr(e);
      var value := ConvertSimpleKeyExpression(e, w);
      var spec := ExactMatch(if value.Some? then value.value else []);
      AddMatch(FieldMatch(fieldId, spec));
      ms := [FieldMatch(fieldId, spec)];
      if value.Some? {
        ExactLowered(fieldId, Value(e).value, value.value, w, e, spec);
      }
    }

    method AddLpm(fieldId: nat, e: Expr, w: nat) returns (ghost ms: seq<FieldMatch>)
      requires updates != [] && Typed(Lpm, e, w)
      modifies this
      ensures Translated(Lpm, fieldId, e, w, ms)
    {
      SimpleExpr(e);
      ms := [];
      NothingLowered(fieldId, w, e);
      if e.Default? {
        DontCareLowered(fieldId, w, e);
        return;
      }
      var prefixLen: int;
      var valueStr: Option<seq<byte>>;
      if e.Mask? {
        SimpleExpr(e.left);
        SimpleExpr(e.right);
        var value := SimpleKeyExpressionValue(e.left);
        if value == None {
          return;
        }
        var mask := e.right.n;
        var len := if mask == 0 then w else Lsb(mask);
        var ones := BitCount(mask);
        if len + ones != w {
          errors := errors + 1;
          return;
        }
        var masked := if And(value.value, mask) != value.value then And(value.value, mask) else value.value;
        if mask == 0 {
          ZeroMaskLowered(fieldId, w, e);
          return;
        }
        prefixLen := w - len;
        AndNonNegative(value.value, mask);
        valueStr := Repr(masked, w);
        LpmMaskLowered(fieldId, valueStr.value, w, e);
      } else {
        prefixLen := w;
        valueStr := ConvertSimpleKeyExpression(e, w);
      }
      if valueStr == None {
        return;
      }
      if !e.Mask? {
        SimpleLpmLowered(fieldId, valueStr.value, w, e);
      }
      AddMatch(FieldMatch(fieldId, LpmMatch(valueStr.value, prefixLen)));
      ms := [FieldMatch(fieldId, LpmMatch(valueStr.value, prefixLen))];
    }

    method AddTernary(fieldId: nat, e: Expr, w: nat) returns (ghost ms: seq<FieldMatch>)
      requires updates != [] && Typed(Ternary, e, w)
      modifies this
      ensures Translated(Ternary, fieldId, e, w, ms)
    {
      SimpleExpr(e);
      PartsSimple(e);
      ms := [];
      NothingLowered(fieldId, w, e);
      if e.Default? {
        DontCareLowered(fieldId, w, e);
        return;
      }
      Pow2Positive(w);
      var valueStr, maskStr: Option<seq<byte>>;
      if e.Mask? {
        var value := SimpleKeyExpressionValue(e.left);
        var mask := SimpleKeyExpressionValue(e.right);
        if value == None || mask == None {
          return;
        }
        var masked := if And(value.value, mask.value) != value.value then And(value.value, mask.value) else value.value;
        AndNonNegative(value.value, mask.value);
        if mask.value >= 0 {
          AndBound(value.value, mask.value, w);
        }
        if mask.value == 0 {
          ZeroMaskLowered(fieldId, w, e);
          return;
        }
        valueStr := Repr(masked, w);
        maskStr := Repr(mask.value, w);
      } else {
        valueStr := ConvertSimpleKeyExpression(e, w);
        maskStr := Repr(Pow2(w) - 1, w);
      }
      if valueStr == None || maskStr == None {
        return;
      }
      if e.Mask? {
        TernaryMaskLowered(fieldId, valueStr.value, maskStr.value, w, e);
      } else {
        SimpleTernaryLowered(fieldId, valueStr.value, maskStr.value, w, e);
      }
      AddMatch(FieldMatch(fieldId, TernaryMatch(valueStr.value, maskStr.value)));
      ms := [FieldMatch(fieldId, TernaryMatch(valueStr.value, maskStr.value))];
    }

    method AddRange(fieldId: nat, e: Expr, w: nat) returns (ghost ms: seq<FieldMatch>)
      requires updates != [] && Typed(RangeKind, e, w)
      modifies this
      ensures Translated(RangeKind, fieldId, e, w, ms)
    {
      SimpleExpr(e);
      PartsSimple(e);
      ms := [];
      NothingLowered(fieldId, w, e);
      if e.Default? {
        DontCareLowered(fieldId, w, e);
        return;
      }
      var startStr, endStr: Option<seq<byte>>;
      if e.Range? {
        var start := SimpleKeyExpressionValue(e.left);
        var end := SimpleKeyExpressionValue(e.right);
        if start == None || end == None {
          return;
        }
        var maxValue := Pow2(w) - 1;
        if start.value > end.value {
          errors := errors + 1;
        }
        if start.value == 0 && end.value == maxValue {
          Pow2Positive(w);
          WholeRangeLowered(fieldId, w, e);
          return;
        }
        startStr := Repr(start.value, w);
        endStr := Repr(end.value, w);
      } else {
        startStr := ConvertSimpleKeyExpression(e, w);
        endStr := startStr;
      }
      if startStr == None || endStr == None {
        return;
      }
      if !e.Range? {
        SimpleRangeLowered(fieldId, startStr.value, w, e);
      } else if Value(e.left).value <= Value(e.right).value {
        RangeLowered(fieldId, startStr.value, endStr.value, w, e);
      }
      AddMatch(FieldMatch(fieldId, RangeMatch(startStr.value, endStr.value)));
      ms := [FieldMatch(fieldId, RangeMatch(startStr.value, endStr.value))];
    }

    method AddOptional(fieldId: nat, e: Expr, w: nat) returns (ghost ms: seq<FieldMatch>)
      requires updates != [] && Typed(Optional, e, w)
      modifies this
      ensures Translated(Optional, fieldId, e, w, ms)
    {
      ms := [];
      if e.Default? {
        DontCareLowered(fieldId, w, e);
        return;
      }
      SimpleExpr(e);
      var value := ConvertSimpleKeyExpression(e, w);
      var spec := OptionalMatch(if value.Some? then value.value else []);
      AddMatch(FieldMatch(fieldId, spec));
      ms := [FieldMatch(fieldId, spec)];
      if value.Some? {
        ExactLowered(fieldId, Value(e).value, value.value, w, e, spec);
      }
    }

    /** Appends the match for one key field, by its match kind. */
    method AddKeyField(kind: MatchKind, fieldId: nat, k: Expr, w: nat) returns (ghost ms: seq<FieldMatch>)
      requires updates != [] && Typed(kind, k, w)
      modifies this
      ensures Translated(kind, fieldId, k, w, ms)
    {
      match kind {
        case Exact => ms := AddExact(fieldId, k, w);
        case Lpm => ms := AddLpm(fieldId, k, w);
        case Ternary => ms := AddTernary(fieldId, k, w);
        case RangeKind => ms := AddRange(fieldId, k, w);
        case Optional => ms := AddOptional(fieldId, k, w);
        case Unsupported =>
          ms := [];
          if !k.Default? {
            errors := errors + 1;
          } else {
            DontCareLowered(fieldId, w, k);
          }
      }
    }

    /** Appends the matches for the key of one entry. */
    method AddMatchKey(keys: seq<KeyElement>, exprs: seq<Expr>) returns (ghost ms: seq<FieldMatch>)
      requires updates != [] && |exprs| == |keys| && AllTyped(keys, exprs)
      modifies this
      ensures updates == Extended(old(updates), ms) && errors >= old(errors)
      ensures errors == old(errors) <==> AllAccepted(keys, exprs, |keys|)
      ensures errors == old(errors) && AllKept(keys, exprs) ==> Emits(ms, keys, exprs, |keys|)
    {
      ms := [];
      var keyIndex, fieldId: nat := 0, 1;
      while keyIndex < |exprs|
        invariant keyIndex <= |exprs| && fieldId == SupportedIn(keys, keyIndex) + 1
        invariant updates == Extended(old(updates), ms) && errors >= old(errors)
        invariant errors == old(errors) <==> AllAccepted(keys, exprs, keyIndex)
        invariant errors == old(errors) && AllKept(keys, exprs) ==> Emits(ms, keys, exprs, keyIndex)
      {
        var k, key := exprs[keyIndex], keys[keyIndex];
        ghost var more := AddKeyField(key.kind, fieldId, k, key.width);
        if errors == old(errors) && AllKept(keys, exprs) {
          EmitsNext(ms, more, keys, exprs, keyIndex);
        }
        ExtendedTwice(old(updates), ms, more);
        ms := ms + more;
        if !key.kind.Unsupported? {
          fieldId := fieldId + 1;
        }
        keyIndex := keyIndex + 1;
      }
    }

    method TableNeedsPriority(keys: seq<KeyElement>) returns (r: bool)
      ensures r <==> NeedsPriority(keys)
    {
      for i := 0 to |keys|
        invariant forall j | 0 <= j < i :: !AsksForPriority(keys[j].kind)
      {
        var matchType := keys[i].kind;
        if matchType == Ternary || matchType == RangeKind || matchType == Optional {
          return true;
        }
      }
      r := false;
    }

    /** Appends one message per entry, the first with the highest priority if priorities are needed. */
    method AddTableEntries(tableId: nat, keys: seq<KeyElement>, entries: seq<seq<Expr>>) returns (ghost emitted: seq<TableEntry>)
      requires forall e | e in entries :: |e| == |keys| && AllTyped(keys, e)
      modifies this
      ensures updates == old(updates) + emitted && errors >= old(errors)
      ensures InProgramOrder(emitted, tableId, NeedsPriority(keys), |entries|)
      ensures errors == old(errors) <==> forall e | e in entries :: AllAccepted(keys, e, |keys|)
      ensures errors == old(errors) && EveryKept(keys, entries) ==> EmitsAll(emitted, keys, entries)
      // For every key tuple the messages choose the entry that the program would.
      ensures errors == old(errors) && EveryKept(keys, entries) && NumberedInOrder(keys) && NeedsPriority(keys) ==>
        SameChoice(emitted, keys, entries)
    {
      emitted := [];
      var entryPriority := |entries|;
      var needsPriority := TableNeedsPriority(keys);
      for i := 0 to |entries|
        invariant |emitted| == i && entryPriority == if needsPriority then |entries| - i else |entries|
        invariant updates == old(updates) + emitted && errors >= old(errors)
        invariant SoFar(emitted, tableId, needsPriority, keys, entries, errors == old(errors))
      {
        ghost var clean, errors0 := errors == old(errors), errors;
        ghost var m := AddTableEntry(tableId, keys, entries[i], needsPriority, entryPriority);
        if needsPriority {
          entryPriority := entryPriority - 1;
        }
        SoFarStep(emitted, m, tableId, needsPriority, keys, entries, clean, errors == errors0);
        emitted := emitted + [m];
      }
      assert entries[..|entries|] == entries;
      if errors == old(errors) && EveryKept(keys, entries) && NumberedInOrder(keys) && needsPriority {
        ProgramOrderIsPriority(emitted, tableId, keys, entries);
      }
    }

    method AddTableEntry(tableId: nat, keys: seq<KeyElement>, entry: seq<Expr>, needsPriority: bool, entryPriority: nat)
      returns (ghost m: TableEntry)
      requires |entry| == |keys| && AllTyped(keys, entry)
      modifies this
      ensures updates == old(updates) + [m] && errors >= old(errors)
      ensures m.tableId == tableId && m.priority == if needsPriority then entryPriority else 0
      ensures errors == old(errors) <==> AllAccepted(keys, entry, |keys|)
      ensures errors == old(errors) && AllKept(keys, entry) ==> Emits(m.matches, keys, entry, |keys|)
    {
      updates := updates + [TableEntry(tableId, [], 0)];
      ghost var ms := AddMatchKey(keys, entry);
      assert [] + ms == ms;
      m := TableEntry(tableId, ms, 0);
      assert updates == old(updates) + [m];
      if needsPriority {
        var last := |updates| - 1;
        updates := updates[last := updates[last].(priority := entryPriority)];
        m := m.(priority := entryPriority);
        assert updates == old(updates) + [m];
      }
    }
  }

  predicate AsksForPriority(kind: MatchKind) {
    kind == Ternary || kind == RangeKind || kind == Optional
  }

  ghost predicate NeedsPriority(keys: seq<KeyElement>) {
    exists j :: 0 <= j < |keys| && AsksForPriority(keys[j].kind)
  }

  ghost predicate NumberedEntry(emitted: seq<TableEntry>, tableId: nat, needsPriority: bool, n: nat, j: nat)
    requires j < |emitted|
  {
    emitted[j].tableId == tableId && emitted[j].priority == if needsPriority then n - j else 0
  }

  /** Priorities n, ..., 1 from the first entry to the last, or none at all. */
  ghost predicate InProgramOrder(emitted: seq<TableEntry>, tableId: nat, needsPriority: bool, n: nat) {
    |emitted| == n && forall j | 0 <= j < n :: NumberedEntry(emitted, tableId, needsPriority, n, j)
  }

  ghost predicate EveryKept(keys: seq<KeyElement>, entries: seq<seq<Expr>>) {
    forall e | e in entries :: |e| == |keys| && AllKept(keys, e)
  }

  /** Entry by entry, the messages are the translations of the keys. */
  ghost predicate EmitsAll(emitted: seq<TableEntry>, keys: seq<KeyElement>, entries: seq<seq<Expr>>) {
    |emitted| == |entries| && EmitsFirst(emitted, keys, entries)
  }

  ghost predicate EmitsEntry(m: TableEntry, keys: seq<KeyElement>, entry: seq<Expr>) {
    |entry| == |keys| && Emits(m.matches, keys, entry, |keys|)
  }

  /** The first entries have become messages, without an error if `clean`. */
  ghost predicate SoFar(emitted: seq<TableEntry>, tableId: nat, needsPriority: bool, keys: seq<KeyElement>, entries: seq<seq<Expr>>, clean: bool)
    requires forall e | e in entries :: |e| == |keys|
  {
    && |emitted| <= |entries|
    && (forall j | 0 <= j < |emitted| :: NumberedEntry(emitted, tableId, needsPriority, |entries|, j))
    && (clean <==> forall j | 0 <= j < |emitted| :: AllAccepted(keys, entries[j], |keys|))
    && (clean && EveryKept(keys, entries) ==> EmitsFirst(emitted, keys, entries))
  }

  ghost predicate EmitsFirst(emitted: seq<TableEntry>, keys: seq<KeyElement>, entries: seq<seq<Expr>>) {
    |emitted| <= |entries| && forall j | 0 <= j < |emitted| :: EmitsEntry(emitted[j], keys, entries[j])
  }

  lemma SoFarStep(emitted: seq<TableEntry>, m: TableEntry, tableId: nat, needsPriority: bool, keys: seq<KeyElement>,
      entries: seq<seq<Expr>>, clean: bool, ok: bool)
    requires |emitted| < |entries| && forall e | e in entries :: |e| == |keys|
    requires SoFar(emitted, tableId, needsPriority, keys, entries, clean)
    requires m.tableId == tableId && m.priority == if needsPriority then |entries| - |emitted| else 0
    requires ok <==> AllAccepted(keys, entries[|emitted|], |keys|)
    requires ok && AllKept(keys, entries[|emitted|]) ==> EmitsEntry(m, keys, entries[|emitted|])
    ensures SoFar(emitted + [m], tableId, needsPriority, keys, entries, clean && ok)
  {
    forall j | 0 <= j < |emitted + [m]| ensures NumberedEntry(emitted + [m], tableId, needsPriority, |entries|, j) {
      assert j < |emitted| ==> NumberedEntry(emitted, tableId, needsPriority, |entries|, j);
    }
    if clean && ok && EveryKept(keys, entries) {
      assert entries[|emitted|] in entries;
      EmitsFirstStep(emitted, m, keys, entries);
    }
  }

  lemma EmitsFirstStep(emitted: seq<TableEntry>, m: TableEntry, keys: seq<KeyElement>, entries: seq<seq<Expr>>)
    requires |emitted| < |entries| && EmitsFirst(emitted, keys, entries) && EmitsEntry(m, keys, entries[|emitted|])
    ensures EmitsFirst(emitted + [m], keys, entries)
  {
  }

  /** P4: entries are matched in program order, stopping at the first that matches. */
  ghost predicate IsFirstMatch(entries: seq<seq<Expr>>, keys: seq<KeyElement>, t: seq<int>, i: nat) {
    && i < |entries| && KeysMatch(entries[i], t, |keys|)
    && forall j | 0 <= j < i :: !KeysMatch(entries[j], t, |keys|)
  }

  /** P4Runtime: of the entries that match, the one of the highest priority is chosen. */
  ghost predicate IsChosen(emitted: seq<TableEntry>, keys: seq<KeyElement>, t: seq<int>, i: nat) {
    && i < |emitted| && AllHold(emitted[i].matches, keys, t)
    && forall j | 0 <= j < |emitted| && j != i && AllHold(emitted[j].matches, keys, t) :: emitted[j].priority < emitted[i].priority
  }

  /** For every key tuple the messages choose the entry that the program would. */
  ghost predicate SameChoice(emitted: seq<TableEntry>, keys: seq<KeyElement>, entries: seq<seq<Expr>>) {
    forall t, i: nat | IsTuple(keys, t) :: IsFirstMatch(entries, keys, t, i) <==> IsChosen(emitted, keys, t, i)
  }

  lemma ProgramOrderIsPriority(emitted: seq<TableEntry>, tableId: nat, keys: seq<KeyElement>, entries: seq<seq<Expr>>)
    requires InProgramOrder(emitted, tableId, true, |entries|) && EmitsAll(emitted, keys, entries)
    requires NumberedInOrder(keys)
    ensures SameChoice(emitted, keys, entries)
  {
    forall t, i: nat | IsTuple(keys, t) ensures IsFirstMatch(entries, keys, t, i) <==> IsChosen(emitted, keys, t, i) {
      ChoiceOfTuple(emitted, tableId, keys, entries, t, i);
    }
  }

  lemma ChoiceOfTuple(emitted: seq<TableEntry>, tableId: nat, keys: seq<KeyElement>, entries: seq<seq<Expr>>, t: seq<int>, i: nat)
    requires InProgramOrder(emitted, tableId, true, |entries|) && EmitsAll(emitted, keys, entries)
    requires NumberedInOrder(keys) && IsTuple(keys, t)
    ensures IsFirstMatch(entries, keys, t, i) <==> IsChosen(emitted, keys, t, i)
  {
    forall j | 0 <= j < |entries|
      ensures AllHold(emitted[j].matches, keys, t) <==> KeysMatch(entries[j], t, |keys|)
      ensures emitted[j].priority == |entries| - j
    {
      assert EmitsEntry(emitted[j], keys, entries[j]);
      EmittedMeansSame(emitted[j].matches, keys, entries[j], |keys|);
      assert NumberedEntry(emitted, tableId, true, |entries|, j);
    }
  }

  ghost predicate AllTyped(keys: seq<KeyElement>, exprs: seq<Expr>)
    requires |keys| == |exprs|
  {
    forall i | 0 <= i < |keys| :: Typed(keys[i].kind, exprs[i], keys[i].width)
  }

  lemma ExtendedTwice(us: seq<TableEntry>, ms: seq<FieldMatch>, more: seq<FieldMatch>)
    requires us != []
    ensures Extended(Extended(us, ms), more) == Extended(us, ms + more)
  {
    assert (us[|us| - 1].matches + ms) + more == us[|us| - 1].matches + (ms + more);
  }

  ghost predicate AllAccepted(keys: seq<KeyElement>, exprs: seq<Expr>, n: nat)
    requires n <= |keys| == |exprs|
  {
    forall i | 0 <= i < n :: Accepted(keys[i].kind, exprs[i], keys[i].width)
  }

  ghost predicate AllKept(keys: seq<KeyElement>, exprs: seq<Expr>)
    requires |keys| == |exprs|
  {
    forall i | 0 <= i < |keys| :: KeepsMeaning(keys[i].kind, exprs[i], keys[i].width)
  }

  /** The entry that shows a numbering to matter passes the converter without an error. */
  lemma ProbeIsAccepted(keys: seq<KeyElement>, i: nat)
    requires forall k | k in keys :: k.width > 0
    ensures AllTyped(keys, Probe(keys, i)) && AllAccepted(keys, Probe(keys, i), |keys|) && AllKept(keys, Probe(keys, i))
  {
    forall j | 0 <= j < |keys| ensures Typed(keys[j].kind, Probe(keys, i)[j], keys[j].width) {
      Pow2Positive(keys[j].width - 1);
    }
  }
}
