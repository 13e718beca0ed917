/** What the match part of a `const entries` list means, in the source and in P4Runtime. */
module MatchMeaning {
  import opened BigInt
  import opened Bytestrings
  import opened Wrappers

  /** What a cast leads to: numbers of some bits, with or without a sign, or all integers. Booleans are
      numbers of one bit, and enums and new types what they are made of. */
  datatype CastType = Bits(width: nat, signed: bool) | Unbounded

  /** A key expression of an entry. Enum members are resolved to their values, of the given width, except those
      of enums without a representation, like errors: `Unresolved` has a value for the target only. */
  datatype Expr =
    | Constant(n: int)
    | BoolLiteral(b: bool)
    | EnumMember(n: int, width: nat)
    | Unresolved(n: int)
    | Cast(to: CastType, expr: Expr)
    | Mask(left: Expr, right: Expr)
    | Range(left: Expr, right: Expr)
    | Default
    | OtherExpr

  datatype MatchKind = Exact | Lpm | Ternary | RangeKind | Optional | Unsupported

  /** A key element of a table; `id` is the number P4Info gives the match field. */
  datatype KeyElement = KeyElement(kind: MatchKind, width: nat, id: nat)

  /** The number of the given type with the lowest bits of `n`. */
  function Wrap(n: int, t: CastType): int {
    match t
    case Unbounded => n
    case Bits(w, signed) =>
      Pow2Positive(w);
      var low := n % Pow2(w);
      if signed && 2 * low >= Pow2(w) then low - Pow2(w) else low
  }

  /** The number that a simple key expression is. */
  function Number(e: Expr): Option<int> {
    match e
    case Constant(n) => Some(n)
    case BoolLiteral(b) => Some(if b then 1 else 0)
    case EnumMember(n, _) => Some(n)
    case Unresolved(n) => Some(n)
    case Cast(t, x) => (match Number(x)
                        case None => None
                        case Some(n) => Some(Wrap(n, t)))
    case _ => None
  }

  /** The value of a simple key expression for the target: the bits of a number that has been cast. */
  function Meant(e: Expr): Option<int> {
    match e
    case Cast(Bits(w, _), x) => (match Number(x)
                                 case None => None
                                 case Some(n) => Some(Wrap(n, Bits(w, false))))
    case _ => Number(e)
  }

  /** The expression has a value that the converter does not find, and does not report. */
  function Silent(e: Expr): bool {
    match e
    case Unresolved(_) => true
    case Cast(_, x) => Silent(x)
    case _ => false
  }

  /** The value that the converter finds: casts do not matter to it. */
  function Value(e: Expr): Option<int> {
    match e
    case Constant(n) => Some(n)
    case BoolLiteral(b) => Some(if b then 1 else 0)
    case EnumMember(n, _) => Some(n)
    case Cast(_, x) => Value(x)
    case _ => None
  }

  /** The width of the enum whose member is cast. */
  function EnumWidth(e: Expr): Option<nat> {
    match e
    case EnumMember(_, w) => Some(w)
    case Cast(_, x) => EnumWidth(x)
    case _ => None
  }

  /** The same expressions have a number, for P4 and for the converter unless it is silent. */
  lemma {:induction false} SimpleExpr(e: Expr)
    ensures Meant(e).Some? <==> Number(e).Some?
    ensures Number(e).Some? <==> Value(e).Some? || Silent(e)
    ensures !(Value(e).Some? && Silent(e))
  {
    match e {
      case Cast(_, x) => SimpleExpr(x);
      case _ =>
    }
  }

  /** The P4 meaning: whether a key field with value `k` matches `e`. */
  ghost predicate Matches(e: Expr, k: int) {
    match e
    case Default => true
    case Mask(l, r) => Meant(l).Some? && Meant(r).Some? && And(k, Meant(r).value) == And(Meant(l).value, Meant(r).value)
    case Range(l, r) => Meant(l).Some? && Meant(r).Some? && Meant(l).value <= k <= Meant(r).value
    case _ => Meant(e) == Some(k)
  }

  /** A `FieldMatch` message. */
  datatype FieldMatch = FieldMatch(fieldId: nat, spec: MatchSpec)

  datatype MatchSpec =
    | ExactMatch(value: seq<byte>)
    | LpmMatch(value: seq<byte>, prefixLen: int)
    | TernaryMatch(value: seq<byte>, mask: seq<byte>)
    | RangeMatch(low: seq<byte>, high: seq<byte>)
    | OptionalMatch(value: seq<byte>)

  /** The P4Runtime meaning (section 9.1.1 of the P4Runtime specification) on a field of `w` bits. */
  ghost predicate FieldHolds(m: MatchSpec, w: nat, k: int) {
    match m
    case ExactMatch(v) => k == Decode(v)
    case LpmMatch(v, p) => 0 <= p <= w && ShiftRight(k, w - p) == ShiftRight(Decode(v), w - p)
    case TernaryMatch(v, mask) => And(k, Decode(mask)) == Decode(v)
    case RangeMatch(low, high) => Decode(low) <= k <= Decode(high)
    case OptionalMatch(v) => k == Decode(v)
  }

  /** P4Runtime accepts no unset values, no masked-off value bits, no empty ranges and no spelled-out don't care. */
  ghost predicate Canonical(m: MatchSpec, w: nat) {
    match m
    case ExactMatch(v) => v != [] && Decode(v) < Pow2(w)
    case LpmMatch(v, p) =>
      && Decode(v) < Pow2(w) && 0 < p <= w
      && forall i | 0 <= i < w - p :: !Bit(Decode(v), i)
    case TernaryMatch(v, mask) =>
      && Decode(v) < Pow2(w) && 0 < Decode(mask) < Pow2(w)
      && And(Decode(v), Decode(mask)) == Decode(v)
    case RangeMatch(low, high) =>
      && Decode(low) <= Decode(high) < Pow2(w)
      && !(Decode(low) == 0 && Decode(high) == Pow2(w) - 1)
    case OptionalMatch(v) => v != [] && Decode(v) < Pow2(w)
  }

  /** `ms` is what becomes of the key expression `e`: nothing for a don't care, else one match. */
  ghost predicate Lowered(ms: seq<FieldMatch>, fieldId: nat, w: nat, e: Expr) {
    && |ms| <= 1
    && (ms != [] ==> ms[0].fieldId == fieldId && Canonical(ms[0].spec, w))
    && forall k | 0 <= k < Pow2(w) :: SameMeaning(ms, w, e, k)
  }

  ghost predicate SameMeaning(ms: seq<FieldMatch>, w: nat, e: Expr, k: int) {
    Matches(e, k) <==> forall m | m in ms :: FieldHolds(m.spec, w, k)
  }

  /** A value for every key field. */
  ghost predicate IsTuple(keys: seq<KeyElement>, t: seq<int>) {
    |t| == |keys| && forall j | 0 <= j < |keys| :: 0 <= t[j] < Pow2(keys[j].width)
  }

  /** The first `n` key expressions of an entry match. */
  ghost predicate KeysMatch(exprs: seq<Expr>, t: seq<int>, n: nat) {
    n <= |exprs| && n <= |t| && forall j | 0 <= j < n :: Matches(exprs[j], t[j])
  }

  /** Each match kind has its own message. There is none for a key element of an unsupported kind: P4Info
      has no field for a selector, and no match type for a kind that it does not know. */
  predicate OfKind(m: MatchSpec, kind: MatchKind) {
    match kind
    case Exact => m.ExactMatch?
    case Lpm => m.LpmMatch?
    case Ternary => m.TernaryMatch?
    case RangeKind => m.RangeMatch?
    case Optional => m.OptionalMatch?
    case Unsupported => false
  }

  ghost predicate AllOfKind(ms: seq<FieldMatch>, kind: MatchKind) {
    forall m | m in ms :: OfKind(m.spec, kind)
  }

  /** A field match holds if it is acceptable for the key field that has its number, and holds of it. */
  ghost predicate HoldsOf(m: FieldMatch, keys: seq<KeyElement>, t: seq<int>) {
    |t| == |keys| && exists j :: 0 <= j < |keys| && keys[j].id == m.fieldId && OfKind(m.spec, keys[j].kind) && Allows(m.spec, keys[j].width, t[j])
  }

  ghost predicate Allows(m: MatchSpec, w: nat, k: int) {
    Canonical(m, w) && FieldHolds(m, w, k)
  }

  ghost predicate AllHold(ms: seq<FieldMatch>, keys: seq<KeyElement>, t: seq<int>) {
    forall m | m in ms :: HoldsOf(m, keys, t)
  }

  /** How many of the first `n` key elements have a match kind that messages can express. */
  function SupportedIn(keys: seq<KeyElement>, n: nat): nat
    requires n <= |keys|
  {
    if n == 0 then 0 else SupportedIn(keys, n - 1) + if keys[n - 1].kind.Unsupported? then 0 else 1
  }

  /** Each supported key element has in P4Info the number that the converter gives it. The converter
      counts the supported elements only, P4Info numbers all of them. */
  ghost predicate NumberedInOrder(keys: seq<KeyElement>) {
    DistinctIds(keys) && forall i | 0 <= i < |keys| :: AtItsNumber(keys, i)
  }

  ghost predicate DistinctIds(keys: seq<KeyElement>) {
    forall i, j | 0 <= i < j < |keys| :: keys[i].id != keys[j].id
  }

  ghost predicate AtItsNumber(keys: seq<KeyElement>, i: nat)
    requires i < |keys|
  {
    !keys[i].kind.Unsupported? ==> keys[i].id == SupportedIn(keys, i) + 1
  }

  /** What is emitted for the first `n` key expressions: a translation of each, numbered from 1 on. */
  ghost predicate Emits(ms: seq<FieldMatch>, keys: seq<KeyElement>, exprs: seq<Expr>, n: nat)
    requires n <= |keys| == |exprs|
    decreases n
  {
    if n == 0 then ms == []
    else exists cut: nat :: cut <= |ms| && Emits(ms[..cut], keys, exprs, n - 1) && Piece(ms[cut..], keys, exprs, n - 1)
  }

  ghost predicate Piece(ms: seq<FieldMatch>, keys: seq<KeyElement>, exprs: seq<Expr>, i: nat)
    requires i < |keys| == |exprs|
  {
    Lowered(ms, SupportedIn(keys, i) + 1, keys[i].width, exprs[i]) && AllOfKind(ms, keys[i].kind)
  }

  lemma EmitsNext(ms: seq<FieldMatch>, more: seq<FieldMatch>, keys: seq<KeyElement>, exprs: seq<Expr>, n: nat)
    requires n < |keys| == |exprs| && Emits(ms, keys, exprs, n) && Piece(more, keys, exprs, n)
    ensures Emits(ms + more, keys, exprs, n + 1)
  {
    assert (ms + more)[..|ms|] == ms && (ms + more)[|ms|..] == more;
  }

  /** The matches `ms` mean the same as the first `n` key expressions. */
  ghost predicate SameKeys(ms: seq<FieldMatch>, keys: seq<KeyElement>, exprs: seq<Expr>, n: nat) {
    n <= |exprs| == |keys| && forall t | IsTuple(keys, t) :: AllHold(ms, keys, t) <==> KeysMatch(exprs, t, n)
  }

  lemma SameKeysStep(ms: seq<FieldMatch>, more: seq<FieldMatch>, keys: seq<KeyElement>, exprs: seq<Expr>, n: nat)
    requires n < |exprs| == |keys| && SameKeys(ms, keys, exprs, n)
    requires DistinctIds(keys) && Lowered(more, keys[n].id, keys[n].width, exprs[n])
    requires AllOfKind(more, keys[n].kind)
    ensures SameKeys(ms + more, keys, exprs, n + 1)
  {
    forall t | IsTuple(keys, t) ensures AllHold(ms + more, keys, t) <==> KeysMatch(exprs, t, n + 1) {
      assert AllHold(ms + more, keys, t) <==> AllHold(ms, keys, t) && AllHold(more, keys, t);
      assert SameMeaning(more, keys[n].width, exprs[n], t[n]);
      if more != [] {
        HoldsByNumber(more[0], keys, n, t);
      }
    }
  }

  lemma HoldsByNumber(m: FieldMatch, keys: seq<KeyElement>, n: nat, t: seq<int>)
    requires n < |keys| == |t| && DistinctIds(keys) && OfKind(m.spec, keys[n].kind) && m.fieldId == keys[n].id
    ensures HoldsOf(m, keys, t) <==> Allows(m.spec, keys[n].width, t[n])
  {
  }

  /** If P4Info numbers the fields as the converter does, messages mean what the entries mean. */
  lemma {:induction false} EmittedMeansSame(ms: seq<FieldMatch>, keys: seq<KeyElement>, exprs: seq<Expr>, n: nat)
    requires n <= |keys| == |exprs| && NumberedInOrder(keys) && Emits(ms, keys, exprs, n)
    ensures SameKeys(ms, keys, exprs, n)
    decreases n
  {
    if n > 0 {
      var cut: nat :| cut <= |ms| && Emits(ms[..cut], keys, exprs, n - 1) && Piece(ms[cut..], keys, exprs, n - 1);
      EmittedMeansSame(ms[..cut], keys, exprs, n - 1);
      assert AtItsNumber(keys, n - 1);
      LoweredUnderItsId(ms[cut..], SupportedIn(keys, n - 1) + 1, keys[n - 1].id, keys[n - 1].width, exprs[n - 1]);
      SameKeysStep(ms[..cut], ms[cut..], keys, exprs, n - 1);
      assert ms[..cut] + ms[cut..] == ms;
    }
  }

  /** A field that is left out has no number to agree on. */
  lemma LoweredUnderItsId(ms: seq<FieldMatch>, fieldId: nat, id: nat, w: nat, e: Expr)
    requires Lowered(ms, fieldId, w, e) && (fieldId == id || ms == [])
    ensures Lowered(ms, id, w, e)
  {
  }

  /** An entry that is 1 in key field `i` and 0 in the others. */
  function Probe(keys: seq<KeyElement>, i: nat): seq<Expr> {
    seq(|keys|, j requires 0 <= j < |keys| => if keys[j].kind.Unsupported? then Default else Constant(if j == i then 1 else 0))
  }

  /** If P4Info numbers one of the fields differently, the messages for some entry do not mean the same. */
  lemma NumbersMatter(ms: seq<FieldMatch>, keys: seq<KeyElement>, i: nat)
    requires i < |keys| && DistinctIds(keys) && !AtItsNumber(keys, i) && forall k | k in keys :: k.width > 0
    requires Emits(ms, keys, Probe(keys, i), |keys|)
    ensures !SameKeys(ms, keys, Probe(keys, i), |keys|)
  {
    var exprs := Probe(keys, i);
    var t := seq(|keys|, j requires 0 <= j < |keys| => if j == i then 1 else 0);
    assert forall k | k in keys :: Pow2(k.width) == 2 * Pow2(k.width - 1) && Pow2(k.width - 1) > 0 by {
      forall k | k in keys ensures Pow2(k.width) == 2 * Pow2(k.width - 1) && Pow2(k.width - 1) > 0 {
        Pow2Positive(k.width - 1);
      }
    }
    assert IsTuple(keys, t) && KeysMatch(exprs, t, |keys|);
    var m := EmittedFor(ms, keys, exprs, |keys|, i);
    assert m in ms && !HoldsOf(m, keys, t) by {
      forall j | 0 <= j < |keys| && keys[j].id == m.fieldId ensures !Allows(m.spec, keys[j].width, t[j]) {
        NotZero(m.spec, keys[i].width, keys[j].width);
      }
    }
  }

  /** The message emitted for a key field that must not be 0. */
  lemma {:induction false} EmittedFor(ms: seq<FieldMatch>, keys: seq<KeyElement>, exprs: seq<Expr>, n: nat, i: nat) returns (m: FieldMatch)
    requires i < n <= |keys| == |exprs| && Emits(ms, keys, exprs, n) && !Matches(exprs[i], 0)
    ensures m in ms && m.fieldId == SupportedIn(keys, i) + 1
    ensures Canonical(m.spec, keys[i].width) && !FieldHolds(m.spec, keys[i].width, 0)
    decreases n
  {
    var cut: nat :| cut <= |ms| && Emits(ms[..cut], keys, exprs, n - 1) && Piece(ms[cut..], keys, exprs, n - 1);
    if i < n - 1 {
      m := EmittedFor(ms[..cut], keys, exprs, n - 1, i);
    } else {
      Pow2Positive(keys[i].width);
      assert SameMeaning(ms[cut..], keys[i].width, exprs[i], 0);
      m := ms[cut..][0];
    }
  }

  lemma {:induction false} ShiftOfZero(k: nat)
    ensures ShiftRight(0, k) == 0
  {
    if k > 0 {
      ShiftOfZero(k - 1);
    }
  }

  /** A match that 0 fails is failed by 0 on every field it is acceptable for. */
  lemma NotZero(m: MatchSpec, w: nat, w': nat)
    requires Canonical(m, w) && !FieldHolds(m, w, 0)
    ensures !Allows(m, w', 0)
  {
    match m {
      case LpmMatch(bs, p) =>
        if Canonical(m, w') {
          var v := Decode(bs);
          ShiftOfZero(w - p);
          ShiftOfZero(w' - p);
          if ShiftRight(v, w' - p) == 0 {
            forall i: nat ensures Bit(v, i) == Bit(0, i) {
              BitOfConstant(0, i);
              if i >= w' - p {
                BitShiftRight(v, w' - p, i - (w' - p));
                BitOfConstant(0, i - (w' - p));
              }
            }
            SameBits(v, 0);
          }
        }
      case _ =>
    }
  }

  // Bits of masks.

  lemma FullMask(k: nat, w: nat)
    requires k < Pow2(w)
    ensures And(k, Pow2(w) - 1) == k
  {
    forall i: nat ensures Bit(And(k, Pow2(w) - 1), i) == Bit(k, i) {
      BitAnd(k, Pow2(w) - 1, i);
      BitsOfFullMask(w, i);
      if i >= w {
        HighBitsClear(k, w, i);
      }
    }
    SameBits(And(k, Pow2(w) - 1), k);
  }

  /** Masking a second time changes nothing. */
  lemma MaskTwice(v: int, m: int)
    ensures And(And(v, m), m) == And(v, m)
  {
    forall i: nat ensures Bit(And(And(v, m), m), i) == Bit(And(v, m), i) {
      BitAnd(And(v, m), m, i);
      BitAnd(v, m, i);
    }
    SameBits(And(And(v, m), m), And(v, m));
  }

  lemma {:induction false} ShiftOutZeros(n: nat, len: nat)
    requires n > 0 && len <= Lsb(n)
    ensures ShiftRight(n, len) >= 0 && PopCount(ShiftRight(n, len)) == PopCount(n)
    decreases len
  {
    if len > 0 {
      ShiftOutZeros(n / 2, len - 1);
    }
  }

  lemma {:induction false} ShiftRightBound(n: nat, w: nat, len: nat)
    requires len <= w
    ensures ShiftRight(n, len) < Pow2(w - len) <==> n < Pow2(w)
    decreases len
  {
    if len > 0 {
      ShiftRightBound(n / 2, w - 1, len - 1);
    }
  }

  /** The test of `addLpm`: as many bits as the field has, counting the trailing zeros and all ones. */
  predicate IsPrefixCount(mask: int, w: nat)
    requires mask > 0
  {
    Lsb(mask) + PopCount(mask) == w
  }

  /** A mask within the width that passes the test is a prefix mask. */
  lemma PrefixBits(mask: int, w: nat, i: nat)
    requires 0 < mask < Pow2(w) && IsPrefixCount(mask, w)
    ensures Lsb(mask) < w && Bit(mask, i) == (Lsb(mask) <= i < w)
  {
    var len := Lsb(mask);
    PopCountPositive(mask);
    if i < len {
      BitLsb(mask, i);
    } else if i >= w {
      HighBitsClear(mask, w, i);
    } else {
      ShiftOutZeros(mask, len);
      ShiftRightBound(mask, w, len);
      AllOnes(ShiftRight(mask, len), w - len, i - len);
      BitShiftRight(mask, len, i - len);
    }
  }

  /** Under a prefix mask, two numbers agree exactly when their prefixes do. */
  lemma PrefixAgree(k: nat, v: nat, mask: int, w: nat)
    requires 0 < mask < Pow2(w) && IsPrefixCount(mask, w) && k < Pow2(w) && v < Pow2(w)
    requires And(v, mask) == v
    ensures And(k, mask) == v <==> ShiftRight(k, Lsb(mask)) == ShiftRight(v, Lsb(mask))
  {
    var len := Lsb(mask);
    if And(k, mask) == v {
      forall i: nat ensures Bit(ShiftRight(k, len), i) == Bit(ShiftRight(v, len), i) {
        MaskedHighBit(k, v, mask, w, i);
      }
      SameBits(ShiftRight(k, len), ShiftRight(v, len));
    }
    if ShiftRight(k, len) == ShiftRight(v, len) {
      forall i: nat ensures Bit(And(k, mask), i) == Bit(v, i) {
        MaskedBit(k, v, mask, w, i);
      }
      SameBits(And(k, mask), v);
    }
  }

  lemma MaskedHighBit(k: nat, v: nat, mask: int, w: nat, i: nat)
    requires 0 < mask < Pow2(w) && IsPrefixCount(mask, w) && k < Pow2(w) && And(k, mask) == v
    ensures Bit(ShiftRight(k, Lsb(mask)), i) == Bit(ShiftRight(v, Lsb(mask)), i)
  {
    var len := Lsb(mask);
    BitShiftRight(k, len, i);
    BitShiftRight(v, len, i);
    PrefixBits(mask, w, i + len);
    BitAnd(k, mask, i + len);
    if i + len >= w {
      HighBitsClear(k, w, i + len);
    }
  }

  lemma MaskedBit(k: nat, v: nat, mask: int, w: nat, i: nat)
    requires 0 < mask < Pow2(w) && IsPrefixCount(mask, w) && And(v, mask) == v
    requires ShiftRight(k, Lsb(mask)) == ShiftRight(v, Lsb(mask))
    ensures Bit(And(k, mask), i) == Bit(v, i)
  {
    var len := Lsb(mask);
    BitAnd(k, mask, i);
    BitAnd(v, mask, i);
    PrefixBits(mask, w, i);
    if i >= len {
      BitShiftRight(k, len, i - len);
      BitShiftRight(v, len, i - len);
    }
  }

  /** The test of `addLpm` does not look at the width: a wider mask can pass it, and is then
      taken for a prefix that it is not. Some key matches the source and not the message. */
  lemma WideMaskIsNoPrefix(v: nat, mask: int, w: nat) returns (k: nat)
    requires Pow2(w) <= mask && mask > 0 && IsPrefixCount(mask, w)
    requires v < Pow2(w) && And(v, mask) == v
    ensures k < Pow2(w) && And(k, mask) == v
    ensures Lsb(mask) < w && ShiftRight(k, Lsb(mask)) != ShiftRight(v, Lsb(mask))
  {
    var len := Lsb(mask);
    Pow2Positive(w);
    PopCountPositive(mask);
    var i := MissingBit(mask, w);
    k := Toggle(v, i);
    forall j | j >= w ensures !Bit(k, j) {
      BitToggle(v, i, j);
      HighBitsClear(v, w, j);
    }
    BoundFromBits(k, w);
    forall j: nat ensures Bit(And(k, mask), j) == Bit(v, j) {
      BitAnd(k, mask, j);
      BitAnd(v, mask, j);
      BitToggle(v, i, j);
    }
    SameBits(And(k, mask), v);
    BitShiftRight(k, len, i - len);
    BitShiftRight(v, len, i - len);
    BitToggle(v, i, i);
  }

  lemma MissingBit(mask: int, w: nat) returns (i: nat)
    requires Pow2(w) <= mask && mask > 0 && IsPrefixCount(mask, w) && Lsb(mask) < w
    ensures Lsb(mask) <= i < w && !Bit(mask, i)
  {
    var len := Lsb(mask);
    ShiftOutZeros(mask, len);
    ShiftRightBound(mask, w, len);
    var m := ShiftRight(mask, len);
    if forall j | 0 <= j < w - len :: Bit(m, j) {
      OnesCounted(m, w - len);
    }
    var j: nat :| j < w - len && !Bit(m, j);
    BitShiftRight(mask, len, j);
    i := j + len;
  }
}
