/** When a table needs priorities: two entries that hold of the same keys may not be told apart by exact
    values and longer prefixes. */
module Priorities {
  import opened BigInt
  import opened Bytestrings
  import opened MatchMeaning
  import opened EntriesConverter
  import opened Wrappers

  /** The match for the key field with the number `id`. */
  function FieldOf(ms: seq<FieldMatch>, id: nat): Option<MatchSpec> {
    if ms == [] then None
    else if ms[0].fieldId == id then Some(ms[0].spec)
    else FieldOf(ms[1..], id)
  }

  ghost predicate Allowed(f: Option<MatchSpec>, w: nat, k: int) {
    f.Some? ==> FieldHolds(f.value, w, k)
  }

  /** How many of the high bits of a key an exact match or a prefix fixes. */
  function FixedBits(f: Option<MatchSpec>, w: nat): int {
    match f
    case Some(ExactMatch(_)) => w
    case Some(LpmMatch(_, p)) => p
    case _ => 0
  }

  ghost predicate Inside(f: Option<MatchSpec>, g: Option<MatchSpec>, w: nat) {
    forall k | 0 <= k < Pow2(w) && Allowed(f, w, k) :: Allowed(g, w, k)
  }

  /** The match that fixes more bits is the narrower one, and matches that fix as many are the same. */
  ghost predicate Decided(f: Option<MatchSpec>, g: Option<MatchSpec>, w: nat) {
    && (FixedBits(f, w) >= FixedBits(g, w) ==> Inside(f, g, w))
    && (FixedBits(g, w) >= FixedBits(f, w) ==> Inside(g, f, w))
  }

  ghost predicate DecidedAt(keys: seq<KeyElement>, ms: seq<FieldMatch>, ms': seq<FieldMatch>, j: nat)
    requires j < |keys|
  {
    Decided(FieldOf(ms, keys[j].id), FieldOf(ms', keys[j].id), keys[j].width)
  }

  ghost predicate DecidedByBits(keys: seq<KeyElement>, ms: seq<FieldMatch>, ms': seq<FieldMatch>) {
    forall j | 0 <= j < |keys| :: DecidedAt(keys, ms, ms', j)
  }

  /** An entry that is translated without an error, to `ms`, and keeps its meaning. */
  ghost predicate Translates(keys: seq<KeyElement>, entry: seq<Expr>, ms: seq<FieldMatch>) {
    && |entry| == |keys| && AllTyped(keys, entry) && AllAccepted(keys, entry, |keys|) && AllKept(keys, entry)
    && Emits(ms, keys, entry, |keys|)
  }

  /** Two entries that need to be ordered: their messages hold of one tuple and are not decided by bits. */
  ghost predicate NeedOrder(keys: seq<KeyElement>, e: seq<Expr>, e': seq<Expr>, ms: seq<FieldMatch>, ms': seq<FieldMatch>, t: seq<int>) {
    && Translates(keys, e, ms) && Translates(keys, e', ms')
    && IsTuple(keys, t) && AllHold(ms, keys, t) && AllHold(ms', keys, t) && !DecidedByBits(keys, ms, ms')
  }

  /** A table gets priorities exactly if some two entries for it need to be ordered. */
  lemma PriorityExactly(keys: seq<KeyElement>)
    requires NumberedInOrder(keys) && forall k | k in keys && !k.kind.Unsupported? :: k.width > 0
    ensures NeedsPriority(keys) <==> exists e, e', ms, ms', t :: NeedOrder(keys, e, e', ms, ms', t)
  {
    if NeedsPriority(keys) {
      var j :| 0 <= j < |keys| && AsksForPriority(keys[j].kind);
      assert keys[j].kind in {Ternary, RangeKind, Optional};
      var ms, ms', t := ZeroAndAny(keys, j);
      assert NeedOrder(keys, Zeros(keys), Zeros(keys)[j := Default], ms, ms', t);
    }
    if e, e', ms, ms', t :| NeedOrder(keys, e, e', ms, ms', t) {
      var j := NotOnlyPrefixes(keys, ms, ms', t);
      assert AsksForPriority(keys[j].kind);
    }
  }

  lemma NotOnlyPrefixes(keys: seq<KeyElement>, ms: seq<FieldMatch>, ms': seq<FieldMatch>, t: seq<int>) returns (j: nat)
    requires DistinctIds(keys) && IsTuple(keys, t) && AllHold(ms, keys, t) && AllHold(ms', keys, t)
    requires !DecidedByBits(keys, ms, ms')
    ensures j < |keys| && keys[j].kind !in {Exact, Lpm, Unsupported}
  {
    if forall j | 0 <= j < |keys| :: keys[j].kind in {Exact, Lpm, Unsupported} {
      PrefixesDecide(keys, ms, ms', t);
    }
    j :| 0 <= j < |keys| && keys[j].kind !in {Exact, Lpm, Unsupported};
  }

  // Exact values and prefixes.

  /** An exact match or a prefix that holds of `k` holds of the keys with the same high bits. */
  lemma HighBitsDecide(f: Option<MatchSpec>, w: nat, k: int, k': int)
    requires f.Some? ==> (f.value.ExactMatch? || f.value.LpmMatch?) && Canonical(f.value, w)
    requires 0 <= k < Pow2(w) && 0 <= k' < Pow2(w) && Allowed(f, w, k)
    ensures 0 <= FixedBits(f, w) <= w
    ensures Allowed(f, w, k') <==> ShiftRight(k', w - FixedBits(f, w)) == ShiftRight(k, w - FixedBits(f, w))
  {
    if f == None {
      ShiftedOut(k, w);
      ShiftedOut(k', w);
    }
  }

  lemma PrefixesDecideField(f: Option<MatchSpec>, g: Option<MatchSpec>, w: nat, k: int)
    requires f.Some? ==> (f.value.ExactMatch? || f.value.LpmMatch?) && Canonical(f.value, w)
    requires g.Some? ==> (g.value.ExactMatch? || g.value.LpmMatch?) && Canonical(g.value, w)
    requires 0 <= k < Pow2(w) && Allowed(f, w, k) && Allowed(g, w, k)
    ensures FixedBits(f, w) >= FixedBits(g, w) ==> Inside(f, g, w)
  {
    HighBitsDecide(f, w, k, k);
    HighBitsDecide(g, w, k, k);
    var p, q := FixedBits(f, w), FixedBits(g, w);
    if p >= q {
      forall k' | 0 <= k' < Pow2(w) && Allowed(f, w, k') ensures Allowed(g, w, k') {
        HighBitsDecide(f, w, k, k');
        HighBitsDecide(g, w, k, k');
        ShiftRightTwice(k, w - p, p - q);
        ShiftRightTwice(k', w - p, p - q);
      }
    }
  }

  lemma {:induction false} FieldIn(ms: seq<FieldMatch>, id: nat)
    ensures FieldOf(ms, id).Some? ==> FieldMatch(id, FieldOf(ms, id).value) in ms
  {
    if ms != [] && ms[0].fieldId != id {
      FieldIn(ms[1..], id);
    }
  }

  /** What a message that holds says of one field. */
  lemma FieldOfHolding(keys: seq<KeyElement>, ms: seq<FieldMatch>, t: seq<int>, j: nat)
    requires DistinctIds(keys) && IsTuple(keys, t) && AllHold(ms, keys, t) && j < |keys|
    ensures var f := FieldOf(ms, keys[j].id); f.Some? ==> OfKind(f.value, keys[j].kind) && Allows(f.value, keys[j].width, t[j])
  {
    FieldIn(ms, keys[j].id);
    var f := FieldOf(ms, keys[j].id);
    if f.Some? {
      assert HoldsOf(FieldMatch(keys[j].id, f.value), keys, t);
    }
  }

  /** Without ternary, range and optional fields, two messages that hold of one tuple have the same exact
      values and nested prefixes. */
  lemma PrefixesDecide(keys: seq<KeyElement>, ms: seq<FieldMatch>, ms': seq<FieldMatch>, t: seq<int>)
    requires DistinctIds(keys) && forall j | 0 <= j < |keys| :: keys[j].kind in {Exact, Lpm, Unsupported}
    requires IsTuple(keys, t) && AllHold(ms, keys, t) && AllHold(ms', keys, t)
    ensures DecidedByBits(keys, ms, ms')
  {
    forall j | 0 <= j < |keys| ensures DecidedAt(keys, ms, ms', j) {
      FieldOfHolding(keys, ms, t, j);
      FieldOfHolding(keys, ms', t, j);
      var f, g := FieldOf(ms, keys[j].id), FieldOf(ms', keys[j].id);
      PrefixesDecideField(f, g, keys[j].width, t[j]);
      PrefixesDecideField(g, f, keys[j].width, t[j]);
    }
  }

  // Ternary, range and optional matches.

  /** The entry that matches 0 in every field. */
  function Zeros(keys: seq<KeyElement>): seq<Expr> {
    seq(|keys|, j requires 0 <= j < |keys| => if keys[j].kind.Unsupported? then Default else Constant(0))
  }

  /** For each of the three kinds, `0` and `_` in a field of that kind match the same tuple, and neither decides. */
  lemma ZeroAndAny(keys: seq<KeyElement>, j: nat) returns (ms: seq<FieldMatch>, ms': seq<FieldMatch>, t: seq<int>)
    requires NumberedInOrder(keys) && forall k | k in keys && !k.kind.Unsupported? :: k.width > 0
    requires j < |keys| && keys[j].kind in {Ternary, RangeKind, Optional}
    ensures NeedOrder(keys, Zeros(keys), Zeros(keys)[j := Default], ms, ms', t)
  {
    var e := Zeros(keys);
    var e' := e[j := Default];
    ms := TranslatedZeros(keys, e);
    ms' := TranslatedZeros(keys, e');
    t := seq(|keys|, i requires 0 <= i < |keys| => 0);
    assert IsTuple(keys, t) by {
      forall i | 0 <= i < |keys| ensures 0 <= t[i] < Pow2(keys[i].width) {
        Pow2Positive(keys[i].width);
      }
    }
    EmittedMeansSame(ms, keys, e, |keys|);
    EmittedMeansSame(ms', keys, e', |keys|);
    assert KeysMatch(e, t, |keys|) && KeysMatch(e', t, |keys|);
    ZeroIsNotAny(keys, e, e', ms, ms', j);
  }

  lemma ZeroIsNotAny(keys: seq<KeyElement>, e: seq<Expr>, e': seq<Expr>, ms: seq<FieldMatch>, ms': seq<FieldMatch>, j: nat)
    requires |e| == |e'| == |keys| && Emits(ms, keys, e, |keys|) && Emits(ms', keys, e', |keys|)
    requires j < |keys| && keys[j].kind in {Ternary, RangeKind, Optional} && AtItsNumber(keys, j) && keys[j].width > 0
    requires e[j] == Constant(0) && e'[j] == Default
    ensures !DecidedAt(keys, ms, ms', j)
  {
    FieldTranslated(ms, keys, e, |keys|, j);
    FieldTranslated(ms', keys, e', |keys|, j);
    Pow2Positive(keys[j].width - 1);
    assert Matches(e'[j], 1) && !Matches(e[j], 1);
    NothingFixed(FieldOf(ms, keys[j].id), FieldOf(ms', keys[j].id), keys[j].width);
  }

  lemma NothingFixed(f: Option<MatchSpec>, f': Option<MatchSpec>, w: nat)
    requires FixedBits(f, w) == 0 == FixedBits(f', w)
    requires 1 < Pow2(w) && !Allowed(f, w, 1) && Allowed(f', w, 1)
    ensures !Decided(f, f', w)
  {
  }

  /** Zeros and don't cares are translated without an error. */
  lemma TranslatedZeros(keys: seq<KeyElement>, e: seq<Expr>) returns (ms: seq<FieldMatch>)
    requires forall k | k in keys && !k.kind.Unsupported? :: k.width > 0
    requires |e| == |keys| && forall j | 0 <= j < |keys| :: IsZero(keys[j].kind, e[j])
    ensures Translates(keys, e, ms)
  {
    forall j | 0 <= j < |keys|
      ensures Typed(keys[j].kind, e[j], keys[j].width) && Accepted(keys[j].kind, e[j], keys[j].width)
      ensures KeepsMeaning(keys[j].kind, e[j], keys[j].width)
    {
      Pow2Positive(keys[j].width);
    }
    ms := EmittedZeros(keys, e, |keys|);
  }

  predicate IsZero(kind: MatchKind, e: Expr) {
    (e == Constant(0) && !kind.Unsupported?) || (e == Default && !kind.Exact?)
  }

  lemma {:induction false} EmittedZeros(keys: seq<KeyElement>, e: seq<Expr>, n: nat) returns (ms: seq<FieldMatch>)
    requires n <= |keys| == |e| && forall k | k in keys && !k.kind.Unsupported? :: k.width > 0
    requires forall j | 0 <= j < |keys| :: IsZero(keys[j].kind, e[j])
    ensures Emits(ms, keys, e, n)
    decreases n
  {
    if n == 0 {
      ms := [];
    } else {
      ms := EmittedZeros(keys, e, n - 1);
      assert keys[n - 1] in keys;
      var more := ZeroLowered(keys[n - 1].kind, SupportedIn(keys, n - 1) + 1, keys[n - 1].width, e[n - 1]);
      assert Piece(more, keys, e, n - 1);
      EmitsNext(ms, more, keys, e, n - 1);
      ms := ms + more;
    }
  }

  lemma {:induction false} Encoding(n: nat) returns (bs: seq<byte>)
    ensures Decode(bs) == n && bs != []
  {
    if n < 256 {
      bs := [n as byte];
      assert bs[..0] == [];
    } else {
      var high := Encoding(n / 256);
      bs := high + [(n % 256) as byte];
      assert bs[..|bs| - 1] == high;
    }
  }

  lemma ZeroLowered(kind: MatchKind, fieldId: nat, w: nat, e: Expr) returns (ms: seq<FieldMatch>)
    requires IsZero(kind, e) && (!kind.Unsupported? ==> w > 0)
    ensures Lowered(ms, fieldId, w, e) && AllOfKind(ms, kind)
  {
    if e == Default {
      ms := [];
      DontCareLowered(fieldId, w, e);
    } else {
      Pow2Positive(w);
      var zero := Encoding(0);
      var ones := Encoding(Pow2(w) - 1);
      match kind {
        case Exact =>
          ms := [FieldMatch(fieldId, ExactMatch(zero))];
          ExactLowered(fieldId, 0, zero, w, e, ms[0].spec);
        case Lpm =>
          ms := [FieldMatch(fieldId, LpmMatch(zero, w))];
          SimpleLpmLowered(fieldId, zero, w, e);
        case Ternary =>
          ms := [FieldMatch(fieldId, TernaryMatch(zero, ones))];
          SimpleTernaryLowered(fieldId, zero, ones, w, e);
        case RangeKind =>
          ms := [FieldMatch(fieldId, RangeMatch(zero, zero))];
          SimpleRangeLowered(fieldId, zero, w, e);
        case Optional =>
          ms := [FieldMatch(fieldId, OptionalMatch(zero))];
          ExactLowered(fieldId, 0, zero, w, e, ms[0].spec);
      }
    }
  }

  // The match for one field.

  lemma {:induction false} FieldOfAppend(a: seq<FieldMatch>, b: seq<FieldMatch>, id: nat)
    ensures FieldOf(a + b, id) == if FieldOf(a, id).Some? then FieldOf(a, id) else FieldOf(b, id)
  {
    if a == [] {
      assert a + b == b;
    } else {
      FieldOfAppend(a[1..], b, id);
      assert (a + b)[1..] == a[1..] + b;
    }
  }

  /** The last of the translations. */
  lemma LastPiece(ms: seq<FieldMatch>, keys: seq<KeyElement>, exprs: seq<Expr>, n: nat) returns (init: seq<FieldMatch>, last: seq<FieldMatch>)
    requires 0 < n <= |keys| == |exprs| && Emits(ms, keys, exprs, n)
    ensures ms == init + last && Emits(init, keys, exprs, n - 1) && Piece(last, keys, exprs, n - 1)
  {
    var cut: nat :| cut <= |ms| && Emits(ms[..cut], keys, exprs, n - 1) && Piece(ms[cut..], keys, exprs, n - 1);
    init, last := ms[..cut], ms[cut..];
  }

  lemma PieceNumber(ms: seq<FieldMatch>, keys: seq<KeyElement>, exprs: seq<Expr>, i: nat)
    requires i < |keys| == |exprs| && Piece(ms, keys, exprs, i)
    ensures forall m | m in ms :: m.fieldId == SupportedIn(keys, i) + 1 == SupportedIn(keys, i + 1)
  {
    forall m | m in ms ensures m.fieldId == SupportedIn(keys, i) + 1 && !keys[i].kind.Unsupported? {
      assert m == ms[0] && OfKind(m.spec, keys[i].kind);
    }
  }

  lemma {:induction false} NumbersUpTo(ms: seq<FieldMatch>, keys: seq<KeyElement>, exprs: seq<Expr>, n: nat)
    requires n <= |keys| == |exprs| && Emits(ms, keys, exprs, n)
    ensures forall m | m in ms :: m.fieldId <= SupportedIn(keys, n)
    decreases n
  {
    if n > 0 {
      var init, last := LastPiece(ms, keys, exprs, n);
      NumbersUpTo(init, keys, exprs, n - 1);
      PieceNumber(last, keys, exprs, n - 1);
      SupportedGrows(keys, n - 1, n);
    }
  }

  lemma {:induction false} SupportedGrows(keys: seq<KeyElement>, m: nat, n: nat)
    requires m <= n <= |keys|
    ensures SupportedIn(keys, m) <= SupportedIn(keys, n)
    decreases n
  {
    if m < n {
      SupportedGrows(keys, m, n - 1);
    }
  }

  ghost predicate FieldMeans(f: Option<MatchSpec>, kind: MatchKind, w: nat, e: Expr) {
    && (f.Some? ==> OfKind(f.value, kind))
    && forall k | 0 <= k < Pow2(w) :: Matches(e, k) <==> Allowed(f, w, k)
  }

  /** In the translation of an entry, the match for a field is of its kind and means what its expression means. */
  lemma {:induction false} FieldTranslated(ms: seq<FieldMatch>, keys: seq<KeyElement>, exprs: seq<Expr>, n: nat, j: nat)
    requires j < n <= |keys| == |exprs| && Emits(ms, keys, exprs, n) && !keys[j].kind.Unsupported?
    ensures FieldMeans(FieldOf(ms, SupportedIn(keys, j) + 1), keys[j].kind, keys[j].width, exprs[j])
    decreases n
  {
    var init, last := LastPiece(ms, keys, exprs, n);
    var id := SupportedIn(keys, j) + 1;
    FieldOfAppend(init, last, id);
    FieldIn(last, id);
    PieceNumber(last, keys, exprs, n - 1);
    if j == n - 1 {
      NumbersUpTo(init, keys, exprs, n - 1);
      FieldIn(init, id);
      OnePiece(last, id, keys[j].kind, keys[j].width, exprs[j]);
    } else {
      FieldTranslated(init, keys, exprs, n - 1, j);
      SupportedGrows(keys, j + 1, n - 1);
    }
  }

  lemma OnePiece(ms: seq<FieldMatch>, id: nat, kind: MatchKind, w: nat, e: Expr)
    requires Lowered(ms, id, w, e) && AllOfKind(ms, kind)
    ensures FieldMeans(FieldOf(ms, id), kind, w, e)
  {
    forall k | 0 <= k < Pow2(w) ensures Matches(e, k) <==> Allowed(FieldOf(ms, id), w, k) {
      assert SameMeaning(ms, w, e, k);
      if ms != [] {
        assert ms == [ms[0]];
        OneMatch(ms[0], w, e, k);
      }
    }
  }

  /** Either way the messages for a table say which entry is meant: by priorities, which choose the first entry that
      matches, or by bits, between any two entries that match. */
  lemma ChosenOrDecided(emitted: seq<TableEntry>, tableId: nat, keys: seq<KeyElement>, entries: seq<seq<Expr>>)
    requires InProgramOrder(emitted, tableId, NeedsPriority(keys), |entries|) && EmitsAll(emitted, keys, entries)
    requires NumberedInOrder(keys)
    ensures || SameChoice(emitted, keys, entries)
            || forall i, j, t | 0 <= i < |emitted| && 0 <= j < |emitted| && IsTuple(keys, t) &&
                                AllHold(emitted[i].matches, keys, t) && AllHold(emitted[j].matches, keys, t) ::
                 DecidedByBits(keys, emitted[i].matches, emitted[j].matches)
  {
    if NeedsPriority(keys) {
      ProgramOrderIsPriority(emitted, tableId, keys, entries);
    } else {
      forall j | 0 <= j < |keys| ensures keys[j].kind in {Exact, Lpm, Unsupported} {
        assert !AsksForPriority(keys[j].kind);
      }
      forall i, j, t | 0 <= i < |emitted| && 0 <= j < |emitted| && IsTuple(keys, t) &&
                       AllHold(emitted[i].matches, keys, t) && AllHold(emitted[j].matches, keys, t)
        ensures DecidedByBits(keys, emitted[i].matches, emitted[j].matches)
      {
        PrefixesDecide(keys, emitted[i].matches, emitted[j].matches, t);
      }
    }
  }
}
