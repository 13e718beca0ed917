/** Tables without priorities: of the entries that match, P4Runtime chooses the one with the longest
    prefix, and P4 the first. */
module LpmOrder {
  import opened BigInt
  import opened Bytestrings
  import opened MatchMeaning
  import opened EntriesConverter

  /** The length of the prefix that a message asks for; 0 if the field is left out. */
  ghost function PrefixLength(ms: seq<FieldMatch>): int {
    if ms == [] then 0
    else
      PrefixLength(ms[..|ms| - 1]) +
      match ms[|ms| - 1].spec
      case LpmMatch(_, p) => p
      case _ => 0
  }

  ghost predicate IsLongest(emitted: seq<TableEntry>, keys: seq<KeyElement>, t: seq<int>, i: nat) {
    && i < |emitted| && AllHold(emitted[i].matches, keys, t)
    && forall j | 0 <= j < |emitted| && j != i && AllHold(emitted[j].matches, keys, t) ::
         PrefixLength(emitted[j].matches) < PrefixLength(emitted[i].matches)
  }

  /** If entry `i` is the first that matches `t`, a later one that matches it too has a shorter prefix. */
  ghost predicate ShorterLater(emitted: seq<TableEntry>, keys: seq<KeyElement>, entries: seq<seq<Expr>>, t: seq<int>, i: nat, j: nat) {
    i < j < |entries| == |emitted| && IsFirstMatch(entries, keys, t, i) && KeysMatch(entries[j], t, |keys|) ==>
      PrefixLength(emitted[j].matches) < PrefixLength(emitted[i].matches)
  }

  ghost predicate LongestFirst(emitted: seq<TableEntry>, keys: seq<KeyElement>, entries: seq<seq<Expr>>) {
    forall t, i: nat, j: nat | IsTuple(keys, t) :: ShorterLater(emitted, keys, entries, t, i, j)
  }

  ghost predicate LongestIsFirst(emitted: seq<TableEntry>, keys: seq<KeyElement>, entries: seq<seq<Expr>>) {
    forall t, i: nat | IsTuple(keys, t) :: IsFirstMatch(entries, keys, t, i) <==> IsLongest(emitted, keys, t, i)
  }

  /** The longest prefix is the first match for all keys exactly if no entry that is the first for some key
      is followed by one for that key with as long a prefix. */
  lemma SameChoiceByLength(emitted: seq<TableEntry>, keys: seq<KeyElement>, entries: seq<seq<Expr>>)
    requires EmitsAll(emitted, keys, entries) && NumberedInOrder(keys)
    ensures LongestIsFirst(emitted, keys, entries) <==> LongestFirst(emitted, keys, entries)
  {
    if LongestIsFirst(emitted, keys, entries) {
      forall t, i: nat, j: nat | IsTuple(keys, t) ensures ShorterLater(emitted, keys, entries, t, i, j) {
        SameMatches(emitted, keys, entries, t);
        assert IsFirstMatch(entries, keys, t, i) <==> IsLongest(emitted, keys, t, i);
      }
    }
    if LongestFirst(emitted, keys, entries) {
      forall t, i: nat | IsTuple(keys, t) ensures IsFirstMatch(entries, keys, t, i) <==> IsLongest(emitted, keys, t, i) {
        SameMatches(emitted, keys, entries, t);
        FirstIsLongest(emitted, keys, entries, t, i);
      }
    }
  }

  lemma SameMatches(emitted: seq<TableEntry>, keys: seq<KeyElement>, entries: seq<seq<Expr>>, t: seq<int>)
    requires EmitsAll(emitted, keys, entries) && NumberedInOrder(keys) && IsTuple(keys, t)
    ensures forall j | 0 <= j < |entries| :: AllHold(emitted[j].matches, keys, t) <==> KeysMatch(entries[j], t, |keys|)
  {
    forall j | 0 <= j < |entries| ensures AllHold(emitted[j].matches, keys, t) <==> KeysMatch(entries[j], t, |keys|) {
      assert EmitsEntry(emitted[j], keys, entries[j]);
      EmittedMeansSame(emitted[j].matches, keys, entries[j], |keys|);
    }
  }

  lemma FirstIsLongest(emitted: seq<TableEntry>, keys: seq<KeyElement>, entries: seq<seq<Expr>>, t: seq<int>, i: nat)
    requires LongestFirst(emitted, keys, entries) && IsTuple(keys, t) && |emitted| == |entries|
    requires forall j | 0 <= j < |entries| :: AllHold(emitted[j].matches, keys, t) <==> KeysMatch(entries[j], t, |keys|)
    ensures IsFirstMatch(entries, keys, t, i) <==> IsLongest(emitted, keys, t, i)
  {
    if i < |entries| && KeysMatch(entries[i], t, |keys|) {
      var f := FirstMatch(entries, keys, t, i);
      forall j | 0 <= j < |entries| && j != f && KeysMatch(entries[j], t, |keys|)
        ensures PrefixLength(emitted[j].matches) < PrefixLength(emitted[f].matches)
      {
        assert ShorterLater(emitted, keys, entries, t, f, j);
      }
    }
  }

  lemma {:induction false} FirstMatch(entries: seq<seq<Expr>>, keys: seq<KeyElement>, t: seq<int>, i: nat) returns (f: nat)
    requires i < |entries| && KeysMatch(entries[i], t, |keys|)
    ensures f <= i && IsFirstMatch(entries, keys, t, f)
    decreases i
  {
    if j :| 0 <= j < i && KeysMatch(entries[j], t, |keys|) {
      f := FirstMatch(entries, keys, t, j);
    } else {
      f := i;
    }
  }

  // The condition on the values and masks of the entries, for a table with a single key field.

  /** The keys of `w` bits whose first `length` bits are the number `high`. */
  datatype Prefix = Prefix(high: int, length: int)

  ghost predicate Contains(q: Prefix, k: int, w: nat) {
    0 <= q.length <= w && ShiftRight(k, w - q.length) == q.high
  }

  /** The expression matches the keys of the prefix. */
  ghost predicate HasPrefix(e: Expr, q: Prefix, w: nat) {
    forall k | 0 <= k < Pow2(w) :: Matches(e, k) <==> Contains(q, k, w)
  }

  predicate IsPrefix(q: Prefix, w: nat) {
    0 <= q.length <= w && 0 <= q.high < Pow2(q.length)
  }

  /** All keys of `q` are keys of `r`. */
  predicate Within(q: Prefix, r: Prefix) {
    0 <= r.length <= q.length && ShiftRight(q.high, q.length - r.length) == r.high
  }

  /** Each key of `q` is a key of one of the prefixes: `q` is within one of them, or both halves of `q` are covered. */
  predicate Covered(ps: seq<Prefix>, q: Prefix, w: nat)
    decreases w - q.length
  {
    || (exists f :: 0 <= f < |ps| && Within(q, ps[f]))
    || (q.length < w && Covered(ps, Prefix(2 * q.high, q.length + 1), w) && Covered(ps, Prefix(2 * q.high + 1, q.length + 1), w))
  }

  /** The prefix that a key expression stands for: that of its value and mask. */
  function PrefixOf(e: Expr, w: nat): Prefix {
    match e
    case Default => Prefix(0, 0)
    case Mask(l, r) =>
      if Meant(l).None? || Meant(r).None? || And(Meant(r).value, Pow2(w) - 1) <= 0 then Prefix(0, 0)
      else
        var len := Lsb(And(Meant(r).value, Pow2(w) - 1));
        Prefix(ShiftRight(And(Meant(l).value, Meant(r).value), len), w - len)
    case _ => if Meant(e).Some? then Prefix(Meant(e).value, w) else Prefix(0, 0)
  }

  function Prefixes(entries: seq<seq<Expr>>, w: nat): seq<Prefix>
    requires forall e | e in entries :: |e| == 1
  {
    seq(|entries|, i requires 0 <= i < |entries| => PrefixOf(entries[i][0], w))
  }

  /** An entry after another one that it is within has no keys left that no entry before both has. */
  predicate LongBeforeShort(ps: seq<Prefix>, w: nat) {
    forall i, j | 0 <= i < j < |ps| && Within(ps[j], ps[i]) :: Covered(ps[..i], ps[j], w)
  }

  lemma ShiftTwice(k: int, m: nat, n: nat)
    ensures ShiftRight(ShiftRight(k, m), n) == ShiftRight(k, m + n)
  {
    forall i: nat ensures Bit(ShiftRight(ShiftRight(k, m), n), i) == Bit(ShiftRight(k, m + n), i) {
      BitShiftRight(ShiftRight(k, m), n, i);
      BitShiftRight(k, m, i + n);
      BitShiftRight(k, m + n, i);
    }
    SameBits(ShiftRight(ShiftRight(k, m), n), ShiftRight(k, m + n));
  }

  ghost predicate InOneOf(ps: seq<Prefix>, k: int, w: nat) {
    exists f :: 0 <= f < |ps| && Contains(ps[f], k, w)
  }

  lemma {:induction false} CoveredExactly(ps: seq<Prefix>, q: Prefix, w: nat)
    requires IsPrefix(q, w) && forall p | p in ps :: IsPrefix(p, w)
    ensures Covered(ps, q, w) <==> forall k | 0 <= k < Pow2(w) && Contains(q, k, w) :: InOneOf(ps, k, w)
    decreases w - q.length
  {
    if f :| 0 <= f < |ps| && Within(q, ps[f]) {
      forall k | 0 <= k < Pow2(w) && Contains(q, k, w) ensures InOneOf(ps, k, w) {
        ShiftTwice(k, w - q.length, q.length - ps[f].length);
        assert Contains(ps[f], k, w);
      }
    } else if q.length == w {
      assert Contains(q, q.high, w);
      if f :| 0 <= f < |ps| && Contains(ps[f], q.high, w) {
        assert Within(q, ps[f]);
      }
    } else {
      var q0, q1 := Prefix(2 * q.high, q.length + 1), Prefix(2 * q.high + 1, q.length + 1);
      CoveredExactly(ps, q0, w);
      CoveredExactly(ps, q1, w);
      forall k ensures Contains(q, k, w) <==> Contains(q0, k, w) || Contains(q1, k, w) {
        ShiftTwice(k, w - q.length - 1, 1);
      }
    }
  }

  /** A kept entry of an LPM field matches the keys of its prefix. */
  lemma EntryIsPrefix(e: Expr, w: nat)
    requires Typed(Lpm, e, w) && Accepted(Lpm, e, w) && KeepsMeaning(Lpm, e, w)
    ensures IsPrefix(PrefixOf(e, w), w)
    ensures HasPrefix(e, PrefixOf(e, w), w)
  {
    SimpleExpr(e);
    PartsSimple(e);
    if !GivenUp(Lpm, e) && e.Mask? {
      MaskIsPrefix(e, w);
    } else if e.Default? || e.Mask? {
      if e.Mask? {
        SilentMask(e, w);
      }
      forall k | 0 <= k < Pow2(w) ensures Contains(Prefix(0, 0), k, w) {
        AllKeysIn(k, w);
      }
    } else {
      ValueIsPrefix(e, w);
    }
  }

  lemma AllKeysIn(k: nat, w: nat)
    requires k < Pow2(w)
    ensures Contains(Prefix(0, 0), k, w)
  {
    ShiftRightBound(k, w, w);
    ShiftRightKeepsSign(k, w);
  }

  lemma ValueIsPrefix(e: Expr, w: nat)
    requires Typed(Lpm, e, w) && Accepted(Lpm, e, w) && KeepsMeaning(Lpm, e, w) && !e.Mask? && !e.Default?
    ensures IsPrefix(PrefixOf(e, w), w)
    ensures HasPrefix(e, PrefixOf(e, w), w)
  {
    SimpleExpr(e);
    if GivenUp(Lpm, e) {
      SilentValue(e, w);
    }
  }

  lemma MaskIsPrefix(e: Expr, w: nat)
    requires e.Mask? && Translatable(Lpm, e, w) && MaskKept(e.left, e.right, w)
    ensures IsPrefix(PrefixOf(e, w), w)
    ensures HasPrefix(e, PrefixOf(e, w), w)
  {
    var mask, v := e.right.n, And(Meant(e.left).value, e.right.n);
    Pow2Positive(w);
    AndBound(mask, Pow2(w) - 1, w);
    if mask > 0 {
      AndBound(Meant(e.left).value, mask, w);
      MaskTwice(Meant(e.left).value, mask);
      PrefixBits(mask, w, 0);
      ShiftRightBound(v, w, Lsb(mask));
      ShiftRightKeepsSign(v, Lsb(mask));
      forall k | 0 <= k < Pow2(w) ensures Matches(e, k) <==> Contains(PrefixOf(e, w), k, w) {
        PrefixAgree(k, v, mask, w);
      }
    } else {
      forall k | 0 <= k < Pow2(w) ensures Matches(e, k) && Contains(PrefixOf(e, w), k, w) {
        AllKeysIn(k, w);
        assert And(k, 0) == 0 && And(Meant(e.left).value, 0) == 0;
      }
    }
  }

  /** A longer prefix has fewer keys. */
  lemma LongerHasFewer(q: Prefix, q': Prefix, v: nat, w: nat) returns (k: nat)
    requires q.length < q'.length && v < Pow2(w) && Contains(q, v, w) && Contains(q', v, w)
    ensures k < Pow2(w) && Contains(q, k, w) && !Contains(q', k, w)
  {
    var n, m := w - q'.length, w - q.length;
    k := Toggle(v, n);
    MaskSets.ToggleWithin(v, n, w);
    forall i: nat ensures Bit(ShiftRight(k, m), i) == Bit(ShiftRight(v, m), i) {
      BitShiftRight(k, m, i);
      BitShiftRight(v, m, i);
      BitToggle(v, n, i + m);
    }
    SameBits(ShiftRight(k, m), ShiftRight(v, m));
    BitShiftRight(k, n, 0);
    BitShiftRight(v, n, 0);
    BitToggle(v, n, n);
  }

  lemma SameKeysSameLength(q: Prefix, q': Prefix, v: nat, w: nat)
    requires forall k | 0 <= k < Pow2(w) :: Contains(q, k, w) <==> Contains(q', k, w)
    requires v < Pow2(w) && Contains(q, v, w)
    ensures q.length == q'.length
  {
    if q.length < q'.length {
      var k := LongerHasFewer(q, q', v, w);
    } else if q'.length < q.length {
      var k := LongerHasFewer(q', q, v, w);
    }
  }

  /** The message for an entry has the length of its prefix. */
  lemma EmittedLength(ms: seq<FieldMatch>, keys: seq<KeyElement>, e: Expr, w: nat)
    requires keys == [KeyElement(Lpm, w, 1)] && Emits(ms, keys, [e], 1)
    requires HasPrefix(e, PrefixOf(e, w), w)
    ensures PrefixLength(ms) == PrefixOf(e, w).length
  {
    var cut: nat :| cut <= |ms| && Emits(ms[..cut], keys, [e], 0) && Piece(ms[cut..], keys, [e], 0);
    assert ms[cut..] == ms;
    if ms == [] {
      NothingHasNoLength(e, PrefixOf(e, w), w);
    } else {
      var m := ms[0];
      assert m in ms && ms == [m] && ms[..0] == [];
      MatchHasLength(m, e, PrefixOf(e, w), w);
    }
  }

  lemma NothingHasNoLength(e: Expr, q: Prefix, w: nat)
    requires Lowered([], 1, w, e) && HasPrefix(e, q, w)
    ensures q.length == 0
  {
    Pow2Positive(w);
    forall k | 0 <= k < Pow2(w) ensures Contains(Prefix(0, 0), k, w) && Contains(q, k, w) {
      AllKeysIn(k, w);
      assert SameMeaning([], w, e, k);
    }
    SameKeysSameLength(Prefix(0, 0), q, 0, w);
  }

  lemma MatchHasLength(m: FieldMatch, e: Expr, q: Prefix, w: nat)
    requires m.spec.LpmMatch? && Lowered([m], 1, w, e) && HasPrefix(e, q, w)
    ensures q.length == m.spec.prefixLen
  {
    var v, p := Decode(m.spec.value), m.spec.prefixLen;
    var q' := Prefix(ShiftRight(v, w - p), p);
    forall k | 0 <= k < Pow2(w) ensures Contains(q', k, w) <==> Contains(q, k, w) {
      OneMatch(m, w, e, k);
    }
    SameKeysSameLength(q', q, v, w);
  }

  ghost predicate EntryKept(e: Expr, w: nat) {
    Typed(Lpm, e, w) && Accepted(Lpm, e, w) && KeepsMeaning(Lpm, e, w)
  }

  ghost predicate LpmTable(emitted: seq<TableEntry>, keys: seq<KeyElement>, entries: seq<seq<Expr>>, w: nat) {
    && keys == [KeyElement(Lpm, w, 1)] && EmitsAll(emitted, keys, entries)
    && forall e | e in entries :: |e| == 1 && EntryKept(e[0], w)
  }

  /** With a single LPM field the longest prefix is the first match for all keys exactly if each entry that is within
      an earlier one is covered by the entries before that one. */
  lemma SameChoiceExactly(emitted: seq<TableEntry>, keys: seq<KeyElement>, entries: seq<seq<Expr>>, w: nat)
    requires LpmTable(emitted, keys, entries, w)
    ensures LongestIsFirst(emitted, keys, entries) <==> LongBeforeShort(Prefixes(entries, w), w)
  {
    assert AtItsNumber(keys, 0);
    SameChoiceByLength(emitted, keys, entries);
    var ps := Prefixes(entries, w);
    EntriesArePrefixes(emitted, keys, entries, w);
    if LongestFirst(emitted, keys, entries) {
      forall i, j | 0 <= i < j < |ps| && Within(ps[j], ps[i]) ensures Covered(ps[..i], ps[j], w) {
        EntryIsCovered(emitted, keys, entries, ps, w, i, j);
      }
    }
    if LongBeforeShort(ps, w) {
      forall t, i: nat, j: nat | IsTuple(keys, t) ensures ShorterLater(emitted, keys, entries, t, i, j) {
        LaterIsShorter(emitted, keys, entries, ps, w, t, i, j);
      }
    }
  }

  ghost predicate SameKeysAs(p: Prefix, entry: seq<Expr>, t: seq<int>, w: nat) {
    |t| == 1 && (KeysMatch(entry, t, 1) <==> Contains(p, t[0], w))
  }

  /** The entries are the prefixes `ps`, and the messages have their lengths. */
  ghost predicate ArePrefixes(emitted: seq<TableEntry>, keys: seq<KeyElement>, entries: seq<seq<Expr>>, ps: seq<Prefix>, w: nat) {
    && keys == [KeyElement(Lpm, w, 1)] && |emitted| == |entries| == |ps|
    && (forall p | p in ps :: IsPrefix(p, w))
    && (forall i | 0 <= i < |entries| :: PrefixLength(emitted[i].matches) == ps[i].length)
    && (forall i, t {:trigger SameKeysAs(ps[i], entries[i], t, w)} | 0 <= i < |entries| && IsTuple(keys, t) :: SameKeysAs(ps[i], entries[i], t, w))
  }

  lemma EntryIsCovered(emitted: seq<TableEntry>, keys: seq<KeyElement>, entries: seq<seq<Expr>>, ps: seq<Prefix>, w: nat, i: nat, j: nat)
    requires ArePrefixes(emitted, keys, entries, ps, w) && i < j < |ps| && Within(ps[j], ps[i])
    requires LongestFirst(emitted, keys, entries)
    ensures Covered(ps[..i], ps[j], w)
  {
    forall k | 0 <= k < Pow2(w) && Contains(ps[j], k, w) ensures InOneOf(ps[..i], k, w) {
      assert IsTuple(keys, [k]) && ShorterLater(emitted, keys, entries, [k], i, j);
      assert SameKeysAs(ps[j], entries[j], [k], w) && SameKeysAs(ps[i], entries[i], [k], w);
      InLonger(ps[j], ps[i], k, w);
      var f :| 0 <= f < i && KeysMatch(entries[f], [k], 1);
      assert SameKeysAs(ps[f], entries[f], [k], w);
      assert ps[..i][f] == ps[f];
    }
    CoveredExactly(ps[..i], ps[j], w);
  }

  /** The keys of a prefix are within another one if they are no fewer bits long and have one key in common. */
  lemma InLonger(q: Prefix, r: Prefix, k: int, w: nat)
    requires IsPrefix(r, w) && Contains(q, k, w) && r.length <= q.length
    ensures Within(q, r) <==> Contains(r, k, w)
  {
    ShiftTwice(k, w - q.length, q.length - r.length);
  }

  lemma LaterIsShorter(emitted: seq<TableEntry>, keys: seq<KeyElement>, entries: seq<seq<Expr>>, ps: seq<Prefix>, w: nat, t: seq<int>, i: nat, j: nat)
    requires ArePrefixes(emitted, keys, entries, ps, w) && IsTuple(keys, t) && LongBeforeShort(ps, w)
    ensures ShorterLater(emitted, keys, entries, t, i, j)
  {
    if i < j < |ps| && IsFirstMatch(entries, keys, t, i) && KeysMatch(entries[j], t, 1) && ps[j].length >= ps[i].length {
      assert SameKeysAs(ps[j], entries[j], t, w) && SameKeysAs(ps[i], entries[i], t, w);
      InLonger(ps[j], ps[i], t[0], w);
      forall f | 0 <= f < i ensures !Contains(ps[..i][f], t[0], w) {
        assert SameKeysAs(ps[f], entries[f], t, w);
      }
      CoveredExactly(ps[..i], ps[j], w);
    }
  }

  lemma EntriesArePrefixes(emitted: seq<TableEntry>, keys: seq<KeyElement>, entries: seq<seq<Expr>>, w: nat)
    requires LpmTable(emitted, keys, entries, w)
    ensures ArePrefixes(emitted, keys, entries, Prefixes(entries, w), w)
  {
    var ps := Prefixes(entries, w);
    forall i, t | 0 <= i < |entries| && IsTuple(keys, t) ensures SameKeysAs(ps[i], entries[i], t, w) {
      OneEntry(emitted, keys, entries, w, i);
      assert Matches(entries[i][0], t[0]) <==> Contains(ps[i], t[0], w);
    }
    forall i | 0 <= i < |entries| ensures IsPrefix(ps[i], w) && PrefixLength(emitted[i].matches) == ps[i].length {
      OneEntry(emitted, keys, entries, w, i);
    }
  }

  lemma OneEntry(emitted: seq<TableEntry>, keys: seq<KeyElement>, entries: seq<seq<Expr>>, w: nat, i: nat)
    requires LpmTable(emitted, keys, entries, w) && i < |entries|
    ensures var p := PrefixOf(entries[i][0], w);
            && IsPrefix(p, w) && PrefixLength(emitted[i].matches) == p.length
            && HasPrefix(entries[i][0], p, w)
  {
    assert entries[i] in entries && EmitsEntry(emitted[i], keys, entries[i]);
    assert entries[i] == [entries[i][0]];
    EntryIsPrefix(entries[i][0], w);
    EmittedLength(emitted[i].matches, keys, entries[i][0], w);
  }

  /** `0 &&& 128` before `0 &&& 192`: for 0 the program takes the first, P4Runtime the second. */
  lemma ShortBeforeLong()
    ensures var keys := [KeyElement(Lpm, 8, 1)];
            var entries := [[Mask(Constant(0), Constant(128))], [Mask(Constant(0), Constant(192))]];
            var emitted := [Prefixed(1), Prefixed(2)];
            && EmitsAll(emitted, keys, entries) && NumberedInOrder(keys) && IsTuple(keys, [0])
            && IsFirstMatch(entries, keys, [0], 0) && IsLongest(emitted, keys, [0], 1)
  {
    var keys := [KeyElement(Lpm, 8, 1)];
    var entries := [[Mask(Constant(0), Constant(128))], [Mask(Constant(0), Constant(192))]];
    var emitted := [Prefixed(1), Prefixed(2)];
    BothEmitted(keys);
    LengthOf(1);
    LengthOf(2);
    MatchesZero(128);
    MatchesZero(192);
    FirstNotLongest(emitted, keys, entries, 8);
  }

  lemma MatchesZero(mask: int)
    ensures Matches(Mask(Constant(0), Constant(mask)), 0)
  {
  }

  /** Of two entries for 0 the program takes the first, P4Runtime the longer one. */
  lemma FirstNotLongest(emitted: seq<TableEntry>, keys: seq<KeyElement>, entries: seq<seq<Expr>>, w: nat)
    requires keys == [KeyElement(Lpm, w, 1)] && |entries| == 2 && EmitsAll(emitted, keys, entries)
    requires forall i | 0 <= i < 2 :: |entries[i]| == 1 && Matches(entries[i][0], 0)
    requires PrefixLength(emitted[0].matches) < PrefixLength(emitted[1].matches)
    ensures NumberedInOrder(keys) && IsTuple(keys, [0]) && IsFirstMatch(entries, keys, [0], 0) && IsLongest(emitted, keys, [0], 1)
  {
    Pow2Positive(w);
    assert AtItsNumber(keys, 0) && IsTuple(keys, [0]);
    SameMatches(emitted, keys, entries, [0]);
    assert KeysMatch(entries[0], [0], 1) && KeysMatch(entries[1], [0], 1);
  }

  lemma BothEmitted(keys: seq<KeyElement>)
    requires keys == [KeyElement(Lpm, 8, 1)]
    ensures EmitsAll([Prefixed(1), Prefixed(2)], keys, [[Mask(Constant(0), Constant(128))], [Mask(Constant(0), Constant(192))]])
    ensures Pow2(8) == 256
  {
    Masks();
    EmitsPrefix(keys, 128, 1);
    EmitsPrefix(keys, 192, 2);
  }

  ghost function Prefixed(p: nat): TableEntry {
    TableEntry(1, [FieldMatch(1, LpmMatch([0], p))], 0)
  }

  lemma LengthOf(p: nat)
    ensures PrefixLength(Prefixed(p).matches) == p
  {
    assert Prefixed(p).matches[..0] == [];
  }

  lemma EmitsPrefix(keys: seq<KeyElement>, mask: nat, p: nat)
    requires keys == [KeyElement(Lpm, 8, 1)]
    requires 0 < mask < Pow2(8) && IsPrefixCount(mask, 8) && p == 8 - Lsb(mask) && And(0, mask) == 0 && Decode([0]) == 0
    ensures EmitsEntry(Prefixed(p), keys, [Mask(Constant(0), Constant(mask))])
  {
    var e, ms := Mask(Constant(0), Constant(mask)), Prefixed(p).matches;
    LowersPrefix(mask, [0], p, 8);
    assert SupportedIn(keys, 0) == 0;
    assert Emits([], keys, [e], 0) && Piece(ms, keys, [e], 0);
    EmitsNext([], ms, keys, [e], 0);
    assert [] + ms == ms;
  }

  lemma LowersPrefix(mask: nat, bs: seq<byte>, p: nat, w: nat)
    requires 0 < mask < Pow2(w) && IsPrefixCount(mask, w) && p == w - Lsb(mask) && And(0, mask) == 0 == Decode(bs)
    ensures Lowered([FieldMatch(1, LpmMatch(bs, p))], 1, w, Mask(Constant(0), Constant(mask)))
  {
    var l, r := Constant(0), Constant(mask);
    FullMask(mask, w);
    assert MaskKept(l, r, w);
    NarrowLpmMaskLowered(1, bs, w, Mask(l, r));
  }

  lemma Masks()
    ensures Pow2(8) == 256 && Decode([0]) == 0 && And(0, 128) == 0 && And(0, 192) == 0
    ensures Lsb(128) == 7 && PopCount(128) == 1 && Lsb(192) == 6 && PopCount(192) == 2
  {
    assert Pow2(4) == 16;
    assert Lsb(8) == 3 && PopCount(8) == 1;
    assert Lsb(12) == 2 && PopCount(12) == 2;
    assert Lsb(64) == 6 && Lsb(96) == 5;
    assert PopCount(32) == 1 && PopCount(48) == 2;
  }
}
