/** Ranges of bits and shifts, word by word. */
module WordRanges {
  import opened BitWords

  function Ones(): Word {
    Not(Zero())
  }

  /** The part of the range `lo .. hi` that is in word `k`. */
  ghost function RangeWord(k: nat, lo: nat, hi: nat): Word {
    seq(UNIT, j requires 0 <= j < UNIT => lo <= UNIT * k + j < hi)
  }

  ghost predicate Within(i: nat, lo: nat, hi: nat) {
    lo <= i < hi
  }

  ghost function Range(lo: nat, hi: nat): set<nat> {
    set i: nat | i < hi && Within(i, lo, hi)
  }

  lemma RangeInOneWord(lo: nat, hi: nat)
    requires lo < hi && lo / UNIT == (hi - 1) / UNIT
    ensures hi - lo <= UNIT && Shl(Low(hi - lo), lo % UNIT) == RangeWord(lo / UNIT, lo, hi)
  {
  }

  lemma RangeStart(lo: nat, hi: nat)
    requires lo / UNIT < hi / UNIT
    ensures Shl(Ones(), lo % UNIT) == RangeWord(lo / UNIT, lo, hi)
  {
  }

  lemma RangeMiddle(k: nat, lo: nat, hi: nat)
    requires lo / UNIT < k < hi / UNIT
    ensures Ones() == RangeWord(k, lo, hi)
  {
  }

  lemma RangeEnd(lo: nat, hi: nat)
    requires lo / UNIT < hi / UNIT
    ensures Below(hi % UNIT) == RangeWord(hi / UNIT, lo, hi)
  {
  }

  lemma RangeOutside(k: nat, lo: nat, hi: nat)
    requires k < lo / UNIT || k > hi / UNIT || (hi > 0 && k > (hi - 1) / UNIT)
    ensures RangeWord(k, lo, hi) == Zero()
  {
  }

  /** A range in several words is covered by these masks. */
  ghost function PartMask(k: nat, lo: nat, hi: nat): Word {
    if k < lo / UNIT || k > hi / UNIT then Zero()
    else if k == lo / UNIT then Shl(Ones(), lo % UNIT)
    else if k < hi / UNIT then Ones()
    else Below(hi % UNIT)
  }

  lemma PartMasks(k: nat, lo: nat, hi: nat)
    requires lo / UNIT < hi / UNIT
    ensures PartMask(k, lo, hi) == RangeWord(k, lo, hi)
  {
    if k < lo / UNIT || k > hi / UNIT {
      RangeOutside(k, lo, hi);
    } else if k == lo / UNIT {
      RangeStart(lo, hi);
    } else if k < hi / UNIT {
      RangeMiddle(k, lo, hi);
    } else {
      RangeEnd(lo, hi);
    }
  }

  lemma NothingAndAll(w: Word)
    ensures Or(w, Zero()) == w && And(w, Not(Zero())) == w
    ensures Or(w, Ones()) == Ones() && And(w, Not(Ones())) == Zero()
  {
  }

  /** Words to which the range has been added, and words from which it has been taken. */
  ghost predicate RangeSet(from: seq<Word>, ws: seq<Word>, lo: nat, hi: nat) {
    |ws| == |from| && forall k | 0 <= k < |ws| :: ws[k] == Or(from[k], RangeWord(k, lo, hi))
  }

  ghost predicate RangeCleared(from: seq<Word>, ws: seq<Word>, lo: nat, hi: nat) {
    |ws| == |from| && forall k | 0 <= k < |ws| :: ws[k] == And(from[k], Not(RangeWord(k, lo, hi)))
  }

  lemma RangeSetBits(from: seq<Word>, ws: seq<Word>, lo: nat, hi: nat)
    requires RangeSet(from, ws, lo, hi) && hi <= UNIT * |ws|
    ensures Bits(ws) == Bits(from) + Range(lo, hi)
  {
    forall i: nat ensures Has(ws, i) <==> Has(from, i) || lo <= i < hi {
      if i / UNIT < |ws| {
        assert ws[i / UNIT] == Or(from[i / UNIT], RangeWord(i / UNIT, lo, hi));
      }
    }
  }

  lemma RangeClearedBits(from: seq<Word>, ws: seq<Word>, lo: nat, hi: nat)
    requires RangeCleared(from, ws, lo, hi)
    ensures Bits(ws) == Bits(from) - Range(lo, hi)
  {
    forall i: nat ensures Has(ws, i) <==> Has(from, i) && !(lo <= i < hi) {
      if i / UNIT < |ws| {
        assert ws[i / UNIT] == And(from[i / UNIT], Not(RangeWord(i / UNIT, lo, hi)));
      }
    }
  }

  // Facts about sets. They are looked at only where `Look` is mentioned.

  ghost predicate Look(t: set<nat>, z: int) {
    true
  }

  /** All numbers become smaller by `n`; those below `n` are lost. */
  ghost predicate MovedDown(s: set<nat>, t: set<nat>, n: nat) {
    forall z {:trigger Look(t, z)} | Look(t, z) :: forall i: nat {:trigger i in t} :: i in t <==> i + n in s
  }

  /** All numbers become greater by `n`. */
  ghost predicate MovedUp(s: set<nat>, t: set<nat>, n: nat) {
    forall z {:trigger Look(t, z)} | Look(t, z) :: forall i: nat {:trigger i in t} :: i in t <==> i >= n && i - n in s
  }

  /** `r` is the first number in `s` from `start` on, or -1. */
  ghost predicate IsNext(s: set<nat>, start: nat, r: int) {
    forall z {:trigger Look(s, z)} | Look(s, z) ::
      if r == -1 then forall i | i in s :: i < start
      else r >= start && r in s && forall i | i in s :: i < start || i >= r
  }

  /** `r` is the last number in `s` before `bound`, or -1. */
  ghost predicate IsPrevious(s: set<nat>, bound: nat, r: int) {
    forall z {:trigger Look(s, z)} | Look(s, z) ::
      if r == -1 then forall i | i in s :: i >= bound
      else 0 <= r < bound && r in s && forall i | i in s :: i >= bound || i <= r
  }

  /** `r` is the first number from `start` on that is not in `s`. */
  ghost predicate IsGap(s: set<nat>, start: nat, r: nat) {
    forall z {:trigger Look(s, z)} | Look(s, z) :: r >= start && r !in s && forall i | start <= i < r :: i in s
  }

  /** `t` is `s` with the `sz` lowest bits of `v` put at `idx`. */
  ghost predicate IsPut(s: set<nat>, t: set<nat>, idx: nat, sz: nat, v: Word)
    requires sz <= UNIT
  {
    forall z {:trigger Look(t, z)} | Look(t, z) ::
      forall i: nat {:trigger i in t} :: i in t <==> if idx <= i < idx + sz then v[i - idx] else i in s
  }

  // Shifts, by `off` words and `c` bits.

  /** Word `i` of the words shifted down. */
  function DownWord(ws: seq<Word>, off: nat, c: nat, i: nat): Word
    requires c < UNIT
  {
    if i + off >= |ws| then Zero()
    else if c != 0 && i + off + 1 < |ws| then Or(Shr(ws[i + off], c), Shl(ws[i + off + 1], UNIT - c))
    else Shr(ws[i + off], c)
  }

  /** Word `i` of the words shifted up. */
  function UpWord(ws: seq<Word>, off: nat, c: nat, i: nat): Word
    requires c < UNIT && i < |ws|
  {
    if i < off then Zero()
    else if c != 0 && i > off then Or(Shl(ws[i - off], c), Shr(ws[i - off - 1], UNIT - c))
    else Shl(ws[i - off], c)
  }

  lemma HasAt(ws: seq<Word>, k: nat, j: nat)
    requires j < UNIT
    ensures Has(ws, UNIT * k + j) <==> k < |ws| && ws[k][j]
  {
    DivMod(k, j);
  }

  /** Bit `m` of a word and its successor. */
  ghost predicate Across(ws: seq<Word>, k: int, m: int)
    requires -UNIT <= m < 2 * UNIT
  {
    if m < 0 then k >= 1 && WordAt(ws, k - 1)[m + UNIT]
    else if m < UNIT then k >= 0 && WordAt(ws, k)[m]
    else k >= -1 && WordAt(ws, k + 1)[m - UNIT]
  }

  lemma HasAcross(ws: seq<Word>, k: int, m: int, i: nat)
    requires -UNIT <= m < 2 * UNIT && i == UNIT * k + m
    ensures Across(ws, k, m) <==> Has(ws, i)
    ensures i / UNIT == k + (if m < 0 then -1 else if m < UNIT then 0 else 1)
    ensures i % UNIT == m - UNIT * (if m < 0 then -1 else if m < UNIT then 0 else 1)
  {
    var d := if m < 0 then -1 else if m < UNIT then 0 else 1;
    assert i == UNIT * (k + d) + (m - UNIT * d);
    HasAt(ws, k + d, m - UNIT * d);
    DivMod(k + d, m - UNIT * d);
  }

  lemma DownBit(ws: seq<Word>, off: nat, c: nat, i: nat, j: nat)
    requires c < UNIT && j < UNIT
    ensures DownWord(ws, off, c, i)[j] <==> Across(ws, i + off, j + c)
  {
    if i + off + 1 < |ws| && c > 0 {
      JoinedBelow(ws[i + off], ws[i + off + 1], c, j);
    }
  }

  /** A word shifted down, with the bottom of the word after it shifted in. */
  lemma JoinedBelow(w: Word, above: Word, c: nat, j: nat)
    requires 0 < c < UNIT && j < UNIT
    ensures Or(Shr(w, c), Shl(above, UNIT - c))[j] <==> if j + c < UNIT then w[j + c] else above[j + c - UNIT]
  {
  }

  lemma UpBit(ws: seq<Word>, off: nat, c: nat, i: nat, j: nat)
    requires c < UNIT && j < UNIT && i < |ws|
    ensures UpWord(ws, off, c, i)[j] <==> Across(ws, i - off, j - c)
  {
    if i > off && c > 0 {
      JoinedBit(ws[i - off], ws[i - off - 1], c, j);
    }
  }

  /** A word shifted up, with the top of the word before it shifted in. */
  lemma JoinedBit(w: Word, below: Word, c: nat, j: nat)
    requires 0 < c < UNIT && j < UNIT
    ensures Or(Shl(w, c), Shr(below, UNIT - c))[j] <==> if j >= c then w[j - c] else below[j + UNIT - c]
  {
  }

  ghost predicate Peek(ws: seq<Word>, z: int) {
    true
  }

  ghost predicate ShiftedDown(from: seq<Word>, ws: seq<Word>, off: nat, c: nat)
    requires c < UNIT
  {
    forall z {:trigger Peek(ws, z)} | Peek(ws, z) :: forall i: nat :: WordAt(ws, i) == DownWord(from, off, c, i)
  }

  ghost predicate ShiftedUp(from: seq<Word>, ws: seq<Word>, off: nat, c: nat)
    requires c < UNIT
  {
    |ws| == |from| && forall z {:trigger Peek(ws, z)} | Peek(ws, z) :: forall i | 0 <= i < |ws| :: ws[i] == UpWord(from, off, c, i)
  }

  lemma HasSplit(ws: seq<Word>, i: nat) returns (k: nat, j: nat)
    ensures k == i / UNIT && j == i % UNIT && i == UNIT * k + j && j < UNIT && (Has(ws, i) <==> WordAt(ws, k)[j])
  {
    k, j := i / UNIT, i % UNIT;
  }

  lemma ShiftedDownBit(from: seq<Word>, ws: seq<Word>, off: nat, c: nat, n: nat, i: nat)
    requires c < UNIT && ShiftedDown(from, ws, off, c) && n == UNIT * off + c
    ensures Has(ws, i) <==> Has(from, i + n)
  {
    var k, j := HasSplit(ws, i);
    DownAcross(from, ws, off, c, k, j);
    HasAcross(from, k + off, j + c, i + n);
  }

  lemma DownAcross(from: seq<Word>, ws: seq<Word>, off: nat, c: nat, k: nat, j: nat)
    requires c < UNIT && j < UNIT && ShiftedDown(from, ws, off, c)
    ensures WordAt(ws, k)[j] <==> Across(from, k + off, j + c)
  {
    assert Peek(ws, 0);
    assert WordAt(ws, k) == DownWord(from, off, c, k);
    DownBit(from, off, c, k, j);
  }

  lemma ShiftedDownBits(from: seq<Word>, ws: seq<Word>, off: nat, c: nat, n: nat)
    requires c < UNIT && ShiftedDown(from, ws, off, c) && n == UNIT * off + c
    ensures MovedDown(Bits(from), Bits(ws), n)
  {
    forall i: nat ensures i in Bits(ws) <==> i + n in Bits(from) {
      InBits(ws, i);
      InBits(from, i + n);
      ShiftedDownBit(from, ws, off, c, n, i);
    }
  }

  lemma ShiftedUpBit(from: seq<Word>, ws: seq<Word>, off: nat, c: nat, n: nat, i: nat)
    requires c < UNIT && ShiftedUp(from, ws, off, c) && n == UNIT * off + c
    requires i >= n && Has(from, i - n) ==> i < UNIT * |ws|
    ensures Has(ws, i) <==> i >= n && Has(from, i - n)
  {
    var k, j := HasSplit(ws, i);
    if k < |ws| {
      UpAcross(from, ws, off, c, k, j);
      if i >= n {
        HasAcross(from, k - off, j - c, i - n);
      }
    }
  }

  lemma UpAcross(from: seq<Word>, ws: seq<Word>, off: nat, c: nat, k: nat, j: nat)
    requires c < UNIT && j < UNIT && k < |ws| && ShiftedUp(from, ws, off, c)
    ensures ws[k][j] <==> Across(from, k - off, j - c)
  {
    assert Peek(ws, 0);
    assert ws[k] == UpWord(from, off, c, k);
    UpBit(from, off, c, k, j);
  }

  /** No bit is lost if there is room for the highest. */
  lemma ShiftedUpBits(from: seq<Word>, ws: seq<Word>, off: nat, c: nat, n: nat)
    requires c < UNIT && ShiftedUp(from, ws, off, c) && n == UNIT * off + c
    requires forall i | i in Bits(from) :: i + n < UNIT * |ws|
    ensures MovedUp(Bits(from), Bits(ws), n)
  {
    forall i: nat ensures i in Bits(ws) <==> i >= n && i - n in Bits(from) {
      InBits(ws, i);
      if i >= n {
        InBits(from, i - n);
      }
      ShiftedUpBit(from, ws, off, c, n, i);
    }
  }

  // The lowest and the highest bit of a word.

  /** The number of trailing zeros. */
  function Ctz(w: Word): (r: nat)
    requires w != Zero()
    ensures r < UNIT && w[r] && forall j | 0 <= j < r :: !w[j]
  {
    CtzFrom(w, 0)
  }

  function CtzFrom(w: Word, i: nat): (r: nat)
    requires w != Zero() && i < UNIT && forall j | 0 <= j < i :: !w[j]
    ensures i <= r < UNIT && w[r] && forall j | 0 <= j < r :: !w[j]
    decreases UNIT - i
  {
    if w[i] then i
    else
      assert i + 1 == UNIT ==> w == Zero();
      CtzFrom(w, i + 1)
  }

  /** The number of leading zeros. */
  function Clz(w: Word): (r: nat)
    requires w != Zero()
    ensures r < UNIT && w[UNIT - 1 - r] && forall j | UNIT - 1 - r < j < UNIT :: !w[j]
  {
    ClzFrom(w, 0)
  }

  function ClzFrom(w: Word, i: nat): (r: nat)
    requires w != Zero() && i < UNIT && forall j | UNIT - 1 - i < j < UNIT :: !w[j]
    ensures i <= r < UNIT && w[UNIT - 1 - r] && forall j | UNIT - 1 - r < j < UNIT :: !w[j]
    decreases UNIT - i
  {
    if w[UNIT - 1 - i] then i
    else
      assert i + 1 == UNIT ==> w == Zero();
      ClzFrom(w, i + 1)
  }
}
