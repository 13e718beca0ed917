/** The hexadecimal text of a bit vector. */
module BitHex {
  import opened BitWords
  import opened WordRanges
  import opened BitVectors
  import opened HexDigits
  import opened Wrappers

  /** Bit `b` of a digit. */
  predicate DigitBit(v: nat, b: nat)
    requires b < 4
  {
    (if b == 0 then v else if b == 1 then v / 2 else if b == 2 then v / 4 else v / 8) % 2 == 1
  }

  function BitValue(b: bool): nat {
    if b then 1 else 0
  }

  /** Four bits of a word as a digit. */
  function Nibble(w: Word, k: nat): (v: nat)
    requires 4 * k + 3 < UNIT
    ensures v < 16 && forall b | 0 <= b < 4 :: DigitBit(v, b) == w[4 * k + b]
  {
    NibbleBits(w[4 * k], w[4 * k + 1], w[4 * k + 2], w[4 * k + 3]);
    BitValue(w[4 * k]) + 2 * BitValue(w[4 * k + 1]) + 4 * BitValue(w[4 * k + 2]) + 8 * BitValue(w[4 * k + 3])
  }

  lemma NibbleBits(b0: bool, b1: bool, b2: bool, b3: bool)
    ensures var v := BitValue(b0) + 2 * BitValue(b1) + 4 * BitValue(b2) + 8 * BitValue(b3);
            DigitBit(v, 0) == b0 && DigitBit(v, 1) == b1 && DigitBit(v, 2) == b2 && DigitBit(v, 3) == b3
  {
  }

  /** The number `i` is in the set that a text shows. */
  ghost predicate HexHas(t: string, i: nat) {
    i / 4 < |t| && HexValue(t[|t| - 1 - i / 4]).Some? && DigitBit(HexValue(t[|t| - 1 - i / 4]).value, i % 4)
  }

  /** The set that a text shows, its last digit the lowest. */
  ghost function HexSet(t: string): set<nat> {
    set i: nat | i < 4 * |t| && HexHas(t, i)
  }

  predicate IsHexText(t: string) {
    forall c | c in t :: HexValue(c).Some?
  }

  lemma HexConcat(t: string, d: string, i: nat)
    ensures HexHas(t + d, i) <==> if i < 4 * |d| then HexHas(d, i) else HexHas(t, i - 4 * |d|)
  {
    if i >= 4 * |d| {
      assert (i - 4 * |d|) / 4 == i / 4 - |d| && (i - 4 * |d|) % 4 == i % 4;
    }
  }

  // Printing.

  /** The `n` lowest digits of a word. */
  function Digits(w: Word, n: nat): (t: string)
    requires n <= 16
    ensures |t| == n && IsHexText(t)
  {
    if n == 0 then ""
    else
      HexDigitValue(Nibble(w, n - 1));
      [HexDigit(Nibble(w, n - 1))] + Digits(w, n - 1)
  }

  lemma OneDigit(v: nat, b: nat)
    requires v < 16
    ensures HexHas([HexDigit(v)], b) <==> b < 4 && DigitBit(v, b)
  {
    HexDigitValue(v);
  }

  lemma {:induction false} DigitsBits(w: Word, n: nat, i: nat)
    requires n <= 16 && i < UNIT
    ensures HexHas(Digits(w, n), i) <==> i < 4 * n && w[i]
    decreases n
  {
    if n > 0 {
      var v := Nibble(w, n - 1);
      HexConcat([HexDigit(v)], Digits(w, n - 1), i);
      if i < 4 * (n - 1) {
        DigitsBits(w, n - 1, i);
      } else {
        HighestDigit(w, n, i);
      }
    }
  }

  lemma HighestDigit(w: Word, n: nat, i: nat)
    requires 0 < n <= 16 && 4 * (n - 1) <= i < UNIT
    ensures HexHas([HexDigit(Nibble(w, n - 1))], i - 4 * (n - 1)) <==> i < 4 * n && w[i]
  {
    var b := i - 4 * (n - 1);
    OneDigit(Nibble(w, n - 1), b);
    if b < 4 {
      assert DigitBit(Nibble(w, n - 1), b) == w[4 * (n - 1) + b];
    }
  }

  /** As many digits as the value of a word needs, but at least one. */
  function Significant(w: Word, n: nat): (r: nat)
    requires 0 < n <= 16 && forall i | 4 * n <= i < UNIT :: !w[i]
    ensures 0 < r <= 16 && (forall i | 4 * r <= i < UNIT :: !w[i]) && (r > 1 ==> Nibble(w, r - 1) != 0)
  {
    if n == 1 || Nibble(w, n - 1) != 0 then n
    else
      ZeroNibble(w, n - 1);
      Significant(w, n - 1)
  }

  lemma ZeroNibble(w: Word, k: nat)
    requires k < 16 && Nibble(w, k) == 0
    ensures forall i | 4 * k <= i < 4 * k + 4 :: !w[i]
  {
    forall i | 4 * k <= i < 4 * k + 4 ensures !w[i] {
      assert w[4 * k + (i - 4 * k)] == DigitBit(0, i - 4 * k);
    }
  }

  /** `hex(w)`: without leading zeros. */
  function HexOf(w: Word): (t: string)
    ensures t != "" && IsHexText(t)
  {
    Digits(w, Significant(w, 16))
  }

  /** The text `t` shows the words of `ws` from `k` on. */
  ghost predicate ShowsFrom(t: string, ws: seq<Word>, k: nat) {
    MovedDown(Bits(ws), HexSet(t), UNIT * k)
  }

  lemma ShowsNothing(ws: seq<Word>, k: nat)
    requires forall i | k <= i < |ws| :: ws[i] == Zero()
    ensures ShowsFrom("", ws, k)
  {
    forall i: nat ensures i in HexSet("") <==> i + UNIT * k in Bits(ws) {
      InBits(ws, i + UNIT * k);
      var l, j := HasSplit(ws, i + UNIT * k);
      assert l >= k;
    }
  }

  /** One word more in front, with as many digits as it needs or with all of them. */
  lemma ShowsOneMore(t: string, ws: seq<Word>, k: nat, n: nat)
    requires k < |ws| && ShowsFrom(t, ws, k + 1) && n <= 16 && (n == 16 || t == "")
    requires forall i | 4 * n <= i < UNIT :: !ws[k][i]
    ensures ShowsFrom(t + Digits(ws[k], n), ws, k)
  {
    forall i: nat ensures i in HexSet(t + Digits(ws[k], n)) <==> i + UNIT * k in Bits(ws) {
      ShowsBit(t, ws, k, n, i);
    }
  }

  lemma ShowsBit(t: string, ws: seq<Word>, k: nat, n: nat, i: nat)
    requires k < |ws| && ShowsFrom(t, ws, k + 1) && n <= 16 && (n == 16 || t == "")
    requires forall i | 4 * n <= i < UNIT :: !ws[k][i]
    ensures i in HexSet(t + Digits(ws[k], n)) <==> i + UNIT * k in Bits(ws)
  {
    if i < UNIT {
      InBits(ws, i + UNIT * k);
      HasAt(ws, k, i);
      ShowsInWord(t, ws[k], n, i);
    } else {
      ShowsBeyondWord(t, ws[k], n, i);
      ShownBefore(HexSet(t), Bits(ws), k, i - UNIT);
    }
  }

  lemma ShownBefore(t: set<nat>, s: set<nat>, k: nat, j: nat)
    requires MovedDown(s, t, UNIT * (k + 1))
    ensures j in t <==> j + UNIT + UNIT * k in s
  {
    assert Look(t, 0);
    assert j + UNIT * (k + 1) == j + UNIT + UNIT * k;
  }

  lemma ShowsInWord(t: string, w: Word, n: nat, i: nat)
    requires n <= 16 && (n == 16 || t == "") && i < UNIT && forall j | 4 * n <= j < UNIT :: !w[j]
    ensures i in HexSet(t + Digits(w, n)) <==> w[i]
  {
    HexConcat(t, Digits(w, n), i);
    DigitsBits(w, n, i);
    assert t == "" && i >= 4 * n ==> !HexHas(t, i - 4 * n);
  }

  lemma ShowsBeyondWord(t: string, w: Word, n: nat, i: nat)
    requires n <= 16 && (n == 16 || t == "") && i >= UNIT
    ensures i in HexSet(t + Digits(w, n)) <==> i - UNIT in HexSet(t)
  {
    if t != "" {
      assert 4 * n == UNIT;
    }
    AppendedDigits(t, Digits(w, n), i);
  }

  lemma AppendedDigits(t: string, d: string, i: nat)
    requires i >= UNIT && |d| <= 16 && (t == "" || 4 * |d| == UNIT)
    ensures i in HexSet(t + d) <==> i - UNIT in HexSet(t)
  {
    HexConcat(t, d, i);
  }

  lemma ShowsAll(t: string, ws: seq<Word>)
    requires ShowsFrom(t, ws, 0)
    ensures HexSet(t) == Bits(ws)
  {
    assert Look(HexSet(t), 0);
  }

  method Print(bv: Bitvec) returns (t: string)
    requires bv.Valid()
    ensures t != "" && IsHexText(t) && HexSet(t) == bv.Set()
    ensures |t| > 1 ==> HexValue(t[0]) != Some(0)
  {
    if bv.size == 1 {
      t := HexOf(bv.data);
      ShowsNothing(bv.words, 1);
      ShowsOneMore("", bv.words, 0, Significant(bv.data, 16));
      assert "" + t == t;
      ShowsAll(t, bv.words);
      FirstDigit(bv.data);
    } else {
      t := PrintWords(bv);
    }
  }

  lemma FirstDigit(w: Word)
    ensures |HexOf(w)| > 1 || w != Zero() ==> HexValue(HexOf(w)[0]) != Some(0)
  {
    var n := Significant(w, 16);
    HexDigitValue(Nibble(w, n - 1));
    if n == 1 && Nibble(w, 0) == 0 {
      ZeroNibble(w, 0);
      IsZero(w);
    }
  }

  method PrintWords(bv: Bitvec) returns (t: string)
    requires bv.Valid() && bv.size > 1
    ensures t != "" && IsHexText(t) && HexSet(t) == bv.Set()
    ensures |t| > 1 ==> HexValue(t[0]) != Some(0)
  {
    t := "";
    var first := true;
    ShowsNothing(bv.words, bv.size);
    var i := bv.size - 1;
    while i >= 0
      invariant -1 <= i < bv.size && IsHexText(t) && (first <==> t == "")
      invariant ShowsFrom(t, bv.words, i + 1)
      invariant first ==> forall k | i < k < bv.size :: bv.words[k] == Zero()
      invariant !first ==> HexValue(t[0]) != Some(0)
    {
      var w := bv.ptr[i];
      if first {
        if w == Zero() {
          ShowsNothing(bv.words, i);
        } else {
          ShowsOneMore(t, bv.words, i, Significant(w, 16));
          FirstDigit(w);
          assert t + HexOf(w) == HexOf(w);
          t := HexOf(w);
          first := false;
        }
      } else {
        ShowsOneMore(t, bv.words, i, 16);
        t := t + Digits(w, 16);
      }
      i := i - 1;
    }
    if first {
      ShowsNothing(bv.words, 0);
      ShowsAll(t, bv.words);
      assert HexSet("0") == HexSet("");
      t := t + "0";
    } else {
      ShowsAll(t, bv.words);
    }
  }

  // Parsing.

  /** The word with the bits of a digit. */
  function DigitWord(v: nat): (w: Word)
    requires v < 16
    ensures forall b | 0 <= b < UNIT :: w[b] <==> b < 4 && DigitBit(v, b)
  {
    seq(UNIT, b requires 0 <= b < UNIT => b < 4 && DigitBit(v, b))
  }

  lemma OneDigitMore(t: string, c: char, s: set<nat>, up: set<nat>, u: set<nat>)
    requires HexValue(c).Some? && s == HexSet(t) && MovedUp(s, up, 4) && u == up + Bits([DigitWord(HexValue(c).value)])
    ensures u == HexSet(t + [c])
  {
    assert Look(up, 0);
    forall i: nat ensures i in u <==> i in HexSet(t + [c]) {
      HexConcat(t, [c], i);
      InBits([DigitWord(HexValue(c).value)], i);
    }
  }

  /** The longest part of `s` in front that is hexadecimal. */
  function HexPrefix(s: string): (n: nat)
    ensures n <= |s| && (forall i | 0 <= i < n :: HexValue(s[i]).Some?) && (n < |s| ==> HexValue(s[n]) == None)
  {
    if s == "" || HexValue(s[0]) == None then 0 else 1 + HexPrefix(s[1..])
  }

  lemma PrefixUnique(s: string, n: nat)
    requires n <= |s| && IsHexText(s[..n]) && (n < |s| ==> HexValue(s[n]) == None)
    ensures n == HexPrefix(s)
  {
    forall i | 0 <= i < n ensures HexValue(s[i]).Some? {
      assert s[i] == s[..n][i];
    }
  }

  /** `s >> bv`: replaces the set by the one that the text shows. */
  method Parse(s: string, bv: Bitvec) returns (ok: bool)
    requires bv.Valid()
    modifies bv, bv.ptr
    ensures bv.Valid() && (ok <==> IsHexText(s))
    ensures bv.Set() == HexSet(s[..HexPrefix(s)]) && (ok ==> s[..HexPrefix(s)] == s)
  {
    bv.Clear();
    assert HexSet("") == {};
    for i := 0 to |s|
      invariant bv.Valid() && (bv.ptr == old(bv.ptr) || fresh(bv.ptr)) && IsHexText(s[..i]) && bv.Set() == HexSet(s[..i])
    {
      var v := HexValue(s[i]);
      if v == None {
        PrefixUnique(s, i);
        return false;
      }
      assert s[..i + 1] == s[..i] + [s[i]];
      ghost var before := bv.Set();
      bv.ShiftLeftAssign(4);
      ghost var up := bv.Set();
      var _ := bv.OrAssignWord(DigitWord(v.value));
      OneDigitMore(s[..i], s[i], before, up, bv.Set());
    }
    assert s[..|s|] == s;
    PrefixUnique(s, |s|);
    return true;
  }

  /** The text of a vector, read into any other vector, makes the two equal. */
  method ReadBack(bv: Bitvec, into: Bitvec) returns (ok: bool)
    requires bv.Valid() && into.Valid() && bv != into && bv.ptr != into.ptr
    modifies into, into.ptr
    ensures ok && bv.Valid() && into.Valid() && into.Set() == bv.Set() == old(bv.Set())
  {
    var t := Print(bv);
    ok := Parse(t, into);
  }
}
