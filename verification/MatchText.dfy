/** `match_t`: a ternary match on 64 bits, its text, and what is read from a text. */
module MatchText {
  import opened BitWords
  import opened WordRanges
  import opened HexDigits
  import opened BitHex
  import opened Wrappers
  import BigInt
  import DecimalText

  datatype Match = Match(word0: Word, word1: Word)

  /** Whether the value `v` matches. */
  predicate Matches(m: Match, v: Word) {
    Or(v, m.word1) == m.word1 && Or(And(Not(v), m.word1), m.word0) == m.word0
  }

  /** The formula in the documentation of `match_t`. */
  predicate Documented(m: Match, v: Word) {
    And(Xor(v, m.word1), Xor(m.word0, m.word1)) == Zero()
  }

  function Xor(a: Word, b: Word): Word {
    seq(UNIT, i requires 0 <= i < UNIT => a[i] != b[i])
  }

  /** Both values of bit `i` match. */
  predicate Free(m: Match, i: nat)
    requires i < UNIT
  {
    m.word0[i] && m.word1[i]
  }

  lemma MatchesBits(m: Match, v: Word)
    ensures Matches(m, v) <==> forall i | 0 <= i < UNIT :: Free(m, i) || v[i] == m.word1[i]
  {
    if Matches(m, v) {
      forall i | 0 <= i < UNIT ensures Free(m, i) || v[i] == m.word1[i] {
        assert Or(v, m.word1)[i] == m.word1[i];
        assert Or(And(Not(v), m.word1), m.word0)[i] == m.word0[i];
      }
    }
  }

  lemma DocumentedBits(m: Match, v: Word)
    ensures Documented(m, v) <==> forall i | 0 <= i < UNIT :: m.word0[i] == m.word1[i] || v[i] == m.word1[i]
  {
    var w := And(Xor(v, m.word1), Xor(m.word0, m.word1));
    IsZero(w);
    if Documented(m, v) {
      forall i | 0 <= i < UNIT ensures m.word0[i] == m.word1[i] || v[i] == m.word1[i] {
        assert !w[i];
      }
    }
  }

  /** Code and documentation agree exactly on matches that say something about every bit. */
  lemma DocumentedExactly(m: Match)
    ensures (forall v :: Matches(m, v) <==> Documented(m, v)) <==> forall i | 0 <= i < UNIT :: m.word0[i] || m.word1[i]
  {
    if forall i | 0 <= i < UNIT :: m.word0[i] || m.word1[i] {
      forall v: Word ensures Matches(m, v) <==> Documented(m, v) {
        MatchesBits(m, v);
        DocumentedBits(m, v);
      }
    } else {
      var i :| 0 <= i < UNIT && !m.word0[i] && !m.word1[i];
      var v: Word := m.word1[i := true];
      MatchesBits(m, v);
      DocumentedBits(m, v);
      assert v[i] != m.word1[i];
    }
  }

  /** Two matches match the same values. */
  ghost predicate SameMatches(m: Match, m': Match) {
    forall v :: Matches(m, v) <==> Matches(m', v)
  }

  lemma SameMatchesBits(m: Match, m': Match)
    ensures SameMatches(m, m') <==> forall i | 0 <= i < UNIT :: Free(m, i) == Free(m', i) && m.word1[i] == m'.word1[i]
  {
    if forall i | 0 <= i < UNIT :: Free(m, i) == Free(m', i) && m.word1[i] == m'.word1[i] {
      forall v: Word ensures Matches(m, v) <==> Matches(m', v) {
        MatchesBits(m, v);
        MatchesBits(m', v);
      }
    } else {
      var i :| 0 <= i < UNIT && !(Free(m, i) == Free(m', i) && m.word1[i] == m'.word1[i]);
      Distinguished(m, m', i);
    }
  }

  lemma Distinguished(m: Match, m': Match, i: nat)
    requires i < UNIT && !(Free(m, i) == Free(m', i) && m.word1[i] == m'.word1[i])
    ensures exists v: Word :: Matches(m, v) != Matches(m', v)
  {
    var v, v': Word := m.word1, m'.word1;
    MatchesBits(m, v);
    MatchesBits(m', v');
    if Matches(m', v) && Matches(m, v') {
      MatchesBits(m', v);
      MatchesBits(m, v');
      // Each matches the defining value of the other, so one leaves bit i free and the other does not.
      var u: Word := if Free(m, i) then v[i := !m'.word1[i]] else v'[i := !m.word1[i]];
      MatchesBits(m, u);
      MatchesBits(m', u);
    }
  }

  /** `setwidth`: bits that nothing is said about become free, those at the width and above zero. */
  function SetWidth(m: Match, bits: nat): Match
    requires bits < UNIT
  {
    var mask := Below(bits);
    var word0, word1 := And(m.word0, mask), And(m.word1, mask);
    var rest := And(mask, Not(Or(word0, word1)));
    Match(Or(word0, rest), Or(word1, rest))
  }

  /** `match_t(size, val, mask)`. */
  function Ternary(size: nat, val: Word, mask: Word): Match
    requires size < UNIT
  {
    SetWidth(Match(And(Not(val), mask), And(val, mask)), size)
  }

  /** It matches the values that agree with `val` under the mask and fit the width. */
  lemma TernaryMatches(size: nat, val: Word, mask: Word, v: Word)
    requires size < UNIT
    ensures Matches(Ternary(size, val, mask), v) <==> forall i | 0 <= i < UNIT :: if i >= size then !v[i] else mask[i] ==> v[i] == val[i]
  {
    var m := Ternary(size, val, mask);
    MatchesBits(m, v);
    forall i | 0 <= i < UNIT
      ensures (Free(m, i) || v[i] == m.word1[i]) <==> if i >= size then !v[i] else mask[i] ==> v[i] == val[i]
    {
    }
  }

  // Digits of `b` bits.

  /** Bit `i` belongs to digit `k`. */
  predicate InDigit(i: nat, b: nat, k: nat) {
    b * k <= i < b * (k + 1)
  }

  /** Some bits of the digit are free and some are not. */
  predicate Mixed(m: Match, b: nat, k: nat) {
    && (exists i | 0 <= i < UNIT :: InDigit(i, b, k) && Free(m, i))
    && (exists i | 0 <= i < UNIT :: InDigit(i, b, k) && !Free(m, i))
  }

  /** No bit at `n` or higher is set in either word. */
  predicate EmptyFrom(m: Match, n: nat) {
    forall i | n <= i < UNIT :: !m.word0[i] && !m.word1[i]
  }

  ghost predicate IsZeroMatch(m: Match) {
    EmptyFrom(m, 0)
  }

  /** `n` digits show all bits that are set, and one less does not. */
  predicate IsCount(m: Match, b: nat, n: nat) {
    n > 0 && EmptyFrom(m, b * n) && !EmptyFrom(m, b * (n - 1))
  }

  ghost predicate AnyMixed(m: Match, b: nat) {
    exists k: nat :: Mixed(m, b, k)
  }

  predicate IsBase(b: nat) {
    b == 4 || b == 3 || b == 1
  }

  /** The mask has the bits of digit `k`. */
  ghost predicate IsDigitMask(mask: Word, b: nat, k: nat) {
    forall i | 0 <= i < UNIT :: mask[i] <==> InDigit(i, b, k)
  }

  lemma NextMask(mask: Word, b: nat, k: nat)
    requires IsBase(b) && IsDigitMask(mask, b, k)
    ensures IsDigitMask(Shl(mask, b), b, k + 1)
    ensures mask == Zero() <==> b * k >= UNIT
  {
    assert b * (k + 1) == b * k + b && b * (k + 2) == b * k + 2 * b;
    IsZero(mask);
    if b * k < UNIT {
      assert mask[b * k];
    }
  }

  lemma MixedMask(m: Match, mask: Word, b: nat, k: nat)
    requires IsDigitMask(mask, b, k)
    ensures var t := And(And(mask, m.word0), m.word1); t != Zero() && t != mask <==> Mixed(m, b, k)
  {
    var t := And(And(mask, m.word0), m.word1);
    IsZero(t);
    if t != mask {
      assert exists i | 0 <= i < UNIT :: t[i] != mask[i];
    }
    if Mixed(m, b, k) {
      var i :| 0 <= i < UNIT && InDigit(i, b, k) && Free(m, i);
      var j :| 0 <= j < UNIT && InDigit(j, b, k) && !Free(m, j);
      assert t[i] && mask[j] && !t[j];
    }
  }

  lemma EmptyShift(m: Match, shift: nat)
    requires shift < UNIT
    ensures Shr(Or(m.word0, m.word1), shift) == Zero() <==> EmptyFrom(m, shift)
  {
    var w := Shr(Or(m.word0, m.word1), shift);
    IsZero(w);
    if w == Zero() {
      forall i | shift <= i < UNIT ensures !m.word0[i] && !m.word1[i] {
        assert !w[i - shift];
      }
    }
  }

  lemma NothingMixedAbove(m: Match, b: nat, n: nat, k: nat)
    requires EmptyFrom(m, b * n) && k >= n
    ensures !Mixed(m, b, k)
  {
    assert b * k >= b * n by {
      MulMonotone(b, n, k);
    }
  }

  lemma MulMonotone(b: nat, n: nat, k: nat)
    requires n <= k
    ensures b * n <= b * k
  {
  }

  /** Where the highest digit of `maskbits` bits starts, or -1 if some digit is mixed. */
  method ChkMask(m: Match, maskbits: nat) returns (r: int, ghost n: nat)
    requires IsBase(maskbits) && !IsZeroMatch(m)
    ensures r == -1 <==> AnyMixed(m, maskbits)
    ensures r != -1 ==> IsCount(m, maskbits, n) && r == maskbits * (n - 1) >= 0
  {
    var b := maskbits;
    var mask := Low(b);
    var shift: nat := 0;
    ghost var k: nat := 0;
    while mask != Zero() && Shr(Or(m.word0, m.word1), shift) != Zero()
      invariant shift == b * k && IsDigitMask(mask, b, k) && (mask != Zero() ==> shift < UNIT)
      invariant forall j: nat | j < k :: !Mixed(m, b, j)
      invariant k > 0 ==> !EmptyFrom(m, b * (k - 1))
      decreases UNIT + b - shift
    {
      MixedMask(m, mask, b, k);
      EmptyShift(m, shift);
      if And(And(mask, m.word0), m.word1) != Zero() && And(And(mask, m.word0), m.word1) != mask {
        return -1, 0;
      }
      NextMask(mask, b, k);
      NextMask(Shl(mask, b), b, k + 1);
      mask := Shl(mask, b);
      shift := shift + b;
      k := k + 1;
      assert b * k == b * (k - 1) + b;
    }
    NextMask(mask, b, k);
    if shift < UNIT {
      EmptyShift(m, shift);
    }
    assert EmptyFrom(m, b * k);
    forall j: nat ensures !Mixed(m, b, j) {
      if j >= k {
        NothingMixedAbove(m, b, k, j);
      }
    }
    assert k > 0 && IsCount(m, b, k) && b * (k - 1) == b * k - b;
    return shift - b, k;
  }

  // Printing.

  /** The mask with which digit `k` of `n` is printed: bits that the mask of the first digit would
      have at 64 or higher are missing in all digits. */
  ghost predicate IsPrintMask(mask: Word, b: nat, n: nat, k: nat) {
    forall i | 0 <= i < UNIT :: mask[i] <==> InDigit(i, b, k) && InPrintMask(i, b, n, k)
  }

  ghost predicate InPrintMask(i: nat, b: nat, n: nat, k: nat) {
    i + (b * n - b - b * k) < UNIT
  }

  function PrintMask(b: nat, n: nat, k: nat): (mask: Word)
    ensures IsPrintMask(mask, b, n, k)
  {
    seq(UNIT, i requires 0 <= i < UNIT => InDigit(i, b, k) && i + (b * n - b - b * k) < UNIT)
  }

  /** The character printed for the bits under a mask. */
  function MaskedChar(m: Match, mask: Word, shift: nat): char
    requires shift < UNIT
  {
    if And(And(mask, m.word0), m.word1) != Zero() then '*' else HexDigit(Nibble(Shr(And(m.word1, mask), shift), 0))
  }

  /** The digits from the highest down to digit `k`. */
  function DigitsText(m: Match, b: nat, n: nat, k: nat): string
    requires k <= n && (n > 0 ==> b * (n - 1) < UNIT)
    decreases n - k
  {
    if k == n then ""
    else
      MulMonotone(b, k, n - 1);
      DigitsText(m, b, n, k + 1) + [MaskedChar(m, PrintMask(b, n, k), b * k)]
  }

  function Prefix(b: nat): string {
    if b == 4 then "0x" else if b == 3 then "0o" else "0b"
  }

  ghost predicate IsBaseOf(m: Match, b: nat) {
    IsBase(b) && !AnyMixed(m, b) && (b != 4 ==> AnyMixed(m, 4)) && (b == 1 ==> AnyMixed(m, 3))
  }

  lemma SingleBitsNotMixed(m: Match)
    ensures !AnyMixed(m, 1)
  {
    forall k: nat ensures !Mixed(m, 1, k) {
      assert forall i: nat :: InDigit(i, 1, k) ==> i == k;
    }
  }

  lemma FirstPrintMask(b: nat, n: nat)
    requires IsBase(b) && n > 0 && b * (n - 1) < UNIT
    ensures Shl(Low(b), b * (n - 1)) == PrintMask(b, n, n - 1)
  {
    assert b * (n - 1) == b * n - b;
    var w := Shl(Low(b), b * (n - 1));
    forall i | 0 <= i < UNIT ensures w[i] == PrintMask(b, n, n - 1)[i] {
      assert InDigit(i, b, n - 1) <==> b * n - b <= i < b * n;
    }
  }

  lemma NextPrintMask(b: nat, n: nat, k: nat)
    requires IsBase(b) && k < n && b * (n - 1) < UNIT
    ensures b * k < UNIT && PrintMask(b, n, k)[b * k]
    ensures if k == 0 then Shr(PrintMask(b, n, k), b) == Zero() else Shr(PrintMask(b, n, k), b) == PrintMask(b, n, k - 1)
  {
    MulMonotone(b, k, n - 1);
    var bk := b * k;
    assert b * (n - 1) == b * n - b && b * (k + 1) == bk + b && InDigit(bk, b, k);
    var w := Shr(PrintMask(b, n, k), b);
    if k > 0 {
      assert b * (k - 1) == bk - b;
      forall i | 0 <= i < UNIT ensures w[i] == PrintMask(b, n, k - 1)[i] {
        assert InDigit(i, b, k - 1) <==> bk - b <= i < bk;
        assert i + b < UNIT ==> (InDigit(i + b, b, k) <==> bk <= i + b < bk + b);
      }
    } else {
      forall i | 0 <= i < UNIT ensures !w[i] {
        assert i + b < UNIT ==> !InDigit(i + b, b, 0);
      }
      IsZero(w);
    }
  }

  /** `out << m`. */
  method Print(m: Match) returns (out: string, ghost b: nat, ghost n: nat)
    ensures IsZeroMatch(m) ==> out == "*"
    ensures !IsZeroMatch(m) ==> IsBaseOf(m, b) && IsCount(m, b, n) && b * (n - 1) < UNIT && out == Prefix(b) + DigitsText(m, b, n, 0)
  {
    if Or(m.word0, m.word1) == Zero() {
      ZeroWords(m);
      return "*", 0, 0;
    }
    ZeroWords(m);
    SingleBitsNotMixed(m);
    var bits := 4;
    var shift, n' := ChkMask(m, 4);
    n := n';
    if shift >= 0 {
      out := "0x";
    } else {
      bits := 3;
      shift, n := ChkMask(m, 3);
      if shift >= 0 {
        out := "0o";
      } else {
        bits := 1;
        shift, n := ChkMask(m, 1);
        out := "0b";
      }
    }
    b := bits;
    CountFits(m, b, n);
    var digits := PrintDigits(m, bits, shift, n);
    out := out + digits;
  }

  lemma ZeroWords(m: Match)
    ensures Or(m.word0, m.word1) == Zero() <==> IsZeroMatch(m)
  {
    var w := Or(m.word0, m.word1);
    IsZero(w);
    if w == Zero() {
      forall i | 0 <= i < UNIT ensures !m.word0[i] && !m.word1[i] {
        assert !w[i];
      }
    }
  }

  lemma CountFits(m: Match, b: nat, n: nat)
    requires IsCount(m, b, n)
    ensures b * (n - 1) < UNIT
  {
  }

  method PrintDigit(m: Match, mask: Word, shift: nat) returns (c: char)
    requires shift < UNIT
    ensures IsMaskedChar(m, mask, shift, c)
  {
    if And(And(mask, m.word0), m.word1) != Zero() {
      c := '*';
    } else {
      c := HexDigit(Nibble(Shr(And(m.word1, mask), shift), 0));
    }
  }

  ghost predicate IsMaskedChar(m: Match, mask: Word, shift: nat, c: char)
    requires shift < UNIT
  {
    forall z {:trigger Opened([c], z)} | Opened([c], z) :: c == MaskedChar(m, mask, shift)
  }

  method PrintDigits(m: Match, bits: nat, start: nat, ghost n: nat) returns (out: string)
    requires IsBase(bits) && n > 0 && start == bits * (n - 1) < UNIT
    ensures out == DigitsText(m, bits, n, 0)
  {
    var mask := Shl(Low(bits), start);
    FirstPrintMask(bits, n);
    PrintStart(m, bits, n, mask);
    ghost var k, shift, last;
    out, k, shift, last := PrintLoop(m, bits, start, mask, n);
    PrintEnd(m, bits, n, k, out, shift, last);
  }

  /** The loop over the digits. */
  method PrintLoop(m: Match, bits: nat, start: nat, first: Word, ghost n: nat)
    returns (out: string, ghost k: nat, ghost shift': int, ghost mask': Word)
    requires IsBase(bits) && n > 0 && Printed(m, bits, n, n, "", start, first)
    ensures Printed(m, bits, n, k, out, shift', mask') && mask' == Zero()
  {
    out := "";
    k := n;
    var shift: int := start;
    var mask := first;
    while mask != Zero()
      invariant Printed(m, bits, n, k, out, shift, mask)
      decreases k
    {
      out, k := PrintOne(m, bits, n, k, out, shift, mask);
      shift := shift - bits;
      mask := Shr(mask, bits);
    }
    shift', mask' := shift, mask;
  }

  method PrintOne(m: Match, bits: nat, ghost n: nat, ghost k: nat, out: string, shift: int, mask: Word) returns (r: string, ghost k': nat)
    requires IsBase(bits) && n > 0 && Printed(m, bits, n, k, out, shift, mask) && mask != Zero()
    ensures k' == k - 1 && Printed(m, bits, n, k', r, shift - bits, Shr(mask, bits))
  {
    PrintAt(m, bits, n, k, out, shift, mask);
    var c := PrintDigit(m, mask, shift);
    PrintStep(m, bits, n, k, out, shift, mask, c);
    return out + [c], k - 1;
  }

  /** Before digit `k - 1` is printed. */
  ghost predicate Printed(m: Match, b: nat, n: nat, k: nat, out: string, shift: int, mask: Word) {
    forall z {:trigger Opened(out, z)} | Opened(out, z) ::
      && k <= n && b * (n - 1) < UNIT && out == DigitsText(m, b, n, k) && shift == b * (k - 1)
      && if k == 0 then mask == Zero() else mask == PrintMask(b, n, k - 1)
  }

  ghost predicate Opened(out: string, z: int) {
    true
  }

  lemma PrintStart(m: Match, b: nat, n: nat, mask: Word)
    requires IsBase(b) && n > 0 && b * (n - 1) < UNIT && mask == PrintMask(b, n, n - 1)
    ensures Printed(m, b, n, n, "", b * (n - 1), mask)
  {
  }

  lemma PrintAt(m: Match, b: nat, n: nat, k: nat, out: string, shift: int, mask: Word)
    requires IsBase(b) && n > 0 && Printed(m, b, n, k, out, shift, mask) && mask != Zero()
    ensures k > 0 && 0 <= shift < UNIT
  {
    assert Opened(out, 0);
    NextPrintMask(b, n, k - 1);
  }

  lemma PrintStep(m: Match, b: nat, n: nat, k: nat, out: string, shift: nat, mask: Word, c: char)
    requires IsBase(b) && n > 0 && Printed(m, b, n, k, out, shift, mask) && k > 0 && shift < UNIT && IsMaskedChar(m, mask, shift, c)
    ensures Printed(m, b, n, k - 1, out + [c], shift - b, Shr(mask, b))
  {
    assert Opened(out, 0) && Opened([c], 0);
    NextPrintMask(b, n, k - 1);
    assert b * (k - 2) == b * (k - 1) - b;
  }

  lemma PrintEnd(m: Match, b: nat, n: nat, k: nat, out: string, shift: int, mask: Word)
    requires IsBase(b) && n > 0 && b * (n - 1) < UNIT && Printed(m, b, n, k, out, shift, mask) && mask == Zero()
    ensures out == DigitsText(m, b, n, 0)
  {
    assert Opened(out, 0);
    if k > 0 {
      NextPrintMask(b, n, k - 1);
      IsZero(mask);
    }
  }

  // Parsing.

  /** What the text of digits in base two to the power of `b` stands for. */
  function ParseDigits(s: string, b: nat): Option<Match>
    requires IsBase(b)
  {
    if s == "" then Some(Match(Zero(), Zero()))
    else
      var before := ParseDigits(s[..|s| - 1], b);
      if before.None? then None else AddDigit(before.value, s[|s| - 1], b)
  }

  function AddDigit(r: Match, c: char, b: nat): Option<Match>
    requires IsBase(b)
  {
    if c == '_' then Some(r)
    else if c == '*' then Some(Match(Or(Shl(r.word0, b), Low(b)), Or(Shl(r.word1, b), Low(b))))
    else if HexValue(c).None? then None
    else
      var d := DigitWord(HexValue(c).value);
      Some(Match(Or(Shl(r.word0, b), Xor(d, Low(b))), Or(Shl(r.word1, b), d)))
  }

  /** The number of bits of a digit, by the prefix of a text; 0 stands for base ten. */
  function BitsOf(p: string): nat {
    if |p| < 2 || p[0] != '0' then 0
    else if p[1] == 'x' || p[1] == 'X' then 4
    else if p[1] == 'o' || p[1] == 'O' then 3
    else if p[1] == 'b' || p[1] == 'B' then 1
    else 0
  }

  /** The bits of a number, as far as they fit. */
  function WordOf(n: nat): Word {
    seq(UNIT, i requires 0 <= i < UNIT => BigInt.Bit(n, i))
  }

  /** The match of a single value. */
  function Exactly(w: Word): Match {
    Match(Not(w), w)
  }

  lemma MatchesExactly(w: Word, v: Word)
    ensures Matches(Exactly(w), v) <==> v == w
  {
    MatchesBits(Exactly(w), v);
  }

  /** What decimal text stands for. */
  function DecimalMatch(s: string): Option<Match> {
    match DecimalText.ReadDecimal(s)
    case None => None
    case Some(n) => Some(Exactly(WordOf(n)))
  }

  /** `p >> m`. */
  method Parse(p: string) returns (r: Option<Match>)
    ensures r == if BitsOf(p) == 0 then DecimalMatch(p) else ParseDigits(p[2..], BitsOf(p))
  {
    var bits := BitsOf(p);
    if bits == 0 {
      r := ParseDecimal(p);
      return;
    }
    var s := p[2..];
    var rv := Match(Zero(), Zero());
    for i := 0 to |s|
      invariant ParseDigits(s[..i], bits) == Some(rv)
      invariant forall j | 0 <= j < i :: ParseDigits(s[..j], bits).Some?
    {
      assert s[..i + 1][..i] == s[..i];
      var next := AddDigit(rv, s[i], bits);
      if next == None {
        BadDigit(s, i + 1, bits);
        return None;
      }
      rv := next.value;
    }
    assert s[..|s|] == s;
    return Some(rv);
  }

  method ParseDecimal(s: string) returns (r: Option<Match>)
    ensures r == DecimalMatch(s)
  {
    var word1: nat := 0;
    for i := 0 to |s|
      invariant DecimalText.ReadDecimal(s[..i]) == Some(word1)
    {
      assert s[..i + 1][..i] == s[..i];
      var next := DecimalText.AddDigit(word1, s[i]);
      if next == None {
        BadDecimal(s, i + 1);
        return None;
      }
      word1 := next.value;
    }
    assert s[..|s|] == s;
    r := Some(Exactly(WordOf(word1)));
  }

  lemma {:induction false} BadDecimal(s: string, n: nat)
    requires n <= |s| && DecimalText.ReadDecimal(s[..n]) == None
    ensures DecimalText.ReadDecimal(s) == None
    decreases |s|
  {
    if n == |s| {
      assert s[..n] == s;
    } else {
      assert s[..|s| - 1][..n] == s[..n];
      BadDecimal(s[..|s| - 1], n);
    }
  }

  /** A text with a bad digit is rejected as a whole. */
  lemma {:induction false} BadDigit(s: string, n: nat, b: nat)
    requires IsBase(b) && n <= |s| && ParseDigits(s[..n], b) == None
    ensures ParseDigits(s, b) == None
    decreases |s|
  {
    if n == |s| {
      assert s[..n] == s;
    } else {
      var front := s[..|s| - 1];
      assert front[..n] == s[..n];
      BadDigit(front, n, b);
    }
  }

  // What is read back.

  function DigitOf(p: nat, b: nat): nat
    requires IsBase(b)
  {
    p / b
  }

  lemma DigitOfBit(p: nat, b: nat, k: nat)
    requires IsBase(b)
    ensures InDigit(p, b, k) <==> DigitOf(p, b) == k
  {
    if b == 1 {
      assert InDigit(p, 1, k) <==> p == k;
    } else if b == 3 {
      assert InDigit(p, 3, k) <==> 3 * k <= p < 3 * k + 3;
    } else {
      assert InDigit(p, 4, k) <==> 4 * k <= p < 4 * k + 4;
    }
  }

  ghost predicate Star(m: Match, b: nat, n: nat, k: nat) {
    And(And(PrintMask(b, n, k), m.word0), m.word1) != Zero()
  }

  /** The digit of bit `p` is printed as a star. */
  ghost predicate Starred(m: Match, b: nat, n: nat, p: nat)
    requires IsBase(b)
  {
    Star(m, b, n, DigitOf(p, b))
  }

  /** Bit `p` is printed as a one. */
  ghost predicate PrintedOne(m: Match, b: nat, n: nat, p: nat)
    requires IsBase(b) && p < UNIT
  {
    m.word1[p] && InPrintMask(p, b, n, DigitOf(p, b))
  }

  /** `r`, read from the digits down to digit `k`, has what was printed, `b * k` bits lower. */
  ghost predicate Shows(m: Match, b: nat, n: nat, k: nat, r: Match)
    requires IsBase(b)
  {
    forall i, p | 0 <= i < UNIT && p == i + b * k < UNIT :: ShowsBit(m, b, n, r, i, p)
  }

  ghost predicate ShowsBit(m: Match, b: nat, n: nat, r: Match, i: nat, p: nat)
    requires IsBase(b) && i < UNIT && p < UNIT
  {
    && (r.word1[i] <==> DigitOf(p, b) < n && (Starred(m, b, n, p) || PrintedOne(m, b, n, p)))
    && (r.word0[i] <==> DigitOf(p, b) < n && (Starred(m, b, n, p) || !PrintedOne(m, b, n, p)))
  }

  /** The word that is read for a digit that is not a star. */
  lemma DigitRead(m: Match, b: nat, n: nat, k: nat)
    requires IsBase(b) && b * k < UNIT && !Star(m, b, n, k)
    ensures var c := MaskedChar(m, PrintMask(b, n, k), b * k);
            c != '_' && c != '*' && HexValue(c).Some? && IsDigitRead(m, b, n, k, DigitWord(HexValue(c).value))
  {
    var mask, shift := PrintMask(b, n, k), b * k;
    var w := Shr(And(m.word1, mask), shift);
    var v := Nibble(w, 0);
    HexDigitValue(v);
    forall i | 0 <= i < UNIT ensures DigitWord(v)[i] <==> i < b && i + shift < UNIT && PrintedOne(m, b, n, i + shift) {
      DigitOfBit(i + shift, b, k);
      assert b * (k + 1) == shift + b;
      assert i < 4 ==> DigitBit(v, i) == w[4 * 0 + i];
    }
  }

  /** One digit more, as words: the digits so far move up. */
  ghost predicate Appended(r: Match, r': Match, b: nat, star: bool, d: Word)
    requires IsBase(b)
  {
    && r'.word1 == Or(Shl(r.word1, b), if star then Low(b) else d)
    && r'.word0 == Or(Shl(r.word0, b), if star then Low(b) else Xor(d, Low(b)))
  }

  /** The bits of the digits before are where they were, only higher. */
  lemma ShowsHigherBit(m: Match, b: nat, n: nat, r: Match, r': Match, star: bool, d: Word, i: nat, p: nat)
    requires IsBase(b) && Appended(r, r', b, star, d) && b <= i < UNIT && p < UNIT
    requires !star ==> forall j | b <= j < UNIT :: !d[j]
    requires ShowsBit(m, b, n, r, i - b, p)
    ensures ShowsBit(m, b, n, r', i, p)
  {
    assert Low(b)[i] == false;
  }

  /** The lowest bits are those of the new digit. */
  lemma ShowsLowBit(m: Match, b: nat, n: nat, k: nat, r: Match, r': Match, d: Word, i: nat, p: nat)
    requires IsBase(b) && k < n && Appended(r, r', b, Star(m, b, n, k), d) && i < b && p < UNIT && InDigit(p, b, k)
    requires !Star(m, b, n, k) ==> (d[i] <==> PrintedOne(m, b, n, p))
    ensures ShowsBit(m, b, n, r', i, p)
  {
    DigitOfBit(p, b, k);
    assert Low(b)[i];
  }

  lemma ShowsNextBit(m: Match, b: nat, n: nat, k: nat, r: Match, r': Match, d: Word, i: nat, p: nat)
    requires IsBase(b) && k < n && b * k < UNIT && Shows(m, b, n, k + 1, r) && Appended(r, r', b, Star(m, b, n, k), d)
    requires !Star(m, b, n, k) ==> IsDigitRead(m, b, n, k, d)
    requires i < UNIT && p == i + b * k < UNIT
    ensures ShowsBit(m, b, n, r', i, p)
  {
    assert b * (k + 1) == b * k + b;
    if i >= b {
      assert p == (i - b) + b * (k + 1);
      assert ShowsBit(m, b, n, r, i - b, p);
      ShowsHigherBit(m, b, n, r, r', Star(m, b, n, k), d, i, p);
    } else {
      ShowsLowBit(m, b, n, k, r, r', d, i, p);
    }
  }

  ghost predicate IsDigitRead(m: Match, b: nat, n: nat, k: nat, d: Word)
    requires IsBase(b)
  {
    forall i | 0 <= i < UNIT :: d[i] <==> i < b && i + b * k < UNIT && PrintedOne(m, b, n, i + b * k)
  }

  lemma ShowsNext(m: Match, b: nat, n: nat, k: nat, r: Match) returns (r': Match)
    requires IsBase(b) && k < n && b * k < UNIT && Shows(m, b, n, k + 1, r)
    ensures AddDigit(r, MaskedChar(m, PrintMask(b, n, k), b * k), b) == Some(r') && Shows(m, b, n, k, r')
  {
    var c := MaskedChar(m, PrintMask(b, n, k), b * k);
    if !Star(m, b, n, k) {
      DigitRead(m, b, n, k);
    }
    var d := if HexValue(c).Some? then DigitWord(HexValue(c).value) else Zero();
    r' := AddDigit(r, c, b).value;
    assert Appended(r, r', b, Star(m, b, n, k), d);
    forall i, p | 0 <= i < UNIT && p == i + b * k < UNIT ensures ShowsBit(m, b, n, r', i, p) {
      ShowsNextBit(m, b, n, k, r, r', d, i, p);
    }
  }

  lemma ShowsNone(m: Match, b: nat, n: nat)
    requires IsBase(b)
    ensures Shows(m, b, n, n, Match(Zero(), Zero()))
  {
    forall i, p | 0 <= i < UNIT && p == i + b * n < UNIT ensures ShowsBit(m, b, n, Match(Zero(), Zero()), i, p) {
      HighDigit(p, b, n);
    }
  }

  lemma ParseNext(text: string, c: char, b: nat)
    requires IsBase(b) && ParseDigits(text, b).Some?
    ensures ParseDigits(text + [c], b) == AddDigit(ParseDigits(text, b).value, c, b)
  {
    assert (text + [c])[..|text + [c]| - 1] == text;
  }

  lemma TextNext(m: Match, b: nat, n: nat, k: nat, before: Match, r: Match)
    requires IsBase(b) && k < n && b * (n - 1) < UNIT && b * k < UNIT
    requires ParseDigits(DigitsText(m, b, n, k + 1), b) == Some(before)
    requires AddDigit(before, MaskedChar(m, PrintMask(b, n, k), b * k), b) == Some(r)
    ensures ParseDigits(DigitsText(m, b, n, k), b) == Some(r)
  {
    ParseNext(DigitsText(m, b, n, k + 1), MaskedChar(m, PrintMask(b, n, k), b * k), b);
  }

  /** `r` is what is read from the digits down to digit `k`. */
  ghost predicate IsRead(m: Match, b: nat, n: nat, k: nat, r: Match)
    requires IsBase(b) && k <= n && (n > 0 ==> b * (n - 1) < UNIT)
  {
    forall z {:trigger Reading(r, z)} | Reading(r, z) :: ParseDigits(DigitsText(m, b, n, k), b) == Some(r) && Shows(m, b, n, k, r)
  }

  ghost predicate Reading(r: Match, z: int) {
    true
  }

  lemma ReadNothing(m: Match, b: nat, n: nat)
    requires IsBase(b) && n > 0 && b * (n - 1) < UNIT
    ensures IsRead(m, b, n, n, Match(Zero(), Zero()))
  {
    ShowsNone(m, b, n);
  }

  lemma ReadNext(m: Match, b: nat, n: nat, k: nat, before: Match) returns (r: Match)
    requires IsBase(b) && k < n && b * (n - 1) < UNIT && IsRead(m, b, n, k + 1, before)
    ensures IsRead(m, b, n, k, r)
  {
    assert Reading(before, 0);
    MulMonotone(b, k, n - 1);
    r := ShowsNext(m, b, n, k, before);
    TextNext(m, b, n, k, before, r);
  }

  lemma DigitsRead(m: Match, b: nat, n: nat) returns (r: Match)
    requires IsBase(b) && n > 0 && b * (n - 1) < UNIT
    ensures IsRead(m, b, n, 0, r)
  {
    r := Match(Zero(), Zero());
    ReadNothing(m, b, n);
    var k := n;
    while k > 0
      invariant k <= n && IsRead(m, b, n, k, r)
    {
      r := ReadNext(m, b, n, k - 1, r);
      k := k - 1;
    }
  }

  lemma HighDigit(p: nat, b: nat, n: nat)
    requires IsBase(b)
    ensures p >= b * n <==> DigitOf(p, b) >= n
  {
    if b == 1 {
    } else if b == 3 {
    } else {
    }
  }

  /** No set bit of a digit that is not free is left out of the mask it is printed with. */
  ghost predicate NothingCutOff(m: Match, b: nat, n: nat)
    requires IsBase(b)
  {
    forall p | 0 <= p < UNIT && DigitOf(p, b) < n && m.word1[p] && !m.word0[p] :: InPrintMask(p, b, n, DigitOf(p, b))
  }

  /** In a digit that is not mixed, a star stands for free bits only, and for all of them. */
  lemma StarIsFree(m: Match, b: nat, n: nat, p: nat)
    requires IsBase(b) && !AnyMixed(m, b) && n > 0 && b * (n - 1) < UNIT && p < UNIT && DigitOf(p, b) < n
    ensures Starred(m, b, n, p) <==> Free(m, p)
  {
    var k := DigitOf(p, b);
    assert !Mixed(m, b, k);
    DigitOfBit(p, b, k);
    NextPrintMask(b, n, k);
    var mask := PrintMask(b, n, k);
    var t := And(And(mask, m.word0), m.word1);
    IsZero(t);
    DigitOfBit(b * k, b, k);
    if Star(m, b, n, k) {
      var i :| 0 <= i < UNIT && t[i];
      assert InDigit(i, b, k) && Free(m, i);
    }
    if Free(m, p) {
      assert InDigit(b * k, b, k);
      assert t[b * k];
    }
  }

  /** Printing a match and reading the text gives one that matches the same, exactly if nothing is cut off. */
  lemma PrintThenParse(m: Match, b: nat, n: nat) returns (r: Match)
    requires !IsZeroMatch(m) && IsBaseOf(m, b) && IsCount(m, b, n) && b * (n - 1) < UNIT
    ensures ParseDigits(DigitsText(m, b, n, 0), b) == Some(r)
    ensures SameMatches(m, r) <==> NothingCutOff(m, b, n)
  {
    r := DigitsRead(m, b, n);
    assert Reading(r, 0);
    SameMatchesBits(m, r);
    forall p | 0 <= p < UNIT
      ensures Free(m, p) == Free(r, p)
      ensures m.word1[p] == r.word1[p] <==> (DigitOf(p, b) < n && m.word1[p] && !m.word0[p] ==> InPrintMask(p, b, n, DigitOf(p, b)))
    {
      assert p == p + b * 0;
      assert ShowsBit(m, b, n, r, p, p);
      HighDigit(p, b, n);
      if DigitOf(p, b) < n {
        StarIsFree(m, b, n, p);
      }
    }
  }

  /** The same of the operators: what is printed is read back as a match of the same values, exactly if
      nothing is cut off. The star that is printed for the match without any bits is not read back. */
  method ReadBack(m: Match) returns (r: Option<Match>, ghost b: nat, ghost n: nat)
    ensures IsZeroMatch(m) ==> r == None
    ensures !IsZeroMatch(m) ==> IsBaseOf(m, b) && IsCount(m, b, n)
    ensures !IsZeroMatch(m) ==> r.Some? && (SameMatches(m, r.value) <==> NothingCutOff(m, b, n))
  {
    var out;
    out, b, n := Print(m);
    r := Parse(out);
    if IsZeroMatch(m) {
      assert "*"[..0] == "";
    } else {
      ghost var digits := DigitsText(m, b, n, 0);
      assert BitsOf(Prefix(b) + digits) == b && (Prefix(b) + digits)[2..] == digits;
      ghost var read := PrintThenParse(m, b, n);
    }
  }

  /** Nothing is cut off if all digits fit, and so if bit 63 is clear, or the base is not 8. */
  lemma AllDigitsFit(m: Match, b: nat, n: nat)
    requires IsBase(b) && IsCount(m, b, n) && (b != 3 || (!m.word0[63] && !m.word1[63]))
    ensures b * n <= UNIT && NothingCutOff(m, b, n)
  {
    if b == 3 {
      assert n != 22;
    }
    forall p | 0 <= p < UNIT && DigitOf(p, b) < n ensures InPrintMask(p, b, n, DigitOf(p, b)) {
      DigitOfBit(p, b, DigitOf(p, b));
    }
  }

  /** With bit 63 set, base 8 shows only the lowest bit of every digit. */
  lemma OctalCutsOff(m: Match, n: nat)
    requires IsCount(m, 3, n) && (m.word0[63] || m.word1[63])
    ensures NothingCutOff(m, 3, n) <==> forall p | 0 <= p < UNIT && p % 3 != 0 :: m.word1[p] ==> m.word0[p]
  {
    assert n == 22;
  }

  /** The bits of a word with the given numbers. */
  function WithBits(bits: set<nat>): Word {
    seq(UNIT, i requires 0 <= i < UNIT => i in bits)
  }

  /** `match_t(7, 2^63 + 0x17)` has free bits 0 to 2 and ones at 4 and 63: hexadecimal would mix bits 0 to 3, so
      base 8 is used, and bit 4 is lost. */
  lemma OctalLosesBit() returns (r: Match)
    ensures var m := Match(WithBits({0, 1, 2}), WithBits({0, 1, 2, 4, 63}));
            !IsZeroMatch(m) && IsBaseOf(m, 3) && IsCount(m, 3, 22)
            && ParseDigits(DigitsText(m, 3, 22, 0), 3) == Some(r) && !SameMatches(m, r)
  {
    var m := Match(WithBits({0, 1, 2}), WithBits({0, 1, 2, 4, 63}));
    assert m.word1[63] && m.word1[4] && !m.word0[4];
    assert Free(m, 0) && !Free(m, 3) && InDigit(0, 4, 0) && InDigit(3, 4, 0);
    assert Mixed(m, 4, 0);
    forall k: nat ensures !Mixed(m, 3, k) {
      assert forall i | 0 <= i < UNIT :: Free(m, i) <==> i < 3;
    }
    assert 4 % 3 != 0;
    OctalCutsOff(m, 22);
    r := PrintThenParse(m, 3, 22);
  }
}
