/** Decimal text as `operator>>` of `match_t` reads it: digits are put in with `|=` and not added. */
module DecimalText {
  import opened BigInt
  import opened HexDigits
  import opened Wrappers

  const WORD := 0x1_0000_0000_0000_0000

  /** One character more: letters count as digits from 10 to 15, and underscores are passed over. */
  function AddDigit(v: nat, c: char): Option<nat> {
    if c == '_' then Some(v)
    else
      match HexValue(c)
      case None => None
      case Some(d) => Some(Or(v * 10 % WORD, d))
  }

  /** The word that is read. */
  function ReadDecimal(s: string): Option<nat> {
    if s == "" then Some(0)
    else
      match ReadDecimal(s[..|s| - 1])
      case None => None
      case Some(v) => AddDigit(v, s[|s| - 1])
  }

  /** The number that the text denotes. */
  function Numeral(s: string): Option<nat> {
    if s == "" then Some(0)
    else
      match Numeral(s[..|s| - 1])
      case None => None
      case Some(v) =>
        if s[|s| - 1] == '_' then Some(v)
        else
          match HexValue(s[|s| - 1])
          case None => None
          case Some(d) => Some(v * 10 + d)
  }

  /** The digit has no bit in common with ten times the number before it, which fits a word. */
  ghost predicate Fits(v: nat, c: char) {
    c == '_' || (HexValue(c).Some? && v * 10 < WORD && And(v * 10, HexValue(c).value) == 0)
  }

  ghost predicate AllFit(s: string) {
    s != "" ==>
      var front := s[..|s| - 1];
      AllFit(front) && Numeral(front).Some? && Fits(Numeral(front).value, s[|s| - 1])
  }

  lemma {:induction false} SumOfOr(a: nat, b: nat)
    ensures And(a, b) >= 0 && a + b == Or(a, b) + And(a, b)
    decreases a
  {
    if a > 0 {
      SumOfOr(a / 2, b / 2);
      assert And(a, b) == 2 * And(a / 2, b / 2) + if a % 2 == 1 then b % 2 else 0;
    }
  }

  /** Text is read as the number it denotes exactly if every digit fits, and as a smaller one if not. */
  lemma {:induction false} ReadExactly(s: string)
    ensures ReadDecimal(s).Some? <==> Numeral(s).Some?
    ensures Numeral(s).Some? ==> ReadDecimal(s).value <= Numeral(s).value
    ensures ReadDecimal(s).Some? ==> (ReadDecimal(s) == Numeral(s) <==> AllFit(s))
  {
    if s != "" {
      var front, c := s[..|s| - 1], s[|s| - 1];
      ReadExactly(front);
      if ReadDecimal(front).Some? && HexValue(c).Some? && c != '_' {
        DigitExactly(ReadDecimal(front).value, Numeral(front).value, HexValue(c).value);
      }
    }
  }

  /** Once too small, always too small. */
  lemma DigitExactly(v: nat, n: nat, d: nat)
    requires v <= n
    ensures Or(v * 10 % WORD, d) <= n * 10 + d
    ensures Or(v * 10 % WORD, d) == n * 10 + d <==> v == n && v * 10 < WORD && And(v * 10, d) == 0
  {
    SumOfOr(v * 10 % WORD, d);
    assert v * 10 % WORD <= v * 10;
    assert v * 10 % WORD == v * 10 <==> v * 10 < WORD;
  }

  /** Twelve is read as ten. */
  lemma TwelveIsTen()
    ensures ReadDecimal("12") == Some(10) && Numeral("12") == Some(12)
  {
    assert "12"[..1] == "1" && "1"[..0] == "";
    assert Or(0, 1) == 1;
    assert Or(1, 0) == 1 && Or(2, 0) == 2 && Or(5, 1) == 5;
    assert Or(10, 2) == 10;
  }
}
