/** Hexadecimal digits. */
module HexDigits {
  import opened Wrappers

  function HexDigit(n: nat): char
    requires n < 16
  {
    "0123456789abcdef"[n]
  }

  /** The value of a hexadecimal digit, in either case. */
  function HexValue(c: char): (r: Option<nat>)
    ensures r.Some? ==> r.value < 16
  {
    if '0' <= c <= '9' then Some(c as nat - '0' as nat)
    else if 'a' <= c <= 'f' then Some(c as nat - 'a' as nat + 10)
    else if 'A' <= c <= 'F' then Some(c as nat - 'A' as nat + 10)
    else None
  }

  lemma HexDigitValue(n: nat)
    requires n < 16
    ensures HexValue(HexDigit(n)) == Some(n) && !('A' <= HexDigit(n) <= 'Z')
  {
  }

  /** The digits are these, small letters and capitals, and no others. */
  lemma HexDigitsExactly(c: char, n: nat)
    requires n < 16
    ensures HexValue(c) == Some(n) <==> c == "0123456789abcdef"[n] || c == "0123456789ABCDEF"[n]
  {
  }
}
