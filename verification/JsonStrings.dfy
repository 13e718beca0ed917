/** Strings in JSON text: how the reader finds their end, and `cstring::escapeJson`. */
module JsonStrings {
  import opened HexDigits
  import opened Wrappers

  /** How many backslashes `s` ends with. */
  function TrailingBackslashes(s: string): nat {
    if s == "" || s[|s| - 1] != '\\' then 0 else 1 + TrailingBackslashes(s[..|s| - 1])
  }

  /** After reading `s`, the next character is escaped. */
  ghost predicate Escaping(s: string) {
    s != "" && s[|s| - 1] == '\\' && !Escaping(s[..|s| - 1])
  }

  /** The text of a string literal: every quote in it is escaped, and so is not the one that follows. */
  ghost predicate EscapeClosed(s: string) {
    !Escaping(s) && forall i {:trigger Escaping(s[..i])} | 0 <= i < |s| && s[i] == '"' :: Escaping(s[..i])
  }

  lemma {:induction false} EscapingIsOdd(s: string)
    ensures Escaping(s) <==> TrailingBackslashes(s) % 2 == 1
  {
    if s != "" {
      EscapingIsOdd(s[..|s| - 1]);
    }
  }

  /** The position of the first quote, or the length. */
  function FindQuote(s: string): (q: nat)
    ensures q <= |s| && (q < |s| ==> s[q] == '"') && forall i | 0 <= i < q :: s[i] != '"'
  {
    if s == "" || s[0] == '"' then 0 else 1 + FindQuote(s[1..])
  }

  /** What the reader takes for a string when `acc` has been read so far: the string and what is left. */
  function ReadString(acc: string, s: string): (string, string)
    decreases |s|
  {
    var q := FindQuote(s);
    var str := acc + s[..q];
    if TrailingBackslashes(str) % 2 == 0 then (str, if q == |s| then "" else s[q + 1..])
    else if s == "" then (str + "\"", "")
    else ReadString(str + "\"", if q == |s| then "" else s[q + 1..])
  }

  lemma {:induction false} ReadStringShorter(acc: string, s: string)
    ensures |ReadString(acc, s).1| <= |s|
    decreases |s|
  {
    var q := FindQuote(s);
    if TrailingBackslashes(acc + s[..q]) % 2 == 1 && s != "" {
      ReadStringShorter(acc + s[..q] + "\"", if q == |s| then "" else s[q + 1..]);
    }
  }

  /** The string read is no shorter than what was read before. */
  lemma {:induction false} ReadStringGrows(acc: string, s: string)
    ensures |ReadString(acc, s).0| >= |acc|
    decreases |s|
  {
    var q := FindQuote(s);
    if TrailingBackslashes(acc + s[..q]) % 2 == 1 && s != "" {
      ReadStringGrows(acc + s[..q] + "\"", if q == |s| then "" else s[q + 1..]);
    }
  }

  /** Up to the position `n` in `s` no quote ends the literal. */
  ghost predicate ClosedUpTo(s: string, n: nat) {
    n <= |s| && forall i {:trigger Escaping(s[..i])} | 0 <= i < n && s[i] == '"' :: Escaping(s[..i])
  }

  /** A written string is read back exactly if it is escape-closed. */
  lemma StringReadBack(s: string, rest: string)
    ensures ReadString("", s + "\"" + rest) == (s, rest) <==> EscapeClosed(s)
  {
    assert s[..0] == "" && s[0..] + "\"" + rest == s + "\"" + rest;
    ReadFrom(s, 0, rest);
  }

  /** The first quote from position `n` on is in `s` or ends it. */
  lemma NextQuote(s: string, n: nat, rest: string) returns (m: nat)
    requires ClosedUpTo(s, n)
    ensures n <= m <= |s| && m == n + FindQuote(s[n..] + "\"" + rest)
    ensures s[..n] + (s[n..] + "\"" + rest)[..m - n] == s[..m]
    ensures (s[n..] + "\"" + rest)[m - n + 1..] == if m == |s| then rest else s[m + 1..] + "\"" + rest
    ensures ClosedUpTo(s, m) && (m < |s| ==> s[m] == '"')
  {
    var input := s[n..] + "\"" + rest;
    assert input[|s| - n] == '"';
    m := n + FindQuote(input);
    assert forall i | n <= i < m :: s[i] == input[i - n];
    assert m < |s| ==> s[m] == input[m - n];
  }

  ghost function After(s: string, m: nat, rest: string): string
    requires m <= |s|
  {
    if m == |s| then rest else s[m + 1..] + "\"" + rest
  }

  lemma ReadStep(s: string, n: nat, rest: string) returns (m: nat)
    requires ClosedUpTo(s, n)
    ensures n <= m <= |s| && ClosedUpTo(s, m) && (m < |s| ==> s[m] == '"')
    ensures ReadString(s[..n], s[n..] + "\"" + rest)
         == if !Escaping(s[..m]) then (s[..m], After(s, m, rest)) else ReadString(s[..m] + "\"", After(s, m, rest))
  {
    m := NextQuote(s, n, rest);
    EscapingIsOdd(s[..m]);
    ReadStringOnce(s[..n], s[n..] + "\"" + rest, s[..m], After(s, m, rest));
  }

  /** Reading up to the first quote. */
  lemma ReadStringOnce(acc: string, s: string, str: string, rest: string)
    requires FindQuote(s) < |s| && str == acc + s[..FindQuote(s)] && rest == s[FindQuote(s) + 1..]
    ensures ReadString(acc, s) == if TrailingBackslashes(str) % 2 == 0 then (str, rest) else ReadString(str + "\"", rest)
  {
  }

  lemma {:induction false} ReadFrom(s: string, n: nat, rest: string)
    requires ClosedUpTo(s, n)
    ensures ReadString(s[..n], s[n..] + "\"" + rest) == (s, rest) <==> EscapeClosed(s)
    decreases |s| - n
  {
    var m := ReadStep(s, n, rest);
    if m == |s| {
      ReadToEnd(s, n, rest);
    } else if Escaping(s[..m]) {
      ReadOver(s, n, m, rest);
      ReadFrom(s, m + 1, rest);
    } else {
      assert ReadString(s[..n], s[n..] + "\"" + rest).0 == s[..m];
    }
  }

  lemma ReadToEnd(s: string, n: nat, rest: string)
    requires ClosedUpTo(s, |s|) && n <= |s|
    requires ReadString(s[..n], s[n..] + "\"" + rest)
          == if !Escaping(s[..|s|]) then (s[..|s|], rest) else ReadString(s[..|s|] + "\"", rest)
    ensures ReadString(s[..n], s[n..] + "\"" + rest) == (s, rest) <==> EscapeClosed(s)
  {
    assert s[..|s|] == s;
    ReadStringGrows(s + "\"", rest);
  }

  lemma {:induction false} ReadOver(s: string, n: nat, m: nat, rest: string)
    requires ClosedUpTo(s, m) && n <= m < |s| && s[m] == '"' && Escaping(s[..m])
    requires ReadString(s[..n], s[n..] + "\"" + rest) == ReadString(s[..m] + "\"", After(s, m, rest))
    ensures ReadString(s[..n], s[n..] + "\"" + rest) == ReadString(s[..m + 1], s[m + 1..] + "\"" + rest)
    ensures ClosedUpTo(s, m + 1)
  {
    UpToQuote(s, m);
  }

  lemma UpToQuote(s: string, m: nat)
    requires ClosedUpTo(s, m) && m < |s| && s[m] == '"' && Escaping(s[..m])
    ensures s[..m] + "\"" == s[..m + 1] && ClosedUpTo(s, m + 1)
  {
  }

  // Escaping.

  /** The text for one character. */
  function EscapeChar(c: char): string {
    match c
    case '"' => "\\\""
    case '\\' => "\\\\"
    case '\U{8}' => "\\b"
    case '\U{C}' => "\\f"
    case '\n' => "\\n"
    case '\r' => "\\r"
    case '\t' => "\\t"
    case _ => if c <= '\U{1F}' then "\\u00" + [HexDigit(c as nat / 16), HexDigit(c as nat % 16)] else [c]
  }

  ghost function Escape(s: string): string {
    if s == "" then "" else EscapeChar(s[0]) + Escape(s[1..])
  }

  method EscapeJson(s: string) returns (o: string)
    ensures o == Escape(s)
  {
    o := "";
    assert s[0..] == s;
    for i := 0 to |s|
      invariant o + Escape(s[i..]) == Escape(s)
    {
      assert s[i..][1..] == s[i + 1..];
      assert (o + EscapeChar(s[i])) + Escape(s[i + 1..]) == o + (EscapeChar(s[i]) + Escape(s[i + 1..]));
      o := o + EscapeChar(s[i]);
    }
  }

  lemma {:induction false} EscapingAppend(a: string, b: string)
    requires !Escaping(a)
    ensures Escaping(a + b) == Escaping(b)
  {
    if b == "" {
      assert a + b == a;
    } else {
      EscapingAppend(a, b[..|b| - 1]);
      assert (a + b)[..|a + b| - 1] == a + b[..|b| - 1];
    }
  }

  lemma ClosedAppend(a: string, b: string)
    requires EscapeClosed(a) && EscapeClosed(b)
    ensures EscapeClosed(a + b)
  {
    EscapingAppend(a, b);
    forall i | 0 <= i < |a + b| && (a + b)[i] == '"' ensures Escaping((a + b)[..i]) {
      if i < |a| {
        assert (a + b)[..i] == a[..i];
      } else {
        assert (a + b)[..i] == a + b[..i - |a|];
        EscapingAppend(a, b[..i - |a|]);
      }
    }
  }

  lemma EscapeCharClosed(c: char)
    ensures EscapeClosed(EscapeChar(c))
  {
    var e := EscapeChar(c);
    assert e[..0] == "";
    if |e| == 2 {
      assert e[..1] == "\\" && "\\"[..0] == "";
      assert Escaping("\\");
    } else if |e| == 6 {
      assert e[5] != '\\' && forall i | 0 <= i < 6 :: e[i] != '"';
    }
  }

  /** Escaped text is the text of a literal and has no raw control character. */
  lemma {:induction false} EscapeIsClosed(s: string)
    ensures EscapeClosed(Escape(s)) && forall c | c in Escape(s) :: c > '\U{1F}'
  {
    if s != "" {
      EscapeIsClosed(s[1..]);
      EscapeCharClosed(s[0]);
      ClosedAppend(EscapeChar(s[0]), Escape(s[1..]));
    }
  }

  /** The character a literal starts with, and the length of its text, by section 7 of RFC 8259. */
  function FirstChar(s: string): Option<(char, nat)> {
    if s == "" || s[0] == '"' || s[0] <= '\U{1F}' then None
    else if s[0] != '\\' then Some((s[0], 1))
    else if |s| < 2 then None
    else
      match s[1]
      case '"' => Some(('"', 2))
      case '\\' => Some(('\\', 2))
      case '/' => Some(('/', 2))
      case 'b' => Some(('\U{8}', 2))
      case 'f' => Some(('\U{C}', 2))
      case 'n' => Some(('\n', 2))
      case 'r' => Some(('\r', 2))
      case 't' => Some(('\t', 2))
      case 'u' => if |s| < 6 then None else HexChar(s[2..6])
      case _ => None
  }

  function HexChar(s: string): Option<(char, nat)>
    requires |s| == 4
  {
    match (HexValue(s[0]), HexValue(s[1]), HexValue(s[2]), HexValue(s[3]))
    case (Some(a), Some(b), Some(c), Some(d)) =>
      var n := ((a * 16 + b) * 16 + c) * 16 + d;
      if n < 0xD800 then Some((n as char, 6)) else None
    case _ => None
  }

  /** The meaning of a literal. */
  ghost function Unescape(s: string): Option<string>
    decreases |s|
  {
    if s == "" then Some("")
    else
      match FirstChar(s)
      case None => None
      case Some((c, n)) =>
        if n > |s| then None
        else
          match Unescape(s[n..])
          case None => None
          case Some(t) => Some([c] + t)
  }

  /** Escaped text means the text that was escaped. */
  lemma {:induction false} UnescapeEscape(s: string)
    ensures Unescape(Escape(s)) == Some(s)
  {
    if s != "" {
      var e := Escape(s);
      var n := |EscapeChar(s[0])|;
      assert e[..n] == EscapeChar(s[0]);
      assert e[n..] == Escape(s[1..]);
      UnescapeEscape(s[1..]);
      FirstOfEscape(s[0], Escape(s[1..]));
      assert s == [s[0]] + s[1..];
    }
  }

  lemma FirstOfEscape(c: char, rest: string)
    ensures FirstChar(EscapeChar(c) + rest) == Some((c, |EscapeChar(c)|))
  {
    var s := EscapeChar(c) + rest;
    if |EscapeChar(c)| == 6 {
      assert s[2..6] == "00" + [HexDigit(c as nat / 16), HexDigit(c as nat % 16)];
      HexDigitValue(c as nat / 16);
      HexDigitValue(c as nat % 16);
    }
  }
}
