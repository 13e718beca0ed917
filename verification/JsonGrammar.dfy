/** Which texts stand for a JSON tree, by RFC 8259, told without the reader; and that the reader reads them all. */
module JsonGrammar {
  import opened JsonStrings
  import opened JsonText
  import opened JsonReading
  import opened Wrappers

  /** The whitespace of RFC 8259, and the vertical tab and the form feed, which `std::ws` skips too. */
  predicate IsBlank(c: char) {
    c in " \t\n\r\U{B}\U{C}"
  }

  ghost predicate Blank(w: string) {
    forall c | c in w :: IsBlank(c)
  }

  // Numbers.

  predicate IsNumeral(s: string) {
    s != "" && (forall c | c in s :: '0' <= c <= '9') && (s[0] == '0' ==> |s| == 1)
  }

  function Power(base: nat, n: nat): nat {
    if n == 0 then 1 else base * Power(base, n - 1)
  }

  /** The digits with their weights. */
  function ValueOf(s: string, base: nat): int {
    if s == "" then 0 else (s[0] as int - '0' as int) * Power(base, |s| - 1) + ValueOf(s[1..], base)
  }

  predicate IsDigitOf(c: char, base: nat) {
    0 <= c as int - '0' as int < base
  }

  ghost predicate AreDigits(s: string, base: nat) {
    forall c | c in s :: IsDigitOf(c, base)
  }

  ghost predicate WrittenNumber(n: int, s: string) {
    || (IsNumeral(s) && n == ValueOf(s, 10))
    || (s != "" && s[0] == '-' && IsNumeral(s[1..]) && n == -ValueOf(s[1..], 10))
  }

  // Trees. The labels of an object need not differ.

  /** `s` is a text for `t`, with nothing around it. */
  ghost predicate Written(t: Json, s: string)
    decreases t
  {
    match t
    case Str(x) => s == "\"" + x + "\"" && EscapeClosed(x)
    case Num(n) => WrittenNumber(n, s)
    case Bool(b) => s == if b then "true" else "false"
    case Null => s == "null"
    case NoPtr => false
    case Arr(elems) => exists b :: s == "[" + b + "]" && WrittenElems(elems, b)
    case Obj(fields) => exists b :: s == "{" + b + "}" && WrittenFields(fields, b)
  }

  /** The inside of an array. */
  ghost predicate WrittenElems(elems: seq<Json>, b: string)
    decreases elems
  {
    if elems == [] then Blank(b)
    else
      exists p, x, more {:trigger ElemParts(b, p, x, more)} ::
        && ElemParts(b, p, x, more) && Written(elems[0], x)
        && if |elems| == 1 then more == "" else more != "" && more[0] == ',' && WrittenElems(elems[1..], more[1..])
  }

  /** The inside of an object. */
  ghost predicate WrittenFields(fields: seq<Field>, b: string)
    decreases fields
  {
    if fields == [] then Blank(b)
    else
      exists l, p, x, more {:trigger FieldParts(b, fields[0].name, l, p, x, more)} ::
        && FieldParts(b, fields[0].name, l, p, x, more) && Written(fields[0].value, x)
        && if |fields| == 1 then more == "" else more != "" && more[0] == ',' && WrittenFields(fields[1..], more[1..])
  }

  /** The text `x` with whitespace around it. */
  ghost predicate Around(p: string, x: string) {
    exists w, w' {:trigger Pads(p, w, x, w')} :: Pads(p, w, x, w')
  }

  ghost predicate Pads(p: string, w: string, x: string, w': string) {
    p == w + x + w' && Blank(w) && Blank(w')
  }

  ghost predicate ElemParts(b: string, p: string, x: string, more: string) {
    b == p + more && Around(p, x)
  }

  ghost predicate FieldParts(b: string, name: string, l: string, p: string, x: string, more: string) {
    b == l + ":" + p + more && Around(l, Quoted(name)) && EscapeClosed(name) && Around(p, x)
  }

  ghost function Quoted(s: string): string {
    "\"" + s + "\""
  }

  lemma FirstElemWritten(elems: seq<Json>, b: string, p: string, x: string, more: string)
    requires elems != [] && ElemParts(b, p, x, more) && Written(elems[0], x)
    requires if |elems| == 1 then more == "" else more != "" && more[0] == ',' && WrittenElems(elems[1..], more[1..])
    ensures WrittenElems(elems, b)
  {
  }

  lemma FirstFieldWritten(fields: seq<Field>, b: string, l: string, p: string, x: string, more: string)
    requires fields != [] && FieldParts(b, fields[0].name, l, p, x, more) && Written(fields[0].value, x)
    requires if |fields| == 1 then more == "" else more != "" && more[0] == ',' && WrittenFields(fields[1..], more[1..])
    ensures WrittenFields(fields, b)
  {
  }

  lemma FirstElem(elems: seq<Json>, b: string) returns (p: string, x: string, more: string)
    requires elems != [] && WrittenElems(elems, b)
    ensures ElemParts(b, p, x, more) && Written(elems[0], x)
    ensures if |elems| == 1 then more == "" else more != "" && more[0] == ',' && WrittenElems(elems[1..], more[1..])
  {
    p, x, more :| ElemParts(b, p, x, more) && Written(elems[0], x)
      && if |elems| == 1 then more == "" else more != "" && more[0] == ',' && WrittenElems(elems[1..], more[1..]);
  }

  lemma FirstField(fields: seq<Field>, b: string) returns (l: string, p: string, x: string, more: string)
    requires fields != [] && WrittenFields(fields, b)
    ensures FieldParts(b, fields[0].name, l, p, x, more) && Written(fields[0].value, x)
    ensures if |fields| == 1 then more == "" else more != "" && more[0] == ',' && WrittenFields(fields[1..], more[1..])
  {
    l, p, x, more :| FieldParts(b, fields[0].name, l, p, x, more) && Written(fields[0].value, x)
      && if |fields| == 1 then more == "" else more != "" && more[0] == ',' && WrittenFields(fields[1..], more[1..]);
  }

  // What a text means: for a label that is repeated, the last value, in the place of the first.

  ghost function Meaning(t: Json): Json
    decreases t
  {
    match t
    case Arr(elems) => Arr(Meanings(elems))
    case Obj(fields) => Obj(PutAll([], fields))
    case _ => t
  }

  ghost function Meanings(elems: seq<Json>): seq<Json>
    decreases elems
  {
    if elems == [] then [] else [Meaning(elems[0])] + Meanings(elems[1..])
  }

  ghost function PutAll(obj: seq<Field>, fields: seq<Field>): seq<Field>
    decreases fields
  {
    if fields == [] then obj else PutAll(Put(obj, fields[0].name, Meaning(fields[0].value)), fields[1..])
  }

  // Whitespace.

  lemma {:induction false} SkipBlank(w: string, s: string)
    requires Blank(w)
    ensures SkipSpace(w + s) == SkipSpace(s)
  {
    forall c | c in w ensures IsSpace(c) {
      SpaceIsBlank(c);
    }
    SkipSpaceSpace(w, s);
  }

  /** `std::ws` skips the whitespace of RFC 8259 and two characters more. */
  lemma SpaceIsBlank(c: char)
    ensures IsSpace(c) <==> IsBlank(c)
  {
    assert " \t\n\r\U{B}\U{C}" == [' ', '\t', '\n', '\r', '\U{B}', '\U{C}'];
    assert IsBlank(c) <==> c == ' ' || c == '\t' || c == '\n' || c == '\r' || c == '\U{B}' || c == '\U{C}';
  }

  // Values.

  /** Reading on over digits, whatever follows. */
  lemma {:induction false} ReadDigits(num: string, digits: string, rest: string)
    requires num != "" && (forall c | c in digits :: IsDigit(c))
    ensures ReadNumber(num, digits + rest) == ReadNumber(num + digits, rest)
    decreases |digits|
  {
    if digits == "" {
      assert digits + rest == rest && num + digits == num;
    } else {
      assert (digits + rest)[0] == digits[0] && digits[0] in digits;
      SkipNothing(digits + rest);
      assert (digits + rest)[1..] == digits[1..] + rest;
      assert (num + [digits[0]]) + digits[1..] == num + digits;
      ReadDigits(num + [digits[0]], digits[1..], rest);
    }
  }

  lemma {:induction false} ValueOfFront(s: string, base: nat)
    requires s != ""
    ensures ValueOf(s, base) == base * ValueOf(s[..|s| - 1], base) + (s[|s| - 1] as int - '0' as int)
  {
    if |s| > 1 {
      ValueOfFront(s[1..], base);
      assert s[1..][..|s| - 2] == s[..|s| - 1][1..];
      Weight(s[0] as int - '0' as int, base, |s| - 2, ValueOf(s[..|s| - 1][1..], base));
    }
  }

  lemma Weight(d: int, base: nat, n: nat, v: int)
    ensures d * Power(base, n + 1) + base * v == base * (d * Power(base, n) + v)
  {
    var p := Power(base, n);
    assert d * (base * p) == base * (d * p);
  }

  lemma {:induction false} DigitsHaveValue(s: string, base: nat)
    ensures AreDigits(s, base) ==> ValueOf(s, base) >= 0 && DigitsValue(s, base) == Some(ValueOf(s, base))
    ensures !AreDigits(s, base) ==> DigitsValue(s, base) == None
  {
    if s != "" {
      var init, c := s[..|s| - 1], s[|s| - 1];
      assert s == init + [c];
      DigitsHaveValue(init, base);
      ValueOfFront(s, base);
      OneDigitMore(init, c, base);
      if AreDigits(s, base) {
        MoreIsPositive(ValueOf(init, base), base);
      }
    }
  }

  lemma MoreIsPositive(v: int, base: nat)
    requires v >= 0
    ensures v * base == base * v >= 0
  {
  }

  lemma OneDigitMore(s: string, c: char, base: nat)
    ensures AreDigits(s + [c], base) <==> AreDigits(s, base) && IsDigitOf(c, base)
    ensures AreDigits([c] + s, base) <==> AreDigits(s, base) && IsDigitOf(c, base)
  {
    assert c in s + [c] && c in [c] + s;
    forall d | d in s ensures d in s + [c] && d in [c] + s {
    }
  }

  lemma NumberHasValue(n: int, s: string)
    requires WrittenNumber(n, s)
    ensures NumberValue(s) == Some(n) && (s[0] == '-' || IsDigit(s[0])) && forall c | c in s[1..] :: IsDigit(c)
  {
    assert s[0] in s && forall c | c in s[1..] :: c in s;
    if s[0] == '-' {
      DigitsHaveValue(s[1..], 10);
    } else {
      DigitsHaveValue(s, 10);
    }
  }

  /** A number with a leading zero, which is not JSON, is read in base eight, or rejected if a digit is too large. */
  lemma LeadingZeroIsOctal(digits: string, rest: string)
    requires digits != "" && AreDigits(digits, 10) && Ends(Num(0), rest)
    ensures AreDigits(digits, 8) ==> ReadJson("0" + digits + rest) == Read(Num(ValueOf(digits, 8)), SkipSpace(rest))
    ensures !AreDigits(digits, 8) ==> ReadJson("0" + digits + rest) == NoValue(BadNumber)
  {
    ReadsOnAsNumber("0", digits, rest);
    OctalValue(digits);
  }

  lemma ReadsOnAsNumber(first: string, digits: string, rest: string)
    requires |first| == 1 && IsDigit(first[0]) && AreDigits(digits, 10)
    ensures ReadJson(first + digits + rest) == ReadNumber(first + digits, rest)
  {
    var s := first + digits;
    assert (s + rest)[1..] == digits + rest && first == [s[0]];
    ReadDigits(first, digits, rest);
    YieldsNumber(s + rest, ReadNumber(s, rest));
    Result(s + rest, ReadNumber(s, rest));
  }

  lemma OctalValue(digits: string)
    requires digits != ""
    ensures NumberValue("0" + digits) == if AreDigits(digits, 8) then Some(ValueOf(digits, 8)) else None
  {
    var s := "0" + digits;
    assert s[0] == '0' && s[1..] == digits && s == ['0'] + digits;
    DigitsHaveValue(s, 8);
    DigitsHaveValue(digits, 8);
    OneDigitMore(digits, '0', 8);
    assert ValueOf(s, 8) == ValueOf(digits, 8);
  }

  /** What follows a number must not be a digit, nor the end. */
  ghost predicate Ends(t: Json, rest: string) {
    t.Num? ==> SkipSpace(rest) != "" && !IsDigit(SkipSpace(rest)[0])
  }

  /** What is left after a value: a number takes the whitespace after it along. */
  ghost function Left(t: Json, rest: string): string {
    if t.Num? then SkipSpace(rest) else rest
  }

  lemma ReadsNumber(n: int, s: string, rest: string)
    requires WrittenNumber(n, s) && Ends(Num(n), rest)
    ensures Yields(s + rest, Read(Num(n), SkipSpace(rest)))
  {
    NumberHasValue(n, s);
    assert s == [s[0]] + s[1..];
    assert (s + rest)[1..] == s[1..] + rest && (s + rest)[0] == s[0];
    ReadDigits([s[0]], s[1..], rest);
    YieldsNumber(s + rest, ReadNumber(s, rest));
  }

  lemma ReadsString(s: string, rest: string)
    requires EscapeClosed(s)
    ensures Yields(Quoted(s) + rest, Read(Str(s), rest))
  {
    var t := Quoted(s) + rest;
    assert t[1..] == s + "\"" + rest;
    SkipNothing(t);
    StringReadBack(s, rest);
  }

  lemma ReadsWord(w: string, t: Json, rest: string)
    requires (w == "null" && t == Null) || (w == "true" && t == Bool(true)) || (w == "false" && t == Bool(false))
    ensures Yields(w + rest, Read(t, rest))
  {
    SkipNothing(w + rest);
    assert (w + rest)[1..][|w| - 1..] == rest;
  }

  /** A value starts with a character that is neither whitespace nor a closing bracket. */
  lemma WrittenStarts(t: Json, s: string)
    requires Written(t, s)
    ensures StartsValue(s)
  {
    if t.Num? {
      NumberHasValue(t.n, s);
    }
  }

  /** Every text for a tree is read as what it means, and what follows is left. */
  lemma {:induction false} ReadsWritten(t: Json, s: string, rest: string)
    requires Written(t, s) && Ends(t, rest)
    ensures Yields(s + rest, Read(Meaning(t), Left(t, rest)))
    decreases t, 0
  {
    match t {
      case Str(x) => ReadsString(x, rest);
      case Num(n) => ReadsNumber(n, s, rest);
      case Bool(b) => ReadsWord(s, t, rest);
      case Null => ReadsWord(s, t, rest);
      case Arr(elems) => ReadsArray(elems, s, rest);
      case Obj(fields) => ReadsObject(fields, s, rest);
    }
  }

  lemma ReadsArray(elems: seq<Json>, s: string, rest: string)
    requires Written(Arr(elems), s)
    ensures Yields(s + rest, Read(Meaning(Arr(elems)), rest))
    decreases elems, 3
  {
    var b :| s == "[" + b + "]" && WrittenElems(elems, b);
    ReadsElems(elems, b, rest, []);
    assert [] + Meanings(elems) == Meanings(elems);
    YieldsArray(b + ("]" + rest), Read(Meaning(Arr(elems)), rest));
    assert s + rest == "[" + (b + ("]" + rest));
  }

  lemma ReadsObject(fields: seq<Field>, s: string, rest: string)
    requires Written(Obj(fields), s)
    ensures Yields(s + rest, Read(Meaning(Obj(fields)), rest))
    decreases fields, 3
  {
    var b :| s == "{" + b + "}" && WrittenFields(fields, b);
    ReadsFields(fields, b, rest, []);
    YieldsObject(b + ("}" + rest), Read(Meaning(Obj(fields)), rest));
    assert s + rest == "{" + (b + ("}" + rest));
  }

  /** A value with whitespace around it, and then something that is not whitespace. */
  lemma ReadsAround(t: Json, p: string, x: string, rest: string) returns (tail: string)
    requires Around(p, x) && Written(t, x) && rest != "" && !IsSpace(rest[0]) && !IsDigit(rest[0])
    ensures StartsValue(SkipSpace(p + rest)) && SkipSpace(tail) == rest
    ensures Yields(SkipSpace(p + rest), Read(Meaning(t), tail)) && Yields(p + rest, Read(Meaning(t), tail))
    decreases t, 1
  {
    WrittenStarts(t, x);
    var w, w' := AroundParts(p, x, rest);
    ReadsWritten(t, x, w' + rest);
    tail := Left(t, w' + rest);
    YieldsAfterBlank(w, x + (w' + rest), Read(Meaning(t), tail));
  }

  /** A label with whitespace around it, and then a colon. */
  lemma ReadsLabel(name: string, l: string, rest: string) returns (tail: string)
    requires Around(l, Quoted(name)) && EscapeClosed(name) && rest != "" && !IsSpace(rest[0])
    ensures StartsValue(SkipSpace(l + rest)) && SkipSpace(tail) == rest
    ensures Yields(SkipSpace(l + rest), Read(Str(name), tail))
  {
    var w, w' := AroundParts(l, Quoted(name), rest);
    ReadsString(name, w' + rest);
    tail := w' + rest;
  }

  ghost predicate StartsValue(s: string) {
    s != "" && !IsSpace(s[0]) && s[0] != ']' && s[0] != '}'
  }

  lemma AroundParts(p: string, x: string, rest: string) returns (w: string, w': string)
    requires Around(p, x) && StartsValue(x) && rest != "" && !IsSpace(rest[0])
    ensures Blank(w) && p + rest == w + (x + (w' + rest)) && SkipSpace(p + rest) == x + (w' + rest)
    ensures SkipSpace(w' + rest) == rest && SkipSpace(SkipSpace(w' + rest)) == rest && StartsValue(x + (w' + rest))
  {
    w, w' :| Pads(p, w, x, w');
    SkipBlank(w, x + (w' + rest));
    SkipBlank(w', rest);
    RegroupAll(w, x, w', rest);
  }

  lemma YieldsAfterBlank(w: string, s: string, o: Outcome)
    requires Yields(s, o) && Blank(w)
    ensures Yields(w + s, o)
  {
    forall c | c in w ensures IsSpace(c) {
      SpaceIsBlank(c);
    }
    YieldsAfterSpace(w, s, o);
  }

  lemma Follows(more: string, close: char, rest: string)
    requires more == "" || more[0] == ','
    requires close == ']' || close == '}'
    ensures var u := more + ([close] + rest);
            && u != "" && !IsSpace(u[0]) && !IsDigit(u[0])
            && (more == "" ==> u[0] == close && u[1..] == rest)
            && (more != "" ==> u[0] == ',' && u[1..] == more[1..] + ([close] + rest))
  {
  }

  lemma {:induction false} ReadsElems(elems: seq<Json>, b: string, rest: string, vec: seq<Json>)
    requires WrittenElems(elems, b)
    ensures YieldsElems(b + ("]" + rest), vec, Read(Arr(vec + Meanings(elems)), rest))
    decreases elems, 2
  {
    var input, o := b + ("]" + rest), Read(Arr(vec + Meanings(elems)), rest);
    if elems == [] {
      SkipBlank(b, "]" + rest);
      assert vec + [] == vec;
      YieldsLastElem(input, vec, rest);
    } else {
      var p, x, more := FirstElem(elems, b);
      var e := Meaning(elems[0]);
      assert vec + Meanings(elems) == (vec + [e]) + Meanings(elems[1..]);
      if more != "" {
        ReadsElems(elems[1..], more[1..], rest, vec + [e]);
      } else {
        assert (vec + [e]) + [] == vec + [e];
      }
      ReadsOneElem(elems[0], p, x, more, rest, vec, o);
      assert input == p + (more + ("]" + rest));
    }
  }

  lemma ReadsOneElem(e: Json, p: string, x: string, more: string, rest: string, vec: seq<Json>, o: Outcome)
    requires Around(p, x) && Written(e, x) && (more == "" || more[0] == ',')
    requires var vec' := vec + [Meaning(e)];
             if more == "" then o == Read(Arr(vec'), rest) else YieldsElems(more[1..] + ("]" + rest), vec', o)
    ensures YieldsElems(p + (more + ("]" + rest)), vec, o)
    decreases e, 2
  {
    var u := more + ("]" + rest);
    Follows(more, ']', rest);
    var tail := ReadsAround(e, p, x, u);
    YieldsNextElem(p + u, vec, Meaning(e), tail, o);
  }

  lemma {:induction false} ReadsFields(fields: seq<Field>, b: string, rest: string, obj: seq<Field>)
    requires WrittenFields(fields, b)
    ensures YieldsFields(b + ("}" + rest), obj, Read(Obj(PutAll(obj, fields)), rest))
    decreases fields, 2
  {
    var input, o := b + ("}" + rest), Read(Obj(PutAll(obj, fields)), rest);
    if fields == [] {
      SkipBlank(b, "}" + rest);
      YieldsLastField(input, obj, rest);
    } else {
      var f := fields[0];
      var l, p, x, more := FirstField(fields, b);
      PutAllStep(obj, fields);
      if more != "" {
        ReadsFields(fields[1..], more[1..], rest, Put(obj, f.name, Meaning(f.value)));
      }
      ReadsOneField(f, l, p, x, more, rest, obj, o);
      RegroupMember(l, p, more, "}" + rest);
    }
  }

  lemma RegroupMember(l: string, p: string, more: string, rest: string)
    ensures (l + ":" + p + more) + rest == l + (":" + (p + (more + rest)))
  {
  }

  lemma PutAllStep(obj: seq<Field>, fields: seq<Field>)
    requires fields != []
    ensures var obj' := Put(obj, fields[0].name, Meaning(fields[0].value));
            PutAll(obj, fields) == PutAll(obj', fields[1..]) && (|fields| == 1 ==> PutAll(obj, fields) == obj')
  {
  }

  lemma ReadsOneField(f: Field, l: string, p: string, x: string, more: string, rest: string, obj: seq<Field>, o: Outcome)
    requires Around(l, Quoted(f.name)) && EscapeClosed(f.name) && Around(p, x) && Written(f.value, x)
    requires more == "" || more[0] == ','
    requires var obj' := Put(obj, f.name, Meaning(f.value));
             if more == "" then o == Read(Obj(obj'), rest) else YieldsFields(more[1..] + ("}" + rest), obj', o)
    ensures YieldsFields(l + (":" + (p + (more + ("}" + rest)))), obj, o)
    decreases f, 1
  {
    var u := more + ("}" + rest);
    Follows(more, '}', rest);
    var tail := ReadsAround(f.value, p, x, u);
    var afterKey := ReadsLabel(f.name, l, ":" + (p + u));
    assert (":" + (p + u))[1..] == p + u;
    YieldsNextField(l + (":" + (p + u)), obj, f.name, afterKey, Meaning(f.value), tail, o);
  }

  /** Every text for a tree by RFC 8259, with whitespace around it, is read as what it means. A number has to be
      followed by something other than a digit, and takes the whitespace along. */
  lemma WrittenIsRead(t: Json, w: string, s: string, w': string, rest: string)
    requires Written(t, s) && Blank(w) && Blank(w')
    requires t.Num? ==> rest != "" && !IsBlank(rest[0]) && !('0' <= rest[0] <= '9')
    ensures ReadJson(w + s + w' + rest) == Read(Meaning(t), if t.Num? then rest else w' + rest)
  {
    EndsThere(t, w', rest);
    ReadsDocument(t, w, s, w' + rest);
    RegroupAll(w, s, w', rest);
  }

  lemma EndsThere(t: Json, w': string, rest: string)
    requires Blank(w') && (t.Num? ==> rest != "" && !IsBlank(rest[0]) && !('0' <= rest[0] <= '9'))
    ensures Ends(t, w' + rest) && Left(t, w' + rest) == if t.Num? then rest else w' + rest
  {
    if t.Num? {
      SpaceIsBlank(rest[0]);
      SkipBlank(w', rest);
    }
  }

  lemma RegroupAll(w: string, s: string, w': string, rest: string)
    ensures w + s + w' + rest == w + (s + (w' + rest))
  {
  }

  lemma ReadsDocument(t: Json, w: string, s: string, after: string)
    requires Written(t, s) && Blank(w) && Ends(t, after)
    ensures ReadJson(w + (s + after)) == Read(Meaning(t), Left(t, after))
  {
    ReadsWritten(t, s, after);
    YieldsAfterBlank(w, s + after, Read(Meaning(t), Left(t, after)));
    Result(w + (s + after), Read(Meaning(t), Left(t, after)));
  }

  // Repeated labels.

  /** The fields that the members of an object come to: one for each label, in the order in which the labels first
      occur, with the values that they occur with last. */
  ghost predicate Collapses(fields: seq<Field>, r: seq<Field>, firsts: seq<nat>, lasts: seq<nat>) {
    && |r| == |firsts| == |lasts|
    && (forall i, j | 0 <= i < j < |firsts| :: firsts[i] < firsts[j])
    && (forall i | 0 <= i < |r| :: IsFirst(fields, firsts[i], r[i].name) && IsLast(fields, lasts[i], r[i]))
    && (forall k | 0 <= k < |fields| :: Occurs(r, fields[k].name))
  }

  ghost predicate IsFirst(fields: seq<Field>, k: nat, name: string) {
    k < |fields| && fields[k].name == name && forall j | 0 <= j < k :: fields[j].name != name
  }

  ghost predicate IsLast(fields: seq<Field>, k: nat, f: Field) {
    && k < |fields| && fields[k].name == f.name && f.value == Meaning(fields[k].value)
    && forall j | k < j < |fields| :: fields[j].name != f.name
  }

  ghost predicate Occurs(r: seq<Field>, name: string) {
    exists i :: 0 <= i < |r| && r[i].name == name
  }

  /** `Put` replaces the value of a label, or adds the label at the end. */
  lemma {:induction false} PutAt(obj: seq<Field>, name: string, value: Json) returns (i: nat)
    ensures i <= |obj| && forall k | 0 <= k < i :: obj[k].name != name
    ensures i < |obj| ==> obj[i].name == name && Put(obj, name, value) == obj[i := Field(name, value)]
    ensures i == |obj| ==> Put(obj, name, value) == obj + [Field(name, value)]
  {
    i := 0;
    if obj != [] && obj[0].name != name {
      var k := PutAt(obj[1..], name, value);
      i := k + 1;
      assert obj == [obj[0]] + obj[1..];
    }
  }

  lemma {:induction false} PutAllLast(obj: seq<Field>, fields: seq<Field>, f: Field)
    ensures PutAll(obj, fields + [f]) == Put(PutAll(obj, fields), f.name, Meaning(f.value))
    decreases |fields|
  {
    if fields == [] {
      assert [] + [f] == [f];
      PutAllStep(obj, [f]);
    } else {
      assert (fields + [f])[1..] == fields[1..] + [f];
      PutAllLast(Put(obj, fields[0].name, Meaning(fields[0].value)), fields[1..], f);
    }
  }

  lemma {:induction false} LastValueWins(fields: seq<Field>) returns (firsts: seq<nat>, lasts: seq<nat>)
    ensures Collapses(fields, PutAll([], fields), firsts, lasts)
  {
    if fields == [] {
      firsts, lasts := [], [];
    } else {
      var n := |fields| - 1;
      var front, f := fields[..n], fields[n];
      firsts, lasts := LastValueWins(front);
      assert fields == front + [f];
      PutAllLast([], front, f);
      var r := PutAll([], front);
      var i := PutAt(r, f.name, Meaning(f.value));
      if i < |r| {
        ValueReplaced(front, f, r, firsts, lasts, i);
        lasts := lasts[i := n];
      } else {
        LabelAdded(front, f, r, firsts, lasts);
        firsts, lasts := firsts + [n], lasts + [n];
      }
    }
  }

  lemma ValueReplaced(front: seq<Field>, f: Field, r: seq<Field>, firsts: seq<nat>, lasts: seq<nat>, i: nat)
    requires Collapses(front, r, firsts, lasts) && i < |r| && r[i].name == f.name
    ensures Collapses(front + [f], r[i := Field(f.name, Meaning(f.value))], firsts, lasts[i := |front|])
  {
    var fields, r', lasts' := front + [f], r[i := Field(f.name, Meaning(f.value))], lasts[i := |front|];
    forall k | 0 <= k < |r| ensures IsFirst(fields, firsts[k], r'[k].name) && IsLast(fields, lasts'[k], r'[k]) {
      assert IsFirst(front, firsts[k], r[k].name) && IsLast(front, lasts[k], r[k]);
      assert k != i ==> r[k].name != f.name by {
        assert IsFirst(front, firsts[i], r[i].name);
      }
    }
    forall k | 0 <= k < |fields| ensures Occurs(r', fields[k].name) {
      var j :| 0 <= j < |r| && r[j].name == if k < |front| then front[k].name else r[i].name;
      assert r'[j].name == fields[k].name;
    }
  }

  lemma LabelAdded(front: seq<Field>, f: Field, r: seq<Field>, firsts: seq<nat>, lasts: seq<nat>)
    requires Collapses(front, r, firsts, lasts) && forall k | 0 <= k < |r| :: r[k].name != f.name
    ensures Collapses(front + [f], r + [Field(f.name, Meaning(f.value))], firsts + [|front|], lasts + [|front|])
  {
    var fields, r', n := front + [f], r + [Field(f.name, Meaning(f.value))], |front|;
    forall k | 0 <= k < |r'| ensures IsFirst(fields, (firsts + [n])[k], r'[k].name) && IsLast(fields, (lasts + [n])[k], r'[k]) {
      if k < |r| {
        assert IsFirst(front, firsts[k], r[k].name) && IsLast(front, lasts[k], r[k]);
      } else {
        forall j | 0 <= j < n ensures front[j].name != f.name {
          assert Occurs(r, front[j].name);
        }
      }
    }
    forall i, j | 0 <= i < j < |r'| ensures (firsts + [n])[i] < (firsts + [n])[j] {
      assert IsFirst(front, firsts[i], r[i].name);
    }
    forall k | 0 <= k < |fields| ensures Occurs(r', fields[k].name) {
      if k < n {
        var j :| 0 <= j < |r| && r[j].name == front[k].name;
        assert r'[j].name == fields[k].name;
      } else {
        assert r'[|r|].name == f.name;
      }
    }
  }
}
