/** JSON trees, the text that is written for them, and what the reader makes of a text. */
module JsonText {
  import opened JsonStrings
  import opened Wrappers

  /** `NoPtr` is a null pointer, which is written like the value null. */
  datatype Json =
    | Str(s: string)
    | Num(n: int)
    | Bool(b: bool)
    | Null
    | NoPtr
    | Arr(elems: seq<Json>)
    | Obj(fields: seq<Field>)

  datatype Field = Field(name: string, value: Json)

  // Numbers.

  function Digit(d: nat): char
    requires d < 10
  {
    "0123456789"[d]
  }

  function Decimal(n: nat): (r: string)
    ensures r != "" && forall c | c in r :: IsDigit(c)
  {
    if n < 10 then [Digit(n)] else Decimal(n / 10) + [Digit(n % 10)]
  }

  function NumberText(n: int): string {
    if n < 0 then "-" + Decimal(-n) else Decimal(n)
  }

  predicate IsDigit(c: char) {
    '0' <= c <= '9'
  }

  /** The value of digits in the given base. */
  function DigitsValue(s: string, base: nat): Option<nat> {
    if s == "" then Some(0)
    else
      var d := s[|s| - 1] as int - '0' as int;
      match DigitsValue(s[..|s| - 1], base)
      case Some(n) => if 0 <= d < base then Some(n * base + d) else None
      case None => None
  }

  /** What `big_int` makes of a string: a leading zero means octal, and no digits an exception. */
  function NumberValue(s: string): Option<int> {
    if s != "" && s[0] == '-' then
      var v := UnsignedValue(s[1..]);
      if v.None? then None else Some(0 - v.value as int)
    else
      var v := UnsignedValue(s);
      if v.None? then None else Some(v.value as int)
  }

  function UnsignedValue(s: string): Option<nat> {
    if s == "" then None else DigitsValue(s, if s[0] == '0' && |s| > 1 then 8 else 10)
  }

  // Writing.

  function Spaces(n: nat): (r: string)
    ensures |r| == n && forall c | c in r :: c == ' '
  {
    if n == 0 then "" else Spaces(n - 1) + " "
  }

  /** `IndentCtl::endl` at an indentation of `k`. */
  function NewLine(k: nat): string {
    "\n" + Spaces(2 * k)
  }

  /** A `JsonValue`, as opposed to an array, an object or a null pointer. */
  predicate IsValue(t: Json) {
    t.Str? || t.Num? || t.Bool? || t.Null?
  }

  predicate IsSmall(elems: seq<Json>) {
    forall e | e in elems :: IsValue(e)
  }

  ghost function Text(t: Json, k: nat): string
    decreases t
  {
    match t
    case Str(s) => "\"" + s + "\""
    case Num(n) => NumberText(n)
    case Bool(b) => if b then "true" else "false"
    case Null => "null"
    case NoPtr => "null"
    case Arr(elems) =>
      if IsSmall(elems) then "[" + Elems(elems, true, k, true) + "]"
      else "[" + Elems(elems, false, k + 1, true) + NewLine(k) + "]"
    case Obj(fields) => "{" + Fields(fields, k + 1, true) + NewLine(k) + "}"
  }

  /** The elements of an array, each with what is written before it. */
  ghost function Elems(elems: seq<Json>, small: bool, k: nat, first: bool): string
    decreases elems
  {
    if elems == [] then ""
    else ElemPrefix(small, k, first) + Text(elems[0], k) + Elems(elems[1..], small, k, false)
  }

  function ElemPrefix(small: bool, k: nat, first: bool): string {
    (if first then "" else if small then ", " else ",") + (if small then "" else NewLine(k))
  }

  ghost function Fields(fields: seq<Field>, k: nat, first: bool): string
    decreases fields
  {
    if fields == [] then ""
    else FieldPrefix(fields[0].name, k, first) + Text(fields[0].value, k) + Fields(fields[1..], k, false)
  }

  function FieldPrefix(name: string, k: nat, first: bool): string {
    (if first then "" else ",") + NewLine(k) + "\"" + name + "\"" + " : "
  }

  // Reading.

  /** Why the reader does not return a value: `json` is never set, the loop over digits never ends,
      `big_int` rejects the text, or the key of a field is not a string. */
  datatype Reason = Unset | Hang | BadNumber | BadKey

  datatype Outcome = Read(value: Json, rest: string) | NoValue(reason: Reason)

  predicate IsSpace(c: char) {
    c == ' ' || '\t' <= c <= '\r'
  }

  function SkipSpace(s: string): (r: string)
    ensures |r| <= |s| && (r != "" ==> !IsSpace(r[0]))
  {
    if s != "" && IsSpace(s[0]) then SkipSpace(s[1..]) else s
  }

  function Skip(s: string, n: nat): (r: string)
    ensures |r| <= |s|
  {
    if n <= |s| then s[n..] else ""
  }

  function ReadJson(s: string): (r: Outcome)
    ensures r.Read? ==> |r.rest| < |s|
    decreases |s|, 1
  {
    var t := SkipSpace(s);
    if t == "" then NoValue(Unset)
    else
      match t[0]
      case '{' => ReadFields(t[1..], [])
      case '[' => ReadElems(t[1..], [])
      case '"' => ReadStringShorter("", t[1..]); var (str, rest) := ReadString("", t[1..]); Read(Str(str), rest)
      case 't' => Read(Bool(true), Skip(t[1..], 3))
      case 'T' => Read(Bool(true), Skip(t[1..], 3))
      case 'f' => Read(Bool(false), Skip(t[1..], 4))
      case 'F' => Read(Bool(false), Skip(t[1..], 4))
      case 'n' => Read(Null, Skip(t[1..], 3))
      case 'N' => Read(Null, Skip(t[1..], 3))
      case c => if c == '-' || IsDigit(c) then ReadNumber([c], t[1..]) else NoValue(Unset)
  }

  /** Whitespace between digits is skipped; at the end of the input the last digit is seen again and again. */
  function ReadNumber(num: string, s: string): (r: Outcome)
    requires num != ""
    ensures r.Read? ==> |r.rest| <= |s|
    decreases |s|
  {
    var t := SkipSpace(s);
    if t == "" then NoValue(if IsDigit(num[|num| - 1]) then Hang else BadNumber)
    else if IsDigit(t[0]) then ReadNumber(num + [t[0]], t[1..])
    else
      match NumberValue(num)
      case Some(n) => Read(Num(n), t)
      case None => NoValue(BadNumber)
  }

  function ReadElems(s: string, vec: seq<Json>): (r: Outcome)
    ensures r.Read? ==> |r.rest| <= |s|
    decreases |s|, 2
  {
    var t := SkipSpace(s);
    if t == "" then NoValue(Unset)
    else if t[0] == ']' then Read(Arr(vec), t[1..])
    else
      match ReadJson(t)
      case NoValue(reason) => NoValue(reason)
      case Read(elem, rest) =>
        var u := SkipSpace(rest);
        if u == "" then Read(Arr(vec + [elem]), "")
        else if u[0] == ']' then Read(Arr(vec + [elem]), u[1..])
        else ReadElems(u[1..], vec + [elem])
  }

  /** `obj[key] = value` on an `ordered_map`. */
  function Put(fields: seq<Field>, name: string, value: Json): seq<Field> {
    if fields == [] then [Field(name, value)]
    else if fields[0].name == name then [Field(name, value)] + fields[1..]
    else [fields[0]] + Put(fields[1..], name, value)
  }

  function ReadFields(s: string, obj: seq<Field>): (r: Outcome)
    ensures r.Read? ==> |r.rest| <= |s|
    decreases |s|, 2
  {
    var t := SkipSpace(s);
    if t == "" then NoValue(Unset)
    else if t[0] == '}' then Read(Obj(obj), t[1..])
    else
      match ReadJson(t)
      case NoValue(reason) => NoValue(reason)
      case Read(key, afterKey) =>
        var c := SkipSpace(afterKey);
        if c == "" then NoValue(Unset)
        else
          match ReadJson(c[1..])
          case NoValue(reason) => NoValue(reason)
          case Read(value, rest) =>
            if !key.Str? then NoValue(BadKey)
            else
              var fields, u := Put(obj, key.s, value), SkipSpace(rest);
              if u == "" then Read(Obj(fields), "")
              else if u[0] == '}' then Read(Obj(fields), u[1..])
              else ReadFields(u[1..], fields)
  }
}
