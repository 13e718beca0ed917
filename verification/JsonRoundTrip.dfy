/** The reader gets back what the writer wrote. */
module JsonRoundTrip {
  import opened JsonStrings
  import opened JsonText
  import opened JsonReading
  import opened JsonGrammar
  import opened Wrappers

  /** What the reader can show of a tree: a null pointer looks like null. */
  ghost function Shown(t: Json): Json
    decreases t
  {
    match t
    case NoPtr => Null
    case Arr(elems) => Arr(ShownElems(elems))
    case Obj(fields) => Obj(ShownFields(fields))
    case _ => t
  }

  ghost function ShownElems(elems: seq<Json>): seq<Json>
    decreases elems
  {
    if elems == [] then [] else [Shown(elems[0])] + ShownElems(elems[1..])
  }

  ghost function ShownFields(fields: seq<Field>): (r: seq<Field>)
    decreases fields
  {
    if fields == [] then [] else [Field(fields[0].name, Shown(fields[0].value))] + ShownFields(fields[1..])
  }

  /** Strings and labels are escape-closed, and no label of an object occurs twice. */
  ghost predicate WellFormed(t: Json)
    decreases t
  {
    match t
    case Str(s) => EscapeClosed(s)
    case Arr(elems) => forall e | e in elems :: WellFormed(e)
    case Obj(fields) => WellFormedFields(fields)
    case _ => true
  }

  ghost predicate WellFormedFields(fields: seq<Field>)
    decreases fields
  {
    fields != [] ==>
      && EscapeClosed(fields[0].name) && fields[0].name !in Names(fields[1..])
      && WellFormed(fields[0].value) && WellFormedFields(fields[1..])
  }

  ghost function Names(fields: seq<Field>): set<string> {
    set f | f in fields :: f.name
  }

  // Numbers.

  lemma {:induction false} DecimalValue(n: nat)
    ensures DigitsValue(Decimal(n), 10) == Some(n) && (n > 0 ==> Decimal(n)[0] != '0')
  {
    var s := Decimal(n);
    if n >= 10 {
      DecimalValue(n / 10);
      assert s[..|s| - 1] == Decimal(n / 10) && s[|s| - 1] == Digit(n % 10);
      assert s[0] == Decimal(n / 10)[0];
    } else {
      assert s[..|s| - 1] == "";
    }
  }

  lemma UnsignedDecimal(n: nat)
    ensures UnsignedValue(Decimal(n)) == Some(n) && Decimal(n)[0] in Decimal(n)
  {
    DecimalValue(n);
    assert n == 0 ==> |Decimal(n)| == 1;
  }

  lemma NumberTextValue(n: int)
    ensures NumberText(n) != "" && NumberValue(NumberText(n)) == Some(n)
  {
    UnsignedDecimal(if n < 0 then -n else n);
    if n < 0 {
      assert NumberText(n)[1..] == Decimal(-n);
    }
  }

  // Values.

  /** A number is read on from its whole text. */
  lemma NumberReadOn(n: int, rest: string)
    ensures Yields(NumberText(n) + rest, ReadNumber(NumberText(n), rest))
  {
    var t := NumberText(n);
    NumberTextChars(n);
    assert t == [t[0]] + t[1..];
    assert (t + rest)[1..] == t[1..] + rest && (t + rest)[0] == t[0];
    ReadDigits([t[0]], t[1..], rest);
    YieldsNumber(t + rest, ReadNumber(t, rest));
  }

  /** A number is read back exactly if something other than a digit follows, after whitespace or not. */
  lemma NumberReadBack(n: int, rest: string)
    ensures ReadJson(NumberText(n) + rest) == Read(Num(n), SkipSpace(rest)) <==> Ends(Num(n), rest)
  {
    NumberReadOn(n, rest);
    assert Open(NumberText(n) + rest, 0);
    if Ends(Num(n), rest) {
      NumberTextValue(n);
    }
  }

  /** At the end of the input the reader does not come back from a number. */
  lemma NumberAtEnd(n: int)
    ensures ReadJson(NumberText(n)) == NoValue(Hang)
  {
    var t := NumberText(n);
    NumberReadOn(n, "");
    assert t + "" == t && Open(t, 0);
    var d := Decimal(if n < 0 then -n else n);
    assert t[|t| - 1] == d[|d| - 1] && d[|d| - 1] in d;
  }

  lemma NumberTextChars(n: int)
    ensures var t := NumberText(n); t != "" && (t[0] == '-' || IsDigit(t[0])) && forall c | c in t[1..] :: IsDigit(c)
  {
    var d := Decimal(if n < 0 then -n else n);
    assert d[0] in d;
    if n < 0 {
      assert NumberText(n)[1..] == d;
    } else {
      forall c | c in d[1..] ensures IsDigit(c) {
        assert c in d;
      }
    }
  }

  // The writer writes JSON.

  lemma NumberWritten(n: int)
    ensures WrittenNumber(n, NumberText(n))
  {
    var d := Decimal(if n < 0 then -n else n);
    DecimalValue(if n < 0 then -n else n);
    DigitsHaveValue(d, 10);
    assert IsNumeral(d);
    if n < 0 {
      assert NumberText(n)[1..] == d;
    } else {
      assert d[0] in d;
    }
  }

  lemma LineIsBlank(k: nat)
    ensures Blank(NewLine(k))
  {
    forall c | c in NewLine(k) ensures IsBlank(c) {
      assert c == '\n' || c in Spaces(2 * k);
    }
  }

  /** What is written for a well-formed tree is a text for it by RFC 8259, a null pointer being null. */
  lemma {:induction false} TextIsWritten(t: Json, k: nat)
    requires WellFormed(t)
    ensures Written(Shown(t), Text(t, k))
    decreases t, 0
  {
    match t {
      case Num(n) => NumberWritten(n);
      case Arr(elems) => ArrayWritten(elems, k);
      case Obj(fields) => ObjectWritten(fields, k);
      case _ =>
    }
  }

  lemma ArrayWritten(elems: seq<Json>, k: nat)
    requires forall e | e in elems :: WellFormed(e)
    ensures Written(Shown(Arr(elems)), Text(Arr(elems), k))
    decreases elems, 2
  {
    var small := IsSmall(elems);
    var k', end := if small then k else k + 1, if small then "" else NewLine(k);
    LineIsBlank(k);
    LineIsBlank(k');
    ElemsWritten(elems, small, k', ElemPrefix(small, k', true), end);
    var b := Elems(elems, small, k', true) + end;
    assert Text(Arr(elems), k) == "[" + b + "]";
    assert elems == [] ==> b == end;
  }

  lemma ObjectWritten(fields: seq<Field>, k: nat)
    requires WellFormedFields(fields)
    ensures Written(Shown(Obj(fields)), Text(Obj(fields), k))
    decreases fields, 2
  {
    LineIsBlank(k);
    FieldsWritten(fields, k + 1, NewLine(k));
    var b := Fields(fields, k + 1, true) + NewLine(k);
    ObjectText(fields, k);
    assert Shown(Obj(fields)) == Obj(ShownFields(fields)) && WrittenFields(ShownFields(fields), b);
  }

  lemma ObjectText(fields: seq<Field>, k: nat)
    ensures var b := Fields(fields, k + 1, true) + NewLine(k);
            Text(Obj(fields), k) == "{" + b + "}" && b == FieldsText(fields, k + 1, NewLine(k))
  {
    var b := Fields(fields, k + 1, true) + NewLine(k);
    RegroupInside("{", Fields(fields, k + 1, true), NewLine(k), "}");
    if fields == [] {
      assert b == NewLine(k);
    } else {
      FieldsFromFirst(fields, k + 1, true, NewLine(k));
      assert "" + FieldsText(fields, k + 1, NewLine(k)) == FieldsText(fields, k + 1, NewLine(k));
    }
  }

  lemma RegroupInside(open: string, body: string, end: string, close: string)
    ensures open + body + end + close == open + (body + end) + close
  {
  }

  /** The inside of an array, from the first element on: `p` is what comes before it, `end` what comes last. */
  ghost function ElemsText(elems: seq<Json>, small: bool, k: nat, p: string, end: string): string {
    if elems == [] then end else p + Text(elems[0], k) + Elems(elems[1..], small, k, false) + end
  }

  lemma {:induction false} ElemsWritten(elems: seq<Json>, small: bool, k: nat, p: string, end: string)
    requires (forall e | e in elems :: WellFormed(e)) && Blank(p) && Blank(end)
    ensures WrittenElems(ShownElems(elems), ElemsText(elems, small, k, p, end))
    decreases elems, 1
  {
    if elems != [] {
      var x, rest, shown := Text(elems[0], k), elems[1..], ShownElems(elems);
      var more := Elems(rest, small, k, false) + end;
      TextIsWritten(elems[0], k);
      assert shown[0] == Shown(elems[0]) && shown[1..] == ShownElems(rest);
      if rest == [] {
        assert more == end && end[|end|..] == "";
        OneElem(p, x, more, end);
        FirstElemWritten(shown, p + x + more, p + x + end, x, "");
      } else {
        var q := if small then " " else NewLine(k);
        LineIsBlank(k);
        ElemsWritten(rest, small, k, q, end);
        NextElem(rest, small, k, q, end);
        OneElem(p, x, more, "");
        assert more[1..] == ElemsText(rest, small, k, q, end);
        FirstElemWritten(shown, p + x + more, p + x + "", x, more);
      }
      assert p + x + Elems(rest, small, k, false) + end == p + x + more;
    }
  }

  lemma OneElem(p: string, x: string, more: string, w: string)
    requires Blank(p) && Blank(w) && |w| <= |more| && more[..|w|] == w
    ensures ElemParts(p + x + more, p + x + w, x, more[|w|..])
  {
    assert Pads(p + x + w, p, x, w);
    assert more == w + more[|w|..];
  }

  /** After a comma the next element follows. */
  lemma NextElem(rest: seq<Json>, small: bool, k: nat, q: string, end: string)
    requires rest != [] && q == if small then " " else NewLine(k)
    ensures Elems(rest, small, k, false) + end == "," + ElemsText(rest, small, k, q, end)
  {
    assert ElemPrefix(small, k, false) == "," + q;
    Regroup(",", q, Text(rest[0], k), Elems(rest[1..], small, k, false), end);
  }

  lemma Regroup(a: string, q: string, t: string, e: string, end: string)
    ensures ((a + q) + t + e) + end == a + (q + t + e + end)
  {
  }
  /** The inside of an object, from the first label on. */
  ghost function FieldsText(fields: seq<Field>, k: nat, end: string): string {
    if fields == [] then end
    else NewLine(k) + Quoted(fields[0].name) + " " + ":" + (" " + Text(fields[0].value, k)) + (Fields(fields[1..], k, false) + end)
  }

  lemma FieldsFromFirst(fields: seq<Field>, k: nat, first: bool, end: string)
    requires fields != []
    ensures Fields(fields, k, first) + end == (if first then "" else ",") + FieldsText(fields, k, end)
  {
    var name, t, e := fields[0].name, Text(fields[0].value, k), Fields(fields[1..], k, false);
    RegroupField(if first then "" else ",", NewLine(k), name, t, e, end);
  }

  lemma RegroupField(a: string, p: string, name: string, t: string, e: string, end: string)
    ensures (a + p + "\"" + name + "\"" + " : " + t + e) + end == a + (p + Quoted(name) + " " + ":" + (" " + t) + (e + end))
  {
    assert " : " == " " + ":" + " ";
  }

  lemma {:induction false} FieldsWritten(fields: seq<Field>, k: nat, end: string)
    requires WellFormedFields(fields) && Blank(end)
    ensures WrittenFields(ShownFields(fields), FieldsText(fields, k, end))
    decreases fields, 1
  {
    if fields != [] {
      var f, rest := fields[0], fields[1..];
      var shown, x := ShownFields(fields), Text(f.value, k);
      var more := Fields(rest, k, false) + end;
      TextIsWritten(f.value, k);
      assert shown[0] == Field(f.name, Shown(f.value)) && shown[1..] == ShownFields(rest);
      LineIsBlank(k);
      var b, l := FieldsText(fields, k, end), NewLine(k) + Quoted(f.name) + " ";
      if rest == [] {
        assert more == end && end[|end|..] == "";
        OneField(f.name, k, x, more, end);
        FirstFieldWritten(shown, b, l, " " + x + end, x, "");
      } else {
        FieldsWritten(rest, k, end);
        FieldsFromFirst(rest, k, false, end);
        assert more[1..] == FieldsText(rest, k, end);
        OneField(f.name, k, x, more, "");
        FirstFieldWritten(shown, b, l, " " + x + "", x, more);
      }
    }
  }

  lemma OneField(name: string, k: nat, x: string, more: string, w: string)
    requires EscapeClosed(name) && Blank(w) && |w| <= |more| && more[..|w|] == w
    ensures FieldParts(NewLine(k) + Quoted(name) + " " + ":" + (" " + x) + more, name,
                       NewLine(k) + Quoted(name) + " ", " " + x + w, x, more[|w|..])
  {
    LineIsBlank(k);
    assert Pads(NewLine(k) + Quoted(name) + " ", NewLine(k), Quoted(name), " ");
    assert Pads(" " + x + w, " ", x, w);
    assert more == w + more[|w|..];
  }

  /** A new label comes last. */
  lemma {:induction false} PutNew(fields: seq<Field>, name: string, value: Json)
    requires name !in Names(fields)
    ensures Put(fields, name, value) == fields + [Field(name, value)]
  {
    if fields != [] {
      assert fields[0] in fields;
      assert Names(fields[1..]) <= Names(fields);
      PutNew(fields[1..], name, value);
    }
  }

  /** Labels that differ stay as they are. */
  lemma {:induction false} MeaningShown(t: Json)
    requires WellFormed(t)
    ensures Meaning(Shown(t)) == Shown(t)
    decreases t, 0
  {
    match t {
      case Arr(elems) => MeaningsShown(elems);
      case Obj(fields) =>
        PutAllShown([], fields);
        assert [] + ShownFields(fields) == ShownFields(fields);
      case _ =>
    }
  }

  lemma {:induction false} MeaningsShown(elems: seq<Json>)
    requires forall e | e in elems :: WellFormed(e)
    ensures Meanings(ShownElems(elems)) == ShownElems(elems)
    decreases elems, 1
  {
    if elems != [] {
      MeaningShown(elems[0]);
      MeaningsShown(elems[1..]);
      assert ShownElems(elems)[1..] == ShownElems(elems[1..]);
    }
  }

  lemma {:induction false} PutAllShown(obj: seq<Field>, fields: seq<Field>)
    requires WellFormedFields(fields) && Names(fields) !! Names(obj)
    ensures PutAll(obj, ShownFields(fields)) == obj + ShownFields(fields)
    decreases fields, 1
  {
    if fields != [] {
      var f, shown := Field(fields[0].name, Shown(fields[0].value)), ShownFields(fields);
      assert shown[0] == f && shown[1..] == ShownFields(fields[1..]);
      MeaningShown(fields[0].value);
      NamesStep(obj, fields);
      PutNew(obj, f.name, f.value);
      PutAllStep(obj, shown);
      PutAllShown(obj + [f], fields[1..]);
      assert (obj + [f]) + ShownFields(fields[1..]) == obj + shown;
    }
  }

  lemma NamesStep(obj: seq<Field>, fields: seq<Field>)
    requires fields != [] && Names(fields) !! Names(obj) && fields[0].name !in Names(fields[1..])
    ensures fields[0].name !in Names(obj)
    ensures Names(fields[1..]) !! Names(obj + [Field(fields[0].name, Shown(fields[0].value))])
  {
    assert fields[0] in fields;
    assert Names(fields[1..]) <= Names(fields);
    NamesAppend(obj, Field(fields[0].name, Shown(fields[0].value)));
  }

  lemma NamesAppend(obj: seq<Field>, f: Field)
    ensures Names(obj + [f]) == Names(obj) + {f.name}
  {
    assert f in obj + [f];
    forall n | n in Names(obj) ensures n in Names(obj + [f]) {
      var g :| g in obj && g.name == n;
      assert g in obj + [f];
    }
  }

  lemma ReadsText(t: Json, k: nat, rest: string)
    requires WellFormed(t) && Ends(t, rest)
    ensures Yields(Text(t, k) + rest, Read(Shown(t), Left(t, rest)))
  {
    TextIsWritten(t, k);
    MeaningShown(t);
    ReadsWritten(Shown(t), Text(t, k), rest);
  }

  /** Reading back what was written for an object or an array gives the same tree and leaves the rest alone. */
  lemma RoundTrip(t: Json, k: nat, rest: string)
    requires WellFormed(t) && (t.Arr? || t.Obj?)
    ensures ReadJson(Text(t, k) + rest) == Read(Shown(t), rest)
  {
    ReadsText(t, k, rest);
    assert Open(Text(t, k) + rest, 0);
  }
}
