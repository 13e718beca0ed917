/** Which trees are read back: whatever is read is well-formed, so no other tree can be. */
module JsonReadBack {
  import opened JsonStrings
  import opened JsonText
  import opened JsonReading
  import opened JsonGrammar
  import opened JsonRoundTrip

  // What is read.

  /** A string that is read is escape-closed. */
  lemma {:induction false} StringIsClosed(acc: string, s: string)
    requires EscapeClosed(acc)
    ensures EscapeClosed(ReadString(acc, s).0)
    decreases |s|
  {
    var q := FindQuote(s);
    var str := acc + s[..q];
    EscapingIsOdd(str);
    QuotesBefore(acc, s[..q]);
    if Escaping(str) {
      QuoteAfter(str);
      if s != "" {
        StringIsClosed(str + "\"", if q == |s| then "" else s[q + 1..]);
      }
    }
  }

  /** Every quote in the string is escaped. */
  ghost predicate QuotesEscaped(s: string) {
    forall i {:trigger Escaping(s[..i])} | 0 <= i < |s| && s[i] == '"' :: Escaping(s[..i])
  }

  lemma QuotesBefore(acc: string, more: string)
    requires EscapeClosed(acc) && forall c | c in more :: c != '"'
    ensures QuotesEscaped(acc + more)
  {
    var s := acc + more;
    assert forall i | |acc| <= i < |s| :: s[i] in more;
    forall i | 0 <= i < |s| && s[i] == '"' ensures Escaping(s[..i]) {
      assert s[..i] == acc[..i];
    }
  }

  lemma QuoteAfter(s: string)
    requires QuotesEscaped(s) && Escaping(s)
    ensures EscapeClosed(s + "\"")
  {
    var t := s + "\"";
    forall i | 0 <= i < |t| && t[i] == '"' ensures Escaping(t[..i]) {
      assert t[..i] == s[..i];
      assert i == |s| ==> s[..i] == s;
    }
  }

  /** Trees that the reader can return: well-formed, and without null pointers. */
  ghost predicate Readable(t: Json) {
    WellFormed(t) && Shown(t) == t
  }

  ghost predicate AllReadable(vec: seq<Json>) {
    forall e | e in vec :: Readable(e)
  }

  ghost predicate ReadableFields(fields: seq<Field>) {
    WellFormedFields(fields) && ShownFields(fields) == fields
  }

  lemma {:induction false} ElemsShown(vec: seq<Json>)
    requires AllReadable(vec)
    ensures ShownElems(vec) == vec
  {
    if vec != [] {
      assert vec[0] in vec && forall e | e in vec[1..] :: e in vec;
      ElemsShown(vec[1..]);
    }
  }

  lemma ArrayReadable(vec: seq<Json>)
    requires AllReadable(vec)
    ensures Readable(Arr(vec))
  {
    ElemsShown(vec);
  }

  lemma {:induction false} PutReadable(fields: seq<Field>, name: string, value: Json)
    requires ReadableFields(fields) && EscapeClosed(name) && Readable(value)
    ensures ReadableFields(Put(fields, name, value))
    ensures Names(Put(fields, name, value)) == Names(fields) + {name}
  {
    if fields == [] {
      OneField(name, value);
    } else if fields[0].name == name {
      ReplacedField(fields, value);
    } else {
      FieldsTail(fields);
      PutReadable(fields[1..], name, value);
      FieldInFront(fields[0], Put(fields[1..], name, value));
      NamesSplit(fields);
    }
  }

  lemma OneField(name: string, value: Json)
    requires EscapeClosed(name) && Readable(value)
    ensures ReadableFields([Field(name, value)]) && Names([Field(name, value)]) == {name} && Names([]) == {}
  {
    var f := Field(name, value);
    FieldInFront(f, []);
    assert [f] + [] == [f];
  }

  lemma FieldInFront(f: Field, fields: seq<Field>)
    requires EscapeClosed(f.name) && Readable(f.value) && ReadableFields(fields) && f.name !in Names(fields)
    ensures ReadableFields([f] + fields) && Names([f] + fields) == {f.name} + Names(fields)
  {
    var all := [f] + fields;
    assert all[0] == f && all[1..] == fields;
    NamesSplit(all);
  }

  lemma NamesSplit(fields: seq<Field>)
    requires fields != []
    ensures Names(fields) == {fields[0].name} + Names(fields[1..])
  {
    forall n | n in Names(fields) ensures n in {fields[0].name} + Names(fields[1..]) {
      var f :| f in fields && f.name == n;
      assert f == fields[0] || f in fields[1..];
    }
    forall n | n in Names(fields[1..]) ensures n in Names(fields) {
      var f :| f in fields[1..] && f.name == n;
      assert f in fields;
    }
    assert fields[0] in fields;
  }

  lemma FieldsTail(fields: seq<Field>)
    requires fields != [] && ReadableFields(fields)
    ensures ReadableFields(fields[1..]) && EscapeClosed(fields[0].name) && Readable(fields[0].value)
    ensures fields[0].name !in Names(fields[1..])
  {
    var shown := ShownFields(fields);
    assert shown[0] == fields[0] && shown[1..] == ShownFields(fields[1..]);
  }

  lemma ReplacedField(fields: seq<Field>, value: Json)
    requires fields != [] && ReadableFields(fields) && Readable(value)
    ensures var f := Field(fields[0].name, value);
            ReadableFields([f] + fields[1..]) && Names([f] + fields[1..]) == Names(fields) + {f.name}
  {
    FieldsTail(fields);
    FieldInFront(Field(fields[0].name, value), fields[1..]);
    NamesSplit(fields);
  }

  ghost predicate ReadsReadable(o: Outcome) {
    o.Read? ==> Readable(o.value)
  }

  lemma {:induction false} ReadIsReadable(s: string)
    ensures ReadsReadable(ReadJson(s))
    decreases |s|, 1
  {
    var t := SkipSpace(s);
    if t != "" {
      match t[0] {
        case '{' => FieldsReadable(t[1..], []);
        case '[' => ElemsReadable(t[1..], []);
        case '"' => StringIsClosed("", t[1..]);
        case c =>
          if c == '-' || IsDigit(c) {
            NumberReadable([c], t[1..]);
          }
      }
    }
  }

  lemma {:induction false} NumberReadable(num: string, s: string)
    requires num != ""
    ensures ReadsReadable(ReadNumber(num, s))
    decreases |s|
  {
    var t := SkipSpace(s);
    if t != "" && IsDigit(t[0]) {
      NumberReadable(num + [t[0]], t[1..]);
    }
  }

  lemma {:induction false} ElemsReadable(s: string, vec: seq<Json>)
    requires AllReadable(vec)
    ensures ReadsReadable(ReadElems(s, vec))
    decreases |s|, 2
  {
    var t := SkipSpace(s);
    if t != "" && t[0] != ']' {
      ReadIsReadable(t);
      match ReadJson(t) {
        case NoValue(_) =>
        case Read(elem, rest) =>
          var u := SkipSpace(rest);
          ArrayReadable(vec + [elem]);
          if u != "" && u[0] != ']' {
            ElemsReadable(u[1..], vec + [elem]);
          }
      }
    } else {
      ArrayReadable(vec);
    }
  }

  lemma {:induction false} FieldsReadable(s: string, obj: seq<Field>)
    requires ReadableFields(obj)
    ensures ReadsReadable(ReadFields(s, obj))
    decreases |s|, 2
  {
    var t := SkipSpace(s);
    if t != "" && t[0] != '}' {
      ReadIsReadable(t);
      match ReadJson(t) {
        case NoValue(_) =>
        case Read(key, afterKey) =>
          var c := SkipSpace(afterKey);
          if c != "" {
            ReadIsReadable(c[1..]);
            match ReadJson(c[1..]) {
              case NoValue(_) =>
              case Read(value, rest) =>
                if key.Str? {
                  var fields, u := Put(obj, key.s, value), SkipSpace(rest);
                  PutReadable(obj, key.s, value);
                  if u != "" && u[0] != '}' {
                    FieldsReadable(u[1..], fields);
                  }
                }
            }
          }
      }
    }
  }

  // Which trees are read back.

  lemma {:induction false} ShownWellFormed(t: Json)
    ensures WellFormed(Shown(t)) <==> WellFormed(t)
    decreases t, 0
  {
    match t {
      case Arr(elems) => ShownElemsWellFormed(elems);
      case Obj(fields) => ShownFieldsWellFormed(fields);
      case _ =>
    }
  }

  lemma {:induction false} ShownElemsWellFormed(elems: seq<Json>)
    ensures (forall e | e in ShownElems(elems) :: WellFormed(e)) <==> forall e | e in elems :: WellFormed(e)
    decreases elems, 1
  {
    if elems != [] {
      ShownWellFormed(elems[0]);
      ShownElemsWellFormed(elems[1..]);
      assert elems == [elems[0]] + elems[1..];
    }
  }

  lemma {:induction false} ShownFieldsWellFormed(fields: seq<Field>)
    ensures (WellFormedFields(ShownFields(fields)) <==> WellFormedFields(fields)) && Names(ShownFields(fields)) == Names(fields)
    decreases fields, 1
  {
    if fields != [] {
      var f, shown := Field(fields[0].name, Shown(fields[0].value)), ShownFields(fields);
      assert fields[0].value < fields[0] && fields[0] in fields;
      ShownWellFormed(fields[0].value);
      ShownFieldsWellFormed(fields[1..]);
      assert shown[0] == f && shown[1..] == ShownFields(fields[1..]);
      NamesSplit(fields);
      NamesSplit(shown);
    } else {
      assert Names([]) == {};
    }
  }

  /** Reading back what was written gives the same tree and leaves the rest alone, exactly if its strings and
      labels are escape-closed, no label of an object occurs twice, and a number at the root is followed by
      something that ends it. */
  lemma TextReadBack(t: Json, k: nat, rest: string)
    ensures ReadJson(Text(t, k) + rest) == Read(Shown(t), Left(t, rest)) <==> WellFormed(t) && Ends(t, rest)
  {
    ReadIsReadable(Text(t, k) + rest);
    ShownWellFormed(t);
    if t.Num? {
      NumberReadBack(t.n, rest);
    } else if WellFormed(t) {
      ReadsText(t, k, rest);
      assert Open(Text(t, k) + rest, 0);
    }
  }

  /** Whatever has been read can be written and is read again. */
  lemma ReadAgain(s: string, k: nat, rest: string)
    requires ReadJson(s).Read? && Ends(ReadJson(s).value, rest)
    ensures var t := ReadJson(s).value; ReadJson(Text(t, k) + rest) == Read(t, Left(t, rest))
  {
    ReadIsReadable(s);
    TextReadBack(ReadJson(s).value, k, rest);
  }
}
