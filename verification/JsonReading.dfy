/** What the reader returns for a text, step by step. The equations are gated: `Yields` and its
    relatives say just what follows the gate, but the solver looks inside only where `Open` is mentioned. */
module JsonReading {
  import opened JsonStrings
  import opened JsonText

  // Whitespace.

  lemma {:induction false} SkipSpaceSpace(w: string, s: string)
    requires forall c | c in w :: IsSpace(c)
    ensures SkipSpace(w + s) == SkipSpace(s)
  {
    if w == "" {
      assert w + s == s;
    } else {
      assert (w + s)[1..] == w[1..] + s;
      SkipSpaceSpace(w[1..], s);
    }
  }

  lemma SkipNothing(s: string)
    requires s != "" && !IsSpace(s[0])
    ensures SkipSpace(s) == s
  {
  }

  // Outcomes.

  ghost predicate Open(s: string, z: int) {
    true
  }

  ghost predicate Yields(s: string, o: Outcome) {
    forall z {:trigger Open(s, z)} | Open(s, z) :: ReadJson(s) == o
  }

  ghost predicate YieldsElems(s: string, vec: seq<Json>, o: Outcome) {
    forall z {:trigger Open(s, z)} | Open(s, z) :: ReadElems(s, vec) == o
  }

  ghost predicate YieldsFields(s: string, obj: seq<Field>, o: Outcome) {
    forall z {:trigger Open(s, z)} | Open(s, z) :: ReadFields(s, obj) == o
  }

  /** Leading whitespace does not matter. */
  lemma YieldsAfterSpace(w: string, s: string, o: Outcome)
    requires Yields(s, o) && forall c | c in w :: IsSpace(c)
    ensures Yields(w + s, o)
  {
    assert Open(s, 0);
    SkipSpaceSpace(w, s);
  }

  lemma YieldsNumber(s: string, o: Outcome)
    requires s != "" && (s[0] == '-' || IsDigit(s[0])) && ReadNumber([s[0]], s[1..]) == o
    ensures Yields(s, o)
  {
    SkipNothing(s);
  }

  lemma YieldsArray(body: string, o: Outcome)
    requires YieldsElems(body, [], o)
    ensures Yields("[" + body, o)
  {
    assert Open(body, 0);
    assert ("[" + body)[1..] == body;
  }

  lemma YieldsObject(body: string, o: Outcome)
    requires YieldsFields(body, [], o)
    ensures Yields("{" + body, o)
  {
    assert Open(body, 0);
    assert ("{" + body)[1..] == body;
  }

  lemma YieldsLastElem(input: string, vec: seq<Json>, rest: string)
    requires SkipSpace(input) == "]" + rest
    ensures YieldsElems(input, vec, Read(Arr(vec), rest))
  {
    assert ("]" + rest)[1..] == rest;
  }

  lemma YieldsNextElem(input: string, vec: seq<Json>, e: Json, rest: string, o: Outcome)
    requires SkipSpace(input) != "" && SkipSpace(input)[0] != ']' && Yields(SkipSpace(input), Read(e, rest))
    requires SkipSpace(rest) != ""
    requires var u := SkipSpace(rest); if u[0] == ']' then o == Read(Arr(vec + [e]), u[1..]) else YieldsElems(u[1..], vec + [e], o)
    ensures YieldsElems(input, vec, o)
  {
    assert Open(SkipSpace(input), 0) && Open(SkipSpace(rest)[1..], 0);
  }

  lemma YieldsLastField(input: string, obj: seq<Field>, rest: string)
    requires SkipSpace(input) == "}" + rest
    ensures YieldsFields(input, obj, Read(Obj(obj), rest))
  {
    assert ("}" + rest)[1..] == rest;
  }

  lemma YieldsNextField(input: string, obj: seq<Field>, name: string, colon: string, value: Json, rest: string, o: Outcome)
    requires SkipSpace(input) != "" && SkipSpace(input)[0] != '}' && Yields(SkipSpace(input), Read(Str(name), colon))
    requires SkipSpace(colon) != "" && Yields(SkipSpace(colon)[1..], Read(value, rest))
    requires SkipSpace(rest) != ""
    requires var fields, u := Put(obj, name, value), SkipSpace(rest);
             if u[0] == '}' then o == Read(Obj(fields), u[1..]) else YieldsFields(u[1..], fields, o)
    ensures YieldsFields(input, obj, o)
  {
    assert Open(SkipSpace(input), 0) && Open(SkipSpace(colon)[1..], 0) && Open(SkipSpace(rest)[1..], 0);
  }

  // Outcomes of malformed text.

  lemma YieldsUnset(s: string)
    requires SkipSpace(s) == ""
    ensures Yields(s, NoValue(Unset))
    ensures forall vec :: YieldsElems(s, vec, NoValue(Unset))
    ensures forall obj :: YieldsFields(s, obj, NoValue(Unset))
  {
  }

  lemma YieldsBadElem(s: string, vec: seq<Json>, reason: Reason)
    requires SkipSpace(s) != "" && SkipSpace(s)[0] != ']' && Yields(SkipSpace(s), NoValue(reason))
    ensures YieldsElems(s, vec, NoValue(reason))
  {
    assert Open(SkipSpace(s), 0);
  }

  lemma YieldsCutOffElem(s: string, vec: seq<Json>, e: Json, rest: string)
    requires SkipSpace(s) != "" && SkipSpace(s)[0] != ']' && Yields(SkipSpace(s), Read(e, rest)) && SkipSpace(rest) == ""
    ensures YieldsElems(s, vec, Read(Arr(vec + [e]), ""))
  {
    assert Open(SkipSpace(s), 0);
  }

  /** A key that is not there, or nothing after it. */
  lemma YieldsBadKey(s: string, obj: seq<Field>, o: Outcome)
    requires SkipSpace(s) != "" && SkipSpace(s)[0] != '}'
    requires o.NoValue? && Yields(SkipSpace(s), o)
    ensures YieldsFields(s, obj, o)
  {
    assert Open(SkipSpace(s), 0);
  }

  lemma YieldsNoColon(s: string, obj: seq<Field>, key: Json, afterKey: string)
    requires SkipSpace(s) != "" && SkipSpace(s)[0] != '}' && Yields(SkipSpace(s), Read(key, afterKey)) && SkipSpace(afterKey) == ""
    ensures YieldsFields(s, obj, NoValue(Unset))
  {
    assert Open(SkipSpace(s), 0);
  }

  /** A value that is not there, or a key that is not a string. */
  lemma YieldsBadField(s: string, obj: seq<Field>, key: Json, afterKey: string, val: Outcome)
    requires SkipSpace(s) != "" && SkipSpace(s)[0] != '}' && Yields(SkipSpace(s), Read(key, afterKey))
    requires SkipSpace(afterKey) != "" && Yields(SkipSpace(afterKey)[1..], val)
    ensures val.NoValue? ==> YieldsFields(s, obj, val)
    ensures val.Read? && !key.Str? ==> YieldsFields(s, obj, NoValue(BadKey))
  {
    assert Open(SkipSpace(s), 0) && Open(SkipSpace(afterKey)[1..], 0);
  }

  lemma YieldsCutOffField(s: string, obj: seq<Field>, name: string, afterKey: string, value: Json, rest: string)
    requires SkipSpace(s) != "" && SkipSpace(s)[0] != '}' && Yields(SkipSpace(s), Read(Str(name), afterKey))
    requires SkipSpace(afterKey) != "" && Yields(SkipSpace(afterKey)[1..], Read(value, rest)) && SkipSpace(rest) == ""
    ensures YieldsFields(s, obj, Read(Obj(Put(obj, name, value)), ""))
  {
    assert Open(SkipSpace(s), 0) && Open(SkipSpace(afterKey)[1..], 0);
  }

  // Loops.

  /** Reading elements from `s` on goes on as reading elements from `t` on. */
  ghost predicate ElemsGoOn(s: string, vec: seq<Json>, t: string, vec': seq<Json>) {
    forall z {:trigger Open(t, z)} | Open(t, z) :: ReadElems(s, vec) == ReadElems(t, vec')
  }

  lemma ElemsStart(s: string, vec: seq<Json>)
    ensures ElemsGoOn(s, vec, s, vec)
  {
  }

  lemma ElemsStep(s0: string, vec0: seq<Json>, s: string, vec: seq<Json>, e: Json, rest: string)
    requires ElemsGoOn(s0, vec0, s, vec)
    requires SkipSpace(s) != "" && SkipSpace(s)[0] != ']' && Yields(SkipSpace(s), Read(e, rest))
    requires SkipSpace(rest) != "" && SkipSpace(rest)[0] != ']'
    ensures ElemsGoOn(s0, vec0, SkipSpace(rest)[1..], vec + [e])
  {
    assert Open(s, 0) && Open(SkipSpace(s), 0);
  }

  lemma ElemsEnd(s0: string, vec0: seq<Json>, s: string, vec: seq<Json>, o: Outcome)
    requires ElemsGoOn(s0, vec0, s, vec) && YieldsElems(s, vec, o)
    ensures YieldsElems(s0, vec0, o)
  {
    assert Open(s, 0);
  }

  /** Reading fields from `s` on goes on as reading fields from `t` on. */
  ghost predicate FieldsGoOn(s: string, obj: seq<Field>, t: string, obj': seq<Field>) {
    forall z {:trigger Open(t, z)} | Open(t, z) :: ReadFields(s, obj) == ReadFields(t, obj')
  }

  lemma FieldsStart(s: string, obj: seq<Field>)
    ensures FieldsGoOn(s, obj, s, obj)
  {
  }

  lemma FieldsStep(s0: string, obj0: seq<Field>, s: string, obj: seq<Field>, name: string, afterKey: string, value: Json, rest: string)
    requires FieldsGoOn(s0, obj0, s, obj)
    requires SkipSpace(s) != "" && SkipSpace(s)[0] != '}' && Yields(SkipSpace(s), Read(Str(name), afterKey))
    requires SkipSpace(afterKey) != "" && Yields(SkipSpace(afterKey)[1..], Read(value, rest))
    requires SkipSpace(rest) != "" && SkipSpace(rest)[0] != '}'
    ensures FieldsGoOn(s0, obj0, SkipSpace(rest)[1..], Put(obj, name, value))
  {
    assert Open(s, 0) && Open(SkipSpace(s), 0) && Open(SkipSpace(afterKey)[1..], 0);
  }

  lemma FieldsEnd(s0: string, obj0: seq<Field>, s: string, obj: seq<Field>, o: Outcome)
    requires FieldsGoOn(s0, obj0, s, obj) && YieldsFields(s, obj, o)
    ensures YieldsFields(s0, obj0, o)
  {
    assert Open(s, 0);
  }

  // First characters.

  /** What is read after whitespace, by the first character. */
  lemma YieldsByFirst(s: string, rest: string, o: Outcome)
    requires SkipSpace(s) != "" && rest == SkipSpace(s)[1..]
    requires match SkipSpace(s)[0]
             case '{' => YieldsFields(rest, [], o)
             case '[' => YieldsElems(rest, [], o)
             case '"' => o == Read(Str(ReadString("", rest).0), ReadString("", rest).1)
             case 't' => o == Read(Bool(true), Skip(rest, 3))
             case 'T' => o == Read(Bool(true), Skip(rest, 3))
             case 'f' => o == Read(Bool(false), Skip(rest, 4))
             case 'F' => o == Read(Bool(false), Skip(rest, 4))
             case 'n' => o == Read(Null, Skip(rest, 3))
             case 'N' => o == Read(Null, Skip(rest, 3))
             case c => o == if c == '-' || IsDigit(c) then ReadNumber([c], rest) else NoValue(Unset)
    ensures Yields(s, o)
  {
    assert Open(rest, 0);
  }

  lemma Result(s: string, o: Outcome)
    requires Yields(s, o)
    ensures o == ReadJson(s)
  {
    assert Open(s, 0);
  }
}
