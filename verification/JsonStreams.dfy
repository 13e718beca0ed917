/** The writer and the reader of JSON, which work on streams. */
module JsonStreams {
  import opened JsonStrings
  import opened JsonText
  import opened JsonReading
  import opened JsonGrammar
  import opened JsonRoundTrip
  import opened JsonReadBack
  import opened Wrappers

  class JsonObject {
    var fields: seq<Field>

    constructor ()
      ensures fields == []
    {
      fields := [];
    }

    /** Throws for the empty label and for one that has a value. */
    method Emplace(name: string, value: Json) returns (thrown: bool)
      modifies this
      ensures thrown <==> name == "" || exists f :: f in old(fields) && f.name == name && f.value != NoPtr
      ensures fields == if thrown || name in Names(old(fields)) then old(fields) else old(fields) + [Field(name, value)]
      ensures WellFormedFields(old(fields)) && EscapeClosed(name) && WellFormed(value) ==> WellFormedFields(fields)
    {
      if name == "" {
        return true;
      }
      var found := false;
      for i := 0 to |fields|
        invariant fields == old(fields)
        invariant found <==> exists f :: f in fields[..i] && f.name == name
        invariant forall f | f in fields[..i] && f.name == name :: f.value == NoPtr
      {
        assert fields[..i + 1] == fields[..i] + [fields[i]];
        if fields[i].name == name {
          if fields[i].value != NoPtr {
            return true;
          }
          found := true;
        }
      }
      assert fields[..|fields|] == fields;
      if !found {
        if WellFormedFields(fields) && EscapeClosed(name) && WellFormed(value) {
          AppendField(fields, Field(name, value));
        }
        fields := fields + [Field(name, value)];
      }
      return false;
    }
  }

  lemma {:induction false} AppendField(fields: seq<Field>, f: Field)
    requires WellFormedFields(fields) && EscapeClosed(f.name) && WellFormed(f.value) && f.name !in Names(fields)
    ensures WellFormedFields(fields + [f])
  {
    if fields == [] {
      assert fields + [f] == [f];
    } else {
      var g, gs := fields[0], fields[1..];
      assert g in fields && Names(gs) <= Names(fields);
      AppendField(gs, f);
      NamesAppend(gs, f);
      assert (fields + [f])[1..] == gs + [f];
    }
  }

  class JsonWriter {
    var out: string
    var indent: nat

    constructor ()
      ensures out == "" && indent == 0
    {
      out, indent := "", 0;
    }

    method EndLine()
      modifies this`out
      ensures out == old(out) + NewLine(indent)
    {
      out := out + "\n";
      for i := 0 to 2 * indent
        invariant out == old(out) + "\n" + Spaces(i)
      {
        assert old(out) + "\n" + Spaces(i) + " " == old(out) + "\n" + Spaces(i + 1);
        out := out + " ";
      }
      assert old(out) + "\n" + Spaces(2 * indent) == old(out) + ("\n" + Spaces(2 * indent));
    }

    method Serialize(t: Json)
      modifies this
      ensures out == old(out) + Text(t, old(indent)) && indent == old(indent)
      decreases t, 1
    {
      match t {
        case Str(s) => out := out + ("\"" + s + "\"");
        case Num(n) => out := out + NumberText(n);
        case Bool(b) => out := out + if b then "true" else "false";
        case Null => out := out + "null";
        case NoPtr => out := out + "null";
        case Arr(elems) => SerializeArray(elems);
        case Obj(fields) => SerializeObject(fields);
      }
    }

    method SerializeArray(elems: seq<Json>)
      modifies this
      ensures out == old(out) + Text(Arr(elems), old(indent)) && indent == old(indent)
      decreases elems, 3
    {
      var isSmall := AllValues(elems);
      out := out + "[";
      SerializeBody(elems, isSmall);
      WholeArray(old(out), out, elems, indent);
      out := out + "]";
    }

    /** What is between the brackets: on lines of their own if some element is not a plain value. */
    method SerializeBody(elems: seq<Json>, isSmall: bool)
      modifies this
      ensures out == old(out) + ArrayBody(elems, isSmall, indent) && indent == old(indent)
      decreases elems, 2, 1
    {
      if !isSmall {
        indent := indent + 1;
      }
      SerializeElems(elems, isSmall);
      if !isSmall {
        indent := indent - 1;
        EndLine();
      }
    }

    method AllValues(elems: seq<Json>) returns (isSmall: bool)
      ensures isSmall <==> IsSmall(elems)
    {
      isSmall := true;
      for i := 0 to |elems|
        invariant isSmall <==> forall j | 0 <= j < i :: IsValue(elems[j])
      {
        if !IsValue(elems[i]) {
          isSmall := false;
        }
      }
    }

    method SerializeElems(elems: seq<Json>, isSmall: bool)
      modifies this
      ensures out == old(out) + Elems(elems, isSmall, indent, true) && indent == old(indent)
      decreases elems, 2, 0
    {
      var first := true;
      assert elems[0..] == elems;
      for i := 0 to |elems|
        invariant indent == old(indent) && first == (i == 0)
        invariant out + Elems(elems[i..], isSmall, indent, first) == old(out) + Elems(elems, isSmall, indent, true)
      {
        ghost var before := out;
        SerializeElem(elems[i], isSmall, first);
        WriteElemStep(before, elems, i, isSmall, indent, first);
        first := false;
      }
    }

    /** One element and what comes before it. */
    method SerializeElem(e: Json, isSmall: bool, first: bool)
      modifies this
      ensures out == old(out) + ElemPrefix(isSmall, indent, first) + Text(e, indent) && indent == old(indent)
      decreases e, 2
    {
      if !first {
        out := out + ",";
        if isSmall {
          out := out + " ";
        }
      }
      if !isSmall {
        EndLine();
      }
      assert out == old(out) + ElemPrefix(isSmall, indent, first);
      Serialize(e);
    }

    method SerializeObject(fields: seq<Field>)
      modifies this
      ensures out == old(out) + Text(Obj(fields), old(indent)) && indent == old(indent)
      decreases fields, 3
    {
      out := out + "{";
      indent := indent + 1;
      SerializeFields(fields);
      indent := indent - 1;
      EndLine();
      WholeObject(old(out), out, fields, indent);
      out := out + "}";
    }

    method SerializeFields(fields: seq<Field>)
      modifies this
      ensures out == old(out) + Fields(fields, indent, true) && indent == old(indent)
      decreases fields, 2
    {
      var first := true;
      assert fields[0..] == fields;
      for i := 0 to |fields|
        invariant indent == old(indent) && first == (i == 0)
        invariant out + Fields(fields[i..], indent, first) == old(out) + Fields(fields, indent, true)
      {
        ghost var before := out;
        SerializeField(fields[i], first);
        WriteFieldStep(before, fields, i, indent, first);
        first := false;
      }
    }

    /** One field and what comes before it. */
    method SerializeField(f: Field, first: bool)
      modifies this
      ensures out == old(out) + FieldPrefix(f.name, indent, first) + Text(f.value, indent) && indent == old(indent)
      decreases f, 2
    {
      if !first {
        out := out + ",";
      }
      EndLine();
      out := out + "\"" + f.name + "\"" + " : ";
      assert out == old(out) + FieldPrefix(f.name, indent, first);
      Serialize(f.value);
    }
  }

  lemma WriteElemStep(before: string, elems: seq<Json>, i: nat, small: bool, k: nat, first: bool)
    requires i < |elems|
    ensures before + Elems(elems[i..], small, k, first)
         == (before + ElemPrefix(small, k, first) + Text(elems[i], k)) + Elems(elems[i + 1..], small, k, false)
  {
    assert elems[i..][1..] == elems[i + 1..];
    RegroupBefore(before, ElemPrefix(small, k, first), Text(elems[i], k), Elems(elems[i + 1..], small, k, false));
  }

  lemma WriteFieldStep(before: string, fields: seq<Field>, i: nat, k: nat, first: bool)
    requires i < |fields|
    ensures before + Fields(fields[i..], k, first)
         == (before + FieldPrefix(fields[i].name, k, first) + Text(fields[i].value, k)) + Fields(fields[i + 1..], k, false)
  {
    assert fields[i..][1..] == fields[i + 1..];
    RegroupBefore(before, FieldPrefix(fields[i].name, k, first), Text(fields[i].value, k), Fields(fields[i + 1..], k, false));
  }

  /** The text between the brackets of an array. */
  ghost function ArrayBody(elems: seq<Json>, small: bool, k: nat): string {
    if small then Elems(elems, true, k, true) else Elems(elems, false, k + 1, true) + NewLine(k)
  }

  lemma WholeArray(before: string, inside: string, elems: seq<Json>, k: nat)
    requires inside == before + "[" + ArrayBody(elems, IsSmall(elems), k)
    ensures inside + "]" == before + Text(Arr(elems), k)
  {
    RegroupClose(before, "[", ArrayBody(elems, IsSmall(elems), k), "]");
    if !IsSmall(elems) {
      RegroupClose("", "[", Elems(elems, false, k + 1, true), NewLine(k));
    }
  }

  lemma WholeObject(before: string, inside: string, fields: seq<Field>, k: nat)
    requires inside == before + "{" + Fields(fields, k + 1, true) + NewLine(k)
    ensures inside + "}" == before + Text(Obj(fields), k)
  {
    CloseAround(before, "{", Fields(fields, k + 1, true), NewLine(k), "}");
  }

  lemma CloseAround(before: string, open: string, body: string, end: string, close: string)
    ensures before + open + body + end + close == before + (open + body + end + close)
    ensures before + open + (body + end) + close == before + (open + body + end + close)
  {
  }

  lemma RegroupBefore(before: string, prefix: string, text: string, rest: string)
    ensures before + (prefix + text + rest) == before + prefix + text + rest
  {
  }

  lemma RegroupClose(before: string, open: string, body: string, close: string)
    ensures before + open + body + close == before + (open + body + close)
  {
  }

  class JsonReader {
    var input: string

    constructor (input: string)
      ensures this.input == input
    {
      this.input := input;
    }

    /** `in >> std::ws`. */
    method SkipWhitespace()
      modifies this
      ensures input == SkipSpace(old(input))
    {
      while input != "" && IsSpace(input[0])
        invariant SkipSpace(input) == SkipSpace(old(input))
        decreases |input|
      {
        input := input[1..];
      }
    }

    /** Skips whitespace and reads a character, if there is one. */
    method Next() returns (c: Option<char>)
      modifies this
      ensures var t := SkipSpace(old(input));
              if t == "" then c == None && input == "" else c == Some(t[0]) && input == t[1..]
    {
      SkipWhitespace();
      if input == "" {
        return None;
      }
      c := Some(input[0]);
      input := input[1..];
    }

    /** `getline` up to a quote. */
    method GetLine() returns (line: string)
      modifies this
      ensures var s, q := old(input), FindQuote(old(input)); line == s[..q] && input == if q == |s| then "" else s[q + 1..]
    {
      var q := 0;
      while q < |input| && input[q] != '"'
        invariant q <= FindQuote(input)
      {
        q := q + 1;
      }
      line := input[..q];
      input := if q == |input| then "" else input[q + 1..];
    }

    method CountBackslashes(s: string) returns (n: nat)
      ensures n == TrailingBackslashes(s)
    {
      n := 0;
      var t := |s|;
      assert s[..t] == s;
      while t > 0 && s[t - 1] == '\\'
        invariant t <= |s| && n + TrailingBackslashes(s[..t]) == TrailingBackslashes(s)
      {
        assert s[..t][..t - 1] == s[..t - 1];
        n, t := n + 1, t - 1;
      }
    }

    /** A string, after its opening quote. */
    method ReadStr() returns (s: string)
      modifies this
      ensures (s, input) == ReadString("", old(input)) && |input| <= |old(input)|
    {
      ReadStringShorter("", input);
      s := ReadQuoted();
    }

    /** The loop over the quotes. */
    method ReadQuoted() returns (s: string)
      modifies this
      ensures (s, input) == ReadString("", old(input))
    {
      ghost var acc := "";
      ghost var from := input;
      s := GetLine();
      assert "" + s == s;
      while s != "" && s[|s| - 1] == '\\'
        invariant s == acc + from[..FindQuote(from)] && input == AfterQuote(from)
        invariant ReadString("", old(input)) == ReadString(acc, from)
        decreases |from|, TrailingBackslashes(s)
      {
        var bscount := CountBackslashes(s);
        if bscount % 2 == 0 {
          break;
        }
        ReadStringOn(acc, from, s);
        acc, from := s + "\"", input;
        s := s + "\"";
        var more := GetLine();
        s := s + more;
      }
    }

    /** A number, after its first character. */
    method ReadNum(first: char) returns (o: Outcome)
      modifies this
      ensures o == ReadNumber([first], old(input)) && |input| <= |old(input)|
      ensures o.Read? ==> input == o.rest
    {
      var num := [first];
      var ch := Next();
      ghost var from := old(input);
      while ch.Some? && IsDigit(ch.value)
        invariant num != "" && |from| <= |old(input)|
        invariant ReadNumber([first], old(input)) == ReadNumber(num, from)
        invariant var t := SkipSpace(from); if t == "" then ch == None && input == "" else ch == Some(t[0]) && input == t[1..]
        decreases |from|
      {
        num := num + [ch.value];
        from := input;
        ch := Next();
      }
      if ch == None {
        return NoValue(if IsDigit(num[|num| - 1]) then Hang else BadNumber);
      }
      input := [ch.value] + input;
      var n := NumberValue(num);
      return if n.Some? then Read(Num(n.value), input) else NoValue(BadNumber);
    }

    method Ignore(n: nat)
      modifies this
      ensures input == Skip(old(input), n)
    {
      input := if n <= |input| then input[n..] else "";
    }

    /** `in >> json`. */
    method ReadFrom() returns (o: Outcome)
      modifies this
      ensures o == ReadJson(old(input)) && (o.Read? ==> input == o.rest)
    {
      o := ReadValue();
      Result(old(input), o);
    }

    /** Reads one value. */
    method ReadValue() returns (o: Outcome)
      modifies this
      ensures Yields(old(input), o) && |input| <= |old(input)| && (o.Read? ==> input == o.rest)
      decreases |input|, 1
    {
      var c := Next();
      if c == None {
        YieldsUnset(old(input));
        return NoValue(Unset);
      }
      ghost var rest := input;
      match c.value {
        case '{' => o := ReadObject();
        case '[' => o := ReadArray();
        case '"' =>
          var s := ReadStr();
          o := Read(Str(s), input);
        case 't' => Ignore(3); o := Read(Bool(true), input);
        case 'T' => Ignore(3); o := Read(Bool(true), input);
        case 'f' => Ignore(4); o := Read(Bool(false), input);
        case 'F' => Ignore(4); o := Read(Bool(false), input);
        case 'n' => Ignore(3); o := Read(Null, input);
        case 'N' => Ignore(3); o := Read(Null, input);
        case ch =>
          if ch == '-' || IsDigit(ch) {
            o := ReadNum(ch);
          } else {
            o := NoValue(Unset);
          }
      }
      YieldsByFirst(old(input), rest, o);
    }

    /** An array, after its opening bracket. */
    method ReadArray() returns (o: Outcome)
      modifies this
      ensures YieldsElems(old(input), [], o) && |input| <= |old(input)| && (o.Read? ==> input == o.rest)
      decreases |input|, 2
    {
      var vec := [];
      ElemsStart(input, []);
      while true
        invariant |input| <= |old(input)| && ElemsGoOn(old(input), [], input, vec)
        decreases |input|
      {
        ghost var from := input;
        var ch := Next();
        if ch == None {
          YieldsUnset(from);
          ElemsEnd(old(input), [], from, vec, NoValue(Unset));
          return NoValue(Unset);
        }
        if ch == Some(']') {
          assert SkipSpace(from) == "]" + input;
          YieldsLastElem(from, vec, input);
          ElemsEnd(old(input), [], from, vec, Read(Arr(vec), input));
          break;
        }
        input := [ch.value] + input;
        assert input == SkipSpace(from);
        var elem := ReadValue();
        if elem.NoValue? {
          YieldsBadElem(from, vec, elem.reason);
          ElemsEnd(old(input), [], from, vec, elem);
          return elem;
        }
        ghost var rest := input;
        ch := Next();
        if ch == None || ch == Some(']') {
          if ch == None {
            YieldsCutOffElem(from, vec, elem.value, rest);
          } else {
            YieldsNextElem(from, vec, elem.value, rest, Read(Arr(vec + [elem.value]), input));
          }
          vec := vec + [elem.value];
          ElemsEnd(old(input), [], from, vec[..|vec| - 1], Read(Arr(vec), input));
          break;
        }
        ElemsStep(old(input), [], from, vec, elem.value, rest);
        vec := vec + [elem.value];
      }
      return Read(Arr(vec), input);
    }

    /** An object, after its opening brace. */
    method ReadObject() returns (o: Outcome)
      modifies this
      ensures YieldsFields(old(input), [], o) && |input| <= |old(input)| && (o.Read? ==> input == o.rest)
      decreases |input|, 2
    {
      var obj := [];
      FieldsStart(input, []);
      while true
        invariant |input| <= |old(input)| && FieldsGoOn(old(input), [], input, obj)
        decreases |input|
      {
        ghost var from := input;
        var ch := Next();
        if ch == None {
          YieldsUnset(from);
          FieldsEnd(old(input), [], from, obj, NoValue(Unset));
          return NoValue(Unset);
        }
        if ch == Some('}') {
          assert SkipSpace(from) == "}" + input;
          YieldsLastField(from, obj, input);
          FieldsEnd(old(input), [], from, obj, Read(Obj(obj), input));
          break;
        }
        input := [ch.value] + input;
        assert input == SkipSpace(from);
        var key := ReadValue();
        if key.NoValue? {
          YieldsBadKey(from, obj, key);
          FieldsEnd(old(input), [], from, obj, key);
          return key;
        }
        ghost var afterKey := input;
        ch := Next();
        if ch == None {
          YieldsNoColon(from, obj, key.value, afterKey);
          FieldsEnd(old(input), [], from, obj, NoValue(Unset));
          return NoValue(Unset);
        }
        var val := ReadValue();
        if val.NoValue? || !key.value.Str? {
          YieldsBadField(from, obj, key.value, afterKey, val);
          var bad := if val.NoValue? then val else NoValue(BadKey);
          FieldsEnd(old(input), [], from, obj, bad);
          return bad;
        }
        ghost var rest, before := input, obj;
        obj := Put(obj, key.value.s, val.value);
        ch := Next();
        if ch == None || ch == Some('}') {
          if ch == None {
            YieldsCutOffField(from, before, key.value.s, afterKey, val.value, rest);
          } else {
            YieldsNextField(from, before, key.value.s, afterKey, val.value, rest, Read(Obj(obj), input));
          }
          FieldsEnd(old(input), [], from, before, Read(Obj(obj), input));
          break;
        }
        FieldsStep(old(input), [], from, before, key.value.s, afterKey, val.value, rest);
      }
      return Read(Obj(obj), input);
    }
  }

  lemma ReadNothing(s: string)
    requires TrailingBackslashes(s) % 2 == 0
    ensures ReadString(s, "") == (s, "")
  {
    assert s + ""[..0] == s;
  }

  /** After an odd number of backslashes the quote belongs to the string. */
  lemma ReadStringOn(acc: string, from: string, s: string)
    requires s == acc + from[..FindQuote(from)] && TrailingBackslashes(s) % 2 == 1
    ensures ReadString(acc, from) == ReadString(s + "\"", AfterQuote(from)) && TrailingBackslashes(s + "\"") == 0
  {
    var s', from' := s + "\"", AfterQuote(from);
    assert TrailingBackslashes(s') == 0;
    if from == "" {
      ReadNothing(s');
      assert ReadString(acc, from) == (s', "");
    } else {
      assert ReadString(acc, from) == ReadString(s', from');
    }
  }

  ghost function AfterQuote(s: string): string {
    var q := FindQuote(s);
    if q == |s| then "" else s[q + 1..]
  }

  /** Writing a tree and reading it gives the tree and leaves what follows, exactly if the tree is well-formed
      and a number is followed by something that ends it. */
  method WriteThenRead(t: Json, rest: string) returns (o: Outcome, left: string)
    ensures o == Read(Shown(t), Left(t, rest)) <==> WellFormed(t) && Ends(t, rest)
    ensures o.Read? ==> left == o.rest
  {
    var writer := new JsonWriter();
    writer.Serialize(t);
    assert writer.out == Text(t, 0);
    var reader := new JsonReader(writer.out + rest);
    TextReadBack(t, 0, rest);
    o := reader.ReadFrom();
    left := reader.input;
  }
}
