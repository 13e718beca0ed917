/** How written JSON is laid out: what is on one line, and how far lines are indented. */
module JsonLayout {
  import opened JsonText

  /** No string or label has a line end. */
  ghost predicate Plain(t: Json)
    decreases t
  {
    match t
    case Str(s) => '\n' !in s
    case Arr(elems) => forall e | e in elems :: Plain(e)
    case Obj(fields) => PlainFields(fields)
    case _ => true
  }

  ghost predicate PlainFields(fields: seq<Field>)
    decreases fields
  {
    fields != [] ==> '\n' !in fields[0].name && Plain(fields[0].value) && PlainFields(fields[1..])
  }

  /** After every line end come at least `n` spaces. */
  ghost predicate Indented(s: string, n: nat) {
    forall i | 0 <= i < |s| && s[i] == '\n' :: i + n < |s| && SpacesFrom(s, i + 1, n)
  }

  ghost predicate SpacesFrom(s: string, k: nat, n: nat)
    requires k + n <= |s|
  {
    forall j | k <= j < k + n :: s[j] == ' '
  }

  /** A line end, just `n` spaces, and a character other than a space. */
  ghost predicate IsLastLine(s: string, n: nat) {
    && |s| >= n + 2 && s[|s| - n - 2] == '\n' && SpacesFrom(s, |s| - n - 1, n) && s[|s| - 1] != ' '
  }

  lemma IndentedLess(s: string, m: nat, n: nat)
    requires Indented(s, m) && n <= m
    ensures Indented(s, n)
  {
    forall i | 0 <= i < |s| && s[i] == '\n' ensures i + n < |s| && SpacesFrom(s, i + 1, n) {
      assert SpacesFrom(s, i + 1, m);
    }
  }

  lemma IndentedAppend(a: string, b: string, n: nat)
    requires Indented(a, n) && Indented(b, n)
    ensures Indented(a + b, n)
  {
    var s := a + b;
    forall i | 0 <= i < |s| && s[i] == '\n' ensures i + n < |s| && SpacesFrom(s, i + 1, n) {
      if i < |a| {
        assert a[i] == '\n' && SpacesFrom(a, i + 1, n);
        assert forall j | i < j < i + 1 + n :: s[j] == a[j];
      } else {
        assert b[i - |a|] == '\n' && SpacesFrom(b, i - |a| + 1, n);
        assert forall j | i < j < i + 1 + n :: s[j] == b[j - |a|];
      }
    }
  }

  lemma NewLineIndented(k: nat)
    ensures Indented(NewLine(k), 2 * k) && '\n' in NewLine(k)
  {
    var s, spaces := NewLine(k), Spaces(2 * k);
    assert s[0] == '\n';
    forall j | 1 <= j < |s| ensures s[j] == ' ' {
      assert s[j] == spaces[j - 1] && spaces[j - 1] in spaces;
    }
  }

  lemma {:induction false} DigitsOnOneLine(n: nat)
    ensures '\n' !in Decimal(n)
  {
    forall c | c in Decimal(n) ensures c != '\n' {
    }
  }

  /** Inside a tree, lines are indented by two spaces for each level, and the brackets of an object close at the
      indentation of the line that they open on. */
  lemma {:induction false} TextIndented(t: Json, k: nat)
    requires Plain(t)
    ensures Indented(Text(t, k), 2 * k)
    ensures t.Obj? || (t.Arr? && !IsSmall(t.elems)) ==> IsLastLine(Text(t, k), 2 * k)
    decreases t, 0
  {
    match t {
      case Arr(elems) => ArrayIndented(elems, k);
      case Obj(fields) =>
        FieldsIndented(fields, k + 1, true);
        IndentedLess(Fields(fields, k + 1, true), 2 * (k + 1), 2 * k);
        Bracketed("{", Fields(fields, k + 1, true), k, "}");
      case Num(n) => DigitsOnOneLine(if n < 0 then -n else n);
      case _ =>
    }
  }

  lemma ArrayIndented(elems: seq<Json>, k: nat)
    requires forall e | e in elems :: Plain(e)
    ensures Indented(Text(Arr(elems), k), 2 * k) && (!IsSmall(elems) ==> IsLastLine(Text(Arr(elems), k), 2 * k))
    decreases elems, 2
  {
    if IsSmall(elems) {
      SmallOnOneLine(elems, k, true);
    } else {
      ElemsIndented(elems, k + 1, true);
      IndentedLess(Elems(elems, false, k + 1, true), 2 * (k + 1), 2 * k);
      Bracketed("[", Elems(elems, false, k + 1, true), k, "]");
    }
  }

  lemma Bracketed(open: string, body: string, k: nat, close: string)
    requires Indented(body, 2 * k) && |open| == |close| == 1 && '\n' !in open && '\n' !in close && close[0] != ' '
    ensures var s := open + body + NewLine(k) + close; Indented(s, 2 * k) && IsLastLine(s, 2 * k)
  {
    var s := open + body + NewLine(k) + close;
    NewLineIndented(k);
    IndentedAppend(open, body, 2 * k);
    IndentedAppend(open + body, NewLine(k), 2 * k);
    IndentedAppend(open + body + NewLine(k), close, 2 * k);
    var at := |open + body|;
    assert NewLine(k)[0] == '\n' && SpacesFrom(NewLine(k), 1, 2 * k);
    assert forall j | 0 <= j < |NewLine(k)| :: s[at + j] == NewLine(k)[j];
  }

  lemma {:induction false} SmallOnOneLine(elems: seq<Json>, k: nat, first: bool)
    requires IsSmall(elems) && forall e | e in elems :: Plain(e)
    ensures '\n' !in Elems(elems, true, k, first)
    decreases elems, 1
  {
    if elems != [] {
      assert elems[0] in elems;
      if elems[0].Num? {
        DigitsOnOneLine(if elems[0].n < 0 then -elems[0].n else elems[0].n);
      }
      SmallOnOneLine(elems[1..], k, false);
    }
  }

  lemma {:induction false} ElemsIndented(elems: seq<Json>, k: nat, first: bool)
    requires forall e | e in elems :: Plain(e)
    ensures Indented(Elems(elems, false, k, first), 2 * k)
    decreases elems, 1
  {
    if elems != [] {
      var p, x, more := ElemPrefix(false, k, first), Text(elems[0], k), Elems(elems[1..], false, k, false);
      NewLineIndented(k);
      IndentedAppend(if first then "" else ",", NewLine(k), 2 * k);
      TextIndented(elems[0], k);
      ElemsIndented(elems[1..], k, false);
      IndentedAppend(p, x, 2 * k);
      IndentedAppend(p + x, more, 2 * k);
    }
  }

  lemma {:induction false} FieldsIndented(fields: seq<Field>, k: nat, first: bool)
    requires PlainFields(fields)
    ensures Indented(Fields(fields, k, first), 2 * k)
    decreases fields, 1
  {
    if fields != [] {
      var p, x, more := FieldPrefix(fields[0].name, k, first), Text(fields[0].value, k), Fields(fields[1..], k, false);
      LabelIndented(fields[0].name, k, first);
      TextIndented(fields[0].value, k);
      FieldsIndented(fields[1..], k, false);
      IndentedAppend(p, x, 2 * k);
      IndentedAppend(p + x, more, 2 * k);
    }
  }

  lemma LabelIndented(name: string, k: nat, first: bool)
    requires '\n' !in name
    ensures Indented(FieldPrefix(name, k, first), 2 * k)
  {
    var comma, text := if first then "" else ",", "\"" + name + "\"" + " : ";
    NewLineIndented(k);
    IndentedAppend(comma, NewLine(k), 2 * k);
    IndentedAppend(comma + NewLine(k), text, 2 * k);
    assert FieldPrefix(name, k, first) == comma + NewLine(k) + text;
  }

  /** An array is on one line exactly if none of its elements is an array, an object or a null pointer. */
  lemma OneLineExactly(elems: seq<Json>, k: nat)
    requires forall e | e in elems :: Plain(e)
    ensures '\n' !in Text(Arr(elems), k) <==> forall e | e in elems :: !e.Arr? && !e.Obj? && !e.NoPtr?
  {
    if IsSmall(elems) {
      SmallOnOneLine(elems, k, true);
    } else {
      ArrayIndented(elems, k);
      var s := Text(Arr(elems), k);
      assert s[|s| - 2 * k - 2] == '\n';
    }
  }
}
