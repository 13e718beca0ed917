/** `IR::Vector` and `IR::IndexedVector` while a visitor rewrites their elements in place. */
module IrVectors {
  import opened Wrappers

  /** A `const T *`; `name` is there if the node is a declaration. */
  datatype Item = NullItem | Item(id: nat, name: Option<string>)

  /** What a visitor returns for an element: nothing, a node of the element type, a vector of such
      nodes, a vector of another type with the nodes it holds, or a node of a wrong type. */
  datatype Result =
    | Nothing
    | One(item: Item)
    | Many(items: seq<Item>)
    | OtherVector(nodes: seq<Option<Item>>)
    | WrongType

  /** The n-th application of the visitor, to the given element. */
  type Apply = (nat, Item) -> Result

  /** The visitor keeps null elements and returns no null pointers in other ways. */
  predicate Proper(r: Result) {
    match r
    case One(item) => item.Item?
    case _ => true
  }

  ghost predicate ProperVisitor(apply: Apply) {
    forall n, item :: Proper(apply(n, item)) && apply(n, NullItem) == Nothing
  }

  /** Whether `Vector` can take the result; null nodes in a vector of another type are not nodes. */
  predicate Fits(r: Result) {
    match r
    case OtherVector(nodes) => forall n | n in nodes :: n.Some? && n.value.Item?
    case WrongType => false
    case _ => true
  }

  /** What an element becomes. */
  function Expand(item: Item, r: Result): seq<Item>
    requires Fits(r)
  {
    match r
    case Nothing => if item == NullItem then [NullItem] else []
    case One(other) => [other]
    case Many(items) => items
    case OtherVector(nodes) => seq(|nodes|, i requires 0 <= i < |nodes| => nodes[i].value)
  }

  /** The elements in order, each replaced by what it becomes; `k` counts the applications before. */
  ghost function FlatMap(apply: Apply, vec: seq<Item>, n: nat): seq<Item>
    requires AllFit(apply, vec, n)
  {
    if n == 0 then [] else FlatMap(apply, vec, n - 1) + Expand(vec[n - 1], apply(n - 1, vec[n - 1]))
  }

  /** The vector after `n` steps: what the first `n` elements became, then the others. */
  ghost function Stage(apply: Apply, vec: seq<Item>, n: nat): seq<Item>
    requires AllFit(apply, vec, n)
  {
    FlatMap(apply, vec, n) + vec[n..]
  }

  /** After `n` steps the vector and the position in it are these. */
  ghost predicate AtStage(apply: Apply, original: seq<Item>, n: nat, vec: seq<Item>, i: nat) {
    forall z {:trigger Open(vec, z)} | Open(vec, z) ::
      AllFit(apply, original, n) && vec == Stage(apply, original, n) && i == |FlatMap(apply, original, n)|
  }

  ghost predicate Open(vec: seq<Item>, z: int) {
    true
  }

  lemma FirstStage(apply: Apply, vec: seq<Item>)
    ensures AtStage(apply, vec, 0, vec, 0)
  {
  }

  /** At each stage the next original element is in place. */
  lemma NextElement(apply: Apply, original: seq<Item>, n: nat, vec: seq<Item>, i: nat)
    requires AtStage(apply, original, n, vec, i)
    ensures i <= |vec| && (i < |vec| <==> n < |original|) && (i < |vec| ==> vec[i] == original[n])
    ensures AllFit(apply, original, n) && (i == |vec| ==> n == |original| && vec == FlatMap(apply, original, n))
  {
    assert Open(vec, 0);
  }

  /** One step replaces one element. */
  lemma StageStep(apply: Apply, original: seq<Item>, n: nat, vec: seq<Item>, i: nat, vec': seq<Item>, i': nat)
    requires AtStage(apply, original, n, vec, i) && n < |original| && i < |vec| && Fits(apply(n, original[n]))
    requires var e := Expand(original[n], apply(n, original[n])); vec' == vec[..i] + e + vec[i + 1..] && i' == i + |e|
    ensures AtStage(apply, original, n + 1, vec', i')
  {
    assert Open(vec, 0);
    assert vec[..i] == FlatMap(apply, original, n) && vec[i + 1..] == original[n + 1..];
  }

  /** What an element becomes: nothing if the visitor returns nothing for it, unless it is null, and else just what
      is returned, in order. */
  ghost predicate Becomes(item: Item, r: Result, part: seq<Item>) {
    match r
    case Nothing => if item == NullItem then part == [NullItem] else part == []
    case One(other) => part == [other]
    case Many(items) => part == items
    case OtherVector(nodes) => |part| == |nodes| && forall i | 0 <= i < |nodes| :: nodes[i] == Some(part[i])
    case WrongType => false
  }

  /** Element `i` has become the part of `all` from cut `i` to the next. */
  ghost predicate IsPart(apply: Apply, vec: seq<Item>, all: seq<Item>, cuts: seq<nat>, i: nat) {
    && i + 1 < |cuts| && i < |vec| && cuts[i] <= cuts[i + 1] <= |all|
    && Becomes(vec[i], apply(i, vec[i]), all[cuts[i]..cuts[i + 1]])
  }

  /** The result falls into parts, one for each original element, in order. */
  lemma {:induction false} FallsIntoParts(apply: Apply, vec: seq<Item>, n: nat) returns (cuts: seq<nat>)
    requires n <= |vec| && AllFit(apply, vec, n)
    ensures |cuts| == n + 1 && cuts[0] == 0 && cuts[n] == |FlatMap(apply, vec, n)|
    ensures forall i | 0 <= i < n :: IsPart(apply, vec, FlatMap(apply, vec, n), cuts, i)
  {
    if n == 0 {
      cuts := [0];
    } else {
      var before := FallsIntoParts(apply, vec, n - 1);
      var front, part := FlatMap(apply, vec, n - 1), Expand(vec[n - 1], apply(n - 1, vec[n - 1]));
      cuts := before + [|front + part|];
      forall i | 0 <= i < n ensures IsPart(apply, vec, front + part, cuts, i) {
        if i < n - 1 {
          PartStays(apply, vec, front, part, before, i);
        } else {
          LastPart(apply, vec, front, part, before, i);
        }
      }
    }
  }

  lemma PartStays(apply: Apply, vec: seq<Item>, front: seq<Item>, part: seq<Item>, cuts: seq<nat>, i: nat)
    requires IsPart(apply, vec, front, cuts, i)
    ensures IsPart(apply, vec, front + part, cuts + [|front + part|], i)
  {
    assert (front + part)[cuts[i]..cuts[i + 1]] == front[cuts[i]..cuts[i + 1]];
  }

  lemma LastPart(apply: Apply, vec: seq<Item>, front: seq<Item>, part: seq<Item>, cuts: seq<nat>, i: nat)
    requires |cuts| == i + 1 && cuts[i] == |front| && i < |vec| && Fits(apply(i, vec[i])) && part == Expand(vec[i], apply(i, vec[i]))
    ensures IsPart(apply, vec, front + part, cuts + [|front + part|], i)
  {
    assert (front + part)[|front|..|front + part|] == part;
  }

  class Vector {
    var vec: seq<Item>

    constructor (vec: seq<Item>)
      ensures this.vec == vec
    {
      this.vec := vec;
    }

    /** Applies the visitor once to each original element, in order, up to the first result that does not fit. */
    method VisitChildren(apply: Apply) returns (bug: bool, ghost calls: nat)
      requires ProperVisitor(apply)
      modifies this
      ensures bug <==> !AllFit(apply, old(vec), |old(vec)|)
      ensures !bug ==> calls == |old(vec)| && vec == FlatMap(apply, old(vec), |old(vec)|)
      ensures bug ==> 0 < calls <= |old(vec)| && AllFit(apply, old(vec), calls - 1) && !Fits(apply(calls - 1, old(vec)[calls - 1]))
    {
      var i: nat, n: nat := 0, 0;
      calls := 0;
      FirstStage(apply, vec);
      while i < |vec|
        invariant n <= |old(vec)| && calls == n && AtStage(apply, old(vec), n, vec, i)
        decreases |old(vec)| - n
      {
        NextElement(apply, old(vec), n, vec, i);
        ghost var before, start := vec, i;
        calls := calls + 1;
        bug, i := Replace(i, apply(n, vec[i]));
        if bug {
          return;
        }
        StageStep(apply, old(vec), n, before, start, vec, i);
        n := n + 1;
      }
      NextElement(apply, old(vec), n, vec, i);
      bug := false;
    }

    /** Puts what an element becomes in its place, and moves past it. */
    method Replace(start: nat, r: Result) returns (bug: bool, i: nat)
      requires start < |vec| && Proper(r) && (vec[start] == NullItem ==> r == Nothing)
      modifies this
      ensures bug <==> !Fits(r)
      ensures !bug ==> var e := Expand(old(vec)[start], r); vec == old(vec)[..start] + e + old(vec)[start + 1..] && i == start + |e|
    {
      bug, i := false, start;
      match r {
        case Nothing =>
          if vec[i] != NullItem {
            vec := vec[..i] + vec[i + 1..];
          } else {
            i := i + 1;
          }
        case One(item) =>
          if item != vec[i] {
            vec := vec[i := item];
          }
          i := i + 1;
        case Many(items) =>
          vec := vec[..i] + vec[i + 1..];
          vec := vec[..i] + items + vec[i..];
          i := i + |items|;
        case OtherVector(nodes) =>
          if nodes == [] {
            vec := vec[..i] + vec[i + 1..];
          } else {
            vec := vec[..i] + seq(|nodes| - 1, _ => NullItem) + vec[i..];
            bug, i := Overwrite(i, nodes);
          }
        case WrongType =>
          bug := true;
      }
    }

    /** Overwrites the elements from `start` on with nodes, as long as they have the right type. */
    method Overwrite(start: nat, nodes: seq<Option<Item>>) returns (bug: bool, i: nat)
      requires start + |nodes| <= |vec|
      modifies this
      ensures bug <==> !Fits(OtherVector(nodes))
      ensures !bug ==> i == start + |nodes| && vec == old(vec)[..start] + Expand(NullItem, OtherVector(nodes)) + old(vec)[i..]
    {
      i := start;
      for j := 0 to |nodes|
        invariant i == start + j && |vec| == |old(vec)| && forall k | 0 <= k < j :: nodes[k].Some? && nodes[k].value.Item?
        invariant forall k | 0 <= k < |vec| :: vec[k] == if start <= k < i then nodes[k - start].value else old(vec)[k]
      {
        if nodes[j] == None || nodes[j].value == NullItem {
          return true, i;
        }
        vec := vec[i := nodes[j].value];
        i := i + 1;
      }
      bug := false;
    }
  }

  ghost predicate AllFit(apply: Apply, vec: seq<Item>, n: nat) {
    n <= |vec| && forall k | 0 <= k < n :: Fits(apply(k, vec[k]))
  }

  // The name index.

  /** The name of a declaration. */
  function NameOf(item: Item): Option<string> {
    if item == NullItem then None else item.name
  }

  predicate Differ(a: Item, b: Item) {
    NameOf(a).Some? ==> NameOf(a) != NameOf(b)
  }

  /** No two declarations of the vector have the same name. */
  ghost predicate DistinctNames(vec: seq<Item>) {
    forall i, j | 0 <= i < j < |vec| :: Differ(vec[i], vec[j])
  }

  predicate Listed(index: map<string, Item>, item: Item) {
    NameOf(item).Some? ==> NameOf(item).value in index && index[NameOf(item).value] == item
  }

  /** The index has exactly the declarations of the vector, under their names. */
  ghost predicate Indexed(vec: seq<Item>, index: map<string, Item>) {
    && DistinctNames(vec)
    && (forall i | 0 <= i < |vec| :: Listed(index, vec[i]))
    && (forall name | name in index :: HasName(vec, name))
  }

  ghost predicate HasName(vec: seq<Item>, name: string) {
    exists i :: 0 <= i < |vec| && NameOf(vec[i]) == Some(name)
  }

  /** The index after `insertInMap`, for a new name. */
  function IndexWith(index: map<string, Item>, item: Item): map<string, Item> {
    if NameOf(item).Some? then index[NameOf(item).value := item] else index
  }

  /** The index after `removeFromMap`. */
  function IndexWithout(index: map<string, Item>, item: Item): map<string, Item> {
    if NameOf(item).Some? then index - {NameOf(item).value} else index
  }

  predicate IsNew(index: map<string, Item>, item: Item) {
    NameOf(item).None? || NameOf(item).value !in index
  }

  lemma InsertedAt(a: seq<Item>, item: Item, b: seq<Item>, i: nat)
    requires i < |a| + 1 + |b|
    ensures (a + [item] + b)[i] == if i == |a| then item else (a + b)[if i < |a| then i else i - 1]
  {
  }

  lemma IndexInsert(a: seq<Item>, item: Item, b: seq<Item>, index: map<string, Item>)
    requires Indexed(a + b, index) && IsNew(index, item)
    ensures Indexed(a + [item] + b, IndexWith(index, item))
  {
    var vec, vec' := a + b, a + [item] + b;
    forall i, j | 0 <= i < j < |vec'| ensures Differ(vec'[i], vec'[j]) {
      InsertedAt(a, item, b, i);
      InsertedAt(a, item, b, j);
      if i == |a| {
        assert Listed(index, vec[j - 1]);
      } else if j == |a| {
        assert Listed(index, vec[i]);
      }
    }
    forall i | 0 <= i < |vec'| ensures Listed(IndexWith(index, item), vec'[i]) {
      InsertedAt(a, item, b, i);
      if i != |a| {
        assert Listed(index, vec[if i < |a| then i else i - 1]);
      }
    }
    forall name | name in IndexWith(index, item) ensures HasName(vec', name) {
      if name in index {
        assert HasName(vec, name);
        var k :| 0 <= k < |vec| && NameOf(vec[k]) == Some(name);
        InsertedAt(a, item, b, if k < |a| then k else k + 1);
      } else {
        InsertedAt(a, item, b, |a|);
      }
    }
  }

  /** A name that is in the index already is in the vector already. */
  lemma OldName(a: seq<Item>, item: Item, b: seq<Item>, index: map<string, Item>)
    requires Indexed(a + b, index) && !IsNew(index, item)
    ensures !DistinctNames(a + [item] + b)
  {
    var name := NameOf(item).value;
    assert HasName(a + b, name);
    var k :| 0 <= k < |a + b| && NameOf((a + b)[k]) == Some(name);
    var l := if k < |a| then k else k + 1;
    InsertedAt(a, item, b, l);
    InsertedAt(a, item, b, |a|);
    var vec := a + [item] + b;
    assert !Differ(vec[if l < |a| then l else |a|], vec[if l < |a| then |a| else l]);
  }

  lemma IndexErase(a: seq<Item>, item: Item, b: seq<Item>, index: map<string, Item>)
    requires Indexed(a + [item] + b, index)
    ensures Listed(index, item) && Indexed(a + b, IndexWithout(index, item))
  {
    var vec, vec', index' := a + [item] + b, a + b, IndexWithout(index, item);
    InsertedAt(a, item, b, |a|);
    assert Listed(index, vec[|a|]);
    forall i, j | 0 <= i < j < |vec'| ensures Differ(vec'[i], vec'[j]) {
      InsertedAt(a, item, b, if i < |a| then i else i + 1);
      InsertedAt(a, item, b, if j < |a| then j else j + 1);
    }
    forall i | 0 <= i < |vec'| ensures Listed(index', vec'[i]) {
      var l := if i < |a| then i else i + 1;
      InsertedAt(a, item, b, l);
      assert Listed(index, vec[l]);
      assert Differ(vec[if l < |a| then l else |a|], vec[if l < |a| then |a| else l]);
    }
    forall name | name in index' ensures HasName(vec', name) {
      assert HasName(vec, name);
      var k :| 0 <= k < |vec| && NameOf(vec[k]) == Some(name);
      InsertedAt(a, item, b, k);
      assert vec'[if k < |a| then k else k - 1] == vec[k];
    }
  }

  /** Leaving out an element keeps names distinct. */
  lemma FewerNames(a: seq<Item>, item: Item, b: seq<Item>)
    requires DistinctNames(a + [item] + b)
    ensures DistinctNames(a + b)
  {
    var vec, vec' := a + [item] + b, a + b;
    forall i, j | 0 <= i < j < |vec'| ensures Differ(vec'[i], vec'[j]) {
      InsertedAt(a, item, b, if i < |a| then i else i + 1);
      InsertedAt(a, item, b, if j < |a| then j else j + 1);
    }
  }

  /** Whether `IndexedVector` can take the result: a node or a vector of nodes of its element type. */
  predicate FitsIndexed(r: Result) {
    !r.OtherVector? && !r.WrongType?
  }

  ghost predicate AllFitIndexed(apply: Apply, vec: seq<Item>, n: nat) {
    n <= |vec| && forall k | 0 <= k < n :: FitsIndexed(apply(k, vec[k]))
  }

  class IndexedVector {
    var vec: seq<Item>
    var declarations: map<string, Item>
    var invalid: bool

    /** Unless an error has been found, the index agrees with the vector. */
    ghost predicate Valid()
      reads this
    {
      !invalid ==> Indexed(vec, declarations)
    }

    constructor ()
      ensures Valid() && vec == [] && !invalid
    {
      vec, declarations, invalid := [], map[], false;
    }

    method InsertInMap(a: Item)
      modifies this`declarations, this`invalid
      ensures invalid <==> old(invalid) || !IsNew(old(declarations), a)
      ensures declarations == if IsNew(old(declarations), a) then IndexWith(old(declarations), a) else old(declarations)
    {
      if a == NullItem || a.name == None {
        return;
      }
      if a.name.value in declarations {
        invalid := true;
      } else {
        declarations := declarations[a.name.value := a];
      }
    }

    /** The bug is a declaration that is not in the index. */
    method RemoveFromMap(a: Item) returns (bug: bool)
      modifies this`declarations
      ensures bug <==> NameOf(a).Some? && IsNew(old(declarations), a)
      ensures declarations == if bug then old(declarations) else IndexWithout(old(declarations), a)
    {
      if a == NullItem || a.name == None {
        return false;
      }
      if a.name.value !in declarations {
        return true;
      }
      declarations := declarations - {a.name.value};
      return false;
    }

    method Erase(i: nat) returns (bug: bool)
      requires Valid() && i < |vec|
      modifies this
      ensures Valid() && invalid == old(invalid) && (bug ==> invalid)
      ensures vec == if bug then old(vec) else old(vec)[..i] + old(vec)[i + 1..]
    {
      ghost var a, b := vec[..i], vec[i + 1..];
      assert vec == a + [vec[i]] + b;
      if !invalid {
        IndexErase(a, vec[i], b, declarations);
      }
      bug := RemoveFromMap(vec[i]);
      if !bug {
        vec := vec[..i] + vec[i + 1..];
      }
    }

    /** Inserts elements; afterwards the vector is marked exactly if it was or if names clash now. */
    method Insert(i: nat, items: seq<Item>)
      requires Valid() && i <= |vec|
      modifies this
      ensures Valid() && vec == old(vec)[..i] + items + old(vec)[i..]
      ensures invalid <==> old(invalid) || !DistinctNames(vec)
    {
      ghost var a, b := vec[..i], vec[i..];
      assert a + [] + b == vec;
      for k := 0 to |items|
        invariant vec == old(vec)
        invariant !invalid ==> Indexed(a + items[..k] + b, declarations)
        invariant invalid <==> old(invalid) || !DistinctNames(a + items[..k] + b)
      {
        InsertStep(a, items, k, b, declarations, invalid);
        InsertInMap(items[k]);
      }
      assert items[..|items|] == items;
      vec := vec[..i] + items + vec[i..];
    }

    /** Inserts one element. */
    method InsertOne(i: nat, item: Item)
      requires Valid() && i <= |vec|
      modifies this
      ensures Valid() && vec == old(vec)[..i] + [item] + old(vec)[i..]
      ensures invalid <==> old(invalid) || !DistinctNames(vec)
    {
      ghost var a, b := vec[..i], vec[i..];
      assert a + b == vec;
      if !invalid {
        if IsNew(declarations, item) {
          IndexInsert(a, item, b, declarations);
        } else {
          OldName(a, item, b, declarations);
        }
      }
      InsertInMap(item);
      vec := vec[..i] + [item] + vec[i..];
    }

    /** `replace`: returns the position after the element. */
    method Replace(i: nat, v: Item) returns (bug: bool, next: nat)
      requires Valid() && i < |vec|
      modifies this
      ensures Valid() && (bug ==> old(invalid) && invalid)
      ensures !bug ==> vec == old(vec)[i := v] && next == i + 1 && (invalid <==> old(invalid) || !DistinctNames(vec))
    {
      ghost var a, b := vec[..i], vec[i + 1..];
      assert vec == a + [vec[i]] + b;
      if !invalid {
        IndexErase(a, vec[i], b, declarations);
      }
      bug := RemoveFromMap(vec[i]);
      next := i + 1;
      if bug {
        return;
      }
      if !invalid {
        if IsNew(declarations, v) {
          IndexInsert(a, v, b, declarations);
        } else {
          OldName(a, v, b, declarations);
        }
      }
      vec := vec[i := v];
      assert vec == a + [v] + b;
      InsertInMap(v);
    }

    /** Puts what an element becomes in its place, and moves past it. */
    method VisitChild(start: nat, r: Result) returns (bug: bool, i: nat)
      requires Valid() && start < |vec| && Proper(r) && (vec[start] == NullItem ==> r == Nothing)
      modifies this
      ensures Valid() && (bug ==> old(invalid) || !FitsIndexed(r)) && (!FitsIndexed(r) ==> bug)
      ensures !bug ==> var e := Expand(old(vec)[start], r); vec == old(vec)[..start] + e + old(vec)[start + 1..] && i == start + |e|
      ensures !bug ==> (invalid <==> old(invalid) || !DistinctNames(vec))
      ensures old(invalid) ==> invalid
    {
      bug, i := false, start;
      match r {
        case Nothing =>
          if vec[i] != NullItem {
            bug := Erase(i);
          } else {
            i := i + 1;
          }
        case One(item) =>
          if item != vec[i] {
            bug, i := Replace(i, item);
          } else {
            i := i + 1;
          }
        case Many(items) =>
          bug := Erase(i);
          if bug {
            return;
          }
          Insert(i, items);
          i := i + |items|;
        case _ =>
          bug := true;
      }
    }

    /** Rewrites all elements. It ends with a vector that agrees with its index exactly if all results
        are nodes or vectors of nodes and at no stage on the way two declarations share a name. */
    method VisitChildren(apply: Apply) returns (bug: bool)
      requires Valid() && ProperVisitor(apply)
      modifies this
      ensures Valid() && (bug ==> invalid || !AllFitIndexed(apply, old(vec), |old(vec)|))
      ensures !bug ==> AllFit(apply, old(vec), |old(vec)|) && vec == FlatMap(apply, old(vec), |old(vec)|)
      ensures !bug && !invalid <==> !old(invalid) && AllFitIndexed(apply, old(vec), |old(vec)|) && DistinctSoFar(apply, old(vec), |old(vec)|)
    {
      var i: nat, n: nat := 0, 0;
      FirstProgress(apply, vec, !invalid);
      while i < |vec|
        invariant n <= |old(vec)| && Valid() && Progress(apply, old(vec), n, vec, i, !old(invalid), !invalid)
        decreases |old(vec)| - n
      {
        NextProgress(apply, old(vec), n, vec, i, !old(invalid), !invalid);
        ghost var before, start, was := vec, i, invalid;
        bug, i := VisitChild(i, apply(n, vec[i]));
        if bug {
          StoppedProgress(apply, old(vec), n, before, start, !old(invalid), !was);
          return;
        }
        ProgressStep(apply, old(vec), n, before, start, vec, i, !old(invalid), !was, !invalid);
        n := n + 1;
      }
      NextProgress(apply, old(vec), n, vec, i, !old(invalid), !invalid);
      bug := false;
    }
  }

  /** After `n` steps: the vector, the position, and whether nothing has clashed so far. */
  ghost predicate Progress(apply: Apply, original: seq<Item>, n: nat, vec: seq<Item>, i: nat, cleanAtFirst: bool, clean: bool) {
    && AtStage(apply, original, n, vec, i)
    && forall z {:trigger Open(vec, z)} | Open(vec, z) ::
      AllFitIndexed(apply, original, n) && (clean <==> cleanAtFirst && DistinctSoFar(apply, original, n))
  }

  lemma FirstProgress(apply: Apply, vec: seq<Item>, clean: bool)
    requires clean ==> DistinctNames(vec)
    ensures Progress(apply, vec, 0, vec, 0, clean, clean)
  {
    FirstStage(apply, vec);
    FirstDistinct(apply, vec);
  }

  lemma NextProgress(apply: Apply, original: seq<Item>, n: nat, vec: seq<Item>, i: nat, cleanAtFirst: bool, clean: bool)
    requires Progress(apply, original, n, vec, i, cleanAtFirst, clean)
    ensures i <= |vec| && (i < |vec| <==> n < |original|) && (i < |vec| ==> vec[i] == original[n])
    ensures i == |vec| ==>
      && n == |original| && AllFitIndexed(apply, original, n) && AllFit(apply, original, n) && vec == FlatMap(apply, original, n)
      && (clean <==> cleanAtFirst && DistinctSoFar(apply, original, n))
  {
    assert Open(vec, 0);
    NextElement(apply, original, n, vec, i);
  }

  lemma StoppedProgress(apply: Apply, original: seq<Item>, n: nat, vec: seq<Item>, i: nat, cleanAtFirst: bool, clean: bool)
    requires Progress(apply, original, n, vec, i, cleanAtFirst, clean) && n < |original|
    requires clean ==> !FitsIndexed(apply(n, original[n]))
    ensures !(cleanAtFirst && AllFitIndexed(apply, original, |original|) && DistinctSoFar(apply, original, |original|))
    ensures clean ==> !AllFitIndexed(apply, original, |original|)
  {
    assert Open(vec, 0);
    LaterClash(apply, original, n, |original|);
  }

  lemma ProgressStep(apply: Apply, original: seq<Item>, n: nat, vec: seq<Item>, i: nat, vec': seq<Item>, i': nat,
      cleanAtFirst: bool, clean: bool, clean': bool)
    requires Progress(apply, original, n, vec, i, cleanAtFirst, clean)
    requires n < |original| && i < |vec| && FitsIndexed(apply(n, original[n]))
    requires var e := Expand(original[n], apply(n, original[n])); vec' == vec[..i] + e + vec[i + 1..] && i' == i + |e|
    requires clean' <==> clean && DistinctNames(vec')
    ensures Progress(apply, original, n + 1, vec', i', cleanAtFirst, clean')
  {
    assert Open(vec, 0);
    StageStep(apply, original, n, vec, i, vec', i');
    DistinctStep(apply, original, n, vec', i');
  }

  /** At no stage up to `n` two declarations share a name. */
  ghost predicate DistinctSoFar(apply: Apply, original: seq<Item>, n: nat) {
    forall m: nat {:trigger DistinctAt(apply, original, m)} | m <= n :: DistinctAt(apply, original, m)
  }

  ghost predicate DistinctAt(apply: Apply, original: seq<Item>, m: nat) {
    AllFit(apply, original, m) ==> DistinctNames(Stage(apply, original, m))
  }

  lemma FirstDistinct(apply: Apply, vec: seq<Item>)
    ensures DistinctSoFar(apply, vec, 0) <==> DistinctNames(vec)
  {
    assert Stage(apply, vec, 0) == vec;
    assert DistinctAt(apply, vec, 0) <==> DistinctNames(vec);
  }

  lemma DistinctStep(apply: Apply, original: seq<Item>, n: nat, vec: seq<Item>, i: nat)
    requires AtStage(apply, original, n + 1, vec, i)
    ensures DistinctSoFar(apply, original, n + 1) <==> DistinctSoFar(apply, original, n) && DistinctNames(vec)
  {
    assert Open(vec, 0);
    assert DistinctAt(apply, original, n + 1) <==> DistinctNames(vec);
  }

  /** Exchanging two names one after the other clashes on the way, though not in the end. */
  lemma ExchangeClashes(apply: Apply, a: Item, b: Item, a': Item, b': Item)
    requires NameOf(a).Some? && NameOf(b).Some? && NameOf(a) != NameOf(b) && NameOf(a') == NameOf(b) && NameOf(b') == NameOf(a)
    requires apply(0, a) == One(a') && apply(1, b) == One(b')
    ensures DistinctNames([a, b]) && AllFit(apply, [a, b], 2) && DistinctNames(FlatMap(apply, [a, b], 2))
    ensures !DistinctSoFar(apply, [a, b], 2)
  {
    var vec := [a, b];
    assert FlatMap(apply, vec, 0) == [] && FlatMap(apply, vec, 1) == [] + [a'] && FlatMap(apply, vec, 2) == ([] + [a']) + [b'];
    assert Stage(apply, vec, 1) == [a', b];
    assert !Differ(Stage(apply, vec, 1)[0], Stage(apply, vec, 1)[1]);
    assert !DistinctAt(apply, vec, 1);
  }

  lemma LaterClash(apply: Apply, original: seq<Item>, n: nat, m: nat)
    requires n <= m
    ensures DistinctSoFar(apply, original, m) ==> DistinctSoFar(apply, original, n)
  {
  }

  lemma InsertStep(a: seq<Item>, items: seq<Item>, k: nat, b: seq<Item>, index: map<string, Item>, invalid: bool)
    requires k < |items| && (!invalid ==> Indexed(a + items[..k] + b, index))
    requires !invalid ==> DistinctNames(a + items[..k] + b)
    ensures !invalid && IsNew(index, items[k]) ==> Indexed(a + items[..k + 1] + b, IndexWith(index, items[k]))
    ensures !invalid ==> (IsNew(index, items[k]) <==> DistinctNames(a + items[..k + 1] + b))
    ensures DistinctNames(a + items[..k + 1] + b) ==> DistinctNames(a + items[..k] + b)
  {
    var c := a + items[..k];
    assert a + items[..k + 1] + b == c + [items[k]] + b;
    if DistinctNames(c + [items[k]] + b) {
      FewerNames(c, items[k], b);
    }
    if !invalid {
      if IsNew(index, items[k]) {
        IndexInsert(c, items[k], b, index);
      } else {
        OldName(c, items[k], b, index);
      }
    }
  }
}
