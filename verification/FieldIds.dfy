/** `FieldIdAllocator`: numbers for match fields and parameters, some of them given by the user. */
module FieldIds {
  import opened MatchMeaning
  import opened Wrappers
  import opened Collections

  /** The ids given by `@id` annotations. */
  ghost function UserIds<T>(elements: seq<T>, idOf: T -> Option<nat>): set<nat> {
    set e | e in elements && idOf(e).Some? :: idOf(e).value
  }

  /** No annotation is 0 and no two annotations are the same. */
  ghost predicate UsersAgree<T>(elements: seq<T>, idOf: T -> Option<nat>) {
    && (forall i | 0 <= i < |elements| :: idOf(elements[i]) != Some(0))
    && (forall i, j | 0 <= i < j < |elements| && idOf(elements[i]).Some? :: idOf(elements[i]) != idOf(elements[j]))
  }

  /** Annotated elements have their own ids; every other id is new, not 0 and small. */
  ghost predicate Allocated<T>(m: map<T, nat>, elements: seq<T>, idOf: T -> Option<nat>) {
    && m.Keys == (set e | e in elements)
    && AllAllocated(m, |elements| + |UserIds(elements, idOf)|, idOf)
  }

  ghost predicate AllAllocated<T>(m: map<T, nat>, bound: nat, idOf: T -> Option<nat>) {
    forall e {:trigger AllocatedOne(m, bound, idOf, e)} | e in m :: AllocatedOne(m, bound, idOf, e)
  }

  ghost predicate AllocatedOne<T>(m: map<T, nat>, bound: nat, idOf: T -> Option<nat>, e: T)
    requires e in m
  {
    if idOf(e).Some? then m[e] == idOf(e).value
    else 0 < m[e] <= bound && forall other | other in m && other != e :: m[other] != m[e]
  }

  /** With proper annotations all ids are distinct and none is 0. */
  lemma AllIdsDistinct<T>(m: map<T, nat>, elements: seq<T>, idOf: T -> Option<nat>)
    requires Allocated(m, elements, idOf) && UsersAgree(elements, idOf)
    ensures forall e | e in m :: m[e] > 0
    ensures forall a, b | a in m && b in m && a != b :: m[a] != m[b]
  {
    forall a, b | a in m && b in m && a != b ensures m[a] != m[b] && m[a] > 0 && m[b] > 0 {
      assert AllocatedOne(m, |elements| + |UserIds(elements, idOf)|, idOf, a);
      assert AllocatedOne(m, |elements| + |UserIds(elements, idOf)|, idOf, b);
      var i :| 0 <= i < |elements| && elements[i] == a;
      var j :| 0 <= j < |elements| && elements[j] == b;
    }
    forall e | e in m ensures m[e] > 0 {
      assert AllocatedOne(m, |elements| + |UserIds(elements, idOf)|, idOf, e);
    }
  }

  ghost predicate Positional<T>(m: map<T, nat>, elements: seq<T>, n: nat) {
    n <= |elements| && forall i | 0 <= i < n :: elements[i] in m && m[elements[i]] == i + 1
  }

  /** Each annotation is the position that the element has anyway. */
  ghost predicate UsersPositional<T>(elements: seq<T>, idOf: T -> Option<nat>) {
    forall i | 0 <= i < |elements| && idOf(elements[i]).Some? :: idOf(elements[i]).value == i + 1
  }

  /** The state of the second pass: the ids so far, those in use, and the next candidate. */
  datatype Pass<T> = Pass(ids: map<T, nat>, taken: set<nat>, index: nat)

  /** The first number from `index` on that is not in `taken`. */
  ghost function LeastFree(taken: set<nat>, index: nat): (r: nat)
    ensures r >= index && r !in taken && forall x | index <= x < r :: x in taken
    decreases |AtLeast(taken, index)|
  {
    Fewer(taken, index);
    if index in taken then LeastFree(taken, index + 1) else index
  }

  /** The second pass after the first `n` elements. */
  ghost function Allocation<T>(elements: seq<T>, idOf: T -> Option<nat>, n: nat): Pass<T>
    requires n <= |elements|
  {
    if n == 0 then Pass(map e | e in elements && idOf(e).Some? :: idOf(e).value, UserIds(elements, idOf), 1)
    else
      var p, e := Allocation(elements, idOf, n - 1), elements[n - 1];
      if e in p.ids then p.(index := p.index + 1)
      else
        var id := LeastFree(p.taken, p.index);
        Pass(p.ids[e := id], p.taken + {id}, id)
  }

  /** The ids that the allocator gives. */
  ghost function Ids<T>(elements: seq<T>, idOf: T -> Option<nat>): map<T, nat> {
    Allocation(elements, idOf, |elements|).ids
  }

  class FieldIdAllocator<T(==)> {
    var assignedIds: set<nat>
    var idMapping: map<T, nat>
    var errors: nat

    /** The ids of the first `n` elements that are annotated. */
    ghost predicate FirstPass(elements: seq<T>, idOf: T -> Option<nat>, n: nat)
      reads this
      requires n <= |elements|
    {
      && idMapping.Keys == (set e | e in elements[..n] && idOf(e).Some?)
      && (forall e | e in idMapping :: idMapping[e] == idOf(e).value)
      && assignedIds == UserIds(elements[..n], idOf)
      && (errors == 0 <==> UsersAgree(elements[..n], idOf))
    }

    constructor (elements: seq<T>, idOf: T -> Option<nat>)
      ensures idMapping == Ids(elements, idOf)
      ensures Allocated(idMapping, elements, idOf)
      ensures errors == 0 <==> UsersAgree(elements, idOf)
      ensures NoDuplicates(elements) ==> (Positional(idMapping, elements, |elements|) <==> UsersPositional(elements, idOf))
    {
      assignedIds, idMapping, errors := {}, map[], 0;
      new;
      ReadAnnotations(elements, idOf);
      AllocateMissing(elements, idOf);
      IdsAllocated(elements, idOf);
      if NoDuplicates(elements) {
        PositionsAreIds(elements, idOf);
      }
    }

    method ReadAnnotations(elements: seq<T>, idOf: T -> Option<nat>)
      requires assignedIds == {} && idMapping == map[] && errors == 0
      modifies this
      ensures FirstPass(elements, idOf, |elements|)
    {
      for i := 0 to |elements|
        invariant FirstPass(elements, idOf, i)
      {
        var e := elements[i];
        var id := idOf(e);
        FirstPassStep(elements, idOf, i);
        if id == None {
          continue;
        }
        if id.value == 0 {
          errors := errors + 1;
        } else if id.value in assignedIds {
          errors := errors + 1;
        }
        idMapping := idMapping[e := id.value];
        assignedIds := assignedIds + {id.value};
      }
      assert elements[..|elements|] == elements;
    }

    method AllocateMissing(elements: seq<T>, idOf: T -> Option<nat>)
      requires FirstPass(elements, idOf, |elements|)
      modifies this`assignedIds, this`idMapping
      ensures idMapping == Ids(elements, idOf)
    {
      assert elements[..|elements|] == elements;
      var index: nat := 1;
      for i := 0 to |elements|
        invariant Pass(idMapping, assignedIds, index) == Allocation(elements, idOf, i)
      {
        var e := elements[i];
        if e in idMapping {
          index := index + 1;
          continue;
        }
        index := NextFree(index);
        idMapping := idMapping[e := index];
        assignedIds := assignedIds + {index};
      }
    }

    method NextFree(start: nat) returns (index: nat)
      ensures index == LeastFree(assignedIds, start)
    {
      index := start;
      while index in assignedIds
        invariant LeastFree(assignedIds, start) == LeastFree(assignedIds, index)
        decreases |AtLeast(assignedIds, index)|
      {
        Fewer(assignedIds, index);
        index := index + 1;
      }
    }
  }

  // What the ids are.

  /** At each step the ids are as promised and the candidate leaves room for the bound. */
  lemma {:induction false} PassAllocated<T>(elements: seq<T>, idOf: T -> Option<nat>, n: nat)
    requires n <= |elements|
    ensures SecondPass(Allocation(elements, idOf, n), elements, idOf, n)
  {
    if n == 0 {
      assert elements[..0] == [];
      SubsetCardinality(AtLeast(UserIds(elements, idOf), 1), UserIds(elements, idOf));
    } else {
      var p := Allocation(elements, idOf, n - 1);
      PassAllocated(elements, idOf, n - 1);
      KeysAfterStep(elements, idOf, n - 1);
      if elements[n - 1] in p.ids {
        Fewer(p.taken, p.index);
      } else {
        var id := LeastFree(p.taken, p.index);
        FreeIsNear(p.taken, p.index);
        OneMore(p.taken, id);
        OneMoreAllocated(p.ids, |elements| + |UserIds(elements, idOf)|, idOf, elements[n - 1], id);
        assert p.ids[elements[n - 1] := id].Keys == p.ids.Keys + {elements[n - 1]};
      }
    }
  }

  lemma IdsAllocated<T>(elements: seq<T>, idOf: T -> Option<nat>)
    ensures Allocated(Ids(elements, idOf), elements, idOf)
  {
    PassAllocated(elements, idOf, |elements|);
    assert elements[..|elements|] == elements;
  }

  /** Each id in use is passed over once. */
  lemma {:induction false} FreeIsNear(taken: set<nat>, index: nat)
    ensures var r := LeastFree(taken, index); r + |AtLeast(taken, r)| == index + |AtLeast(taken, index)|
    decreases |AtLeast(taken, index)|
  {
    if index in taken {
      Fewer(taken, index);
      FreeIsNear(taken, index + 1);
    }
  }

  /** The first `n` elements have ids as promised. */
  ghost predicate SecondPass<T>(p: Pass<T>, elements: seq<T>, idOf: T -> Option<nat>, n: nat) {
    var users := UserIds(elements, idOf);
    && n <= |elements|
    && p.index > 0 && p.index + |AtLeast(p.taken, p.index)| <= 1 + n + |users|
    && p.ids.Keys == KeysAfter(elements, idOf, n)
    && AllAllocated(p.ids, |elements| + |users|, idOf)
    && forall e | e in p.ids :: p.ids[e] in p.taken
  }

  ghost function KeysAfter<T>(elements: seq<T>, idOf: T -> Option<nat>, n: nat): set<T>
    requires n <= |elements|
  {
    (set e | e in elements[..n]) + (set e | e in elements && idOf(e).Some?)
  }

  lemma KeysAfterStep<T>(elements: seq<T>, idOf: T -> Option<nat>, i: nat)
    requires i < |elements|
    ensures KeysAfter(elements, idOf, i + 1) == KeysAfter(elements, idOf, i) + {elements[i]}
  {
    assert elements[..i + 1] == elements[..i] + [elements[i]];
  }

  lemma OneMoreAllocated<T>(m: map<T, nat>, bound: nat, idOf: T -> Option<nat>, e: T, index: nat)
    requires AllAllocated(m, bound, idOf)
    requires e !in m && idOf(e) == None && (forall d | d in m :: m[d] != index) && 0 < index <= bound
    ensures AllAllocated(m[e := index], bound, idOf)
  {
    var m' := m[e := index];
    forall d | d in m' ensures AllocatedOne(m', bound, idOf, d) {
      assert d != e ==> AllocatedOne(m, bound, idOf, d);
    }
  }

  ghost function AtLeast(s: set<nat>, index: nat): set<nat> {
    set x | x in s && x >= index
  }

  lemma Fewer(s: set<nat>, index: nat)
    ensures |AtLeast(s, index + 1)| == |AtLeast(s, index)| - if index in s then 1 else 0
  {
    assert AtLeast(s, index) == AtLeast(s, index + 1) + if index in s then {index} else {};
  }

  lemma OneMore(s: set<nat>, index: nat)
    requires index !in s
    ensures |AtLeast(s + {index}, index)| == |AtLeast(s, index)| + 1
  {
    assert AtLeast(s + {index}, index) == AtLeast(s, index) + {index};
  }

  lemma FirstPassStep<T>(elements: seq<T>, idOf: T -> Option<nat>, i: nat)
    requires i < |elements|
    ensures var e := elements[i];
      && UserIds(elements[..i + 1], idOf) == UserIds(elements[..i], idOf) + (if idOf(e).Some? then {idOf(e).value} else {})
      && (UsersAgree(elements[..i + 1], idOf) <==>
           UsersAgree(elements[..i], idOf) && (idOf(e).Some? ==> idOf(e).value != 0 && idOf(e).value !in UserIds(elements[..i], idOf)))
  {
    assert elements[..i + 1] == elements[..i] + [elements[i]];
    var e := elements[i];
    if idOf(e).Some? && idOf(e).value in UserIds(elements[..i], idOf) {
      var d :| d in elements[..i] && idOf(d).Some? && idOf(d).value == idOf(e).value;
      var j :| 0 <= j < i && elements[j] == d;
      assert elements[..i + 1][j] == d && elements[..i + 1][i] == e;
    }
  }

  // The numbers of P4Info and those of table entries.

  /** An element and its number: P4Info has the allocated id, the converter the count of supported elements. */
  ghost predicate HasIds<T>(keys: seq<KeyElement>, elements: seq<T>, idOf: T -> Option<nat>) {
    && |keys| == |elements| && NoDuplicates(elements) && UsersAgree(elements, idOf)
    && forall i | 0 <= i < |keys| :: HasId(keys, elements, idOf, i)
  }

  ghost predicate HasId<T>(keys: seq<KeyElement>, elements: seq<T>, idOf: T -> Option<nat>, i: nat)
    requires i < |keys| == |elements|
  {
    elements[i] in Ids(elements, idOf) && keys[i].id == Ids(elements, idOf)[elements[i]]
  }

  lemma KeysDiffer<T>(keys: seq<KeyElement>, elements: seq<T>, idOf: T -> Option<nat>)
    requires HasIds(keys, elements, idOf)
    ensures DistinctIds(keys) && forall i | 0 <= i < |keys| :: keys[i].id > 0
  {
    IdsAllocated(elements, idOf);
    AllIdsDistinct(Ids(elements, idOf), elements, idOf);
    forall i | 0 <= i < |keys| ensures keys[i].id > 0 {
      assert HasId(keys, elements, idOf, i);
    }
    forall i, j | 0 <= i < j < |keys| ensures keys[i].id != keys[j].id {
      assert HasId(keys, elements, idOf, i) && HasId(keys, elements, idOf, j);
    }
  }

  /** The id of element `i`, as the second pass gives it. */
  lemma IdGiven<T>(keys: seq<KeyElement>, elements: seq<T>, idOf: T -> Option<nat>, i: nat)
    requires HasIds(keys, elements, idOf) && i < |keys|
    ensures match idOf(elements[i])
            case Some(id) => keys[i].id == id
            case None =>
              var p, q := Allocation(elements, idOf, i), Allocation(elements, idOf, i + 1);
              keys[i].id == LeastFree(p.taken, p.index) == q.index
    ensures idOf(elements[i]).Some? ==> Allocation(elements, idOf, i + 1).index == Allocation(elements, idOf, i).index + 1
    ensures forall n | i < n <= |elements| :: keys[i].id in Allocation(elements, idOf, n).taken
  {
    assert HasId(keys, elements, idOf, i);
    IdInPass(elements, idOf, i);
    forall n | i < n <= |elements| ensures keys[i].id in Allocation(elements, idOf, n).taken {
      IdsStay(elements, idOf, i + 1, n);
    }
  }

  ghost predicate Supported(keys: seq<KeyElement>, i: nat)
    requires i < |keys|
  {
    !keys[i].kind.Unsupported?
  }

  /** How far the next candidate is ahead of the number that the converter would give next: an
      annotated element of an unsupported kind moves it on, and an allocated number is not passed
      over until the next element. */
  function Ahead<T>(keys: seq<KeyElement>, elements: seq<T>, idOf: T -> Option<nat>, n: nat): int
    requires n <= |keys| == |elements|
  {
    if n == 0 then 0
    else if keys[n - 1].kind.Unsupported? then Ahead(keys, elements, idOf, n - 1) + 1
    else if idOf(elements[n - 1]).Some? then Ahead(keys, elements, idOf, n - 1)
    else -1
  }

  /** Every element of an unsupported kind before `n` is annotated. */
  ghost predicate AllSkipped<T>(keys: seq<KeyElement>, elements: seq<T>, idOf: T -> Option<nat>, n: nat)
    requires n <= |keys| == |elements|
  {
    forall j | 0 <= j < n && !Supported(keys, j) :: idOf(elements[j]).Some?
  }

  /** What the annotations and kinds have to be like at element `i`. */
  ghost predicate FitsAt<T>(keys: seq<KeyElement>, elements: seq<T>, idOf: T -> Option<nat>, i: nat)
    requires i < |keys| == |elements|
  {
    match idOf(elements[i])
    case Some(id) => if Supported(keys, i) then id == SupportedIn(keys, i) + 1 else id > SupportedIn(keys, |keys|)
    case None => Supported(keys, i) ==> AllSkipped(keys, elements, idOf, i) && Ahead(keys, elements, idOf, i) <= 0
  }

  ghost predicate NumbersFit<T>(keys: seq<KeyElement>, elements: seq<T>, idOf: T -> Option<nat>) {
    |keys| == |elements| && forall i | 0 <= i < |keys| :: FitsAt(keys, elements, idOf, i)
  }

  /** P4Info and the table entries number the fields of a key alike exactly if every annotation of a
      supported element is its number, those of other elements are above all numbers, and each
      supported element without one follows annotated elements of unsupported kinds only: at most one
      since the last such element, and none before the first. */
  lemma NumbersAgree<T>(keys: seq<KeyElement>, elements: seq<T>, idOf: T -> Option<nat>)
    requires HasIds(keys, elements, idOf)
    ensures NumberedInOrder(keys) <==> NumbersFit(keys, elements, idOf)
  {
    KeysDiffer(keys, elements, idOf);
    if NumberedInOrder(keys) {
      forall i | 0 <= i < |keys| ensures FitsAt(keys, elements, idOf, i) {
        NumberedFits(keys, elements, idOf, i);
      }
    }
    if NumbersFit(keys, elements, idOf) {
      forall i | 0 <= i < |keys| && Supported(keys, i) ensures AtItsNumber(keys, i) {
        FitIsNumbered(keys, elements, idOf, i);
      }
    }
  }

  /** One direction, for one element. */
  lemma NumberedFits<T>(keys: seq<KeyElement>, elements: seq<T>, idOf: T -> Option<nat>, i: nat)
    requires HasIds(keys, elements, idOf) && NumberedInOrder(keys) && i < |keys|
    ensures FitsAt(keys, elements, idOf, i)
  {
    IdGiven(keys, elements, idOf, i);
    assert AtItsNumber(keys, i);
    if !Supported(keys, i) {
      OthersAreAbove(keys, elements, idOf, i);
    } else if idOf(elements[i]) == None {
      SupportedGrows(keys, i + 1, |keys|);
      forall j | 0 <= j < i && !Supported(keys, j) ensures idOf(elements[j]).Some? {
        if idOf(elements[j]) == None {
          AllAboveFrom(keys, elements, idOf, j, i);
        }
      }
      IndexIsAhead(keys, elements, idOf, i);
    }
  }

  /** The numbers are those of supported elements, so the ids of others are above them. */
  lemma OthersAreAbove<T>(keys: seq<KeyElement>, elements: seq<T>, idOf: T -> Option<nat>, j: nat)
    requires HasIds(keys, elements, idOf) && NumberedInOrder(keys) && j < |keys| && !Supported(keys, j)
    ensures keys[j].id > SupportedIn(keys, |keys|)
  {
    KeysDiffer(keys, elements, idOf);
    if keys[j].id <= SupportedIn(keys, |keys|) {
      var k := NumberedElement(keys, keys[j].id);
    }
  }

  lemma NumberedElement(keys: seq<KeyElement>, x: nat) returns (k: nat)
    requires NumberedInOrder(keys) && 0 < x <= SupportedIn(keys, |keys|)
    ensures k < |keys| && Supported(keys, k) && keys[k].id == x
  {
    k := NumberIsGiven(keys, |keys|, x);
    assert AtItsNumber(keys, k);
  }

  /** An unsupported element without an annotation gets an id above all numbers, and so does each
      element without one after it. */
  lemma AllAboveFrom<T>(keys: seq<KeyElement>, elements: seq<T>, idOf: T -> Option<nat>, j: nat, i: nat)
    requires HasIds(keys, elements, idOf) && NumberedInOrder(keys)
    requires j < i < |keys| && !Supported(keys, j)
    requires idOf(elements[j]) == None && idOf(elements[i]) == None
    ensures keys[i].id > SupportedIn(keys, |keys|)
  {
    OthersAreAbove(keys, elements, idOf, j);
    IdGiven(keys, elements, idOf, i);
    IdGiven(keys, elements, idOf, j);
    IndexGrows(elements, idOf, j + 1, i);
  }

  /** The other direction, for one element. */
  lemma {:induction false} FitIsNumbered<T>(keys: seq<KeyElement>, elements: seq<T>, idOf: T -> Option<nat>, i: nat)
    requires HasIds(keys, elements, idOf) && NumbersFit(keys, elements, idOf) && i < |keys| && Supported(keys, i)
    ensures AtItsNumber(keys, i)
    decreases i
  {
    IdGiven(keys, elements, idOf, i);
    assert FitsAt(keys, elements, idOf, i);
    if idOf(elements[i]) == None {
      forall j | 0 <= j < i && Supported(keys, j) ensures AtItsNumber(keys, j) {
        FitIsNumbered(keys, elements, idOf, j);
      }
      IndexIsAhead(keys, elements, idOf, i);
      NumberIsFree(keys, elements, idOf, i);
    }
  }

  /** The next candidate, as long as all numbers are right. */
  lemma {:induction false} IndexIsAhead<T>(keys: seq<KeyElement>, elements: seq<T>, idOf: T -> Option<nat>, n: nat)
    requires HasIds(keys, elements, idOf) && n <= |keys|
    requires forall j | 0 <= j < n :: AtItsNumber(keys, j)
    requires AllSkipped(keys, elements, idOf, n)
    ensures Allocation(elements, idOf, n).index == SupportedIn(keys, n) + 1 + Ahead(keys, elements, idOf, n)
  {
    if n > 0 {
      IndexIsAhead(keys, elements, idOf, n - 1);
      IdGiven(keys, elements, idOf, n - 1);
      assert AtItsNumber(keys, n - 1);
    }
  }

  /** When the turn of element `i` comes, its number is the first that is free. */
  lemma NumberIsFree<T>(keys: seq<KeyElement>, elements: seq<T>, idOf: T -> Option<nat>, i: nat)
    requires HasIds(keys, elements, idOf) && NumbersFit(keys, elements, idOf)
    requires i < |keys| && Supported(keys, i) && idOf(elements[i]) == None
    requires forall j | 0 <= j < i :: AtItsNumber(keys, j)
    requires Allocation(elements, idOf, i).index <= SupportedIn(keys, i) + 1
    ensures keys[i].id == SupportedIn(keys, i) + 1
  {
    var p, next := Allocation(elements, idOf, i), SupportedIn(keys, i) + 1;
    PassAllocated(elements, idOf, i);
    forall x: nat | 0 < x < next ensures x in p.taken {
      LowerIsTaken(keys, elements, idOf, i, x);
    }
    NumberIsNotTaken(keys, elements, idOf, i);
    IdGiven(keys, elements, idOf, i);
  }

  lemma LowerIsTaken<T>(keys: seq<KeyElement>, elements: seq<T>, idOf: T -> Option<nat>, i: nat, x: nat)
    requires HasIds(keys, elements, idOf) && i < |keys| && 0 < x <= SupportedIn(keys, i)
    requires forall j | 0 <= j < i :: AtItsNumber(keys, j)
    ensures x in Allocation(elements, idOf, i).taken
  {
    var j := NumberIsGiven(keys, i, x);
    IdGiven(keys, elements, idOf, j);
    assert AtItsNumber(keys, j);
  }

  /** Only another supported element could have taken the number, and each has its own. */
  lemma NumberIsNotTaken<T>(keys: seq<KeyElement>, elements: seq<T>, idOf: T -> Option<nat>, i: nat)
    requires HasIds(keys, elements, idOf) && NumbersFit(keys, elements, idOf)
    requires i < |keys| && Supported(keys, i) && idOf(elements[i]) == None
    requires forall j | 0 <= j < i :: AtItsNumber(keys, j)
    ensures SupportedIn(keys, i) + 1 !in Allocation(elements, idOf, i).taken
  {
    var x := SupportedIn(keys, i) + 1;
    if x in Allocation(elements, idOf, i).taken {
      var j := TakenFrom(elements, idOf, i, x);
      assert HasId(keys, elements, idOf, j);
      HasOtherId(keys, elements, idOf, i, j);
    }
  }

  lemma HasOtherId<T>(keys: seq<KeyElement>, elements: seq<T>, idOf: T -> Option<nat>, i: nat, j: nat)
    requires HasIds(keys, elements, idOf) && NumbersFit(keys, elements, idOf)
    requires i < |keys| && Supported(keys, i) && idOf(elements[i]) == None
    requires forall k | 0 <= k < i :: AtItsNumber(keys, k)
    requires j < |keys| && (idOf(elements[j]).Some? || j < i)
    ensures keys[j].id != SupportedIn(keys, i) + 1
  {
    assert FitsAt(keys, elements, idOf, i) && FitsAt(keys, elements, idOf, j);
    IdGiven(keys, elements, idOf, j);
    SupportedGrows(keys, i + 1, |keys|);
    if j < i {
      assert AtItsNumber(keys, j);
      SupportedGrows(keys, j + 1, i);
    } else if i < j {
      SupportedGrows(keys, i + 1, j);
    }
  }

  /** An id in use is that of an annotated element, or of one that has had its turn. */
  lemma {:induction false} TakenFrom<T>(elements: seq<T>, idOf: T -> Option<nat>, n: nat, x: nat) returns (j: nat)
    requires n <= |elements| && NoDuplicates(elements) && x in Allocation(elements, idOf, n).taken
    ensures j < |elements| && elements[j] in Ids(elements, idOf) && Ids(elements, idOf)[elements[j]] == x
    ensures idOf(elements[j]) == Some(x) || (j < n && idOf(elements[j]) == None)
  {
    if n == 0 {
      var e :| e in elements && idOf(e).Some? && idOf(e).value == x;
      j :| 0 <= j < |elements| && elements[j] == e;
      IdInPass(elements, idOf, j);
    } else if x in Allocation(elements, idOf, n - 1).taken {
      j := TakenFrom(elements, idOf, n - 1, x);
    } else {
      j := n - 1;
      IdInPass(elements, idOf, j);
    }
  }

  /** The id of element `i`: its annotation, or the first free one when its turn comes. */
  lemma IdInPass<T>(elements: seq<T>, idOf: T -> Option<nat>, i: nat)
    requires i < |elements| && NoDuplicates(elements)
    ensures elements[i] in Ids(elements, idOf)
    ensures elements[i] in Allocation(elements, idOf, i).ids <==> idOf(elements[i]).Some?
    ensures var p := Allocation(elements, idOf, i);
            Ids(elements, idOf)[elements[i]] == if idOf(elements[i]).Some? then idOf(elements[i]).value else LeastFree(p.taken, p.index)
    ensures elements[i] in Allocation(elements, idOf, i + 1).ids
    ensures Allocation(elements, idOf, i + 1).ids[elements[i]] == Ids(elements, idOf)[elements[i]]
  {
    PassAllocated(elements, idOf, i);
    IdsStay(elements, idOf, i + 1, |elements|);
    var p := Allocation(elements, idOf, i);
    if elements[i] in p.ids {
      assert elements[i] !in elements[..i];
      assert AllocatedOne(p.ids, |elements| + |UserIds(elements, idOf)|, idOf, elements[i]);
    }
  }

  lemma {:induction false} IdsStay<T>(elements: seq<T>, idOf: T -> Option<nat>, i: nat, n: nat)
    requires i <= n <= |elements|
    ensures var p, q := Allocation(elements, idOf, i), Allocation(elements, idOf, n);
            p.taken <= q.taken && forall e | e in p.ids :: e in q.ids && q.ids[e] == p.ids[e]
    ensures forall e | e in Allocation(elements, idOf, i).ids :: Allocation(elements, idOf, i).ids[e] in Allocation(elements, idOf, n).taken
    decreases n - i
  {
    if i < n {
      IdsStay(elements, idOf, i, n - 1);
    } else {
      PassAllocated(elements, idOf, i);
    }
  }

  lemma {:induction false} IndexGrows<T>(elements: seq<T>, idOf: T -> Option<nat>, i: nat, n: nat)
    requires i <= n <= |elements|
    ensures Allocation(elements, idOf, i).index <= Allocation(elements, idOf, n).index
    decreases n - i
  {
    if i < n {
      IndexGrows(elements, idOf, i, n - 1);
    }
  }

  lemma {:induction false} SupportedGrows(keys: seq<KeyElement>, i: nat, n: nat)
    requires i <= n <= |keys|
    ensures SupportedIn(keys, i) <= SupportedIn(keys, n)
    decreases n - i
  {
    if i < n {
      SupportedGrows(keys, i, n - 1);
    }
  }

  /** Every number is given to an element. */
  lemma {:induction false} NumberIsGiven(keys: seq<KeyElement>, n: nat, x: nat) returns (j: nat)
    requires n <= |keys| && 0 < x <= SupportedIn(keys, n)
    ensures j < n && Supported(keys, j) && SupportedIn(keys, j) + 1 == x
  {
    if SupportedIn(keys, n - 1) < x {
      j := n - 1;
    } else {
      j := NumberIsGiven(keys, n - 1, x);
    }
  }

  // Special cases.

  lemma {:induction false} AllSupported(keys: seq<KeyElement>, n: nat)
    requires n <= |keys| && forall i | 0 <= i < n :: Supported(keys, i)
    ensures SupportedIn(keys, n) == n
    decreases n
  {
    if n > 0 {
      assert Supported(keys, n - 1);
      AllSupported(keys, n - 1);
    }
  }

  lemma {:induction false} SomeUnsupported(keys: seq<KeyElement>, n: nat)
    requires n <= |keys|
    ensures SupportedIn(keys, n) <= n
    ensures (exists i :: 0 <= i < n && !Supported(keys, i)) ==> SupportedIn(keys, n) < n
    decreases n
  {
    if n > 0 {
      SomeUnsupported(keys, n - 1);
    }
  }

  lemma {:induction false} NeverAhead<T>(keys: seq<KeyElement>, elements: seq<T>, idOf: T -> Option<nat>, n: nat)
    requires n <= |keys| == |elements| && forall i | 0 <= i < n :: Supported(keys, i)
    ensures Ahead(keys, elements, idOf, n) <= 0
  {
    if n > 0 {
      assert Supported(keys, n - 1);
      NeverAhead(keys, elements, idOf, n - 1);
    }
  }

  /** The ids are the positions exactly if the annotations are. */
  lemma PositionsAreIds<T>(elements: seq<T>, idOf: T -> Option<nat>)
    requires NoDuplicates(elements)
    ensures Positional(Ids(elements, idOf), elements, |elements|) <==> UsersPositional(elements, idOf)
  {
    forall i | 0 <= i < |elements| ensures elements[i] in Ids(elements, idOf) {
      IdInPass(elements, idOf, i);
    }
    if UsersPositional(elements, idOf) {
      var keys := seq(|elements|, i requires 0 <= i < |elements| => KeyElement(Exact, 1, Ids(elements, idOf)[elements[i]]));
      assert forall i | 0 <= i < |keys| :: Supported(keys, i) && HasId(keys, elements, idOf, i);
      forall i | 0 <= i < |keys| ensures FitsAt(keys, elements, idOf, i) && SupportedIn(keys, i) == i {
        AllSupported(keys, i);
        assert i > 0 ==> Supported(keys, i - 1);
        if idOf(elements[i]) == None {
          NeverAhead(keys, elements, idOf, i);
        }
      }
      NumbersAgree(keys, elements, idOf);
      forall i | 0 <= i < |elements| ensures Ids(elements, idOf)[elements[i]] == i + 1 {
        assert AtItsNumber(keys, i);
      }
    } else {
      var i :| 0 <= i < |elements| && idOf(elements[i]).Some? && idOf(elements[i]).value != i + 1;
      IdInPass(elements, idOf, i);
    }
  }

  /** If all kinds are supported, P4Info and the table entries agree exactly if each annotation is the
      position of its element. */
  lemma PositionsAgree<T>(keys: seq<KeyElement>, elements: seq<T>, idOf: T -> Option<nat>)
    requires HasIds(keys, elements, idOf) && forall i | 0 <= i < |keys| :: Supported(keys, i)
    ensures NumberedInOrder(keys) <==> UsersPositional(elements, idOf)
  {
    PositionsAreIds(elements, idOf);
    KeysDiffer(keys, elements, idOf);
    forall i | 0 <= i < |keys|
      ensures HasId(keys, elements, idOf, i) && (AtItsNumber(keys, i) <==> Ids(elements, idOf)[elements[i]] == i + 1)
    {
      AllSupported(keys, i);
      assert Supported(keys, i) && HasId(keys, elements, idOf, i);
    }
  }

  /** If the annotations are positions, or there are none, they agree exactly if no element of an
      unsupported kind comes before a supported one. */
  lemma UnsupportedComeLast<T>(keys: seq<KeyElement>, elements: seq<T>, idOf: T -> Option<nat>)
    requires HasIds(keys, elements, idOf) && UsersPositional(elements, idOf)
    ensures NumberedInOrder(keys) <==> forall i, j | 0 <= i < j < |keys| && Supported(keys, j) :: Supported(keys, i)
  {
    PositionsAreIds(elements, idOf);
    KeysDiffer(keys, elements, idOf);
    forall j | 0 <= j < |keys| && Supported(keys, j)
      ensures AtItsNumber(keys, j) <==> forall i | 0 <= i < j :: Supported(keys, i)
    {
      assert HasId(keys, elements, idOf, j);
      SomeUnsupported(keys, j);
      if forall i | 0 <= i < j :: Supported(keys, i) {
        AllSupported(keys, j);
      }
    }
    assert NumberedInOrder(keys) <==> forall j | 0 <= j < |keys| && Supported(keys, j) :: AtItsNumber(keys, j);
  }

  /** `{ h.a : selector; h.b : exact; }` without annotations: P4Info has 2 for `h.b`, its match has 1. */
  lemma SelectorFirst()
    ensures var elements, idOf := ["h.a", "h.b"], (e: string) => None;
            var keys := [KeyElement(Unsupported, 8, 1), KeyElement(Exact, 8, 2)];
            HasIds(keys, elements, idOf) && UsersPositional(elements, idOf) && !NumberedInOrder(keys)
  {
    var elements, idOf := ["h.a", "h.b"], (e: string) => None;
    var keys := [KeyElement(Unsupported, 8, 1), KeyElement(Exact, 8, 2)];
    PositionsAreIds(elements, idOf);
    UnsupportedComeLast(keys, elements, idOf);
    assert !Supported(keys, 0) && Supported(keys, 1);
  }

  /** The same with `@id(1)` on `h.b`, which is not its position: both have 1. */
  lemma SelectorFirstAnnotated()
    ensures var elements, idOf := ["h.a", "h.b"], (e: string) => if e == "h.b" then Some(1) else None;
            var keys := [KeyElement(Unsupported, 8, 2), KeyElement(Exact, 8, 1)];
            HasIds(keys, elements, idOf) && !UsersPositional(elements, idOf) && NumberedInOrder(keys)
  {
    var elements, idOf := ["h.a", "h.b"], (e: string) => if e == "h.b" then Some(1) else None;
    var keys := [KeyElement(Unsupported, 8, 2), KeyElement(Exact, 8, 1)];
    var p := Allocation(elements, idOf, 0);
    assert p.taken == {1} by {
      assert elements[1] in elements && idOf(elements[1]) == Some(1);
    }
    IdInPass(elements, idOf, 0);
    IdInPass(elements, idOf, 1);
    assert LeastFree({1}, 1) == LeastFree({1}, 2) == 2;
    assert SupportedIn(keys, 1) == SupportedIn(keys, 0) == 0;
    assert idOf(elements[1]) == Some(1);
  }
}
