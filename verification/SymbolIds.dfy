/** What the ids of a P4Runtime symbol table are, as functions of the requests for them. */
module SymbolIds {
  import opened NameOrder
  import opened Wrappers

  const INVALID_ID := 0
  const PREFIX := 0x100_0000
  const UINT32 := 0x1_0000_0000

  type uint32 = x: int | 0 <= x < UINT32

  /** A symbol type is its 8-bit id prefix; the prefix 0 is unspecified. */
  datatype Symbol = Symbol(kind: nat, name: string)

  datatype Request = Request(symbol: Symbol, id: Option<nat>)

  /** The ids in use, and the id of every symbol, `INVALID_ID` as long as it has none. */
  datatype State = State(taken: set<nat>, ids: map<Symbol, nat>)

  /** `[resource type][name hash value]`, 8 and 24 bits. */
  function ConstructId(kind: nat, value: nat): (id: nat)
    ensures id / PREFIX == kind && id < (kind + 1) * PREFIX
  {
    kind * PREFIX + value % PREFIX
  }

  ghost predicate IsSymbol(y: Symbol) {
    0 < y.kind < 256
  }

  ghost predicate IsRequest(r: Request) {
    IsSymbol(r.symbol) && (r.id.Some? ==> r.id.value < UINT32)
  }

  /** The id that a symbol starts with. */
  ghost function InitialId(taken: set<nat>, id: Option<nat>): nat {
    if id.Some? && id.value !in taken then id.value else INVALID_ID
  }

  ghost function AddTo(s: State, r: Request): State {
    if r.symbol in s.ids then s
    else State(s.taken + (if r.id.Some? then {r.id.value} else {}), s.ids[r.symbol := InitialId(s.taken, r.id)])
  }

  ghost function Collect(rs: seq<Request>): State {
    if rs == [] then State({}, map[]) else AddTo(Collect(rs[..|rs| - 1]), rs[|rs| - 1])
  }

  /** The first free id from `source + k` on, among the values before they return to `source`. */
  ghost function Probe(taken: set<nat>, kind: nat, source: nat, k: nat): Option<nat>
    requires k <= UINT32
    decreases UINT32 - k
  {
    if k == UINT32 then None
    else if ConstructId(kind, source + k) !in taken then Some(ConstructId(kind, source + k))
    else Probe(taken, kind, source, k + 1)
  }

  ghost function Unassigned(s: State, kind: nat): set<string> {
    set y | y in s.ids && y.kind == kind && s.ids[y] == INVALID_ID :: y.name
  }

  /** Ids for the symbols of one type with the given names, in order, as far as there are free ids. */
  ghost function Assign(s: State, kind: nat, names: set<string>, hash: string -> uint32): (State, bool)
    decreases names
  {
    if names == {} then (s, true)
    else
      var n := Least(names);
      match Probe(s.taken, kind, hash(n), 0)
      case None => (s, false)
      case Some(id) => Assign(State(s.taken + {id}, s.ids[Symbol(kind, n) := id]), kind, names - {n}, hash)
  }

  /** Ids for the symbols of all types before `kind`. */
  ghost function AssignTypes(s: State, kind: nat, hash: string -> uint32): (State, bool) {
    if kind == 0 then (s, true)
    else
      var (s', ok') := AssignTypes(s, kind - 1, hash);
      var (s'', ok'') := Assign(s', kind - 1, Unassigned(s', kind - 1), hash);
      (s'', ok' && ok'')
  }

  /** The ids that symbols of a type can still get. */
  ghost function Free(taken: set<nat>, kind: nat): set<nat> {
    set v | 0 <= v < PREFIX && ConstructId(kind, v) !in taken :: ConstructId(kind, v)
  }

  ghost predicate Tried(taken: set<nat>, kind: nat, source: nat, j: nat) {
    ConstructId(kind, source + j) in taken
  }

  // Probing.

  lemma {:induction false} ProbeFinds(taken: set<nat>, kind: nat, source: nat, k: nat)
    requires k <= UINT32
    requires forall j: nat | j < k :: Tried(taken, kind, source, j)
    ensures match Probe(taken, kind, source, k)
            case None => Free(taken, kind) == {}
            case Some(id) => id in Free(taken, kind)
    decreases UINT32 - k
  {
    if k == UINT32 {
      forall v | 0 <= v < PREFIX ensures ConstructId(kind, v) in taken {
        var j := (v - source) % PREFIX;
        SameLowBits(source, v, j);
        assert Tried(taken, kind, source, j);
      }
    } else if ConstructId(kind, source + k) !in taken {
      var v := (source + k) % PREFIX;
      assert ConstructId(kind, v) == ConstructId(kind, source + k);
    } else {
      ProbeFinds(taken, kind, source, k + 1);
    }
  }

  /** Values whose ids are in use are passed over. */
  lemma {:induction false} ProbeSkips(taken: set<nat>, kind: nat, source: nat, i: nat, k: nat)
    requires i <= k <= UINT32 && forall j: nat | i <= j < k :: Tried(taken, kind, source, j)
    ensures Probe(taken, kind, source, i) == Probe(taken, kind, source, k)
    decreases k - i
  {
    if i < k {
      assert Tried(taken, kind, source, i);
      ProbeSkips(taken, kind, source, i + 1, k);
    }
  }

  lemma SameLowBits(source: nat, v: nat, j: int)
    requires j == (v - source) % PREFIX
    ensures (source + j) % PREFIX == v % PREFIX
  {
  }

  lemma FreeAfter(taken: set<nat>, kind: nat, id: nat)
    requires id in Free(taken, kind)
    ensures Free(taken + {id}, kind) == Free(taken, kind) - {id}
  {
  }

  // What holds of the state throughout.

  ghost predicate Sound(s: State) {
    && (forall y | y in s.ids :: IsSymbol(y) && s.ids[y] < UINT32)
    && (forall y | y in s.ids && s.ids[y] != INVALID_ID :: s.ids[y] in s.taken)
    && (forall y, z | y in s.ids && z in s.ids && y != z && s.ids[y] != INVALID_ID :: s.ids[y] != s.ids[z])
  }

  lemma AddSound(s: State, r: Request)
    requires Sound(s) && IsRequest(r)
    ensures Sound(AddTo(s, r))
  {
  }

  lemma {:induction false} CollectSound(rs: seq<Request>)
    requires forall r | r in rs :: IsRequest(r)
    ensures Sound(Collect(rs))
  {
    if rs != [] {
      CollectSound(rs[..|rs| - 1]);
      AddSound(Collect(rs[..|rs| - 1]), rs[|rs| - 1]);
    }
  }

  // What the requests come to.

  /** Only the first request for a symbol counts. */
  ghost predicate Counts(rs: seq<Request>, i: nat) {
    i < |rs| && forall j | 0 <= j < i :: rs[j].symbol != rs[i].symbol
  }

  /** An earlier request for another symbol has asked for the same id. */
  ghost predicate Clashes(rs: seq<Request>, i: nat) {
    Counts(rs, i) && rs[i].id.Some? && exists j :: 0 <= j < i && Counts(rs, j) && rs[j].id == rs[i].id
  }

  ghost predicate IsRequested(rs: seq<Request>, id: nat) {
    exists i: nat :: Counts(rs, i) && rs[i].id == Some(id)
  }

  ghost predicate IsMentioned(rs: seq<Request>, y: Symbol) {
    exists i: nat :: Counts(rs, i) && rs[i].symbol == y
  }

  /** The id of the symbol of request `i` is the one requested, if nobody has asked for it before. */
  ghost predicate HasItsId(s: State, rs: seq<Request>, i: nat)
    requires i < |rs|
  {
    && rs[i].symbol in s.ids
    && s.ids[rs[i].symbol] == if rs[i].id.Some? && !Clashes(rs, i) then rs[i].id.value else INVALID_ID
  }

  lemma {:induction false} CollectExactly(rs: seq<Request>)
    ensures forall id: nat :: id in Collect(rs).taken <==> IsRequested(rs, id)
    ensures forall y :: y in Collect(rs).ids <==> IsMentioned(rs, y)
    ensures forall i: nat | Counts(rs, i) :: HasItsId(Collect(rs), rs, i)
  {
    if rs != [] {
      var n := |rs| - 1;
      var front, r := rs[..n], rs[n];
      CollectExactly(front);
      assert rs == front + [r];
      var s := Collect(front);
      FrontCounts(front, r);
      assert Counts(rs, n) <==> r.symbol !in s.ids by {
        if r.symbol in s.ids {
          var i: nat :| Counts(front, i) && front[i].symbol == r.symbol;
        } else if i :| 0 <= i < n && front[i].symbol == r.symbol {
          var k := FirstOf(front, i);
          assert IsMentioned(front, r.symbol);
        }
      }
      forall id: nat ensures IsRequested(rs, id) <==> IsRequested(front, id) || (Counts(rs, n) && r.id == Some(id)) {
      }
      forall y ensures IsMentioned(rs, y) <==> IsMentioned(front, y) || (Counts(rs, n) && r.symbol == y) {
      }
      assert Counts(rs, n) && r.id.Some? ==> (Clashes(rs, n) <==> IsRequested(front, r.id.value));
      forall i: nat | Counts(rs, i) ensures HasItsId(Collect(rs), rs, i) {
        if i < n {
          assert HasItsId(s, front, i);
          assert Clashes(front, i) <==> Clashes(rs, i);
        }
      }
    }
  }

  /** A request is reported exactly if it is the first for its symbol and its id is in use by then. */
  lemma NextClash(rs: seq<Request>, i: nat)
    requires i < |rs|
    ensures var s := Collect(rs[..i]);
            Clashes(rs, i) <==> rs[i].symbol !in s.ids && rs[i].id.Some? && rs[i].id.value in s.taken
  {
    var front := rs[..i];
    CollectExactly(front);
    forall j: nat | j < i ensures Counts(front, j) <==> Counts(rs, j) {
    }
    if rs[i].symbol in Collect(front).ids {
      var k: nat :| Counts(front, k) && front[k].symbol == rs[i].symbol;
      assert !Counts(rs, i);
    } else {
      forall j | 0 <= j < i ensures rs[j].symbol != rs[i].symbol {
        var k := FirstOf(front, j);
        assert front[k].symbol == front[j].symbol && IsMentioned(front, front[j].symbol);
      }
      if rs[i].id.Some? {
        assert Clashes(rs, i) <==> IsRequested(front, rs[i].id.value);
      }
    }
  }

  ghost function ClashesBefore(rs: seq<Request>, n: nat): set<nat> {
    set i: nat | i < n && Clashes(rs, i)
  }

  lemma CollectStep(rs: seq<Request>, i: nat)
    requires i < |rs|
    ensures Collect(rs[..i + 1]) == AddTo(Collect(rs[..i]), rs[i])
    ensures var s := Collect(rs[..i]);
            |ClashesBefore(rs, i + 1)| == |ClashesBefore(rs, i)| +
              if rs[i].symbol !in s.ids && rs[i].id.Some? && rs[i].id.value in s.taken then 1 else 0
  {
    NextClash(rs, i);
    OneMoreClash(rs, i);
    assert rs[..i + 1][..i] == rs[..i];
  }

  lemma OneMoreClash(rs: seq<Request>, i: nat)
    ensures |ClashesBefore(rs, i + 1)| == |ClashesBefore(rs, i)| + if Clashes(rs, i) then 1 else 0
  {
    assert ClashesBefore(rs, i + 1) == ClashesBefore(rs, i) + if Clashes(rs, i) then {i} else {};
  }

  lemma {:induction false} FirstOf(rs: seq<Request>, i: nat) returns (k: nat)
    requires i < |rs|
    ensures k <= i && Counts(rs, k) && rs[k].symbol == rs[i].symbol
  {
    k := i;
    if j :| 0 <= j < i && rs[j].symbol == rs[i].symbol {
      k := FirstOf(rs, j);
    }
  }

  lemma FrontCounts(front: seq<Request>, r: Request)
    ensures forall i: nat | i < |front| :: (Counts(front, i) <==> Counts(front + [r], i)) && (front + [r])[i] == front[i]
  {
  }

  // Automatic ids.

  /** From `s` to `t`, only symbols of type `kind` named in `names` got ids, with the prefix of the type. */
  ghost predicate Extends(s: State, t: State, kind: nat, names: set<string>) {
    && t.ids.Keys == s.ids.Keys && s.taken <= t.taken
    && (forall y | y in s.ids && !(y.kind == kind && y.name in names) :: t.ids[y] == s.ids[y])
    && (forall id | id in t.taken && id !in s.taken :: id / PREFIX == kind)
  }

  ghost predicate AllWaiting(s: State, kind: nat, names: set<string>) {
    forall n | n in names :: Symbol(kind, n) in s.ids && s.ids[Symbol(kind, n)] == INVALID_ID
  }

  ghost predicate AllPrefixed(s: State, kind: nat, names: set<string>) {
    forall n | n in names :: Symbol(kind, n) in s.ids && s.ids[Symbol(kind, n)] / PREFIX == kind
  }

  lemma OneAssigned(s: State, y: Symbol, id: nat)
    requires Sound(s) && y in s.ids && id in Free(s.taken, y.kind)
    ensures Sound(State(s.taken + {id}, s.ids[y := id]))
  {
  }

  /** All symbols of the type get fresh ids, exactly if there are enough. */
  lemma {:induction false} AssignWorks(s: State, kind: nat, names: set<string>, hash: string -> uint32)
    requires Sound(s) && kind < 256 && AllWaiting(s, kind, names) && (kind == 0 ==> names == {})
    ensures var (t, ok) := Assign(s, kind, names, hash);
            && Sound(t) && Extends(s, t, kind, names)
            && (ok <==> |names| <= |Free(s.taken, kind)|)
            && (ok ==> AllPrefixed(t, kind, names))
    decreases names
  {
    if names != {} {
      var n := Least(names);
      ProbeFinds(s.taken, kind, hash(n), 0);
      match Probe(s.taken, kind, hash(n), 0) {
        case None =>
        case Some(id) =>
          var y := Symbol(kind, n);
          var s' := State(s.taken + {id}, s.ids[y := id]);
          OneAssigned(s, y, id);
          FreeAfter(s.taken, kind, id);
          AssignWorks(s', kind, names - {n}, hash);
      }
    }
  }

  ghost predicate Enough(s: State, kind: nat) {
    |Unassigned(s, kind)| <= |Free(s.taken, kind)|
  }

  /** From `s` to `t`, symbols of types below `kind` that had no id got one with the prefix of their type. */
  ghost predicate Completes(s: State, t: State, kind: nat) {
    && t.ids.Keys == s.ids.Keys && s.taken <= t.taken
    && (forall y | y in s.ids && (y.kind >= kind || s.ids[y] != INVALID_ID) :: t.ids[y] == s.ids[y])
    && (forall id | id in t.taken && id !in s.taken :: id / PREFIX < kind)
  }

  /** All symbols get ids, exactly if every type has as many free ids as it has symbols without one. */
  lemma {:induction false} TypesWork(s: State, kind: nat, hash: string -> uint32) returns (t: State, ok: bool)
    requires Sound(s) && kind <= 256
    ensures (t, ok) == AssignTypes(s, kind, hash)
    ensures Sound(t) && Completes(s, t, kind) && (ok <==> EnoughBelow(s, kind)) && (ok ==> PrefixedBelow(s, t, kind))
  {
    t, ok := s, true;
    if kind > 0 {
      var s', ok' := TypesWork(s, kind - 1, hash);
      var enough: bool;
      t, enough := TypeWorks(s', kind - 1, hash);
      ok := ok' && enough;
      TypesStep(s, s', ok', t, enough, kind - 1);
    }
  }

  lemma TypeWorks(s: State, kind: nat, hash: string -> uint32) returns (t: State, ok: bool)
    requires Sound(s) && kind < 256
    ensures (t, ok) == Assign(s, kind, Unassigned(s, kind), hash)
    ensures var names := Unassigned(s, kind);
            Sound(t) && Extends(s, t, kind, names) && (ok <==> |names| <= |Free(s.taken, kind)|) && (ok ==> AllPrefixed(t, kind, names))
  {
    NoneOfTypeZero(s);
    AssignWorks(s, kind, Unassigned(s, kind), hash);
    var next := Assign(s, kind, Unassigned(s, kind), hash);
    t, ok := next.0, next.1;
  }

  lemma TypesStep(s: State, s': State, ok': bool, t: State, ok: bool, kind: nat)
    requires Completes(s, s', kind) && (ok' <==> EnoughBelow(s, kind)) && (ok' ==> PrefixedBelow(s, s', kind))
    requires var names := Unassigned(s', kind);
             Extends(s', t, kind, names) && (ok <==> |names| <= |Free(s'.taken, kind)|) && (ok ==> AllPrefixed(t, kind, names))
    ensures Completes(s, t, kind + 1) && (ok' && ok <==> EnoughBelow(s, kind + 1)) && (ok' && ok ==> PrefixedBelow(s, t, kind + 1))
  {
    LaterTypesWait(s, s', kind);
    CompletesNext(s, s', t, kind);
    assert EnoughBelow(s, kind + 1) <==> EnoughBelow(s, kind) && Enough(s, kind);
    if ok' && ok {
      PrefixedNext(s, s', t, kind);
    }
  }

  lemma NoneOfTypeZero(s: State)
    requires Sound(s)
    ensures Unassigned(s, 0) == {} && Enough(s, 0)
  {
  }

  ghost predicate EnoughBelow(s: State, kind: nat) {
    forall m: nat | m < kind :: Enough(s, m)
  }

  ghost predicate PrefixedBelow(s: State, t: State, kind: nat) {
    t.ids.Keys == s.ids.Keys && forall y | y in s.ids && y.kind < kind && s.ids[y] == INVALID_ID :: t.ids[y] / PREFIX == y.kind
  }

  lemma PrefixedNext(s: State, s': State, t: State, kind: nat)
    requires Completes(s, s', kind) && Extends(s', t, kind, Unassigned(s', kind))
    requires PrefixedBelow(s, s', kind) && AllPrefixed(t, kind, Unassigned(s', kind))
    ensures PrefixedBelow(s, t, kind + 1)
  {
    forall y | y in s.ids && y.kind < kind + 1 && s.ids[y] == INVALID_ID ensures t.ids[y] / PREFIX == y.kind {
      if y.kind == kind {
        assert y.name in Unassigned(s', kind) && y == Symbol(kind, y.name);
      }
    }
  }

  lemma LaterTypesWait(s: State, t: State, kind: nat)
    requires Completes(s, t, kind)
    ensures Unassigned(t, kind) == Unassigned(s, kind) && Free(t.taken, kind) == Free(s.taken, kind)
  {
  }

  lemma CompletesNext(s: State, s': State, t: State, kind: nat)
    requires Completes(s, s', kind) && Extends(s', t, kind, Unassigned(s', kind))
    ensures Completes(s, t, kind + 1)
  {
  }

  // Which ids the symbols get.

  /** The id with the type in its upper 8 bits and the lower 24 bits of the hash of the name, `k` further on. */
  ghost function HashedId(y: Symbol, hash: string -> uint32, k: nat): nat {
    y.kind * PREFIX + (hash(y.name) + k) % PREFIX
  }

  ghost predicate AllInUse(used: set<nat>, y: Symbol, hash: string -> uint32, k: nat) {
    forall j: nat | j < k :: HashedId(y, hash, j) in used
  }

  /** From the hash of the name on, `id` is the first one not in use. */
  ghost predicate IsFirstFree(used: set<nat>, y: Symbol, id: nat, hash: string -> uint32) {
    exists k: nat :: HashedId(y, hash, k) == id && id !in used && AllInUse(used, y, hash, k)
  }

  /** The ids of the symbols of the type of `y` with smaller names. */
  ghost function IdsOfSmaller(ids: map<Symbol, nat>, y: Symbol): set<nat> {
    set z | z in ids && z.kind == y.kind && Less(z.name, y.name) :: ids[z]
  }

  /** If `y` gets an id from `s` to `t`, it is the first one that is neither in use before nor that of a smaller name. */
  ghost predicate GetsFirstFree(s: State, t: State, y: Symbol, hash: string -> uint32) {
    y in s.ids && y in t.ids && s.ids[y] == INVALID_ID && t.ids[y] != INVALID_ID ==>
      IsFirstFree(s.taken + IdsOfSmaller(t.ids, y), y, t.ids[y], hash)
  }

  lemma {:induction false} ProbeIsFirst(taken: set<nat>, y: Symbol, hash: string -> uint32, k: nat)
    requires k <= UINT32 && AllInUse(taken, y, hash, k)
    ensures var r := Probe(taken, y.kind, hash(y.name), k); r.Some? ==> IsFirstFree(taken, y, r.value, hash)
    decreases UINT32 - k
  {
    if k < UINT32 {
      assert HashedId(y, hash, k) == ConstructId(y.kind, hash(y.name) + k);
      if HashedId(y, hash, k) in taken {
        ProbeIsFirst(taken, y, hash, k + 1);
      }
    }
  }

  /** Only ids of the same type matter. */
  lemma FirstFreeOfType(used: set<nat>, used': set<nat>, y: Symbol, id: nat, hash: string -> uint32)
    requires IsFirstFree(used, y, id, hash)
    requires forall i | i / PREFIX == y.kind :: i in used <==> i in used'
    ensures IsFirstFree(used', y, id, hash)
  {
    var k: nat :| HashedId(y, hash, k) == id && id !in used && AllInUse(used, y, hash, k);
    forall j: nat ensures HashedId(y, hash, j) / PREFIX == y.kind {
      assert HashedId(y, hash, j) == ConstructId(y.kind, hash(y.name) + j);
    }
    assert AllInUse(used', y, hash, k);
  }

  /** Symbols that have an id keep it out of reach of the others. */
  lemma SmallerInUse(s: State, t: State, kind: nat, y: Symbol)
    requires Sound(s) && Extends(s, t, kind, Unassigned(s, kind)) && y.kind == kind && IsLeast(Unassigned(s, kind), y.name)
    ensures IdsOfSmaller(t.ids, y) <= s.taken
  {
    forall z | z in t.ids && z.kind == kind && Less(z.name, y.name) ensures t.ids[z] in s.taken {
      LessTotal(z.name, y.name);
      assert z.name !in Unassigned(s, kind);
    }
  }

  lemma AfterFirst(s: State, kind: nat, n: string, id: nat)
    requires n in Unassigned(s, kind) && id != INVALID_ID
    ensures Unassigned(State(s.taken + {id}, s.ids[Symbol(kind, n) := id]), kind) == Unassigned(s, kind) - {n}
  {
  }

  lemma {:induction false} AssignsFirstFree(s: State, kind: nat, hash: string -> uint32, n: string)
    requires Sound(s) && 0 < kind < 256 && n in Unassigned(s, kind)
    ensures GetsFirstFree(s, Assign(s, kind, Unassigned(s, kind), hash).0, Symbol(kind, n), hash)
    decreases Unassigned(s, kind)
  {
    var names := Unassigned(s, kind);
    var first := Least(names);
    var y, y0, t := Symbol(kind, n), Symbol(kind, first), Assign(s, kind, names, hash).0;
    ProbeFinds(s.taken, kind, hash(first), 0);
    match Probe(s.taken, kind, hash(first), 0) {
      case None =>
      case Some(id) =>
        var s' := State(s.taken + {id}, s.ids[y0 := id]);
        OneAssigned(s, y0, id);
        AfterFirst(s, kind, first, id);
        AssignWorks(s', kind, names - {first}, hash);
        if n == first {
          AssignWorks(s, kind, names, hash);
          FirstGets(s, t, y, id, hash);
        } else {
          AssignsFirstFree(s', kind, hash, n);
          LaterGets(s, s', t, y, y0, id, hash);
        }
    }
  }

  lemma FirstGets(s: State, t: State, y: Symbol, id: nat, hash: string -> uint32)
    requires Sound(s) && Extends(s, t, y.kind, Unassigned(s, y.kind)) && IsLeast(Unassigned(s, y.kind), y.name)
    requires Probe(s.taken, y.kind, hash(y.name), 0) == Some(id) && y in t.ids && t.ids[y] == id
    ensures GetsFirstFree(s, t, y, hash)
  {
    ProbeIsFirst(s.taken, y, hash, 0);
    SmallerInUse(s, t, y.kind, y);
    assert s.taken + IdsOfSmaller(t.ids, y) == s.taken;
  }

  lemma LaterGets(s: State, s': State, t: State, y: Symbol, y0: Symbol, id: nat, hash: string -> uint32)
    requires GetsFirstFree(s', t, y, hash) && s' == State(s.taken + {id}, s.ids[y0 := id]) && y != y0
    requires y0 in t.ids && t.ids[y0] == id && y0.kind == y.kind && Less(y0.name, y.name)
    ensures GetsFirstFree(s, t, y, hash)
  {
    assert id in IdsOfSmaller(t.ids, y);
    assert s'.taken + IdsOfSmaller(t.ids, y) == s.taken + IdsOfSmaller(t.ids, y);
  }

  /** Every symbol without an id of its own gets the first free id from the hash of its name on: one that nobody has
      requested, and no symbol of its type with a smaller name has got. */
  lemma {:induction false} TypesAssignFirstFree(s: State, kind: nat, hash: string -> uint32, y: Symbol)
    requires Sound(s) && kind <= 256 && y in s.ids && y.kind < kind
    ensures GetsFirstFree(s, AssignTypes(s, kind, hash).0, y, hash)
  {
    var s', _ := TypesWork(s, kind - 1, hash);
    var t, _ := TypeWorks(s', kind - 1, hash);
    if y.kind < kind - 1 {
      TypesAssignFirstFree(s, kind - 1, hash, y);
      SameSmaller(s', t, y);
    } else if s.ids[y] == INVALID_ID {
      AssignsFirstFree(s', kind - 1, hash, y.name);
      OwnType(s, s', t, y, hash);
    }
  }

  lemma SameSmaller(s': State, t: State, y: Symbol)
    requires t.ids.Keys == s'.ids.Keys && forall z | z in s'.ids && z.kind == y.kind :: t.ids[z] == s'.ids[z]
    ensures IdsOfSmaller(t.ids, y) == IdsOfSmaller(s'.ids, y)
  {
  }

  /** Ids that other types have got in the meantime do not matter. */
  lemma OwnType(s: State, s': State, t: State, y: Symbol, hash: string -> uint32)
    requires Completes(s, s', y.kind) && GetsFirstFree(s', t, y, hash) && y in s.ids && s.ids[y] == INVALID_ID
    ensures GetsFirstFree(s, t, y, hash)
  {
    if y in t.ids && t.ids[y] != INVALID_ID {
      FirstFreeOfType(s'.taken + IdsOfSmaller(t.ids, y), s.taken + IdsOfSmaller(t.ids, y), y, t.ids[y], hash);
    }
  }

  /** A symbol whose hashed id nobody has requested and no other symbol has gets exactly that id. */
  lemma HashedIdIsKept(s: State, hash: string -> uint32, y: Symbol)
    requires Sound(s) && y in s.ids && s.ids[y] == INVALID_ID && HashedId(y, hash, 0) !in s.taken
    requires var ids := AssignTypes(s, 256, hash).0.ids;
             forall z | z in ids && z != y :: ids[z] != HashedId(y, hash, 0)
    ensures var ids := AssignTypes(s, 256, hash).0.ids;
            y in ids && (ids[y] != INVALID_ID ==> ids[y] == HashedId(y, hash, 0))
  {
    var t, _ := TypesWork(s, 256, hash);
    TypesAssignFirstFree(s, 256, hash, y);
    NotOfSmaller(t.ids, y, HashedId(y, hash, 0));
    if t.ids[y] != INVALID_ID {
      FirstOfAll(s.taken + IdsOfSmaller(t.ids, y), y, t.ids[y], hash);
    }
  }

  lemma NotOfSmaller(ids: map<Symbol, nat>, y: Symbol, id: nat)
    requires forall z | z in ids && z != y :: ids[z] != id
    ensures id !in IdsOfSmaller(ids, y)
  {
    LessIrreflexive(y.name);
  }

  lemma FirstOfAll(used: set<nat>, y: Symbol, id: nat, hash: string -> uint32)
    requires IsFirstFree(used, y, id, hash) && HashedId(y, hash, 0) !in used
    ensures id == HashedId(y, hash, 0)
  {
  }

  // The order of the requests.

  ghost function Requested(r: Request): nat {
    if r.id.Some? then r.id.value else INVALID_ID
  }

  /** Two requests that can both be met. */
  ghost predicate Agree(a: Request, b: Request) {
    if a.symbol == b.symbol then Requested(a) == Requested(b)
    else Requested(a) == INVALID_ID || Requested(a) != Requested(b)
  }

  ghost predicate Consistent(rs: seq<Request>) {
    forall a, b | a in rs && b in rs :: Agree(a, b)
  }

  /** The state in which all of `rs` have been met. */
  ghost predicate Met(s: State, rs: seq<Request>) {
    && (forall y | y in s.ids :: exists r :: r in rs && r.symbol == y)
    && (forall r | r in rs :: r.symbol in s.ids && s.ids[r.symbol] == Requested(r))
    && (forall id | id in s.taken && id != INVALID_ID :: exists r :: r in rs && Requested(r) == id)
    && (forall r | r in rs && Requested(r) != INVALID_ID :: Requested(r) in s.taken)
  }

  lemma CollectNext(s: State, rs: seq<Request>, r: Request)
    requires Met(s, rs) && forall a | a in rs :: Agree(a, r)
    ensures Met(AddTo(s, r), rs + [r])
  {
    var t, all := AddTo(s, r), rs + [r];
    forall y | y in t.ids ensures exists d :: d in all && d.symbol == y {
      if y in s.ids {
        var d :| d in rs && d.symbol == y;
        assert d in all;
      } else {
        assert r in all;
      }
    }
    forall id | id in t.taken && id != INVALID_ID ensures exists d :: d in all && Requested(d) == id {
      if id in s.taken {
        var d :| d in rs && Requested(d) == id;
        assert d in all;
      } else {
        assert r in all;
      }
    }
    if r.symbol in s.ids {
      var d :| d in rs && d.symbol == r.symbol;
      assert Agree(d, r);
    }
  }

  lemma {:induction false} CollectConsistent(rs: seq<Request>)
    requires Consistent(rs)
    ensures Met(Collect(rs), rs)
  {
    if rs != [] {
      var front, r := rs[..|rs| - 1], rs[|rs| - 1];
      assert rs == front + [r];
      CollectConsistent(front);
      CollectNext(Collect(front), front, r);
    }
  }

  /** The same ids, and the same ids in use but for the invalid one, which is no symbol's. */
  ghost predicate Alike(s: State, t: State) {
    s.ids == t.ids && forall id | id != INVALID_ID :: id in s.taken <==> id in t.taken
  }

  lemma {:induction false} ProbeAlike(s: State, t: State, kind: nat, source: nat, k: nat)
    requires Alike(s, t) && kind > 0 && k <= UINT32
    ensures Probe(s.taken, kind, source, k) == Probe(t.taken, kind, source, k)
    decreases UINT32 - k
  {
    if k < UINT32 && ConstructId(kind, source + k) in s.taken {
      ProbeAlike(s, t, kind, source, k + 1);
    }
  }

  lemma {:induction false} AssignAlike(s: State, t: State, kind: nat, names: set<string>, hash: string -> uint32)
    requires Alike(s, t) && (kind > 0 || names == {})
    ensures var (s', ok) := Assign(s, kind, names, hash);
            var (t', ok') := Assign(t, kind, names, hash);
            Alike(s', t') && ok == ok'
    decreases names
  {
    if names != {} {
      var n := Least(names);
      ProbeAlike(s, t, kind, hash(n), 0);
      match Probe(s.taken, kind, hash(n), 0) {
        case None =>
        case Some(id) =>
          var y := Symbol(kind, n);
          AssignAlike(State(s.taken + {id}, s.ids[y := id]), State(t.taken + {id}, t.ids[y := id]), kind, names - {n}, hash);
      }
    }
  }

  lemma {:induction false} TypesAlike(s: State, t: State, kind: nat, hash: string -> uint32)
    requires Alike(s, t) && Sound(s) && kind <= 256
    ensures var (s', ok) := AssignTypes(s, kind, hash);
            var (t', ok') := AssignTypes(t, kind, hash);
            Alike(s', t') && ok == ok'
  {
    if kind > 0 {
      TypesAlike(s, t, kind - 1, hash);
      var s', ok := TypesWork(s, kind - 1, hash);
      var t' := AssignTypes(t, kind - 1, hash).0;
      NoneOfTypeZero(s');
      assert Unassigned(s', kind - 1) == Unassigned(t', kind - 1);
      AssignAlike(s', t', kind - 1, Unassigned(s', kind - 1), hash);
    }
  }

  /** The ids of all symbols in the end. */
  ghost function FinalIds(rs: seq<Request>, hash: string -> uint32): map<Symbol, nat> {
    AssignTypes(Collect(rs), 256, hash).0.ids
  }

  ghost predicate AreRequests(rs: seq<Request>) {
    forall r | r in rs :: IsRequest(r)
  }

  /** Consistent requests give the same ids, before and after the other ids are computed, and the same
      errors then, in every order and however often they are repeated. */
  lemma OrderIrrelevant(rs: seq<Request>, rs': seq<Request>, hash: string -> uint32)
    requires AreRequests(rs) && Consistent(rs) && forall r :: r in rs <==> r in rs'
    ensures Collect(rs).ids == Collect(rs').ids && FinalIds(rs, hash) == FinalIds(rs', hash)
    ensures var (s, ok) := AssignTypes(Collect(rs), 256, hash);
            var (s', ok') := AssignTypes(Collect(rs'), 256, hash);
            Alike(s, s') && ok == ok'
  {
    CollectConsistent(rs);
    CollectConsistent(rs');
    var s, s' := Collect(rs), Collect(rs');
    forall y | y in s.ids ensures y in s'.ids && s.ids[y] == s'.ids[y] {
      var r :| r in rs && r.symbol == y;
    }
    forall y | y in s'.ids ensures y in s.ids {
      var r :| r in rs' && r.symbol == y;
    }
    forall id | id in s.taken && id != INVALID_ID ensures id in s'.taken {
      var r :| r in rs && Requested(r) == id;
    }
    forall id | id in s'.taken && id != INVALID_ID ensures id in s.taken {
      var r :| r in rs' && Requested(r) == id;
    }
    assert s.ids == s'.ids;
    CollectSound(rs);
    TypesAlike(s, s', 256, hash);
  }

  ghost predicate Reordered(rs: seq<Request>, rs': seq<Request>) {
    multiset(rs) == multiset(rs')
  }

  /** The ids after the requests, before any other id is computed, are the same in every order exactly
      if no two requests contradict each other. */
  lemma OrderMattersUnless(rs: seq<Request>)
    requires AreRequests(rs)
    ensures (forall rs' | Reordered(rs, rs') :: Collect(rs').ids == Collect(rs).ids) <==> Consistent(rs)
  {
    if Consistent(rs) {
      forall rs' | Reordered(rs, rs') ensures Collect(rs').ids == Collect(rs).ids {
        SameRequests(rs, rs');
        OrderIrrelevant(rs, rs', _ => 0);
      }
    } else {
      var a, b, rest := Contradicting(rs);
      CollectTwo(a, b, rest);
      CollectTwo(b, a, rest);
    }
  }

  /** No symbol is requested both with a valid id and without one. */
  ghost predicate Settled(rs: seq<Request>) {
    forall a, b | a in rs && b in rs && a.symbol == b.symbol :: Requested(a) == INVALID_ID <==> Requested(b) == INVALID_ID
  }

  /** The same of the ids in the end; those of symbols requested both with and without an id depend on the hash. */
  lemma FinalOrderMattersUnless(rs: seq<Request>, hash: string -> uint32)
    requires AreRequests(rs) && Settled(rs)
    ensures (forall rs' | Reordered(rs, rs') :: FinalIds(rs', hash) == FinalIds(rs, hash)) <==> Consistent(rs)
  {
    if Consistent(rs) {
      forall rs' | Reordered(rs, rs') ensures FinalIds(rs', hash) == FinalIds(rs, hash) {
        SameRequests(rs, rs');
        OrderIrrelevant(rs, rs', hash);
      }
    } else {
      var a, b, rest := Contradicting(rs);
      FinalOfTwo(rs, a, b, rest, hash);
    }
  }

  lemma FinalOfTwo(rs: seq<Request>, a: Request, b: Request, rest: seq<Request>, hash: string -> uint32)
    requires AreRequests(rs) && Settled(rs) && a in rs && b in rs && !Agree(a, b)
    requires Reordered(rs, [a, b] + rest) && Reordered(rs, [b, a] + rest)
    ensures FinalIds([a, b] + rest, hash) != FinalIds([b, a] + rest, hash)
  {
    CollectTwo(a, b, rest);
    CollectTwo(b, a, rest);
    SameRequests(rs, [a, b] + rest);
    SameRequests(rs, [b, a] + rest);
    CollectSound([a, b] + rest);
    CollectSound([b, a] + rest);
    var s, _ := TypesWork(Collect([a, b] + rest), 256, hash);
    var t, _ := TypesWork(Collect([b, a] + rest), 256, hash);
    assert s.ids[a.symbol] == Requested(a) && t.ids[b.symbol] == Requested(b);
  }

  lemma SameRequests(rs: seq<Request>, rs': seq<Request>)
    requires Reordered(rs, rs')
    ensures forall r :: r in rs <==> r in rs'
  {
    forall r ensures r in rs <==> r in rs' {
      assert r in multiset(rs) <==> r in multiset(rs');
    }
  }

  /** Two requests that contradict each other can both come first. */
  lemma Contradicting(rs: seq<Request>) returns (a: Request, b: Request, rest: seq<Request>)
    requires !Consistent(rs)
    ensures a in rs && b in rs && !Agree(a, b)
    ensures Reordered(rs, [a, b] + rest) && Reordered(rs, [b, a] + rest)
  {
    a, b :| a in rs && b in rs && !Agree(a, b);
    var i :| 0 <= i < |rs| && rs[i] == a;
    var j :| 0 <= j < |rs| && rs[j] == b;
    rest := if i < j then Without(rs, i, j) else Without(rs, j, i);
    if i < j {
      TwoInFront(rs, i, j);
    } else {
      TwoInFront(rs, j, i);
    }
  }

  ghost function Without(rs: seq<Request>, i: nat, j: nat): seq<Request>
    requires i < j < |rs|
  {
    rs[..i] + rs[i + 1..j] + rs[j + 1..]
  }

  lemma {:induction false} TwoInFront(rs: seq<Request>, i: nat, j: nat)
    requires i < j < |rs|
    ensures Reordered(rs, [rs[i], rs[j]] + Without(rs, i, j)) && Reordered(rs, [rs[j], rs[i]] + Without(rs, i, j))
  {
    var x, y, z := rs[..i], rs[i + 1..j], rs[j + 1..];
    assert rs == x + [rs[i]] + y + [rs[j]] + z;
    Exchanged(x, rs[i], y, rs[j], z);
  }

  lemma {:induction false} Exchanged(x: seq<Request>, a: Request, y: seq<Request>, b: Request, z: seq<Request>)
    ensures Reordered(x + [a] + y + [b] + z, [a, b] + (x + y + z)) && Reordered(x + [a] + y + [b] + z, [b, a] + (x + y + z))
  {
    assert [a, b] == [a] + [b] && [b, a] == [b] + [a];
  }

  lemma {:induction false} CollectMore(rs: seq<Request>, more: seq<Request>)
    ensures forall y | y in Collect(rs).ids :: y in Collect(rs + more).ids && Collect(rs + more).ids[y] == Collect(rs).ids[y]
    decreases |more|
  {
    if more == [] {
      assert rs + more == rs;
    } else {
      CollectMore(rs, more[..|more| - 1]);
      assert (rs + more)[..|rs + more| - 1] == rs + more[..|more| - 1];
    }
  }

  /** The first of two requests is met, and so is the second unless they contradict each other. */
  lemma CollectTwo(a: Request, b: Request, rest: seq<Request>)
    ensures var s := Collect([a, b] + rest);
            && a.symbol in s.ids && s.ids[a.symbol] == Requested(a)
            && b.symbol in s.ids && (a.symbol != b.symbol ==> s.ids[b.symbol] == if Agree(a, b) then Requested(b) else INVALID_ID)
  {
    assert [a, b][..1] == [a] && [a][..0] == [];
    assert Collect([a]) == AddTo(Collect([]), a);
    CollectMore([a, b], rest);
  }
}
