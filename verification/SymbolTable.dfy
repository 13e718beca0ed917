/** `P4RuntimeSymbolTable`. */
module SymbolTable {
  import opened NameOrder
  import opened SymbolIds
  import opened Wrappers

  /** The id that an `@id` annotation stands for: the prefix of the type is added if it has none. */
  function ExternalId(kind: nat, annotation: Option<uint32>): (id: Option<uint32>)
    requires 0 < kind < 256
    ensures id.Some? <==> annotation.Some? && annotation.value / PREFIX in {0, kind}
    ensures id.Some? ==> id.value / PREFIX == kind && id.value % PREFIX == annotation.value % PREFIX
  {
    if annotation.None? then None
    else if annotation.value / PREFIX != 0 && annotation.value / PREFIX != kind then None
    else Some(kind * PREFIX + annotation.value % PREFIX)
  }

  class P4RuntimeSymbolTable {
    const hash: string -> uint32
    var assignedIds: set<nat>
    var symbolTables: map<Symbol, nat>
    var errors: nat

    ghost function State(): State
      reads this
    {
      SymbolIds.State.State(assignedIds, symbolTables)
    }

    constructor (hash: string -> uint32)
      ensures State() == Collect([]) && errors == 0 && this.hash == hash
    {
      this.hash := hash;
      assignedIds, symbolTables, errors := {}, map[], 0;
    }

    method TryToAssignId(id: Option<nat>) returns (r: nat)
      modifies this`assignedIds, this`errors
      ensures r == InitialId(old(assignedIds), id)
      ensures assignedIds == old(assignedIds) + if id.Some? then {id.value} else {}
      ensures errors == old(errors) + if id.Some? && id.value in old(assignedIds) then 1 else 0
    {
      if id == None {
        return INVALID_ID;
      }
      if id.value in assignedIds {
        errors := errors + 1;
        return INVALID_ID;
      }
      assignedIds := assignedIds + {id.value};
      return id.value;
    }

    method Add(r: Request)
      modifies this`assignedIds, this`symbolTables, this`errors
      ensures State() == AddTo(old(State()), r)
      ensures errors == old(errors) +
        if r.symbol !in old(symbolTables) && r.id.Some? && r.id.value in old(assignedIds) then 1 else 0
    {
      if r.symbol in symbolTables {
        return;
      }
      var id := TryToAssignId(r.id);
      symbolTables := symbolTables[r.symbol := id];
    }

    /** Linear probing over the 32-bit values from `sourceValue` on. */
    method ProbeForId(kind: nat, sourceValue: uint32) returns (r: Option<nat>)
      ensures r == Probe(assignedIds, kind, sourceValue, 0)
      ensures if r.Some? then r.value in Free(assignedIds, kind) else Free(assignedIds, kind) == {}
    {
      r := TryFrom(kind, sourceValue);
      ProbeFinds(assignedIds, kind, sourceValue, 0);
    }

    /** The loop over the values. */
    method TryFrom(kind: nat, sourceValue: uint32) returns (r: Option<nat>)
      ensures r == Probe(assignedIds, kind, sourceValue, 0)
    {
      var value: uint32 := sourceValue;
      ghost var k: nat := 0;
      while ConstructId(kind, value) in assignedIds
        invariant AtStep(sourceValue, value, k)
        invariant forall j: nat | j < k :: Tried(assignedIds, kind, sourceValue, j)
        decreases UINT32 - k
      {
        NextValue(kind, sourceValue, value, k);
        k := k + 1;
        value := (value + 1) % UINT32;
        if value == sourceValue {
          ProbeSkips(assignedIds, kind, sourceValue, 0, k);
          return None;
        }
      }
      NextValue(kind, sourceValue, value, k);
      ProbeSkips(assignedIds, kind, sourceValue, 0, k);
      return Some(ConstructId(kind, value));
    }

    /** Gives ids to the symbols of one type that have none, by name, until there is none left. */
    method ComputeIdsForSymbols(kind: nat)
      requires 0 < kind < 256
      modifies this`assignedIds, this`symbolTables, this`errors
      ensures var (t, ok) := Assign(old(State()), kind, Unassigned(old(State()), kind), hash);
              State() == t && errors == old(errors) + if ok then 0 else 1
    {
      var names := set y | y in symbolTables && y.kind == kind && symbolTables[y] == INVALID_ID :: y.name;
      assert names == Unassigned(State(), kind);
      while names != {}
        invariant errors == old(errors)
        invariant Assign(State(), kind, names, hash) == Assign(old(State()), kind, Unassigned(old(State()), kind), hash)
        decreases names
      {
        LeastIsThere(names);
        var name :| name in names && forall m {:trigger Less(name, m)} | m in names && m != name :: Less(name, m);
        LeastUnique(names, name, Least(names));
        var nameId := hash(name);
        var id := ProbeForId(kind, nameId);
        if id == None {
          errors := errors + 1;
          return;
        }
        assignedIds := assignedIds + {id.value};
        symbolTables := symbolTables[Symbol(kind, name) := id.value];
        names := names - {name};
      }
    }

    /** Collects the symbols, then computes the ids type by type. */
    static method Create(requests: seq<Request>, hash: string -> uint32) returns (table: P4RuntimeSymbolTable, ghost reported: nat)
      requires forall r | r in requests :: IsRequest(r)
      ensures fresh(table) && reported == |ClashesBefore(requests, |requests|)| <= table.errors
      ensures table.State() == AssignTypes(Collect(requests), 256, hash).0
      ensures var s := Collect(requests);
              && Sound(table.State()) && Completes(s, table.State(), 256)
              && (table.errors == reported <==> EnoughBelow(s, 256))
              && (table.errors == reported ==> AllValid(s, table.State()))
              && forall y | y in s.ids :: GetsFirstFree(s, table.State(), y, hash)
    {
      table := new P4RuntimeSymbolTable(hash);
      table.AddAll(requests);
      CollectSound(requests);
      reported := table.errors;
      table.ComputeIds();
      ghost var s := Collect(requests);
      ghost var _, _ := TypesWork(s, 256, hash);
      forall y | y in s.ids ensures GetsFirstFree(s, table.State(), y, hash) {
        TypesAssignFirstFree(s, 256, hash, y);
      }
    }

    /** The first phase: the symbols are collected. */
    method AddAll(requests: seq<Request>)
      requires State() == Collect([])
      modifies this`assignedIds, this`symbolTables, this`errors
      ensures State() == Collect(requests) && errors == old(errors) + |ClashesBefore(requests, |requests|)|
    {
      for i := 0 to |requests|
        invariant State() == Collect(requests[..i]) && errors == old(errors) + |ClashesBefore(requests, i)|
      {
        CollectStep(requests, i);
        Add(requests[i]);
      }
      assert requests[..|requests|] == requests;
    }

    /** The second phase: ids are computed type by type. */
    method ComputeIds()
      requires Sound(State())
      modifies this`assignedIds, this`symbolTables, this`errors
      ensures errors >= old(errors)
      ensures var (s, ok) := AssignTypes(old(State()), 256, hash);
              State() == s && (errors == old(errors) <==> ok)
    {
      ghost var s := State();
      NoneOfTypeZero(s);
      assert AssignTypes(s, 1, hash) == (s, true);
      for kind := 1 to 256
        invariant errors >= old(errors)
        invariant State() == AssignTypes(s, kind, hash).0
        invariant errors == old(errors) <==> AssignTypes(s, kind, hash).1
      {
        ComputeIdsForSymbols(kind);
      }
    }
  }

  /** Every symbol has an id of its own; those without an accepted user id have one with their prefix. */
  ghost predicate AllValid(collected: State, s: State) {
    && s.ids.Keys == collected.ids.Keys
    && (forall y | y in s.ids :: s.ids[y] != INVALID_ID && (collected.ids[y] == INVALID_ID ==> s.ids[y] / PREFIX == y.kind))
    && (forall y, z | y in s.ids && z in s.ids && y != z :: s.ids[y] != s.ids[z])
  }

  /** The 32-bit value after `k` steps from `source`. */
  ghost predicate AtStep(source: uint32, value: uint32, k: nat) {
    k < UINT32 && value == (source + k) % UINT32
  }

  lemma NextValue(kind: nat, source: uint32, value: uint32, k: nat)
    requires AtStep(source, value, k)
    ensures ConstructId(kind, value) == ConstructId(kind, source + k)
    ensures (value + 1) % UINT32 == source <==> k + 1 == UINT32
    ensures k + 1 < UINT32 ==> AtStep(source, (value + 1) % UINT32, k + 1)
  {
    var n := source + k;
    assert UINT32 == 256 * PREFIX;
    assert n == UINT32 * (n / UINT32) + value;
    assert (value + 1) % UINT32 == (n + 1) % UINT32;
  }
}
