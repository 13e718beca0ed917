/** `ControlFlowVisitor` with `joinFlows`: an `Inspector` that holds back every join point
    until all edges into it have been traversed, and merges the states that arrive there. */
module JoinPass {
  import opened IrGraph
  import opened Collections
  import opened EdgeCount
  import SetupPass
  import opened Wrappers
  import FlowLog

  /** An element of `flow_join_points`: the accumulator, which holds `Fold(flowMerge, s)` after the arrivals `s`,
      and the edges still to come. */
  datatype JoinPoint<S> = JoinPoint(first: Option<S>, upstream: int)

  /** The state in which a node is visited once all of `s` have arrived: the last one takes in the others. */
  ghost function MergeAll<S>(merge: (S, S) -> S, s: seq<S>): S
    requires s != []
  {
    if |s| == 1 then s[0] else merge(s[|s| - 1], Fold(merge, s[..|s| - 1]))
  }

  ghost predicate Commutes<S>(merge: (S, S) -> S, a: S, b: S) {
    merge(a, b) == merge(b, a)
  }

  ghost predicate Associates<S>(merge: (S, S) -> S, a: S, b: S, c: S) {
    merge(merge(a, b), c) == merge(a, merge(b, c))
  }

  /** `merge` joins: the order of the arrivals does not matter, nor does a state arriving twice. */
  ghost predicate IsJoin<S(!new)>(merge: (S, S) -> S) {
    && (forall a, b {:trigger Commutes(merge, a, b)} :: Commutes(merge, a, b))
    && (forall a, b, c {:trigger Associates(merge, a, b, c)} :: Associates(merge, a, b, c))
    && (forall a :: Below(merge, a, a))
  }

  ghost predicate Below<S>(merge: (S, S) -> S, a: S, b: S) {
    merge(a, b) == b
  }

  /** The state a node is visited in is the least upper bound of the states that arrived. */
  lemma MergeAllIsJoin<S(!new)>(merge: (S, S) -> S, s: seq<S>, bound: S)
    requires s != [] && IsJoin(merge)
    ensures forall i | 0 <= i < |s| :: Below(merge, s[i], MergeAll(merge, s))
    ensures (forall i | 0 <= i < |s| :: Below(merge, s[i], bound)) ==> Below(merge, MergeAll(merge, s), bound)
  {
    FoldIsJoin(merge, s, bound);
    if |s| > 1 {
      assert Commutes(merge, s[|s| - 1], Fold(merge, s[..|s| - 1]));
    }
  }

  lemma {:induction false} FoldIsJoin<S(!new)>(merge: (S, S) -> S, s: seq<S>, bound: S)
    requires s != [] && IsJoin(merge)
    ensures forall i | 0 <= i < |s| :: Below(merge, s[i], Fold(merge, s))
    ensures (forall i | 0 <= i < |s| :: Below(merge, s[i], bound)) ==> Below(merge, Fold(merge, s), bound)
  {
    if |s| == 1 {
      assert Below(merge, s[0], s[0]);
    } else {
      var init, last := s[..|s| - 1], s[|s| - 1];
      FoldIsJoin(merge, init, bound);
      var f := Fold(merge, init);
      forall i | 0 <= i < |s| ensures Below(merge, s[i], merge(f, last)) {
        if i < |init| {
          assert Below(merge, init[i], f) && Associates(merge, s[i], f, last);
        } else {
          assert Commutes(merge, f, last) && Associates(merge, last, last, f) && Below(merge, last, last);
        }
      }
      if forall i | 0 <= i < |s| :: Below(merge, s[i], bound) {
        assert forall i | 0 <= i < |init| :: Below(merge, init[i], bound);
        assert Below(merge, last, bound) && Associates(merge, f, last, bound);
      }
    }
  }

  /** What the first pass has found out: the reachable nodes, a topological order of them,
      and for each of them the number of edges into it, the initial call included. */
  datatype Plan = Plan(order: seq<nat>, rank: map<nat, nat>, full: map<nat, nat>, need: map<nat, nat>)

  ghost predicate IsPlan<L>(g: Graph<L>, root: Ptr, p: Plan) {
    forall z {:trigger OpenPlan(p, z)} | OpenPlan(p, z) ::
      && IsProgress(g, p.order, p.full) && NoDuplicates(p.order)
      && (forall k :: k in p.order <==> k in p.need)
      && p.rank.Keys == p.need.Keys
      && (forall k | k in p.order :: At(p.full, k) == |g[k].children|)
      && SetupPass.ChildrenFirst(g, p.rank)
      && (forall k | k in p.order :: p.need[k] == SetupPass.Arrivals(g, root, p.order, p.full, k) > 0)
      && (root.To? ==> root.id in p.need)
  }

  /** Mentioned in a proof to look inside `IsPlan`; always true. */
  ghost predicate OpenPlan(p: Plan, z: nat) {
    true
  }

  ghost function ArrivedAt<S>(arrived: map<nat, seq<S>>, k: nat): seq<S> {
    if k in arrived then arrived[k] else []
  }

  /** The tables of the pass and its history: the states that arrived at each node, the state
      each node was visited in, and the order of the visits. */
  datatype Snapshot<S> = Snapshot(visited: map<nat, bool>, joinPoints: map<nat, JoinPoint<S>>, prog: map<nat, nat>,
                                  arrived: map<nat, seq<S>>, entry: map<nat, S>, visits: seq<nat>, place: map<nat, nat>)

  /** Mentioned in a proof to look inside `Inv`; always true. */
  ghost predicate Open<S>(s: Snapshot<S>, z: nat) {
    true
  }

  /** Nodes are visited once each, and after every node with an edge to them. */
  ghost predicate Topological<L, S>(g: Graph<L>, p: Plan, s: Snapshot<S>) {
    && (forall k {:trigger s.place[k]} | k in s.place :: s.place[k] < |s.visits| && s.visits[s.place[k]] == k)
    && (forall i {:trigger s.visits[i]} | 0 <= i < |s.visits| :: s.visits[i] in s.place && s.place[s.visits[i]] == i)
    && (forall a, b {:trigger Edge(g, a, b)} | a in p.need && Edge(g, a, b) && b in s.place ::
          a in s.place && s.place[a] < s.place[b])
  }

  ghost predicate Shape<L, S>(g: Graph<L>, p: Plan, s: Snapshot<S>) {
    && IsProgress(g, p.order, s.prog)
    && s.prog.Keys <= s.visited.Keys <= p.need.Keys && s.place.Keys == s.visited.Keys == s.entry.Keys
    && (forall k | k in s.visited && s.visited[k] :: k in g && At(s.prog, k) == |g[k].children|)
    && Topological(g, p, s)
  }

  /** The table entry of node `k` after its arrivals so far. */
  ghost predicate NodeOk<S>(merge: (S, S) -> S, p: Plan, s: Snapshot<S>, k: nat) {
    var a := ArrivedAt(s.arrived, k);
    && (k in s.visited <==> k in p.need && |a| == p.need[k])
    && (k in s.visited ==> a != [] && k in s.entry && s.entry[k] == MergeAll(merge, a))
    && (k in s.joinPoints <==> k in p.need && p.need[k] > 1)
    && (k in s.joinPoints ==>
          && s.joinPoints[k].upstream == p.need[k] - 1 - |a|
          && (a == [] ==> s.joinPoints[k].first == None)
          && (0 < |a| < p.need[k] ==> s.joinPoints[k].first == Some(Fold(merge, a))))
  }

  ghost predicate Counted<L, S>(g: Graph<L>, root: Ptr, p: Plan, s: Snapshot<S>, pending: Ptr)
    requires IsProgress(g, p.order, s.prog)
  {
    forall k {:trigger ArrivedAt(s.arrived, k)} ::
      |ArrivedAt(s.arrived, k)| + SetupPass.Here(pending, k) == SetupPass.Arrivals(g, root, p.order, s.prog, k)
  }

  ghost predicate Inv<L, S>(g: Graph<L>, root: Ptr, merge: (S, S) -> S, p: Plan, s: Snapshot<S>, pending: Ptr) {
    forall z {:trigger Open(s, z)} | Open(s, z) ::
      Shape(g, p, s) && Counted(g, root, p, s, pending) && NodesOk(merge, p, s)
  }

  ghost predicate NodesOk<S>(merge: (S, S) -> S, p: Plan, s: Snapshot<S>) {
    forall k {:trigger NodeOk(merge, p, s, k)} :: NodeOk(merge, p, s, k)
  }

  lemma Close<L, S>(g: Graph<L>, root: Ptr, merge: (S, S) -> S, p: Plan, s: Snapshot<S>, pending: Ptr)
    requires Shape(g, p, s) && Counted(g, root, p, s, pending) && NodesOk(merge, p, s)
    ensures Inv(g, root, merge, p, s, pending)
  {
  }

  /** An edge of the plan leads to a node that is still waiting for it. */
  lemma StillWaiting<L, S>(g: Graph<L>, root: Ptr, merge: (S, S) -> S, p: Plan, s: Snapshot<S>, n: nat)
    requires Inv(g, root, merge, p, s, To(n)) && IsPlan(g, root, p) && n in p.need
    ensures |ArrivedAt(s.arrived, n)| < p.need[n]
    ensures n !in s.visited && NodeOk(merge, p, s, n)
  {
    assert OpenPlan(p, 0);
    assert Open(s, 0);
    assert NodeOk(merge, p, s, n);
    assert n in p.order;
    FollowedMono(g, p.order, s.prog, p.full, n);
    assert |ArrivedAt(s.arrived, n)| + SetupPass.Here(To(n), n) == SetupPass.Arrivals(g, root, p.order, s.prog, n);
  }

  /** The tables after one more arrival, before the node is visited if it was the last. */
  ghost function Arrive<S>(merge: (S, S) -> S, p: Plan, s: Snapshot<S>, n: nat, state: S): Snapshot<S>
    requires n in p.need
  {
    var a := ArrivedAt(s.arrived, n) + [state];
    s.(arrived := s.arrived[n := a],
       joinPoints := if p.need[n] == 1 then s.joinPoints
                     else s.joinPoints[n := JoinPoint(
                       if |a| < p.need[n] then Some(Fold(merge, a))
                       else if n in s.joinPoints then s.joinPoints[n].first else None,
                       p.need[n] - 1 - |a|)])
  }

  /** ... and after the start of the visit. */
  ghost function Enter<S>(s: Snapshot<S>, n: nat, state: S): Snapshot<S> {
    s.(visited := s.visited[n := false], entry := s.entry[n := state],
       visits := s.visits + [n], place := s.place[n := |s.visits|])
  }

  lemma CountedAfterArrival<L, S>(g: Graph<L>, root: Ptr, merge: (S, S) -> S, p: Plan, s: Snapshot<S>, n: nat, state: S, s': Snapshot<S>)
    requires n in p.need && IsProgress(g, p.order, s.prog) && Counted(g, root, p, s, To(n))
    requires s'.prog == s.prog && s'.arrived == s.arrived[n := ArrivedAt(s.arrived, n) + [state]]
    ensures Counted(g, root, p, s', Null)
  {
    forall k ensures |ArrivedAt(s'.arrived, k)| + SetupPass.Here(Null, k) == SetupPass.Arrivals(g, root, p.order, s.prog, k) {
      assert |ArrivedAt(s.arrived, k)| + SetupPass.Here(To(n), k) == SetupPass.Arrivals(g, root, p.order, s.prog, k);
    }
  }

  lemma NodesAfterDeferral<S>(merge: (S, S) -> S, p: Plan, s: Snapshot<S>, n: nat, state: S, k: nat)
    requires n in p.need && |ArrivedAt(s.arrived, n)| + 1 < p.need[n] && n !in s.visited
    requires NodeOk(merge, p, s, k)
    ensures NodeOk(merge, p, Arrive(merge, p, s, n, state), k)
  {
  }

  lemma NodesAfterEntry<S>(merge: (S, S) -> S, p: Plan, s: Snapshot<S>, n: nat, state: S, k: nat)
    requires n in p.need && |ArrivedAt(s.arrived, n)| + 1 == p.need[n]
    requires NodeOk(merge, p, s, k)
    ensures NodeOk(merge, p, Enter(Arrive(merge, p, s, n, state), n, MergeAll(merge, ArrivedAt(s.arrived, n) + [state])), k)
  {
  }

  lemma AfterDeferral<L, S>(g: Graph<L>, root: Ptr, merge: (S, S) -> S, p: Plan, s: Snapshot<S>, n: nat, state: S)
    requires Inv(g, root, merge, p, s, To(n))
    requires n in p.need && |ArrivedAt(s.arrived, n)| + 1 < p.need[n] && n !in s.visited
    ensures Inv(g, root, merge, p, Arrive(merge, p, s, n, state), Null)
  {
    assert Open(s, 0);
    var s' := Arrive(merge, p, s, n, state);
    CountedAfterArrival(g, root, merge, p, s, n, state, s');
    assert NodesOk(merge, p, s') by {
      forall k ensures NodeOk(merge, p, s', k) {
        NodesAfterDeferral(merge, p, s, n, state, k);
      }
    }
    Close(g, root, merge, p, s', Null);
  }

  lemma AfterEntry<L, S>(g: Graph<L>, root: Ptr, merge: (S, S) -> S, p: Plan, s: Snapshot<S>, n: nat, state: S)
    requires Inv(g, root, merge, p, s, To(n))
    requires n in p.need && |ArrivedAt(s.arrived, n)| + 1 == p.need[n] && n !in s.visited
    requires forall a | a in p.need && Edge(g, a, n) :: a in s.visited
    ensures Inv(g, root, merge, p, Enter(Arrive(merge, p, s, n, state), n, MergeAll(merge, ArrivedAt(s.arrived, n) + [state])), Null)
    ensures At(s.prog, n) == 0
  {
    assert Open(s, 0);
    var s' := Enter(Arrive(merge, p, s, n, state), n, MergeAll(merge, ArrivedAt(s.arrived, n) + [state]));
    CountedAfterArrival(g, root, merge, p, s, n, state, s');
    NodesOkAfterEntry(merge, p, s, n, state);
    EntryKeepsShape(g, p, s, s', n);
    Close(g, root, merge, p, s', Null);
  }

  lemma EntryKeepsShape<L, S>(g: Graph<L>, p: Plan, s: Snapshot<S>, s': Snapshot<S>, n: nat)
    requires Shape(g, p, s) && n in p.need && n !in s.visited
    requires forall a | a in p.need && Edge(g, a, n) :: a in s.visited
    requires s'.prog == s.prog && s'.visited == s.visited[n := false] && s'.entry.Keys == s.entry.Keys + {n}
    requires s'.visits == s.visits + [n] && s'.place == s.place[n := |s.visits|]
    ensures Shape(g, p, s') && At(s.prog, n) == 0
  {
    TopologicalAfterEntry(g, p, s, s', n);
    ShapeAfterEntry(g, p, s, s', n);
  }

  /** When the last edge into `n` has been followed, every node with an edge to `n` has been visited. */
  lemma LastArrival<L, S>(g: Graph<L>, root: Ptr, merge: (S, S) -> S, p: Plan, s: Snapshot<S>, n: nat)
    requires Inv(g, root, merge, p, s, To(n)) && IsPlan(g, root, p)
    requires n in p.need && |ArrivedAt(s.arrived, n)| + 1 == p.need[n]
    ensures forall a | a in p.need && Edge(g, a, n) :: a in s.visited
  {
    assert Open(s, 0);
    forall a | a in p.need && Edge(g, a, n) ensures a in s.visited {
      LastEdge(g, root, p, s, n, a);
    }
  }

  lemma NodesOkAfterEntry<S>(merge: (S, S) -> S, p: Plan, s: Snapshot<S>, n: nat, state: S)
    requires n in p.need && |ArrivedAt(s.arrived, n)| + 1 == p.need[n]
    requires NodesOk(merge, p, s)
    ensures NodesOk(merge, p, Enter(Arrive(merge, p, s, n, state), n, MergeAll(merge, ArrivedAt(s.arrived, n) + [state])))
  {
    forall k ensures NodeOk(merge, p, Enter(Arrive(merge, p, s, n, state), n, MergeAll(merge, ArrivedAt(s.arrived, n) + [state])), k) {
      NodesAfterEntry(merge, p, s, n, state, k);
    }
  }

  lemma ShapeAfterEntry<L, S>(g: Graph<L>, p: Plan, s: Snapshot<S>, s': Snapshot<S>, n: nat)
    requires Shape(g, p, s) && n in p.need && n !in s.visited
    requires s'.prog == s.prog && s'.visited == s.visited[n := false]
    requires s'.place.Keys == s'.visited.Keys == s'.entry.Keys && Topological(g, p, s')
    ensures Shape(g, p, s')
  {
  }

  /** When the last edge into `n` has been followed, every node with an edge to `n` has been visited. */
  lemma LastEdge<L, S>(g: Graph<L>, root: Ptr, p: Plan, s: Snapshot<S>, n: nat, a: nat)
    requires IsPlan(g, root, p) && IsProgress(g, p.order, s.prog)
    requires n in p.need && a in p.need && Edge(g, a, n)
    requires |ArrivedAt(s.arrived, n)| + 1 == p.need[n] && Counted(g, root, p, s, To(n))
    ensures a in s.prog
  {
    assert OpenPlan(p, 0);
    assert a in p.order && n in p.order;
    assert |ArrivedAt(s.arrived, n)| + SetupPass.Here(To(n), n) == SetupPass.Arrivals(g, root, p.order, s.prog, n);
    AllFollowed(g, p.order, s.prog, p.full, n, a);
  }

  lemma TopologicalAfterEntry<L, S>(g: Graph<L>, p: Plan, s: Snapshot<S>, s': Snapshot<S>, n: nat)
    requires Topological(g, p, s) && n !in s.place
    requires forall a | a in p.need && Edge(g, a, n) :: a in s.place
    requires s'.visits == s.visits + [n] && s'.place == s.place[n := |s.visits|]
    ensures Topological(g, p, s')
  {
    forall a, b | a in p.need && Edge(g, a, b) && b in s'.place
      ensures a in s'.place && s'.place[a] < s'.place[b]
    {
      if b != n {
        assert a in s.place && s.place[a] < s.place[b];
      }
    }
  }

  lemma PlanChild<L>(g: Graph<L>, root: Ptr, p: Plan, n: nat, i: nat)
    requires IsPlan(g, root, p) && n in p.need
    ensures n in p.order && NoDuplicates(p.order) && n in g
    ensures i < |g[n].children| && g[n].children[i].To? ==> g[n].children[i].id in p.need
  {
    assert OpenPlan(p, 0);
    if i < |g[n].children| && g[n].children[i].To? {
      assert Edge(g, n, g[n].children[i].id);
    }
  }

  lemma AfterEdge<L, S>(g: Graph<L>, root: Ptr, merge: (S, S) -> S, p: Plan, s: Snapshot<S>, n: nat)
    requires Inv(g, root, merge, p, s, Null) && NoDuplicates(p.order) && n in p.order
    requires n in g && n in s.visited && !s.visited[n] && At(s.prog, n) < |g[n].children|
    ensures Inv(g, root, merge, p, s.(prog := s.prog[n := At(s.prog, n) + 1]), g[n].children[At(s.prog, n)])
  {
    assert Open(s, 0);
    var s', c := s.(prog := s.prog[n := At(s.prog, n) + 1]), g[n].children[At(s.prog, n)];
    CountedAfterEdge(g, root, p, s, s', n);
    NodesUnchanged(merge, p, s, s');
    ShapeAfterEdge(g, p, s, s', n);
    Close(g, root, merge, p, s', c);
  }

  lemma ShapeAfterEdge<L, S>(g: Graph<L>, p: Plan, s: Snapshot<S>, s': Snapshot<S>, n: nat)
    requires Shape(g, p, s) && n in s.visited && !s.visited[n]
    requires s' == s.(prog := s'.prog) && s'.prog == s.prog[n := At(s.prog, n) + 1] && IsProgress(g, p.order, s'.prog)
    ensures Shape(g, p, s')
  {
  }

  lemma NodesUnchanged<S>(merge: (S, S) -> S, p: Plan, s: Snapshot<S>, s': Snapshot<S>)
    requires NodesOk(merge, p, s)
    requires s'.visited.Keys == s.visited.Keys && s'.joinPoints == s.joinPoints && s'.arrived == s.arrived && s'.entry == s.entry
    ensures NodesOk(merge, p, s')
  {
    forall k ensures NodeOk(merge, p, s', k) {
      assert NodeOk(merge, p, s, k);
    }
  }

  lemma CountedAfterEdge<L, S>(g: Graph<L>, root: Ptr, p: Plan, s: Snapshot<S>, s': Snapshot<S>, n: nat)
    requires IsProgress(g, p.order, s.prog) && NoDuplicates(p.order) && Counted(g, root, p, s, Null)
    requires n in p.order && At(s.prog, n) < |g[n].children|
    requires s' == s.(prog := s.prog[n := At(s.prog, n) + 1])
    ensures IsProgress(g, p.order, s'.prog) && Counted(g, root, p, s', g[n].children[At(s.prog, n)])
  {
    FollowedStep(g, p.order, s.prog, n, n);
    forall k ensures |ArrivedAt(s.arrived, k)| + SetupPass.Here(g[n].children[At(s.prog, n)], k)
                  == SetupPass.Arrivals(g, root, p.order, s'.prog, k)
    {
      FollowedStep(g, p.order, s.prog, n, k);
      assert |ArrivedAt(s.arrived, k)| + SetupPass.Here(Null, k) == SetupPass.Arrivals(g, root, p.order, s.prog, k);
    }
  }

  lemma AfterFinish<L, S>(g: Graph<L>, root: Ptr, merge: (S, S) -> S, p: Plan, s: Snapshot<S>, n: nat)
    requires Inv(g, root, merge, p, s, Null)
    requires n in g && n in s.visited && !s.visited[n] && At(s.prog, n) == |g[n].children|
    ensures Inv(g, root, merge, p, s.(visited := s.visited[n := true]), Null)
  {
    assert Open(s, 0);
    var s' := s.(visited := s.visited[n := true]);
    NodesUnchanged(merge, p, s, s');
    assert Counted(g, root, p, s', Null) by {
      forall k ensures |ArrivedAt(s'.arrived, k)| + SetupPass.Here(Null, k) == SetupPass.Arrivals(g, root, p.order, s'.prog, k) {
        assert |ArrivedAt(s.arrived, k)| + SetupPass.Here(Null, k) == SetupPass.Arrivals(g, root, p.order, s.prog, k);
      }
    }
    Close(g, root, merge, p, s', Null);
  }

  /** The log of the states agrees with the tables and the history. */
  ghost predicate Logged<S>(s: Snapshot<S>, f: FlowLog.Log<S>) {
    forall z {:trigger OpenLog(s, f, z)} | OpenLog(s, f, z) :: Agrees(s, f)
  }

  /** Mentioned in a proof to look inside `Logged`; always true. */
  ghost predicate OpenLog<S>(s: Snapshot<S>, f: FlowLog.Log<S>, z: nat) {
    true
  }

  ghost predicate Agrees<S>(s: Snapshot<S>, f: FlowLog.Log<S>) {
    && s.visited.Keys == f.visits.Keys
    && (forall k {:trigger f.visits[k]} | k in f.visits :: k in s.entry && s.entry[k] == f.visits[k].entry && (s.visited[k] <==> f.visits[k].exit.Some?))
    && (forall c {:trigger FlowLog.At(f, c)} :: SameStates(ArrivedAt(s.arrived, c), FlowLog.At(f, c)))
  }

  ghost predicate SameStates<S>(states: seq<S>, s: seq<FlowLog.Arrival<S>>) {
    |states| == |s| && forall x | 0 <= x < |s| :: states[x] == s[x].state
  }

  class ControlFlowVisitor<L, S> {
    const g: Graph<L>
    const flowMerge: (S, S) -> S
    const preorder: (nat, S) -> S
    const postorder: (nat, S) -> S
    const branches: nat -> FlowLog.Branches

    /** The fields of the visitor itself, which `flow_merge` and `clone` work on. */
    var state: S
    var visited: map<nat, bool>
    var joinPoints: map<nat, JoinPoint<S>>

    ghost var prog: map<nat, nat>
    ghost var arrived: map<nat, seq<S>>
    ghost var entry: map<nat, S>
    ghost var visits: seq<nat>
    ghost var place: map<nat, nat>
    ghost var log: FlowLog.Log<S>

    constructor (g: Graph<L>, state: S, flowMerge: (S, S) -> S, preorder: (nat, S) -> S, postorder: (nat, S) -> S,
                 branches: nat -> FlowLog.Branches)
      ensures this.g == g && this.flowMerge == flowMerge && this.preorder == preorder && this.postorder == postorder
      ensures this.branches == branches && this.state == state
    {
      this.g, this.state := g, state;
      this.flowMerge, this.preorder, this.postorder, this.branches := flowMerge, preorder, postorder, branches;
      visited, joinPoints, prog, arrived, entry, visits, place := map[], map[], map[], map[], map[], [], map[];
      log := FlowLog.Log.Log(map[], map[]);
    }

    ghost function Snap(): Snapshot<S>
      reads this
    {
      Snapshot(visited, joinPoints, prog, arrived, entry, visits, place)
    }

    ghost function Now(): Moment<S>
      reads this
    {
      Moment(visited, prog, log)
    }

    ghost predicate Valid(u: FlowLog.Setup<L, S>, p: Plan, pending: Ptr)
      reads this
    {
      && SetUp(u)
      && Inv(g, u.root, flowMerge, p, Snap(), pending) && Flows(u)
    }

    ghost function Setting(root: Ptr, initial: S): FlowLog.Setup<L, S> {
      FlowLog.Setup.Setup(g, root, initial, preorder, postorder, branches, flowMerge)
    }

    ghost predicate SetUp(u: FlowLog.Setup<L, S>)
      reads this
    {
      && u.g == g && u.pre == preorder && u.post == postorder && u.branches == branches && u.merge == flowMerge
    }

    /** The log of the states is right. */
    ghost predicate Flows(u: FlowLog.Setup<L, S>)
      reads this
    {
      FlowLog.FlowOk(u, log) && Logged(Snap(), log)
    }

    /** The whole traversal: `init_join_flows` and the visit of the root. */
    method Apply(root: Ptr) returns (ok: bool, ghost p: Plan)
      requires Closed(g) && InGraph(g, root) && FlowLog.BranchesFit(g, branches)
      modifies this
      // The traversal stops with "IR loop detected" exactly when a loop can be reached.
      ensures ok <==> !SetupPass.HasCycle(g, root)
      // The plan counts the edges between reachable nodes.
      ensures ok ==> IsPlan(g, root, p) && forall k :: k in p.need <==> Reaches(g, root, k)
      ensures ok ==> Traversed(g, root, flowMerge, p, visits, arrived, entry)
      // The states that arrive are those sent along the edges, and each visit sends on what comes back.
      ensures ok ==> StatesFlow(Setting(root, old(state)), log, visits, arrived, entry)
      // The traversal ends in the state in which the visit of the root ends.
      ensures ok ==> if root.To? then root.id in log.visits && log.visits[root.id].exit == Some(state) else state == old(state)
    {
      ghost var u := Setting(root, state);
      ok, p := InitJoinFlows(root, u);
      if ok {
        ApplyVisitor(root, u, p, None);
        AllAtEnd(u, flowMerge, p, Snap(), log);
      }
    }

    /** Counts the edges into each node and sets up the join points. */
    method InitJoinFlows(root: Ptr, ghost u: FlowLog.Setup<L, S>) returns (ok: bool, ghost p: Plan)
      requires Closed(g) && InGraph(g, root) && u == Setting(root, state)
      modifies this
      ensures ok <==> !SetupPass.HasCycle(g, root)
      ensures ok ==> IsPlan(g, root, p) && forall k :: k in p.need <==> Reaches(g, root, k)
      ensures ok ==> Valid(u, p, root) && visited == map[] && (root.To? ==> root.id in p.need)
      ensures state == old(state) && (ok ==> log == FlowLog.Log.Log(map[], map[]))
    {
      var setup := new SetupPass.SetupJoinPoints(g, root);
      SetupStarts(g, root, setup.Snap());
      ok := setup.ApplyVisitor(root, []);
      p := PlanOf(setup.Snap());
      if ok {
        ghost var t := setup.Snap();
        SetJoinPoints(setup.joinPoints, u);
        ReadyToJoin(g, root, flowMerge, t, joinPoints);
      }
    }

    /** A join point for each node with more than one edge into it; no state has arrived anywhere. */
    method SetJoinPoints(counts: map<nat, nat>, ghost u: FlowLog.Setup<L, S>)
      modifies this`visited, this`joinPoints, this`prog, this`arrived, this`entry, this`visits, this`place, this`log
      ensures joinPoints == map k | k in counts :: JoinPoint(None, counts[k])
      ensures Snap() == Snapshot(map[], joinPoints, map[], map[], map[], [], map[])
      ensures log == FlowLog.Log.Log(map[], map[]) && Flows(u)
    {
      visited, prog, arrived, entry, visits, place := map[], map[], map[], map[], [], map[];
      joinPoints := map k | k in counts :: JoinPoint(None, counts[k]);
      log := FlowLog.Log.Log(map[], map[]);
      FlowLog.StartOk(u);
    }

    /** True if the visit of `n` is put off because edges into it are still to come. */
    method JoinFlows(n: nat, ghost p: Plan) returns (deferred: bool)
      requires NodeOk(flowMerge, p, Snap(), n) && n in p.need
      requires |ArrivedAt(arrived, n)| < p.need[n]
      modifies this`state, this`joinPoints, this`arrived
      ensures Snap() == Arrive(flowMerge, p, old(Snap()), n, old(state))
      ensures deferred <==> old(|ArrivedAt(arrived, n)|) + 1 < p.need[n]
      ensures state == if deferred then old(state) else MergeAll(flowMerge, old(ArrivedAt(arrived, n) + [state]))
    {
      ghost var a := ArrivedAt(arrived, n) + [state];
      arrived := arrived[n := a];
      assert a[..|a| - 1] == old(ArrivedAt(arrived, n));
      if n in joinPoints {
        var status := joinPoints[n].(upstream := joinPoints[n].upstream - 1);
        if status.upstream < 0 {
          joinPoints := joinPoints[n := status];
          state := flowMerge(state, status.first.value);
          deferred := false;
        } else if status.first.Some? {
          joinPoints := joinPoints[n := status.(first := Some(flowMerge(status.first.value, state)))];
          deferred := true;
        } else {
          joinPoints := joinPoints[n := status.(first := Some(state))];
          deferred := true;
        }
      } else {
        deferred := false;
      }
    }

    method ApplyVisitor(n: Ptr, ghost u: FlowLog.Setup<L, S>, ghost p: Plan, ghost edge: Option<FlowLog.Edge>)
      requires IsPlan(g, u.root, p) && Valid(u, p, n) && (n.To? ==> n.id in p.need) && FlowLog.BranchesFit(g, branches)
      requires n.To? ==> FlowLog.Incoming(u, log, n.id, edge, state)
      modifies this
      ensures Valid(u, p, Null) && SetupPass.Grows(old(visited), visited, old(prog), prog, -1)
      ensures FlowLog.Grows(old(log), log, -1)
      ensures n.To? ==> FlowLog.Arrival(edge, old(state)) in FlowLog.At(log, n.id)
      ensures if n.To? && n.id in log.visits && log.visits[n.id].via == edge then log.visits[n.id].exit == Some(state)
              else state == old(state)
      decreases |p.need.Keys - visited.Keys|, 1
    {
      if n.To? {
        ghost var state0, log0 := state, log;
        var deferred := ArriveAt(n.id, u, p, edge);
        if !deferred {
          ghost var log1 := log;
          VisitNode(n.id, u, p, edge);
          FlowLog.GrowsOn(log0, log1, log, -1);
          assert FlowLog.At(log1, n.id)[|FlowLog.At(log1, n.id)| - 1] == FlowLog.Arrival(edge, state0);
        }
      }
    }

    /** `JoinFlows`, with what it does to the account of the states. */
    method ArriveAt(n: nat, ghost u: FlowLog.Setup<L, S>, ghost p: Plan, ghost edge: Option<FlowLog.Edge>) returns (deferred: bool)
      requires IsPlan(g, u.root, p) && Valid(u, p, To(n)) && n in p.need
      requires FlowLog.Incoming(u, log, n, edge, state)
      modifies this`state, this`joinPoints, this`arrived, this`log
      ensures n !in visited && n !in log.visits && SetUp(u) && Flows(u)
      ensures log == FlowLog.Arrive(old(log), n, edge, old(state)) && FlowLog.Grows(old(log), log, -1)
      ensures deferred ==> Valid(u, p, Null) && state == old(state)
      ensures !deferred ==> At(prog, n) == 0 && Inv(g, u.root, flowMerge, p, Enter(Snap(), n, state), Null) && Entering(log, n, edge)
    {
      StillWaiting(g, u.root, flowMerge, p, Snap(), n);
      ghost var s, state0 := Snap(), state;
      deferred := JoinFlows(n, p);
      ArrivalKept(u, s, Snap(), log, n, edge, state0);
      log := FlowLog.Arrive(log, n, edge, state0);
      if deferred {
        AfterDeferral(g, u.root, flowMerge, p, s, n, state0);
      } else {
        LastArrival(g, u.root, flowMerge, p, s, n);
        AfterEntry(g, u.root, flowMerge, p, s, n, state0);
      }
    }

    /** The visit proper. The table holds no entry for `n`: join points are entered once. */
    method VisitNode(n: nat, ghost u: FlowLog.Setup<L, S>, ghost p: Plan, ghost edge: Option<FlowLog.Edge>)
      requires IsPlan(g, u.root, p) && n in p.need && n !in visited && At(prog, n) == 0 && FlowLog.BranchesFit(g, branches)
      requires SetUp(u)
      requires Inv(g, u.root, flowMerge, p, Enter(Snap(), n, state), Null)
      requires Flows(u) && Entering(log, n, edge)
      modifies this
      ensures Valid(u, p, Null) && SetupPass.Grows(old(visited), visited, old(prog), prog, -1)
      ensures FlowLog.Grows(old(log), log, -1)
      ensures n in log.visits && log.visits[n].via == edge && log.visits[n].exit == Some(state)
      decreases |p.need.Keys - visited.Keys|, 0
    {
      PlanChild(g, u.root, p, n, 0);
      ghost var visited0, prog0, log0, s0 := visited, prog, log, Snap();
      StartNode(n, u, p, edge);
      ghost var log1 := log;
      SmallerSet(p.need.Keys - visited.Keys, p.need.Keys - visited0.Keys, n);
      VisitChildren(n, u, p);
      ghost var log2 := log;
      FinishNode(n, u, p, visited0, prog0);
      NotEntered(s0, log0, n);
      VisitLogged(log0, log1, log2, log, n);
    }

    method StartNode(n: nat, ghost u: FlowLog.Setup<L, S>, ghost p: Plan, ghost edge: Option<FlowLog.Edge>)
      requires SetUp(u) && n in g && n !in visited
      requires Inv(g, u.root, flowMerge, p, Enter(Snap(), n, state), Null)
      requires Flows(u) && Entering(log, n, edge)
      modifies this
      ensures Valid(u, p, Null) && visited == old(visited)[n := false] && prog == old(prog)
      ensures log == FlowLog.Enter(old(log), n, edge, old(state)) && state == preorder(n, old(state))
    {
      NotEntered(Snap(), log, n);
      FlowLog.EnterOk(u, log, n, edge, state);
      log := FlowLog.Enter(log, n, edge, state);
      entry, place, visits := entry[n := state], place[n := |visits|], visits + [n];
      visited := visited[n := false];
      assert Snap() == Enter(old(Snap()), n, old(state));
      EntryLogged(old(Snap()), Snap(), old(log), n, edge, state);
      state := preorder(n, state);
    }

    method FinishNode(n: nat, ghost u: FlowLog.Setup<L, S>, ghost p: Plan, ghost visited0: map<nat, bool>, ghost prog0: map<nat, nat>)
      requires n in g && n !in visited0 && Valid(u, p, Null)
      requires n in visited && !visited[n] && At(prog, n) == |g[n].children|
      requires SetupPass.Grows(visited0[n := false], visited, prog0, prog, n)
      requires InVisit(u, log, n, |g[n].children|, state)
      modifies this`visited, this`state, this`log
      ensures Valid(u, p, Null) && SetupPass.Grows(visited0, visited, prog0, prog, -1)
      ensures log == FlowLog.With(old(log), n, old(log).visits[n].(exit := Some(state)))
    {
      SetupPass.VisitComposes(visited0, visited, prog0, prog, n);
      AfterFinish(g, u.root, flowMerge, p, Snap(), n);
      state := postorder(n, state);
      FlowLog.ExitOk(u, log, n, state);
      log := FlowLog.With(log, n, log.visits[n].(exit := Some(state)));
      visited := visited[n := true];
      StepLogged(old(Snap()), Snap(), old(log), n, log.visits[n]);
    }

    method VisitChildren(n: nat, ghost u: FlowLog.Setup<L, S>, ghost p: Plan)
      requires IsPlan(g, u.root, p) && n in p.need && n in g && Valid(u, p, Null)
      requires n in visited && !visited[n] && At(prog, n) == 0 && FlowLog.BranchesFit(g, branches)
      requires InVisit(u, log, n, 0, state)
      modifies this
      ensures Valid(u, p, Null) && SetupPass.Grows(old(visited), visited, old(prog), prog, n)
      ensures n in visited && !visited[n] && At(prog, n) == |g[n].children|
      ensures FlowLog.Grows(old(log), log, n) && InVisit(u, log, n, |g[n].children|, state)
      ensures log.visits[n].via == old(log).visits[n].via
      decreases |p.need.Keys - visited.Keys|, 6
    {
      var i := 0;
      while i < |g[n].children|
        invariant i <= |g[n].children| && Valid(u, p, Null)
        invariant branches(n).first < i ==> branches(n).end <= i
        invariant GrownSince(old(Now()), Now(), n) && old(visited).Keys <= visited.Keys
        invariant n in visited && !visited[n] && At(prog, n) == i
        invariant InVisit(u, log, n, i, state)
      {
        ghost var past := Now();
        SubsetCardinality(p.need.Keys - visited.Keys, p.need.Keys - old(visited).Keys);
        if i == branches(n).first < branches(n).end {
          VisitBranches(n, u, p);
          i := branches(n).end;
        } else {
          VisitChild(n, i, u, p);
          i := i + 1;
        }
        GrowsOn(old(Now()), past, Now(), n);
      }
      assert OpenGrown(Now(), 0);
    }

    /** The first branch is visited by the visitor itself, and `flow_clone` gives each other branch a visitor of its own. */
    method VisitBranches(n: nat, ghost u: FlowLog.Setup<L, S>, ghost p: Plan)
      requires IsPlan(g, u.root, p) && n in p.need && n in g && Valid(u, p, Null)
      requires n in visited && !visited[n] && At(prog, n) == branches(n).first < branches(n).end && FlowLog.BranchesFit(g, branches)
      requires InVisit(u, log, n, branches(n).first, state)
      modifies this
      ensures Valid(u, p, Null) && GrownSince(old(Now()), Now(), n) && old(visited).Keys <= visited.Keys
      ensures n in visited && !visited[n] && At(prog, n) == branches(n).end
      ensures InVisit(u, log, n, branches(n).end, state)
      decreases |p.need.Keys - visited.Keys|, 5
    {
      var clone := state;
      VisitChild(n, branches(n).first, u, p);
      FirstBranch(u, old(log), log, n, clone, state);
      ghost var past := Now();
      SubsetCardinality(p.need.Keys - visited.Keys, p.need.Keys - old(visited).Keys);
      VisitClones(n, clone, u, p);
      GrowsOn(old(Now()), past, Now(), n);
      AllBranches(u, log, n, clone, state);
    }

    /** The branches after the first, each visited from the state that there was before the first one. */
    method VisitClones(n: nat, clone: S, ghost u: FlowLog.Setup<L, S>, ghost p: Plan)
      requires IsPlan(g, u.root, p) && n in p.need && n in g && Valid(u, p, Null)
      requires n in visited && !visited[n] && At(prog, n) == branches(n).first + 1 <= branches(n).end && FlowLog.BranchesFit(g, branches)
      requires InBranches(u, log, n, branches(n).first + 1, clone, state) && n in log.visits
      modifies this
      ensures Valid(u, p, Null) && GrownSince(old(Now()), Now(), n) && old(visited).Keys <= visited.Keys
      ensures n in visited && !visited[n] && At(prog, n) == branches(n).end
      ensures InBranches(u, log, n, branches(n).end, clone, state)
      decreases |p.need.Keys - visited.Keys|, 4
    {
      var i := branches(n).first + 1;
      NotGrown(Now(), n);
      while i < branches(n).end
        invariant i <= branches(n).end && Valid(u, p, Null)
        invariant GrownSince(old(Now()), Now(), n) && old(visited).Keys <= visited.Keys
        invariant n in visited && !visited[n] && At(prog, n) == i
        invariant InBranches(u, log, n, i, clone, state)
      {
        ghost var past := Now();
        SubsetCardinality(p.need.Keys - visited.Keys, p.need.Keys - old(visited).Keys);
        VisitBranch(n, i, clone, u, p);
        GrowsOn(old(Now()), past, Now(), n);
        i := i + 1;
      }
    }

    /** `flow_clone`, the visit by the clone, and `flow_merge`. */
    method VisitBranch(n: nat, i: nat, clone: S, ghost u: FlowLog.Setup<L, S>, ghost p: Plan)
      requires IsPlan(g, u.root, p) && n in p.need && n in g && Valid(u, p, Null)
      requires n in visited && !visited[n] && At(prog, n) == i < branches(n).end && FlowLog.BranchesFit(g, branches)
      requires InBranches(u, log, n, i, clone, state)
      modifies this
      ensures Valid(u, p, Null) && GrownSince(old(Now()), Now(), n) && old(visited).Keys <= visited.Keys
      ensures n in visited && !visited[n] && At(prog, n) == i + 1
      ensures InBranches(u, log, n, i + 1, clone, state)
      decreases |p.need.Keys - visited.Keys|, 3
    {
      assert OpenBranches(log, i, 0);
      var merged := state;
      state := clone;
      VisitChild(n, i, u, p);
      BranchMerged(u, old(log), log, n, i, clone, merged, state);
      state := flowMerge(merged, state);
    }


    method VisitChild(n: nat, i: nat, ghost u: FlowLog.Setup<L, S>, ghost p: Plan)
      requires IsPlan(g, u.root, p) && n in p.need && n in g && Valid(u, p, Null)
      requires n in visited && !visited[n] && At(prog, n) == i < |g[n].children| && FlowLog.BranchesFit(g, branches)
      requires InVisit(u, log, n, i, state)
      modifies this
      ensures Valid(u, p, Null) && GrownSince(old(Now()), Now(), n) && old(visited).Keys <= visited.Keys
      ensures n in visited && !visited[n] && At(prog, n) == i + 1
      ensures ChildDone(old(log), log, n, i, state)
      decreases |p.need.Keys - visited.Keys|, 2
    {
      ghost var visited0, prog0, log0 := visited, prog, log;
      Send(n, i, u, p);
      ghost var prog1, log1 := prog, log;
      ApplyVisitor(g[n].children[i], u, p, Some(FlowLog.Edge.Edge(n, i)));
      ghost var log2 := log;
      assert log2.visits[n] == log1.visits[n];
      Return(n, i, u, p);
      ChildLogged(log0, log1, log2, log, n);
      OneEdgeGrows(visited0, visited, prog0, prog1, prog, n, i);
      assert GrownSince(old(Now()), Now(), n);
    }

    /** Notes that the state goes along edge `i` of `n`. */
    ghost method Send(n: nat, i: nat, u: FlowLog.Setup<L, S>, p: Plan)
      requires IsPlan(g, u.root, p) && n in p.need && n in g && Valid(u, p, Null)
      requires n in visited && !visited[n] && At(prog, n) == i < |g[n].children|
      requires InVisit(u, log, n, i, state)
      modifies this`prog, this`log
      ensures Valid(u, p, g[n].children[i]) && prog == old(prog)[n := i + 1]
      ensures log == FlowLog.With(old(log), n, old(log).visits[n].(sent := old(log).visits[n].sent + [state]))
      ensures g[n].children[i].To? ==> g[n].children[i].id in p.need
      ensures g[n].children[i].To? ==> FlowLog.Incoming(u, log, g[n].children[i].id, Some(FlowLog.Edge.Edge(n, i)), state)
    {
      PlanChild(g, u.root, p, n, i);
      AfterEdge(g, u.root, flowMerge, p, Snap(), n);
      FlowLog.SendOk(u, log, n, state);
      log := FlowLog.With(log, n, log.visits[n].(sent := log.visits[n].sent + [state]));
      prog := prog[n := i + 1];
      StepLogged(old(Snap()), Snap(), old(log), n, log.visits[n]);
    }

    /** Notes that edge `i` of `n` has been followed, and the state that has come back. */
    ghost method Return(n: nat, i: nat, u: FlowLog.Setup<L, S>, p: Plan)
      requires n in g && i < |g[n].children| && Valid(u, p, Null)
      requires n in visited && !visited[n] && n in log.visits && log.visits[n].exit.None?
      requires |log.visits[n].left| == i && |log.visits[n].sent| == i + 1
      requires var c, e, sent := g[n].children[i], FlowLog.Edge.Edge(n, i), log.visits[n].sent[i];
               && (c.To? ==> FlowLog.Arrival(Some(e), sent) in FlowLog.At(log, c.id))
               && (if c.To? && FlowLog.EnteredBy(log, c.id, e) then log.visits[c.id].exit == Some(state) else state == sent)
      modifies this`log
      ensures Valid(u, p, Null)
      ensures log == FlowLog.With(old(log), n, old(log).visits[n].(left := old(log).visits[n].left + [state]))
    {
      FlowLog.ReturnOk(u, log, n, state);
      log := FlowLog.With(log, n, log.visits[n].(left := log.visits[n].left + [state]));
      StepLogged(old(Snap()), Snap(), old(log), n, log.visits[n]);
    }
  }

  datatype Moment<S> = Moment(visited: map<nat, bool>, prog: map<nat, nat>, log: FlowLog.Log<S>)

  /** Mentioned in a proof to look inside `GrownSince`; always true. */
  ghost predicate OpenGrown<S>(m: Moment<S>, z: nat) {
    true
  }

  /** Only the visit of `n` has gone on, and visits that are new have ended. */
  ghost predicate GrownSince<S>(m: Moment<S>, m': Moment<S>, n: nat) {
    forall z {:trigger OpenGrown(m', z)} | OpenGrown(m', z) ::
      && SetupPass.Grows(m.visited, m'.visited, m.prog, m'.prog, n) && FlowLog.Grows(m.log, m'.log, n)
      && n in m.visited && n in m.log.visits && m'.log.visits[n].via == m.log.visits[n].via
  }

  lemma NotGrown<S>(m: Moment<S>, n: nat)
    requires n in m.visited && n in m.log.visits
    ensures GrownSince(m, m, n)
  {
  }

  lemma GrowsOn<S>(m: Moment<S>, m': Moment<S>, m'': Moment<S>, n: nat)
    requires GrownSince(m, m', n) && GrownSince(m', m'', n)
    ensures GrownSince(m, m'', n)
  {
    assert OpenGrown(m', 0) && OpenGrown(m'', 0);
    SetupPass.GrowsComposes(m.visited, m'.visited, m''.visited, m.prog, m'.prog, m''.prog, n);
    FlowLog.GrowsOn(m.log, m'.log, m''.log, n);
  }

  /** The visit of `n` has followed `i` edges, and `state` is what it is in. */
  ghost predicate InVisit<L, S>(u: FlowLog.Setup<L, S>, f: FlowLog.Log<S>, n: nat, i: nat, state: S) {
    && n in f.visits && |f.visits[n].left| == |f.visits[n].sent| == i && f.visits[n].exit.None?
    && state == FlowLog.Before(u, f.visits[n], n, i)
  }

  /** Edge `i` of `n` has been followed, by a visitor that is now in `state`. */
  ghost predicate ChildDone<S>(f: FlowLog.Log<S>, f': FlowLog.Log<S>, n: nat, i: nat, state: S) {
    && n in f.visits && n in f'.visits && |f.visits[n].left| == i && |f'.visits[n].sent| == i + 1
    && f'.visits[n].left == f.visits[n].left + [state] && f'.visits[n].exit.None?
    && f'.visits[n].entry == f.visits[n].entry && f'.visits[n].via == f.visits[n].via
  }

  /** Mentioned in a proof to look inside `InBranches`; always true. */
  ghost predicate OpenBranches<S>(f: FlowLog.Log<S>, i: nat, z: nat) {
    true
  }

  /** The branches of `n` before `i` have been visited and merged into `state`; `clone` is the state before the first. */
  ghost predicate InBranches<L, S>(u: FlowLog.Setup<L, S>, f: FlowLog.Log<S>, n: nat, i: nat, clone: S, state: S) {
    forall z {:trigger OpenBranches(f, i, z)} | OpenBranches(f, i, z) ::
      var b := u.branches(n);
      && n in f.visits && b.first < i == |f.visits[n].left| == |f.visits[n].sent| && f.visits[n].exit.None?
      && clone == FlowLog.After(u, f.visits[n], n, b.first) && state == Fold(u.merge, f.visits[n].left[b.first..i])
  }

  lemma FirstBranch<L, S>(u: FlowLog.Setup<L, S>, f: FlowLog.Log<S>, f': FlowLog.Log<S>, n: nat, clone: S, state: S)
    requires u.branches(n).first < u.branches(n).end
    requires InVisit(u, f, n, u.branches(n).first, clone) && ChildDone(f, f', n, u.branches(n).first, state)
    ensures InBranches(u, f', n, u.branches(n).first + 1, clone, state)
  {
  }

  lemma AllBranches<L, S>(u: FlowLog.Setup<L, S>, f: FlowLog.Log<S>, n: nat, clone: S, state: S)
    requires InBranches(u, f, n, u.branches(n).end, clone, state)
    ensures InVisit(u, f, n, u.branches(n).end, state)
  {
    assert OpenBranches(f, u.branches(n).end, 0);
  }

  lemma BranchMerged<L, S>(u: FlowLog.Setup<L, S>, f: FlowLog.Log<S>, f': FlowLog.Log<S>, n: nat, i: nat, clone: S, merged: S, state: S)
    requires InBranches(u, f, n, i, clone, merged) && ChildDone(f, f', n, i, state)
    ensures InBranches(u, f', n, i + 1, clone, u.merge(merged, state))
  {
    assert OpenBranches(f, i, 0);
    var first, left, left' := u.branches(n).first, f.visits[n].left, f'.visits[n].left;
    assert left'[first..i + 1] == left[first..i] + [state];
  }

  /** The last state to arrive at `n` came along `edge`, which is being followed. */
  ghost predicate Entering<S>(f: FlowLog.Log<S>, n: nat, edge: Option<FlowLog.Edge>) {
    && FlowLog.At(f, n) != [] && FlowLog.At(f, n)[|FlowLog.At(f, n)| - 1].edge == edge
    && (edge.Some? ==> edge.value.from in f.visits && edge.value.index == |f.visits[edge.value.from].left|)
  }

  lemma NotEntered<S>(s: Snapshot<S>, f: FlowLog.Log<S>, n: nat)
    requires Logged(s, f) && n !in s.visited
    ensures n !in f.visits
  {
    assert OpenLog(s, f, 0);
  }

  lemma ArrivalLogged<S>(s: Snapshot<S>, s': Snapshot<S>, f: FlowLog.Log<S>, n: nat, edge: Option<FlowLog.Edge>, state: S)
    requires Logged(s, f) && s'.visited == s.visited && s'.entry == s.entry
    requires s'.arrived == s.arrived[n := ArrivedAt(s.arrived, n) + [state]]
    ensures Logged(s', FlowLog.Arrive(f, n, edge, state))
  {
    assert OpenLog(s, f, 0);
    var f' := FlowLog.Arrive(f, n, edge, state);
    forall c ensures SameStates(ArrivedAt(s'.arrived, c), FlowLog.At(f', c)) {
      assert SameStates(ArrivedAt(s.arrived, c), FlowLog.At(f, c));
    }
  }

  lemma ArrivalKept<L, S>(u: FlowLog.Setup<L, S>, s: Snapshot<S>, s': Snapshot<S>, f: FlowLog.Log<S>, n: nat, edge: Option<FlowLog.Edge>, state: S)
    requires Logged(s, f) && FlowLog.FlowOk(u, f) && n !in s.visited && FlowLog.Incoming(u, f, n, edge, state)
    requires s'.visited == s.visited && s'.entry == s.entry && s'.arrived == s.arrived[n := ArrivedAt(s.arrived, n) + [state]]
    ensures n !in f.visits && FlowLog.FlowOk(u, FlowLog.Arrive(f, n, edge, state)) && Logged(s', FlowLog.Arrive(f, n, edge, state))
    ensures FlowLog.Grows(f, FlowLog.Arrive(f, n, edge, state), -1)
  {
    NotEntered(s, f, n);
    FlowLog.ArriveOk(u, f, n, edge, state);
    ArrivalLogged(s, s', f, n, edge, state);
  }

  lemma EntryLogged<S>(s: Snapshot<S>, s': Snapshot<S>, f: FlowLog.Log<S>, n: nat, edge: Option<FlowLog.Edge>, state: S)
    requires Logged(s, f) && s' == Enter(s, n, state)
    ensures Logged(s', FlowLog.Enter(f, n, edge, state))
  {
    assert OpenLog(s, f, 0);
    var f' := FlowLog.Enter(f, n, edge, state);
    forall c ensures SameStates(ArrivedAt(s'.arrived, c), FlowLog.At(f', c)) {
      assert SameStates(ArrivedAt(s.arrived, c), FlowLog.At(f, c));
    }
  }

  /** A visit has gone on. */
  lemma StepLogged<S>(s: Snapshot<S>, s': Snapshot<S>, f: FlowLog.Log<S>, n: nat, v: FlowLog.Visit<S>)
    requires Logged(s, f) && n in f.visits && v.entry == f.visits[n].entry
    requires s'.arrived == s.arrived && s'.entry == s.entry && s'.visited == s.visited[n := v.exit.Some?]
    ensures Logged(s', FlowLog.With(f, n, v))
  {
    assert OpenLog(s, f, 0);
    var f' := FlowLog.With(f, n, v);
    forall c ensures SameStates(ArrivedAt(s'.arrived, c), FlowLog.At(f', c)) {
      assert SameStates(ArrivedAt(s.arrived, c), FlowLog.At(f, c));
    }
  }

  /** Entering `n`, following its edges and leaving it amounts to one step forward. */
  lemma VisitLogged<S>(f0: FlowLog.Log<S>, f1: FlowLog.Log<S>, f2: FlowLog.Log<S>, f3: FlowLog.Log<S>, n: nat)
    requires n !in f0.visits && n in f1.visits && f1 == f0.(visits := f0.visits[n := f1.visits[n]])
    requires FlowLog.Grows(f1, f2, n) && n in f3.visits && f3 == FlowLog.With(f2, n, f3.visits[n]) && f3.visits[n].exit.Some?
    ensures FlowLog.Grows(f0, f3, -1)
  {
    forall k | k in f0.visits && k != n ensures k in f3.visits && f3.visits[k] == f0.visits[k] {
      assert k in f1.visits && f1.visits[k] == f0.visits[k];
    }
    forall c ensures FlowLog.At(f0, c) <= FlowLog.At(f3, c) {
      assert FlowLog.At(f0, c) == FlowLog.At(f1, c) <= FlowLog.At(f2, c) == FlowLog.At(f3, c);
    }
  }

  /** Sending a state along an edge, following the edge and coming back. */
  lemma ChildLogged<S>(f0: FlowLog.Log<S>, f1: FlowLog.Log<S>, f2: FlowLog.Log<S>, f3: FlowLog.Log<S>, n: nat)
    requires n in f0.visits && n in f1.visits && f1 == FlowLog.With(f0, n, f1.visits[n])
    requires FlowLog.Grows(f1, f2, -1) && n in f3.visits && f3 == FlowLog.With(f2, n, f3.visits[n])
    ensures FlowLog.Grows(f0, f3, n)
  {
    forall k | k in f0.visits && k != n ensures k in f3.visits && f3.visits[k] == f0.visits[k] {
      assert k in f1.visits && f1.visits[k] == f0.visits[k];
    }
    forall c ensures FlowLog.At(f0, c) <= FlowLog.At(f3, c) {
      assert FlowLog.At(f0, c) == FlowLog.At(f1, c) <= FlowLog.At(f2, c) == FlowLog.At(f3, c);
    }
  }

  /** With every started visit finished, no reachable node is left waiting: by induction from the root down. */
  lemma {:induction false} NoneLeftWaiting<L, S>(g: Graph<L>, root: Ptr, merge: (S, S) -> S, p: Plan, s: Snapshot<S>, k: nat)
    requires IsPlan(g, root, p) && Inv(g, root, merge, p, s, Null)
    requires forall j | j in s.visited :: s.visited[j]
    requires k in p.rank
    ensures k in s.visited
    decreases |p.rank| - p.rank[k]
  {
    assert OpenPlan(p, 0) && Open(s, 0);
    forall a | a in p.order && To(k) in g[a].children ensures At(s.prog, a) == At(p.full, a) {
      assert Edge(g, a, k) && a in p.need;
      assert p.rank[k] < p.rank[a] < |p.rank|;
      NoneLeftWaiting(g, root, merge, p, s, a);
    }
    FollowedAll(g, p.order, s.prog, p.full, k);
    assert |ArrivedAt(s.arrived, k)| + SetupPass.Here(Null, k) == SetupPass.Arrivals(g, root, p.order, s.prog, k);
    assert NodeOk(merge, p, s, k);
  }

  /** The plan that the first pass leaves behind. */
  ghost function PlanOf(t: SetupPass.Snapshot): Plan {
    Plan(t.order, t.rank, t.prog, map k | k in t.visited :: SetupPass.Reached(t.visited, t.joinPoints, k))
  }

  lemma SetupGivesPlan<L>(g: Graph<L>, root: Ptr, t: SetupPass.Snapshot)
    requires SetupPass.Inv(g, root, t, Null)
    requires forall k | k in t.visited :: t.visited[k]
    requires root.To? ==> root.id in t.visited
    ensures IsPlan(g, root, PlanOf(t))
    ensures forall k | k in t.visited :: Reaches(g, root, k)
    ensures forall k :: k in t.joinPoints <==> k in t.visited && PlanOf(t).need[k] > 1
  {
    assert SetupPass.Open(t, 0);
    var p := PlanOf(t);
    forall k | k in p.order ensures p.need[k] == SetupPass.Arrivals(g, root, p.order, p.full, k) {
      assert SetupPass.Reached(t.visited, t.joinPoints, k) + SetupPass.Here(Null, k) == SetupPass.Arrivals(g, root, t.order, t.prog, k);
    }
    assert p.rank.Keys == p.need.Keys;
  }

  lemma SetupStarts<L>(g: Graph<L>, root: Ptr, t: SetupPass.Snapshot)
    requires t == SetupPass.Snapshot(map[], map[], [], map[], map[])
    ensures SetupPass.Inv(g, root, t, root)
  {
    SetupPass.Close(g, root, t, root);
  }

  /** Before the first arrival nothing has been traversed. */
  lemma NothingFollowed<L>(g: Graph<L>, order: seq<nat>, k: nat)
    requires IsProgress(g, order, map[])
    ensures Followed(g, order, map[], k) == 0
  {
    if order != [] {
      NothingFollowed(g, order[..|order| - 1], k);
    }
  }

  lemma InitiallyValid<L, S>(g: Graph<L>, root: Ptr, merge: (S, S) -> S, p: Plan, joinPoints: map<nat, JoinPoint<S>>)
    requires IsPlan(g, root, p)
    requires forall k :: k in joinPoints <==> k in p.need && p.need[k] > 1
    requires forall k | k in joinPoints :: joinPoints[k] == JoinPoint(None, p.need[k] - 1)
    ensures Inv(g, root, merge, p, Snapshot(map[], joinPoints, map[], map[], map[], [], map[]), root)
    ensures root.To? ==> root.id in p.need
  {
    assert OpenPlan(p, 0);
    var s: Snapshot<S> := Snapshot(map[], joinPoints, map[], map[], map[], [], map[]);
    forall k ensures |ArrivedAt(s.arrived, k)| + SetupPass.Here(root, k) == SetupPass.Arrivals(g, root, p.order, s.prog, k) {
      NothingFollowed(g, p.order, k);
    }
    assert NodesOk(merge, p, s) by {
      forall k ensures NodeOk(merge, p, s, k) {
        assert k in p.need ==> k in p.order;
      }
    }
    Close(g, root, merge, p, s, root);
  }

  lemma ReadyToJoin<L, S>(g: Graph<L>, root: Ptr, merge: (S, S) -> S, t: SetupPass.Snapshot, joinPoints: map<nat, JoinPoint<S>>)
    requires SetupPass.Inv(g, root, t, Null)
    requires forall k | k in t.visited :: t.visited[k]
    requires root.To? ==> root.id in t.visited
    requires joinPoints == map k | k in t.joinPoints :: JoinPoint(None, t.joinPoints[k])
    ensures IsPlan(g, root, PlanOf(t)) && forall k :: k in PlanOf(t).need <==> Reaches(g, root, k)
    ensures Inv(g, root, merge, PlanOf(t), Snapshot(map[], joinPoints, map[], map[], map[], [], map[]), root)
    ensures root.To? ==> root.id in PlanOf(t).need
    ensures !SetupPass.HasCycle(g, root)
  {
    SetupGivesPlan(g, root, t);
    PlanHoldsReachable(g, root, PlanOf(t));
    InitiallyValid(g, root, merge, PlanOf(t), joinPoints);
  }

  /** What a finished traversal guarantees. */
  ghost predicate Traversed<L, S>(g: Graph<L>, root: Ptr, merge: (S, S) -> S, p: Plan, visits: seq<nat>,
                                  arrived: map<nat, seq<S>>, entry: map<nat, S>) {
    // Every reachable node is visited, and no node twice.
    && NoDuplicates(visits)
    && (forall k :: k in visits <==> Reaches(g, root, k))
    // A node is visited after every reachable node with an edge to it.
    && (forall j, a | 0 <= j < |visits| && Reaches(g, root, a) && Edge(g, a, visits[j]) :: a in visits[..j])
    // As many states arrive at a node as there are edges into it, and its visit starts from their merge.
    && (forall k | k in visits ::
          && k in p.need && |ArrivedAt(arrived, k)| == p.need[k] > 0
          && k in entry && entry[k] == MergeAll(merge, arrived[k]))
  }

  /** How the states have flowed in the end: `FlowOk` says what each visit has sent along its edges, what
      has come back, and that this is what has arrived. */
  ghost predicate StatesFlow<L, S>(u: FlowLog.Setup<L, S>, f: FlowLog.Log<S>, visits: seq<nat>, arrived: map<nat, seq<S>>, entry: map<nat, S>) {
    && FlowLog.FlowOk(u, f)
    && (forall k :: k in visits <==> k in f.visits)
    && (forall k {:trigger f.visits[k]} | k in f.visits :: f.visits[k].exit.Some? && k in entry && entry[k] == f.visits[k].entry)
    && (forall c {:trigger FlowLog.At(f, c)} :: SameStates(ArrivedAt(arrived, c), FlowLog.At(f, c)))
  }

  lemma AllAtEnd<L, S>(u: FlowLog.Setup<L, S>, merge: (S, S) -> S, p: Plan, s: Snapshot<S>, f: FlowLog.Log<S>)
    requires IsPlan(u.g, u.root, p) && Inv(u.g, u.root, merge, p, s, Null) && FlowLog.FlowOk(u, f) && Logged(s, f)
    requires (forall k | k in s.visited :: s.visited[k]) && forall k :: k in p.need <==> Reaches(u.g, u.root, k)
    ensures Traversed(u.g, u.root, merge, p, s.visits, s.arrived, s.entry)
    ensures StatesFlow(u, f, s.visits, s.arrived, s.entry)
    ensures u.root.To? ==> u.root.id in f.visits && f.visits[u.root.id].via == None
  {
    TraversedAtEnd(u.g, u.root, merge, p, s);
    AllVisited(u.g, u.root, merge, p, s);
    PlanHoldsReachable(u.g, u.root, p);
    FlowAtEnd(u, s, f, p);
  }

  lemma FlowAtEnd<L, S>(u: FlowLog.Setup<L, S>, s: Snapshot<S>, f: FlowLog.Log<S>, p: Plan)
    requires FlowLog.FlowOk(u, f) && Logged(s, f) && !SetupPass.HasCycle(u.g, u.root)
    requires forall k :: k in s.visits <==> Reaches(u.g, u.root, k)
    requires s.visited.Keys == (set k | k in s.visits) && forall k | k in s.visited :: s.visited[k]
    ensures StatesFlow(u, f, s.visits, s.arrived, s.entry)
    ensures u.root.To? ==> u.root.id in f.visits && f.visits[u.root.id].via == None
  {
    assert OpenLog(s, f, 0);
    if u.root.To? {
      ReachesSelf(u.g, u.root.id);
      RootEntered(u, f);
    }
  }

  /** The root is entered by the initial call: an edge to it would close a loop. */
  lemma RootEntered<L, S>(u: FlowLog.Setup<L, S>, f: FlowLog.Log<S>)
    requires FlowLog.FlowOk(u, f) && !SetupPass.HasCycle(u.g, u.root)
    requires u.root.To? && u.root.id in f.visits && forall k | k in f.visits :: Reaches(u.g, u.root, k)
    ensures f.visits[u.root.id].via == None
  {
    assert FlowLog.Open(f, 0);
    var c := u.root.id;
    assert FlowLog.ArrivalsOk(u, f, c);
    var a := FlowLog.At(f, c)[|FlowLog.At(f, c)| - 1];
    assert FlowLog.Sent(u, f, c, a);
    if a.edge.Some? {
      BackToRoot(u.g, c, a.edge.value.from);
    }
  }

  lemma BackToRoot<L>(g: Graph<L>, root: nat, k: nat)
    requires Reaches(g, To(root), k) && Edge(g, k, root)
    ensures SetupPass.HasCycle(g, To(root))
  {
    var w :| WalkBetween(g, w, root, k);
    assert IsCycle(g, w + [root]);
    ReachesSelf(g, root);
  }

  lemma TraversedAtEnd<L, S>(g: Graph<L>, root: Ptr, merge: (S, S) -> S, p: Plan, s: Snapshot<S>)
    requires IsPlan(g, root, p) && Inv(g, root, merge, p, s, Null)
    requires forall k | k in s.visited :: s.visited[k]
    requires forall k | k in p.need :: Reaches(g, root, k)
    ensures Traversed(g, root, merge, p, s.visits, s.arrived, s.entry)
  {
    AllVisited(g, root, merge, p, s);
    VisitsInOrder(g, p, s);
    PlanHoldsReachable(g, root, p);
    forall k | k in s.visits
      ensures k in p.need && |ArrivedAt(s.arrived, k)| == p.need[k] > 0
      ensures k in s.entry && s.entry[k] == MergeAll(merge, s.arrived[k])
    {
      NodeAtEnd(g, root, merge, p, s, k);
    }
  }

  lemma AllVisited<L, S>(g: Graph<L>, root: Ptr, merge: (S, S) -> S, p: Plan, s: Snapshot<S>)
    requires IsPlan(g, root, p) && Inv(g, root, merge, p, s, Null)
    requires forall k | k in s.visited :: s.visited[k]
    ensures s.place.Keys == s.visited.Keys == p.need.Keys && Topological(g, p, s)
  {
    assert Open(s, 0) && OpenPlan(p, 0);
    forall k | k in p.need ensures k in s.visited {
      NoneLeftWaiting(g, root, merge, p, s, k);
    }
  }

  lemma NodeAtEnd<L, S>(g: Graph<L>, root: Ptr, merge: (S, S) -> S, p: Plan, s: Snapshot<S>, k: nat)
    requires Inv(g, root, merge, p, s, Null) && k in s.visited
    ensures k in p.need && |ArrivedAt(s.arrived, k)| == p.need[k] > 0
    ensures k in s.entry && s.entry[k] == MergeAll(merge, s.arrived[k])
  {
    assert Open(s, 0);
    assert NodeOk(merge, p, s, k);
  }

  lemma VisitsInOrder<L, S>(g: Graph<L>, p: Plan, s: Snapshot<S>)
    requires Topological(g, p, s) && s.place.Keys == p.need.Keys
    ensures NoDuplicates(s.visits)
    ensures forall k :: k in s.visits <==> k in p.need
    ensures forall j, a | 0 <= j < |s.visits| && a in p.need && Edge(g, a, s.visits[j]) :: a in s.visits[..j]
  {
    forall k ensures k in s.visits <==> k in p.need {
      if k in s.visits {
        var i :| 0 <= i < |s.visits| && s.visits[i] == k;
      }
      if k in p.need {
        assert s.visits[s.place[k]] == k;
      }
    }
    forall i, j | 0 <= i < j < |s.visits| ensures s.visits[i] != s.visits[j] {
      assert s.place[s.visits[i]] == i && s.place[s.visits[j]] == j;
    }
    forall j, a | 0 <= j < |s.visits| && a in p.need && Edge(g, a, s.visits[j]) ensures a in s.visits[..j] {
      assert s.visits[j] in s.place && s.place[s.visits[j]] == j;
      assert s.visits[..j][s.place[a]] == a;
    }
  }

  lemma PlanHoldsReachable<L>(g: Graph<L>, root: Ptr, p: Plan)
    requires IsPlan(g, root, p)
    ensures forall k | Reaches(g, root, k) :: k in p.need
    ensures !SetupPass.HasCycle(g, root)
  {
    assert OpenPlan(p, 0);
    forall k | Reaches(g, root, k) ensures k in p.need {
      ReachesStaysInside(g, root, k, p.need.Keys);
    }
    forall w | Reaches(g, root, if |w| > 0 then w[0] else 0) && |w| > 0 ensures !IsCycle(g, w) {
      SetupPass.NoCycleInOrder(g, p.rank, w);
    }
  }

  lemma OneEdgeGrows(v0: map<nat, bool>, v1: map<nat, bool>, p0: map<nat, nat>, p1: map<nat, nat>, p2: map<nat, nat>, n: nat, i: nat)
    requires n in v0 && p1 == p0[n := i + 1] && SetupPass.Grows(v0, v1, p1, p2, -1)
    ensures SetupPass.Grows(v0, v1, p0, p2, n) && n in v1 && v1[n] == v0[n] && At(p2, n) == i + 1
  {
    forall k | k in v0 && k != n ensures At(p2, k) == At(p0, k) {
      assert At(p1, k) == At(p0, k);
    }
    assert At(p1, n) == i + 1;
  }
}
