/** `ControlFlowVisitor::SetupJoinPoints`: an `Inspector` pass that counts, for every
    node with more than one incoming edge, how often it is reached again. */
module SetupPass {
  import opened IrGraph
  import opened Collections
  import opened EdgeCount

  /** How often a node has been reached, as the tables of the pass tell it. */
  ghost function Reached(visited: map<nat, bool>, joinPoints: map<nat, nat>, k: nat): nat {
    if k in joinPoints then joinPoints[k] + 1 else if k in visited then 1 else 0
  }

  ghost function Here(p: Ptr, k: nat): nat {
    if p == To(k) then 1 else 0
  }

  /** The incoming edges of `k` that the traversal has followed; the initial call counts as one for the root. */
  ghost function Arrivals<L>(g: Graph<L>, root: Ptr, order: seq<nat>, prog: map<nat, nat>, k: nat): nat
    requires IsProgress(g, order, prog)
  {
    Here(root, k) + Followed(g, order, prog, k)
  }

  /** Mentioned in a proof to look inside the invariants; always true. */
  ghost predicate Open(s: Snapshot, z: nat) {
    true
  }

  /** Every ranked node ranks above the nodes it has edges to: `rank` is a topological order. */
  ghost predicate ChildrenFirst<L>(g: Graph<L>, rank: map<nat, nat>) {
    && (forall k {:trigger rank[k]} | k in rank :: rank[k] < |rank|)
    && (forall k, c {:trigger Edge(g, k, c)} | k in rank && Edge(g, k, c) :: c in rank && rank[c] < rank[k])
  }

  /** The tables of the pass, and its history: nodes in the order they were started, how many
      nodes were finished before each finished one, and the number of children followed. */
  datatype Snapshot = Snapshot(visited: map<nat, bool>, joinPoints: map<nat, nat>,
                               order: seq<nat>, rank: map<nat, nat>, prog: map<nat, nat>)

  /** The tables agree with the history. */
  ghost predicate Shape<L>(g: Graph<L>, root: Ptr, s: Snapshot) {
    && IsProgress(g, s.order, s.prog) && NoDuplicates(s.order)
    && (forall k {:trigger k in s.order} {:trigger k in s.visited} :: k in s.order <==> k in s.visited)
    && s.prog.Keys <= s.visited.Keys && s.joinPoints.Keys <= s.visited.Keys
    && (forall k {:trigger s.joinPoints[k]} | k in s.joinPoints :: s.joinPoints[k] > 0)
    && (forall k {:trigger Reaches(g, root, k)} | k in s.visited :: Reaches(g, root, k))
    && (forall k {:trigger At(s.prog, k)} | k in s.visited && s.visited[k] :: At(s.prog, k) == |g[k].children|)
    && ChildrenFirst(g, s.rank)
    && (forall k {:trigger k in s.rank} {:trigger s.visited[k]} :: k in s.rank <==> k in s.visited && s.visited[k])
  }

  /** The tables know of every edge that has been followed except the one that leads to `pending`. */
  ghost predicate Counted<L>(g: Graph<L>, root: Ptr, s: Snapshot, pending: Ptr)
    requires IsProgress(g, s.order, s.prog)
  {
    forall k {:trigger Reached(s.visited, s.joinPoints, k)} ::
      Reached(s.visited, s.joinPoints, k) + Here(pending, k) == Arrivals(g, root, s.order, s.prog, k)
  }

  /** Between any two steps of the pass; `pending` is the pointer about to be visited. */
  ghost predicate Inv<L>(g: Graph<L>, root: Ptr, s: Snapshot, pending: Ptr) {
    forall z {:trigger Open(s, z)} | Open(s, z) :: Shape(g, root, s) && Counted(g, root, s, pending)
  }

  /** The nodes on `stack` lead from the root to the pointer about to be visited. */
  ghost predicate IsContext<L>(g: Graph<L>, root: Ptr, stack: seq<nat>, n: nat) {
    if stack == [] then root == To(n)
    else Walk(g, stack) && root == To(stack[0]) && Edge(g, stack[|stack| - 1], n)
  }

  lemma ContextPush<L>(g: Graph<L>, root: Ptr, stack: seq<nat>, n: nat, c: nat)
    requires IsContext(g, root, stack, n) && Edge(g, n, c)
    ensures IsContext(g, root, stack + [n], c)
    ensures Reaches(g, root, n)
  {
    var w := stack + [n];
    assert Walk(g, w);
    assert WalkBetween(g, w, root.id, n);
  }

  lemma ContextReaches<L>(g: Graph<L>, root: Ptr, stack: seq<nat>, n: nat)
    requires IsContext(g, root, stack, n)
    ensures Reaches(g, root, n)
  {
    assert WalkBetween(g, stack + [n], root.id, n);
  }

  ghost predicate HasCycle<L>(g: Graph<L>, root: Ptr) {
    exists w :: IsCycle(g, w) && Reaches(g, root, w[0])
  }

  lemma ContextCycle<L>(g: Graph<L>, root: Ptr, stack: seq<nat>, n: nat)
    requires IsContext(g, root, stack, n) && n in stack
    ensures HasCycle(g, root)
  {
    var i :| 0 <= i < |stack| && stack[i] == n;
    var w := stack[i..] + [n];
    assert IsCycle(g, w);
    assert WalkBetween(g, stack[..i + 1], root.id, n);
  }

  /** A loop and an order that puts children first exclude each other. */
  lemma NoCycleInOrder<L>(g: Graph<L>, rank: map<nat, nat>, w: seq<nat>)
    requires ChildrenFirst(g, rank) && |w| > 0 && w[0] in rank
    ensures !IsCycle(g, w)
  {
    if IsCycle(g, w) {
      WalkDescends(g, rank, w, |w| - 1);
    }
  }

  lemma {:induction false} WalkDescends<L>(g: Graph<L>, rank: map<nat, nat>, w: seq<nat>, n: nat)
    requires ChildrenFirst(g, rank) && Walk(g, w) && w[0] in rank && n < |w|
    ensures w[n] in rank && rank[w[n]] <= rank[w[0]]
    ensures n > 0 ==> rank[w[n]] < rank[w[0]]
  {
    if n > 0 {
      WalkDescends(g, rank, w, n - 1);
      assert Edge(g, w[n - 1], w[n]);
    }
  }

  /** Later states add finished nodes; only `n` may have followed more edges. */
  ghost predicate Grows(visited: map<nat, bool>, visited': map<nat, bool>, prog: map<nat, nat>, prog': map<nat, nat>, n: int) {
    && (forall k {:trigger k in visited} {:trigger visited[k]} | k in visited :: k in visited' && visited'[k] == visited[k])
    && (forall k {:trigger k in visited'} | k in visited' && k !in visited :: visited'[k])
    && (forall k {:trigger k in visited} {:trigger At(prog', k)} | k in visited && k != n :: At(prog', k) == At(prog, k))
  }

  class SetupJoinPoints<L> {
    const g: Graph<L>
    var visited: map<nat, bool>
    var joinPoints: map<nat, nat>

    ghost const root: Ptr
    ghost var order: seq<nat>
    ghost var rank: map<nat, nat>
    ghost var prog: map<nat, nat>

    constructor (g: Graph<L>, ghost root: Ptr)
      ensures this.g == g && this.root == root
      ensures visited == map[] && joinPoints == map[] && order == [] && rank == map[] && prog == map[]
    {
      this.g, this.root := g, root;
      visited, joinPoints, order, rank, prog := map[], map[], [], map[], map[];
    }

    ghost function Snap(): Snapshot
      reads this
    {
      Snapshot(visited, joinPoints, order, rank, prog)
    }

    ghost predicate Valid(pending: Ptr)
      reads this
    {
      Inv(g, root, Snap(), pending)
    }

    twostate predicate Progress()
      reads this
    {
      Grows(old(visited), visited, old(prog), prog, -1)
    }

    ghost predicate IsStack(stack: seq<nat>)
      reads this
    {
      forall k :: k in stack <==> k in visited && !visited[k]
    }

    method ApplyVisitor(n: Ptr, ghost stack: seq<nat>) returns (ok: bool)
      requires Closed(g) && InGraph(g, n) && Valid(n) && IsStack(stack)
      requires n.To? ==> IsContext(g, root, stack, n.id)
      modifies this
      ensures ok ==> Valid(Null) && Progress() && (n.To? ==> n.id in visited && visited[n.id])
      ensures !ok ==> HasCycle(g, root)
      decreases |g.Keys - visited.Keys|, 1
    {
      ok := true;
      if n.To? {
        if n.id !in visited {
          ok := VisitNewNode(n.id, stack);
        } else if !visited[n.id] {
          // loop_revisit
          ContextCycle(g, root, stack, n.id);
          ok := false;
        } else {
          // revisit
          AfterRevisit(g, root, Snap(), n.id);
          joinPoints := joinPoints[n.id := (if n.id in joinPoints then joinPoints[n.id] else 0) + 1];
        }
      }
    }

    method VisitNewNode(n: nat, ghost stack: seq<nat>) returns (ok: bool)
      requires Closed(g) && n in g && Valid(To(n)) && IsStack(stack) && n !in visited
      requires IsContext(g, root, stack, n)
      modifies this
      ensures ok ==> Valid(Null) && Progress() && n in visited && visited[n]
      ensures !ok ==> HasCycle(g, root)
      decreases |g.Keys - visited.Keys|, 0
    {
      ContextReaches(g, root, stack, n);
      AfterStart(g, root, Snap(), n);
      SmallerSet(g.Keys - visited.Keys - {n}, g.Keys - visited.Keys, n);
      assert g.Keys - visited.Keys - {n} == g.Keys - visited[n := false].Keys;
      ghost var visited0, prog0 := visited, prog;
      visited, order := visited[n := false], order + [n];
      ok := VisitChildren(n, stack);
      if ok {
        FinishNode(n, visited0, prog0);
      }
    }

    method FinishNode(n: nat, ghost visited0: map<nat, bool>, ghost prog0: map<nat, nat>)
      requires n in g && n !in visited0 && Valid(Null) && KidsDone(g, visited, prog, n, |g[n].children|)
      requires Grows(visited0[n := false], visited, prog0, prog, n)
      modifies this
      ensures Valid(Null) && n in visited && visited[n]
      ensures Grows(visited0, visited, prog0, prog, -1)
    {
      VisitComposes(visited0, visited, prog0, prog, n);
      AfterFinish(g, root, Snap(), n);
      visited, rank := visited[n := true], rank[n := |rank|];
    }

    method VisitChildren(n: nat, ghost stack: seq<nat>) returns (ok: bool)
      requires Closed(g) && n in g && Valid(Null) && IsStack(stack + [n])
      requires IsContext(g, root, stack, n) && At(prog, n) == 0
      modifies this
      ensures ok ==> Valid(Null) && KidsDone(g, visited, prog, n, |g[n].children|)
      ensures ok ==> Grows(old(visited), visited, old(prog), prog, n)
      ensures !ok ==> HasCycle(g, root)
      decreases |g.Keys - visited.Keys|, 3
    {
      assert n in (stack + [n]);
      var i := 0;
      while i < |g[n].children|
        invariant Valid(Null) && i <= |g[n].children| && KidsDone(g, visited, prog, n, i)
        invariant Grows(old(visited), visited, old(prog), prog, n)
      {
        ghost var visited0, prog0 := visited, prog;
        SubsetCardinality(g.Keys - visited.Keys, g.Keys - old(visited).Keys);
        StackStays(stack + [n], old(visited), visited, old(prog), prog, n);
        ok := VisitChild(n, i, stack);
        if !ok {
          return;
        }
        GrowsComposes(old(visited), visited0, visited, old(prog), prog0, prog, n);
        i := i + 1;
      }
      ok := true;
    }

    method VisitChild(n: nat, i: nat, ghost stack: seq<nat>) returns (ok: bool)
      requires Closed(g) && n in g && Valid(Null) && IsStack(stack + [n])
      requires IsContext(g, root, stack, n)
      requires i < |g[n].children| && KidsDone(g, visited, prog, n, i)
      modifies this
      ensures ok ==> Valid(Null) && KidsDone(g, visited, prog, n, i + 1)
      ensures ok ==> Grows(old(visited), visited, old(prog), prog, n)
      ensures !ok ==> HasCycle(g, root)
      decreases |g.Keys - visited.Keys|, 2
    {
      AfterEdge(g, root, Snap(), n);
      var c := g[n].children[i];
      if c.To? {
        ContextPush(g, root, stack, n, c.id);
      }
      assert InGraph(g, c);
      ghost var visited0, prog0 := visited, prog;
      prog := prog[n := i + 1];
      ghost var prog1 := prog;
      ok := ApplyVisitor(c, stack + [n]);
      if ok {
        EdgeComposes(g, visited0, visited, prog0, prog1, prog, n, i);
      }
    }
  }

  /** `n` has visited its first `i` children, and they are finished. */
  ghost predicate KidsDone<L>(g: Graph<L>, visited: map<nat, bool>, prog: map<nat, nat>, n: nat, i: nat) {
    && n in g && i <= |g[n].children| && At(prog, n) == i
    && n in visited && !visited[n]
    && forall j {:trigger g[n].children[j]} | 0 <= j < i && g[n].children[j].To? ::
         g[n].children[j].id in visited && visited[g[n].children[j].id]
  }

  lemma StackStays(stack: seq<nat>, visited: map<nat, bool>, visited': map<nat, bool>, prog: map<nat, nat>, prog': map<nat, nat>, n: nat)
    requires Grows(visited, visited', prog, prog', n)
    requires forall k :: k in stack <==> k in visited && !visited[k]
    ensures forall k :: k in stack <==> k in visited' && !visited'[k]
  {
    forall k ensures k in stack <==> k in visited' && !visited'[k] {
      assert k in visited ==> k in visited';
    }
  }

  lemma GrowsComposes(v0: map<nat, bool>, v1: map<nat, bool>, v2: map<nat, bool>, p0: map<nat, nat>, p1: map<nat, nat>, p2: map<nat, nat>, n: nat)
    requires Grows(v0, v1, p0, p1, n) && Grows(v1, v2, p1, p2, n)
    ensures Grows(v0, v2, p0, p2, n)
  {
    forall k | k in v0 ensures k in v2 && v2[k] == v0[k] && (k != n ==> At(p2, k) == At(p0, k)) {
      assert k in v1;
    }
    forall k | k in v2 && k !in v0 ensures v2[k] {
      assert k in v1 ==> v1[k];
    }
  }

  lemma EdgeComposes<L>(g: Graph<L>, v0: map<nat, bool>, v1: map<nat, bool>, p0: map<nat, nat>, p1: map<nat, nat>, p2: map<nat, nat>, n: nat, i: nat)
    requires KidsDone(g, v0, p0, n, i) && i < |g[n].children|
    requires p1 == p0[n := i + 1] && Grows(v0, v1, p1, p2, -1)
    requires g[n].children[i].To? ==> g[n].children[i].id in v1 && v1[g[n].children[i].id]
    ensures Grows(v0, v1, p0, p2, n) && KidsDone(g, v1, p2, n, i + 1)
  {
    forall j | 0 <= j < i && g[n].children[j].To? ensures
      g[n].children[j].id in v1 && v1[g[n].children[j].id]
    {
      assert g[n].children[j].id in v0;
    }
    forall k | k in v0 && k != n ensures At(p2, k) == At(p0, k) {
      assert At(p1, k) == At(p0, k);
    }
  }

  lemma Close<L>(g: Graph<L>, root: Ptr, s: Snapshot, pending: Ptr)
    requires Shape(g, root, s) && Counted(g, root, s, pending)
    ensures Inv(g, root, s, pending)
  {
  }

  lemma AfterRevisit<L>(g: Graph<L>, root: Ptr, s: Snapshot, n: nat)
    requires Inv(g, root, s, To(n)) && n in s.visited
    ensures Inv(g, root, s.(joinPoints := s.joinPoints[n := (if n in s.joinPoints then s.joinPoints[n] else 0) + 1]), Null)
  {
    assert Open(s, 0);
    var s' := s.(joinPoints := s.joinPoints[n := (if n in s.joinPoints then s.joinPoints[n] else 0) + 1]);
    forall k ensures Reached(s.visited, s'.joinPoints, k) + Here(Null, k) == Arrivals(g, root, s.order, s.prog, k) {
      assert Reached(s.visited, s.joinPoints, k) + Here(To(n), k) == Arrivals(g, root, s.order, s.prog, k);
    }
    Close(g, root, s', Null);
  }

  lemma AfterStart<L>(g: Graph<L>, root: Ptr, s: Snapshot, n: nat)
    requires Inv(g, root, s, To(n)) && n !in s.visited && n in g
    requires Reaches(g, root, n)
    ensures Inv(g, root, s.(visited := s.visited[n := false], order := s.order + [n]), Null)
    ensures At(s.prog, n) == 0
  {
    assert Open(s, 0);
    var s' := s.(visited := s.visited[n := false], order := s.order + [n]);
    ShapeAfterStart(g, root, s, n);
    CountedAfterStart(g, root, s, s', n);
    Close(g, root, s', Null);
  }

  lemma CountedAfterStart<L>(g: Graph<L>, root: Ptr, s: Snapshot, s': Snapshot, n: nat)
    requires IsProgress(g, s.order, s.prog) && Counted(g, root, s, To(n))
    requires n in g && n !in s.visited && n !in s.prog && n !in s.joinPoints
    requires s' == s.(visited := s.visited[n := false], order := s.order + [n])
    ensures IsProgress(g, s'.order, s'.prog) && Counted(g, root, s', Null)
  {
    FollowedAppend(g, s.order, s.prog, n, n);
    forall k ensures Reached(s'.visited, s.joinPoints, k) + Here(Null, k) == Arrivals(g, root, s'.order, s.prog, k) {
      FollowedAppend(g, s.order, s.prog, n, k);
      assert Reached(s.visited, s.joinPoints, k) + Here(To(n), k) == Arrivals(g, root, s.order, s.prog, k);
    }
  }

  lemma ShapeAfterStart<L>(g: Graph<L>, root: Ptr, s: Snapshot, n: nat)
    requires Shape(g, root, s) && n !in s.visited && n in g && Reaches(g, root, n)
    ensures Shape(g, root, s.(visited := s.visited[n := false], order := s.order + [n]))
  {
    var order := s.order + [n];
    forall k ensures k in order <==> k in s.visited[n := false] {
      assert k in order <==> k in s.order || k == n;
    }
    forall k | k in order ensures k in g && At(s.prog, k) <= |g[k].children| {
      assert k in s.order || k == n;
    }
    assert NoDuplicates(order) by {
      assert n !in s.order;
    }
  }

  lemma AfterEdge<L>(g: Graph<L>, root: Ptr, s: Snapshot, n: nat)
    requires Inv(g, root, s, Null)
    requires n in g && n in s.visited && !s.visited[n] && At(s.prog, n) < |g[n].children|
    ensures Inv(g, root, s.(prog := s.prog[n := At(s.prog, n) + 1]), g[n].children[At(s.prog, n)])
  {
    assert Open(s, 0);
    var s' := s.(prog := s.prog[n := At(s.prog, n) + 1]);
    CountedAfterEdge(g, root, s, s', n);
    Close(g, root, s', g[n].children[At(s.prog, n)]);
  }

  lemma CountedAfterEdge<L>(g: Graph<L>, root: Ptr, s: Snapshot, s': Snapshot, n: nat)
    requires IsProgress(g, s.order, s.prog) && NoDuplicates(s.order) && Counted(g, root, s, Null)
    requires n in s.order && At(s.prog, n) < |g[n].children|
    requires s' == s.(prog := s.prog[n := At(s.prog, n) + 1])
    ensures IsProgress(g, s'.order, s'.prog) && Counted(g, root, s', g[n].children[At(s.prog, n)])
  {
    FollowedStep(g, s.order, s.prog, n, n);
    forall k ensures
      Reached(s.visited, s.joinPoints, k) + Here(g[n].children[At(s.prog, n)], k) == Arrivals(g, root, s.order, s'.prog, k)
    {
      FollowedStep(g, s.order, s.prog, n, k);
      assert Reached(s.visited, s.joinPoints, k) + Here(Null, k) == Arrivals(g, root, s.order, s.prog, k);
    }
  }

  lemma AfterFinish<L>(g: Graph<L>, root: Ptr, s: Snapshot, n: nat)
    requires Inv(g, root, s, Null)
    requires n in g && KidsDone(g, s.visited, s.prog, n, |g[n].children|)
    ensures Inv(g, root, s.(visited := s.visited[n := true], rank := s.rank[n := |s.rank|]), Null)
  {
    assert Open(s, 0);
    var s' := s.(visited := s.visited[n := true], rank := s.rank[n := |s.rank|]);
    forall c | Edge(g, n, c) ensures c in s.rank {
      var j :| 0 <= j < |g[n].children| && g[n].children[j] == To(c);
      assert s.visited[g[n].children[j].id];
    }
    RankedAfterFinish(g, s.rank, n);
    CountedAfterFinish(g, root, s, s', n);
    Close(g, root, s', Null);
  }

  lemma CountedAfterFinish<L>(g: Graph<L>, root: Ptr, s: Snapshot, s': Snapshot, n: nat)
    requires IsProgress(g, s.order, s.prog) && Counted(g, root, s, Null)
    requires n in s.visited && s'.visited == s.visited[n := true]
    requires s'.joinPoints == s.joinPoints && s'.order == s.order && s'.prog == s.prog
    ensures Counted(g, root, s', Null)
  {
    forall k ensures Reached(s'.visited, s.joinPoints, k) + Here(Null, k) == Arrivals(g, root, s.order, s.prog, k) {
      assert Reached(s.visited, s.joinPoints, k) + Here(Null, k) == Arrivals(g, root, s.order, s.prog, k);
    }
  }

  lemma RankedAfterFinish<L>(g: Graph<L>, rank: map<nat, nat>, n: nat)
    requires ChildrenFirst(g, rank) && n !in rank
    requires forall c | Edge(g, n, c) :: c in rank
    ensures ChildrenFirst(g, rank[n := |rank|])
  {
    var rank' := rank[n := |rank|];
    assert rank'.Keys == rank.Keys + {n};
    assert |rank'| == |rank| + 1;
    forall k, c | k in rank' && Edge(g, k, c) ensures c in rank' && rank'[c] < rank'[k] {
      assert c in rank && c != n;
      assert rank[c] < |rank|;
    }
  }

  /** Starting `n`, visiting its children and finishing it amounts to one step forward. */
  lemma VisitComposes(visited: map<nat, bool>, visited': map<nat, bool>, prog: map<nat, nat>, prog': map<nat, nat>, n: nat)
    requires n !in visited && n in visited' && Grows(visited[n := false], visited', prog, prog', n)
    ensures Grows(visited, visited'[n := true], prog, prog', -1)
  {
    forall k | k in visited ensures k in visited' && visited'[k] == visited[k] && At(prog', k) == At(prog, k) {
      assert k in visited[n := false] && visited[n := false][k] == visited[k];
    }
    forall k | k in visited' && k !in visited && k != n ensures visited'[k] {
      assert k !in visited[n := false];
    }
  }
}
