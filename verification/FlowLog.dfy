/** How the state of a `ControlFlowVisitor` flows through a traversal: what each visit starts from,
    sends along each edge, gets back and ends with, and what arrives at each node along which edge. */
module FlowLog {
  import opened IrGraph
  import opened Collections
  import opened Wrappers

  /** A child pointer of a node. */
  datatype Edge = Edge(from: nat, index: nat)

  /** One visit. `exit` is there once it has ended. */
  datatype Visit<S> = Visit(entry: S, via: Option<Edge>, sent: seq<S>, left: seq<S>, exit: Option<S>)

  /** The root gets the initial state along no edge. */
  datatype Arrival<S> = Arrival(edge: Option<Edge>, state: S)

  datatype Log<S> = Log(visits: map<nat, Visit<S>>, arrivals: map<nat, seq<Arrival<S>>>)

  /** The children of a node from `first` to `end` are branches: each of them is visited by a clone of the visitor
      as it was before the first one, and the clones are merged. No branches if `first == end`. */
  datatype Branches = Branches(first: nat, end: nat)

  ghost predicate BranchesFit<L>(g: Graph<L>, branches: nat -> Branches) {
    forall k {:trigger branches(k)} | k in g :: branches(k).first <= branches(k).end <= |g[k].children|
  }

  /** What is fixed during a traversal. */
  datatype Setup<L, !S> = Setup(g: Graph<L>, root: Ptr, initial: S, pre: (nat, S) -> S, post: (nat, S) -> S,
                                branches: nat -> Branches, merge: (S, S) -> S)

  ghost function At<S>(f: Log<S>, c: nat): seq<Arrival<S>> {
    if c in f.arrivals then f.arrivals[c] else []
  }

  /** The state before edge `i` of node `k` is followed, or at the end. */
  ghost function Before<L, S>(u: Setup<L, S>, v: Visit<S>, k: nat, i: nat): S
    requires i <= |v.left|
  {
    var b := u.branches(k);
    if b.first < i < b.end then After(u, v, k, b.first)
    else if b.first < b.end == i then Fold(u.merge, v.left[b.first..b.end])
    else After(u, v, k, i)
  }

  /** The state in which the last of the first `i` edges left the visitor that followed it. */
  ghost function After<L, S>(u: Setup<L, S>, v: Visit<S>, k: nat, i: nat): S
    requires i <= |v.left|
  {
    if i == 0 then u.pre(k, v.entry) else v.left[i - 1]
  }

  /** The visit of `c` was entered along edge `e`. */
  ghost predicate EnteredBy<S>(f: Log<S>, c: nat, e: Edge) {
    c in f.visits && f.visits[c].via == Some(e)
  }

  /** The state after edge `i` of node `k`: that in which the visit of the child ended, if it was visited
      along this edge; else the state is as before. Either way it has arrived at the child. */
  ghost predicate LeftOk<L, S>(u: Setup<L, S>, f: Log<S>, k: nat, i: nat)
    requires k in f.visits && k in u.g && i < |f.visits[k].left| && i < |f.visits[k].sent| && i < |u.g[k].children|
  {
    var v, c := f.visits[k], u.g[k].children[i];
    if c.To? && EnteredBy(f, c.id, Edge(k, i)) then f.visits[c.id].exit == Some(v.left[i]) else v.left[i] == v.sent[i]
  }

  ghost predicate VisitOk<L, S>(u: Setup<L, S>, f: Log<S>, k: nat)
    requires k in f.visits
  {
    var v := f.visits[k];
    && k in u.g && |v.left| <= |v.sent| <= |v.left| + 1 && |v.sent| <= |u.g[k].children|
    && (forall i {:trigger v.sent[i]} | 0 <= i < |v.sent| :: v.sent[i] == Before(u, v, k, i) && Arrived(u, f, k, i, |v.left|))
    && (forall i {:trigger LeftOk(u, f, k, i)} | 0 <= i < |v.left| :: LeftOk(u, f, k, i))
    && (v.exit.Some? ==> |v.left| == |u.g[k].children| && v.exit == Some(u.post(k, Before(u, v, k, |v.left|))))
  }

  /** A state that has been sent along an edge has arrived, once the edge has been followed. */
  ghost predicate Arrived<L, S>(u: Setup<L, S>, f: Log<S>, k: nat, i: nat, done: nat)
    requires k in f.visits && k in u.g && i < |f.visits[k].sent| <= |u.g[k].children|
  {
    var c := u.g[k].children[i];
    i < done && c.To? ==> Arrival(Some(Edge(k, i)), f.visits[k].sent[i]) in At(f, c.id)
  }

  /** What arrived was sent, to this node. */
  ghost predicate Sent<L, S>(u: Setup<L, S>, f: Log<S>, c: nat, a: Arrival<S>) {
    match a.edge
    case None => u.root == To(c) && a.state == u.initial
    case Some(Edge(k, i)) =>
      k in f.visits && i < |f.visits[k].sent| && f.visits[k].sent[i] == a.state && k in u.g && i < |u.g[k].children| && u.g[k].children[i] == To(c)
  }

  ghost predicate ArrivalsOk<L, S>(u: Setup<L, S>, f: Log<S>, c: nat) {
    var s := At(f, c);
    && (forall x {:trigger s[x]} | 0 <= x < |s| :: Sent(u, f, c, s[x]))
    && (forall x, y {:trigger s[x], s[y]} | 0 <= x < y < |s| :: s[x].edge != s[y].edge)
    && (c in f.visits ==> s != [] && s[|s| - 1].edge == f.visits[c].via)
  }

  /** Mentioned in a proof to look inside `FlowOk`; always true. */
  ghost predicate Open<S>(f: Log<S>, z: nat) {
    true
  }

  ghost predicate FlowOk<L, S>(u: Setup<L, S>, f: Log<S>) {
    forall z {:trigger Open(f, z)} | Open(f, z) ::
      && (forall k {:trigger VisitOk(u, f, k)} | k in f.visits :: VisitOk(u, f, k))
      && (forall c {:trigger ArrivalsOk(u, f, c)} :: ArrivalsOk(u, f, c))
  }

  /** Later logs have more; only the visit of `n` may have gone on, and visits that are new have ended. */
  ghost predicate Grows<S>(f: Log<S>, f': Log<S>, n: int) {
    && (forall k {:trigger k in f.visits} {:trigger f.visits[k]} | k in f.visits :: k in f'.visits && (k != n ==> f'.visits[k] == f.visits[k]))
    && (forall k {:trigger k in f'.visits} | k in f'.visits && k !in f.visits :: f'.visits[k].exit.Some?)
    && (forall c {:trigger At(f', c)} :: At(f, c) <= At(f', c))
  }

  lemma GrowsOn<S>(f: Log<S>, f': Log<S>, f'': Log<S>, n: int)
    requires Grows(f, f', n) && Grows(f', f'', n) && (n >= 0 ==> n in f.visits)
    ensures Grows(f, f'', n)
  {
    forall c ensures At(f, c) <= At(f'', c) {
      assert At(f, c) <= At(f', c) <= At(f'', c);
    }
  }

  /** The state that reaches node `n` along `edge` is one that has just been sent, or the initial one. */
  ghost predicate Incoming<L, S>(u: Setup<L, S>, f: Log<S>, n: nat, edge: Option<Edge>, state: S) {
    && (forall x {:trigger At(f, n)[x]} | 0 <= x < |At(f, n)| :: At(f, n)[x].edge != edge)
    && match edge
       case None => u.root == To(n) && state == u.initial
       case Some(Edge(k, i)) =>
         && k in f.visits && k in u.g && f.visits[k].exit.None?
         && |f.visits[k].left| == i < |f.visits[k].sent| && f.visits[k].sent[i] == state
         && i < |u.g[k].children| && u.g[k].children[i] == To(n)
  }

  /** All branches of a node are entered in the same state. */
  lemma BranchesAlike<L, S>(u: Setup<L, S>, f: Log<S>, k: nat, i: nat)
    requires FlowOk(u, f) && k in f.visits && u.branches(k).first <= i < u.branches(k).end && i < |f.visits[k].sent|
    ensures f.visits[k].sent[i] == f.visits[k].sent[u.branches(k).first]
  {
    assert Open(f, 0) && VisitOk(u, f, k);
    var v := f.visits[k];
    assert v.sent[i] == Before(u, v, k, i) && v.sent[u.branches(k).first] == Before(u, v, k, u.branches(k).first);
  }

  /** The state that an ended visit of `k` was in after its last edge. */
  ghost predicate EndedIn<L, S>(u: Setup<L, S>, v: Visit<S>, k: nat, last: S) {
    v.exit == Some(u.post(k, last))
  }

  /** An ended visit, step by step: preorder comes first and postorder last; each edge gets what came back from the one
      before, except that branches all get what the first one gets, and what follows them gets their results merged;
      from a child that was entered along the edge its exit state comes back, and else what was sent. */
  lemma VisitExactly<L, S>(u: Setup<L, S>, f: Log<S>, k: nat)
    requires FlowOk(u, f) && k in f.visits && f.visits[k].exit.Some?
    requires var b := u.branches(k); b.first <= b.end <= |f.visits[k].sent|
    ensures k in u.g && |f.visits[k].sent| == |f.visits[k].left| == |u.g[k].children|
    ensures var v, b, n := f.visits[k], u.branches(k), |u.g[k].children|;
            && (n > 0 ==> v.sent[0] == u.pre(k, v.entry))
            && (n == 0 ==> EndedIn(u, v, k, u.pre(k, v.entry)))
            && (forall i | 0 < i < n && !(b.first < i <= b.end) :: v.sent[i] == v.left[i - 1])
            && (forall i | b.first <= i < b.end :: v.sent[i] == v.sent[b.first])
            && (b.first < b.end < n ==> v.sent[b.end] == Fold(u.merge, v.left[b.first..b.end]))
            && (b.first < b.end == n ==> EndedIn(u, v, k, Fold(u.merge, v.left[b.first..b.end])))
            && (n > 0 && !(b.first < b.end == n) ==> EndedIn(u, v, k, v.left[n - 1]))
    ensures var v := f.visits[k];
            forall i {:trigger v.left[i]} | 0 <= i < |v.left| ::
              var c := u.g[k].children[i];
              if c.To? && c.id in f.visits && f.visits[c.id].via == Some(Edge(k, i)) then f.visits[c.id].exit == Some(v.left[i])
              else v.left[i] == v.sent[i]
  {
    assert Open(f, 0) && VisitOk(u, f, k);
    var v, b, n := f.visits[k], u.branches(k), |u.g[k].children|;
    assert forall i {:trigger v.sent[i]} | 0 <= i < n :: v.sent[i] == Before(u, v, k, i);
    forall i {:trigger v.left[i]} | 0 <= i < |v.left|
      ensures
        var c := u.g[k].children[i];
        if c.To? && c.id in f.visits && f.visits[c.id].via == Some(Edge(k, i)) then f.visits[c.id].exit == Some(v.left[i])
        else v.left[i] == v.sent[i]
    {
      assert LeftOk(u, f, k, i);
    }
    assert b.first < b.end == n ==> v.left[b.first..b.end] == v.left[b.first..n];
  }

  // The steps.

  lemma StartOk<L, S>(u: Setup<L, S>)
    ensures FlowOk(u, Log(map[], map[]))
  {
  }

  ghost function Arrive<S>(f: Log<S>, n: nat, edge: Option<Edge>, state: S): Log<S> {
    f.(arrivals := f.arrivals[n := At(f, n) + [Arrival(edge, state)]])
  }

  lemma ArriveOk<L, S>(u: Setup<L, S>, f: Log<S>, n: nat, edge: Option<Edge>, state: S)
    requires FlowOk(u, f) && n !in f.visits && Incoming(u, f, n, edge, state)
    ensures FlowOk(u, Arrive(f, n, edge, state)) && Grows(f, Arrive(f, n, edge, state), -1)
  {
    assert Open(f, 0);
    var f' := Arrive(f, n, edge, state);
    forall c ensures ArrivalsOk(u, f', c) && At(f, c) <= At(f', c) {
      assert ArrivalsOk(u, f, c);
    }
    forall k | k in f'.visits ensures VisitOk(u, f', k) {
      StillOk(u, f, f', k);
    }
  }

  /** A visit is not affected by more arrivals and by new visits entered along other edges. */
  lemma StillOk<L, S>(u: Setup<L, S>, f: Log<S>, f': Log<S>, k: nat)
    requires k in f.visits && VisitOk(u, f, k) && k in f'.visits && f'.visits[k] == f.visits[k]
    requires forall c :: At(f, c) <= At(f', c)
    requires forall c | c in f.visits :: c in f'.visits && f'.visits[c].via == f.visits[c].via
    requires forall c | c in f.visits && f.visits[c].exit.Some? :: f'.visits[c].exit == f.visits[c].exit
    requires forall c, i: nat | c in f'.visits && c !in f.visits && f'.visits[c].via == Some(Edge(k, i)) :: i >= |f.visits[k].left|
    ensures VisitOk(u, f', k)
  {
    var v := f.visits[k];
    forall i | 0 <= i < |v.sent| ensures Arrived(u, f', k, i, |v.left|) && v.sent[i] == Before(u, v, k, i) {
      assert v.sent[i] == Before(u, v, k, i) && Arrived(u, f, k, i, |v.left|);
      var c := u.g[k].children[i];
      if c.To? {
        assert At(f, c.id) <= At(f', c.id);
      }
    }
    forall i | 0 <= i < |v.left| ensures LeftOk(u, f', k, i) {
      assert LeftOk(u, f, k, i);
    }
  }

  ghost function Enter<S>(f: Log<S>, n: nat, edge: Option<Edge>, entry: S): Log<S> {
    f.(visits := f.visits[n := Visit(entry, edge, [], [], None)])
  }

  lemma EnterOk<L, S>(u: Setup<L, S>, f: Log<S>, n: nat, edge: Option<Edge>, entry: S)
    requires FlowOk(u, f) && n !in f.visits && n in u.g
    requires At(f, n) != [] && At(f, n)[|At(f, n)| - 1].edge == edge
    requires edge.Some? ==> edge.value.from in f.visits && edge.value.index == |f.visits[edge.value.from].left|
    ensures FlowOk(u, Enter(f, n, edge, entry))
  {
    assert Open(f, 0);
    var f' := Enter(f, n, edge, entry);
    forall k | k in f'.visits ensures VisitOk(u, f', k) {
      if k in f.visits {
        StillOk(u, f, f', k);
      }
    }
    forall c ensures ArrivalsOk(u, f', c) {
      assert ArrivalsOk(u, f, c);
    }
  }

  ghost function With<S>(f: Log<S>, n: nat, v: Visit<S>): Log<S> {
    f.(visits := f.visits[n := v])
  }

  /** Arrivals are not affected by a visit that goes on. */
  lemma ArrivalsStay<L, S>(u: Setup<L, S>, f: Log<S>, n: nat, v: Visit<S>, c: nat)
    requires ArrivalsOk(u, f, c) && n in f.visits && f.visits[n].sent <= v.sent && v.via == f.visits[n].via
    ensures ArrivalsOk(u, With(f, n, v), c)
  {
    var s := At(f, c);
    forall x | 0 <= x < |s| ensures Sent(u, With(f, n, v), c, s[x]) {
      assert Sent(u, f, c, s[x]);
    }
  }

  /** A state is sent along the next edge of `n`. */
  lemma SendOk<L, S>(u: Setup<L, S>, f: Log<S>, n: nat, state: S)
    requires FlowOk(u, f) && n in f.visits && n in u.g
    requires var v := f.visits[n]; |v.sent| == |v.left| < |u.g[n].children| && v.exit.None? && state == Before(u, v, n, |v.left|)
    ensures var v := f.visits[n];
            var f' := With(f, n, v.(sent := v.sent + [state]));
            && FlowOk(u, f')
            && (u.g[n].children[|v.left|].To? ==> Incoming(u, f', u.g[n].children[|v.left|].id, Some(Edge(n, |v.left|)), state))
  {
    assert Open(f, 0);
    var v := f.visits[n];
    var v' := v.(sent := v.sent + [state]);
    var f' := With(f, n, v');
    assert VisitOk(u, f, n);
    forall k | k in f'.visits ensures VisitOk(u, f', k) {
      if k != n {
        StillOk(u, f, f', k);
      } else {
        MoreSentOk(u, f, f', n);
      }
    }
    forall c ensures ArrivalsOk(u, f', c) {
      ArrivalsStay(u, f, n, v', c);
    }
    var c := u.g[n].children[|v.left|];
    if c.To? {
      assert ArrivalsOk(u, f, c.id);
      forall x | 0 <= x < |At(f', c.id)| ensures At(f', c.id)[x].edge != Some(Edge(n, |v.left|)) {
        assert Sent(u, f, c.id, At(f, c.id)[x]);
      }
    }
  }

  lemma MoreSentOk<L, S>(u: Setup<L, S>, f: Log<S>, f': Log<S>, n: nat)
    requires n in f.visits && VisitOk(u, f, n)
    requires var v := f.visits[n]; |v.sent| == |v.left| < |u.g[n].children| && v.exit.None?
    requires f' == With(f, n, f.visits[n].(sent := f.visits[n].sent + [Before(u, f.visits[n], n, |f.visits[n].left|)]))
    ensures VisitOk(u, f', n)
  {
    var v, v' := f.visits[n], f'.visits[n];
    forall i | 0 <= i < |v'.sent| ensures v'.sent[i] == Before(u, v', n, i) && Arrived(u, f', n, i, |v'.left|) {
      if i < |v.sent| {
        assert v.sent[i] == Before(u, v, n, i) && Arrived(u, f, n, i, |v.left|);
      }
    }
    forall i | 0 <= i < |v'.left| ensures LeftOk(u, f', n, i) {
      assert LeftOk(u, f, n, i);
    }
  }

  /** The edge has been followed, and `state` is what came back. */
  lemma ReturnOk<L, S>(u: Setup<L, S>, f: Log<S>, n: nat, state: S)
    requires FlowOk(u, f) && n in f.visits && n in u.g
    requires var v := f.visits[n]; |v.left| < |v.sent| <= |u.g[n].children| && v.exit.None?
    requires var v, c := f.visits[n], u.g[n].children[|f.visits[n].left|];
             && (c.To? ==> Arrival(Some(Edge(n, |v.left|)), v.sent[|v.left|]) in At(f, c.id))
             && (if c.To? && EnteredBy(f, c.id, Edge(n, |v.left|)) then f.visits[c.id].exit == Some(state) else state == v.sent[|v.left|])
    ensures FlowOk(u, With(f, n, f.visits[n].(left := f.visits[n].left + [state])))
  {
    assert Open(f, 0);
    var v := f.visits[n];
    var v' := v.(left := v.left + [state]);
    var f' := With(f, n, v');
    assert VisitOk(u, f, n);
    forall k | k in f'.visits ensures VisitOk(u, f', k) {
      if k != n {
        StillOk(u, f, f', k);
      } else {
        ReturnedOk(u, f, n, state);
      }
    }
    forall c ensures ArrivalsOk(u, f', c) {
      ArrivalsStay(u, f, n, v', c);
    }
  }

  /** What has not been followed yet does not matter. */
  lemma SameBefore<L, S>(u: Setup<L, S>, v: Visit<S>, v': Visit<S>, k: nat, i: nat)
    requires i <= |v.left| && v.left <= v'.left && v.entry == v'.entry
    ensures Before(u, v', k, i) == Before(u, v, k, i)
  {
    var b := u.branches(k);
    if b.first < b.end == i {
      assert v'.left[b.first..b.end] == v.left[b.first..b.end];
    }
  }

  lemma ReturnedOk<L, S>(u: Setup<L, S>, f: Log<S>, n: nat, state: S)
    requires n in f.visits && VisitOk(u, f, n)
    requires var v := f.visits[n]; |v.left| < |v.sent| <= |u.g[n].children| && v.exit.None?
    requires var v, c := f.visits[n], u.g[n].children[|f.visits[n].left|];
             && (c.To? ==> Arrival(Some(Edge(n, |v.left|)), v.sent[|v.left|]) in At(f, c.id))
             && (if c.To? && EnteredBy(f, c.id, Edge(n, |v.left|)) then f.visits[c.id].exit == Some(state) else state == v.sent[|v.left|])
    ensures VisitOk(u, With(f, n, f.visits[n].(left := f.visits[n].left + [state])), n)
  {
    var v := f.visits[n];
    var v' := v.(left := v.left + [state]);
    var f' := With(f, n, v');
    forall i | 0 <= i < |v'.sent| ensures v'.sent[i] == Before(u, v', n, i) && Arrived(u, f', n, i, |v'.left|) {
      assert v.sent[i] == Before(u, v, n, i) && Arrived(u, f, n, i, |v.left|);
      SameBefore(u, v, v', n, i);
    }
    forall i | 0 <= i < |v'.left| ensures LeftOk(u, f', n, i) {
      assert i < |v.left| ==> LeftOk(u, f, n, i);
    }
  }

  /** The visit ends. */
  lemma ExitOk<L, S>(u: Setup<L, S>, f: Log<S>, n: nat, state: S)
    requires FlowOk(u, f) && n in f.visits && n in u.g && f.visits[n].exit.None?
    requires |f.visits[n].left| == |u.g[n].children| && state == u.post(n, Before(u, f.visits[n], n, |f.visits[n].left|))
    ensures FlowOk(u, With(f, n, f.visits[n].(exit := Some(state))))
  {
    assert Open(f, 0);
    var v := f.visits[n];
    var v' := v.(exit := Some(state));
    var f' := With(f, n, v');
    assert VisitOk(u, f, n);
    forall k | k in f'.visits ensures VisitOk(u, f', k) {
      if k != n {
        StillOk(u, f, f', k);
      } else {
        forall i | 0 <= i < |v'.sent| ensures v'.sent[i] == Before(u, v', n, i) && Arrived(u, f', n, i, |v'.left|) {
          assert v.sent[i] == Before(u, v, n, i) && Arrived(u, f, n, i, |v.left|);
        }
        forall i | 0 <= i < |v'.left| ensures LeftOk(u, f', n, i) {
          assert LeftOk(u, f, n, i);
        }
      }
    }
    forall c ensures ArrivalsOk(u, f', c) {
      ArrivalsStay(u, f, n, v', c);
    }
  }
}
