/** Counting the edges of a graph that a traversal has followed so far. */
module EdgeCount {
  import opened IrGraph
  import opened Collections

  /** How often `n` occurs among the child pointers `ps`. */
  ghost function Count(ps: seq<Ptr>, n: nat): nat {
    if ps == [] then 0
    else Count(ps[..|ps| - 1], n) + if ps[|ps| - 1] == To(n) then 1 else 0
  }

  ghost function At(prog: map<nat, nat>, k: nat): nat {
    if k in prog then prog[k] else 0
  }

  /** `prog` says for each node how many of its child pointers have been followed. */
  ghost predicate IsProgress<L>(g: Graph<L>, order: seq<nat>, prog: map<nat, nat>) {
    forall k | k in order :: k in g && At(prog, k) <= |g[k].children|
  }

  /** The number of edges into `n` that have been followed. */
  ghost function Followed<L>(g: Graph<L>, order: seq<nat>, prog: map<nat, nat>, n: nat): nat
    requires IsProgress(g, order, prog)
  {
    if order == [] then 0
    else
      var k := order[|order| - 1];
      Followed(g, order[..|order| - 1], prog, n) + Count(g[k].children[..At(prog, k)], n)
  }

  lemma {:induction false} CountMono(ps: seq<Ptr>, i: nat, n: nat)
    requires i <= |ps|
    ensures Count(ps[..i], n) <= Count(ps, n)
    ensures i == 0 && To(n) in ps ==> Count(ps[..i], n) < Count(ps, n)
  {
    if i == |ps| {
      assert ps[..i] == ps;
    } else {
      assert ps[..|ps| - 1][..i] == ps[..i];
      CountMono(ps[..|ps| - 1], i, n);
    }
  }

  lemma {:induction false} CountZero(ps: seq<Ptr>, n: nat)
    requires To(n) !in ps
    ensures Count(ps, n) == 0
  {
    if ps != [] {
      CountZero(ps[..|ps| - 1], n);
    }
  }

  /** Progress at nodes outside `order` does not matter. */
  lemma {:induction false} FollowedAgrees<L>(g: Graph<L>, order: seq<nat>, prog: map<nat, nat>, prog': map<nat, nat>, n: nat)
    requires IsProgress(g, order, prog) && IsProgress(g, order, prog')
    requires forall k | k in order :: At(prog, k) == At(prog', k)
    ensures Followed(g, order, prog, n) == Followed(g, order, prog', n)
  {
    if order != [] {
      FollowedAgrees(g, order[..|order| - 1], prog, prog', n);
    }
  }

  /** Following one more edge of `p` counts for the node it leads to and for no other. */
  lemma {:induction false} FollowedStep<L>(g: Graph<L>, order: seq<nat>, prog: map<nat, nat>, p: nat, n: nat)
    requires IsProgress(g, order, prog) && NoDuplicates(order) && p in order
    requires At(prog, p) < |g[p].children|
    ensures IsProgress(g, order, prog[p := At(prog, p) + 1])
    ensures Followed(g, order, prog[p := At(prog, p) + 1], n)
         == Followed(g, order, prog, n) + if g[p].children[At(prog, p)] == To(n) then 1 else 0
  {
    var next := prog[p := At(prog, p) + 1];
    var last := |order| - 1;
    assert IsProgress(g, order[..last], next);
    if order[last] == p {
      assert p !in order[..last];
      FollowedAgrees(g, order[..last], prog, next, n);
      assert g[p].children[..At(next, p)][..At(prog, p)] == g[p].children[..At(prog, p)];
    } else {
      assert p in order[..last];
      FollowedStep(g, order[..last], prog, p, n);
    }
  }

  /** A node just added has followed no edge. */
  lemma FollowedAppend<L>(g: Graph<L>, order: seq<nat>, prog: map<nat, nat>, p: nat, n: nat)
    requires IsProgress(g, order, prog) && p in g && p !in prog
    ensures IsProgress(g, order + [p], prog)
    ensures Followed(g, order + [p], prog, n) == Followed(g, order, prog, n)
  {
    assert (order + [p])[..|order|] == order;
  }

  ghost predicate Below(order: seq<nat>, prog: map<nat, nat>, prog': map<nat, nat>) {
    forall k | k in order :: At(prog, k) <= At(prog', k)
  }

  lemma {:induction false} FollowedMono<L>(g: Graph<L>, order: seq<nat>, prog: map<nat, nat>, prog': map<nat, nat>, n: nat)
    requires IsProgress(g, order, prog) && IsProgress(g, order, prog') && Below(order, prog, prog')
    ensures Followed(g, order, prog, n) <= Followed(g, order, prog', n)
  {
    if order != [] {
      var k := order[|order| - 1];
      FollowedMono(g, order[..|order| - 1], prog, prog', n);
      var ps := g[k].children[..At(prog', k)];
      assert ps[..At(prog, k)] == g[k].children[..At(prog, k)];
      CountMono(ps, At(prog, k), n);
    }
  }

  /** If every edge into `n` has been followed, every node with such an edge has begun. */
  lemma {:induction false} AllFollowed<L>(g: Graph<L>, order: seq<nat>, prog: map<nat, nat>, full: map<nat, nat>, n: nat, p: nat)
    requires IsProgress(g, order, prog) && IsProgress(g, order, full) && Below(order, prog, full)
    requires Followed(g, order, prog, n) == Followed(g, order, full, n)
    requires p in order && At(full, p) == |g[p].children| && To(n) in g[p].children
    ensures At(prog, p) > 0
  {
    var last := |order| - 1;
    var k := order[last];
    var ps := g[k].children[..At(full, k)];
    assert ps[..At(prog, k)] == g[k].children[..At(prog, k)];
    CountMono(ps, At(prog, k), n);
    FollowedMono(g, order[..last], prog, full, n);
    if k != p {
      AllFollowed(g, order[..last], prog, full, n, p);
    } else {
      assert ps == g[p].children;
    }
  }

  /** If every node with an edge into `n` is through with its children, every such edge has been followed. */
  lemma {:induction false} FollowedAll<L>(g: Graph<L>, order: seq<nat>, prog: map<nat, nat>, full: map<nat, nat>, n: nat)
    requires IsProgress(g, order, prog) && IsProgress(g, order, full) && Below(order, prog, full)
    requires forall p | p in order && To(n) in g[p].children :: At(prog, p) == At(full, p)
    ensures Followed(g, order, prog, n) == Followed(g, order, full, n)
  {
    if order != [] {
      var k := order[|order| - 1];
      FollowedAll(g, order[..|order| - 1], prog, full, n);
      if To(n) !in g[k].children {
        CountZero(g[k].children[..At(prog, k)], n);
        CountZero(g[k].children[..At(full, k)], n);
      }
    }
  }
}
