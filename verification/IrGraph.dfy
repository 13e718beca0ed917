/** IR graphs: nodes that share children through pointers, walks over them, and
    the trees that acyclic parts of a graph unfold to. */
module IrGraph {

  /** A `const IR::Node *`: children of an IR node may be null. */
  datatype Ptr = Null | To(id: nat)

  /** The fields of a node that matter to a traversal. */
  datatype Node<L> = Node(data: L, children: seq<Ptr>)

  type Graph<L> = map<nat, Node<L>>

  /** Every non-null child pointer leads to a node of the graph. */
  ghost predicate Closed<L>(g: Graph<L>) {
    forall n, i | n in g && 0 <= i < |g[n].children| :: InGraph(g, g[n].children[i])
  }

  predicate InGraph<L>(g: Graph<L>, p: Ptr) {
    p.To? ==> p.id in g
  }

  predicate Edge<L>(g: Graph<L>, a: nat, b: nat) {
    a in g && To(b) in g[a].children
  }

  /** `w` follows edges of `g`. */
  ghost predicate Walk<L>(g: Graph<L>, w: seq<nat>) {
    |w| > 0 && forall i | 0 < i < |w| :: Edge(g, w[i - 1], w[i])
  }

  ghost predicate WalkBetween<L>(g: Graph<L>, w: seq<nat>, a: nat, b: nat) {
    Walk(g, w) && w[0] == a && w[|w| - 1] == b
  }

  ghost predicate Reaches<L>(g: Graph<L>, a: Ptr, b: nat) {
    a.To? && exists w :: WalkBetween(g, w, a.id, b)
  }

  /** A walk with at least one edge that comes back to where it started. */
  ghost predicate IsCycle<L>(g: Graph<L>, w: seq<nat>) {
    Walk(g, w) && |w| > 1 && w[0] == w[|w| - 1]
  }

  lemma ReachesSelf<L>(g: Graph<L>, a: nat)
    ensures Reaches(g, To(a), a)
  {
    assert WalkBetween(g, [a], a, a);
  }

  lemma ReachesStep<L>(g: Graph<L>, a: Ptr, b: nat, c: nat)
    requires Reaches(g, a, b) && Edge(g, b, c)
    ensures Reaches(g, a, c)
  {
    var w :| WalkBetween(g, w, a.id, b);
    assert WalkBetween(g, w + [c], a.id, c);
  }

  /** A set that holds the start and is closed under edges holds all that is reachable. */
  lemma ReachesStaysInside<L>(g: Graph<L>, a: Ptr, b: nat, s: set<nat>)
    requires Reaches(g, a, b) && a.id in s
    requires forall x, y | x in s && Edge(g, x, y) :: y in s
    ensures b in s
  {
    var w :| WalkBetween(g, w, a.id, b);
    WalkStaysInside(g, w, s);
  }

  lemma {:induction false} WalkStaysInside<L>(g: Graph<L>, w: seq<nat>, s: set<nat>)
    requires Walk(g, w) && w[0] in s
    requires forall x, y | x in s && Edge(g, x, y) :: y in s
    ensures w[|w| - 1] in s
  {
    if |w| > 1 {
      assert Edge(g, w[0], w[1]);
      assert Walk(g, w[1..]) by {
        forall i | 0 < i < |w[1..]| ensures Edge(g, w[1..][i - 1], w[1..][i]) {
          assert Edge(g, w[i + 1 - 1], w[i + 1]);
        }
      }
      WalkStaysInside(g, w[1..], s);
    }
  }

  /** What a pointer stands for once all sharing is forgotten. */
  datatype Tree<L> = Nil | Branch(data: L, kids: seq<Tree<L>>)

  /** `p` unfolds to the finite tree `t`. */
  ghost predicate Unfolds<L>(g: Graph<L>, p: Ptr, t: Tree<L>)
    decreases t
  {
    match t
    case Nil => p == Null
    case Branch(l, ks) =>
      && p.To?
      && p.id in g
      && g[p.id].data == l
      && |g[p.id].children| == |ks|
      && forall i | 0 <= i < |ks| :: Unfolds(g, g[p.id].children[i], ks[i])
  }

  /** True of acyclic parts of a graph: only these unfold to a finite tree. */
  ghost predicate HasTree<L(!new)>(g: Graph<L>, p: Ptr) {
    exists t :: Unfolds(g, p, t)
  }

  ghost function TreeOf<L(!new)>(g: Graph<L>, p: Ptr): (t: Tree<L>)
    requires HasTree(g, p)
    ensures Unfolds(g, p, t)
  {
    var t :| Unfolds(g, p, t);
    t
  }

  /** A pointer unfolds to at most one tree. */
  lemma {:induction false} UnfoldsUnique<L>(g: Graph<L>, p: Ptr, t: Tree<L>, u: Tree<L>)
    requires Unfolds(g, p, t) && Unfolds(g, p, u)
    ensures t == u
    decreases t
  {
    if t.Branch? && u.Branch? {
      forall i | 0 <= i < |t.kids| ensures t.kids[i] == u.kids[i] {
        UnfoldsUnique(g, g[p.id].children[i], t.kids[i], u.kids[i]);
      }
      assert t.kids == u.kids;
    }
  }

  ghost predicate Extends<L>(g: Graph<L>, h: Graph<L>) {
    forall k {:trigger k in g} {:trigger g[k]} | k in g :: k in h && h[k] == g[k]
  }

  /** Adding nodes to a graph changes no unfolding. */
  lemma {:induction false} UnfoldsInExtension<L>(g: Graph<L>, h: Graph<L>, p: Ptr, t: Tree<L>)
    requires Unfolds(g, p, t) && Extends(g, h)
    ensures Unfolds(h, p, t)
    decreases t
  {
    if t.Branch? {
      forall i | 0 <= i < |t.kids| ensures Unfolds(h, h[p.id].children[i], t.kids[i]) {
        UnfoldsInExtension(g, h, g[p.id].children[i], t.kids[i]);
      }
    }
  }

  /** A node whose children all unfold unfolds itself. */
  lemma HasTreeFromChildren<L(!new)>(g: Graph<L>, n: nat)
    requires n in g
    requires forall i | 0 <= i < |g[n].children| :: HasTree(g, g[n].children[i])
    ensures HasTree(g, To(n))
    ensures |TreeOf(g, To(n)).kids| == |g[n].children|
    ensures forall i | 0 <= i < |g[n].children| :: TreeOf(g, To(n)).kids[i] == TreeOf(g, g[n].children[i])
    ensures TreeOf(g, To(n)).data == g[n].data
  {
    var ks := seq(|g[n].children|, i requires 0 <= i < |g[n].children| => TreeOf(g, g[n].children[i]));
    var t := Branch(g[n].data, ks);
    assert Unfolds(g, To(n), t);
    UnfoldsUnique(g, To(n), t, TreeOf(g, To(n)));
  }

  lemma ChildHasTree<L(!new)>(g: Graph<L>, n: nat, i: nat)
    requires HasTree(g, To(n)) && n in g && i < |g[n].children|
    ensures HasTree(g, g[n].children[i])
    ensures Height(TreeOf(g, g[n].children[i])) < Height(TreeOf(g, To(n)))
  {
    var t := TreeOf(g, To(n));
    assert Unfolds(g, g[n].children[i], t.kids[i]);
    UnfoldsUnique(g, g[n].children[i], t.kids[i], TreeOf(g, g[n].children[i]));
    MaxHeightBounds(t.kids, i);
  }

  ghost function Height<L>(t: Tree<L>): nat
    decreases t, 1
  {
    match t
    case Nil => 0
    case Branch(_, ks) => 1 + MaxHeight(ks)
  }

  ghost function MaxHeight<L>(ks: seq<Tree<L>>): nat
    decreases ks, 0
  {
    if ks == [] then 0
    else
      var first, rest := Height(ks[0]), MaxHeight(ks[1..]);
      if first > rest then first else rest
  }

  lemma {:induction false} MaxHeightBounds<L>(ks: seq<Tree<L>>, i: nat)
    requires i < |ks|
    ensures Height(ks[i]) <= MaxHeight(ks)
  {
    if i > 0 {
      MaxHeightBounds(ks[1..], i - 1);
    }
  }
}
