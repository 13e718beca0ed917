/** `Modifier`: the visitor that rewrites a shared IR graph by cloning each node
    once, editing the clone in place and keeping it only when it differs. */
module IrModifier {
  import opened IrGraph
  import opened Collections

  /** What a postorder hook can see of a child it does not own: its data, after the visit. */
  datatype Kid<L> = NoKid | Kid(data: L)

  function RootData<L>(t: Tree<L>): Kid<L> {
    match t
    case Nil => NoKid
    case Branch(l, _) => Kid.Kid(l)
  }

  /** The plain recursion that a `Modifier` stands for, on trees without sharing. */
  function MapTree<L>(pre: L -> L, post: (L, seq<Kid<L>>) -> L, t: Tree<L>): Tree<L>
    decreases t
  {
    match t
    case Nil => Nil
    case Branch(l, ks) =>
      var mapped := seq(|ks|, i requires 0 <= i < |ks| => MapTree(pre, post, ks[i]));
      Branch(post(pre(l), seq(|ks|, i requires 0 <= i < |ks| => RootData(mapped[i]))), mapped)
  }

  datatype VisitInfo = VisitInfo(visitInProgress: bool, visitOnce: bool, result: Ptr)

  /** `Visitor::ChangeTracker`. */
  class ChangeTracker {
    var visited: map<nat, VisitInfo>

    constructor ()
      ensures visited == map[]
    {
      visited := map[];
    }

    method Clear()
      modifies this
      ensures visited == map[]
    {
      visited := map[];
    }

    /** Returns false where the source stops with "IR loop detected". */
    method Start(n: nat, defaultVisitOnce: bool) returns (ok: bool)
      modifies this
      ensures ok == !old(Busy(n))
      ensures visited == if n in old(visited) then old(visited)
                         else old(visited)[n := VisitInfo(true, defaultVisitOnce, To(n))]
    {
      var alreadyPresent := n in visited;
      if !alreadyPresent {
        visited := visited[n := VisitInfo(true, defaultVisitOnce, To(n))];
      }
      ok := !(alreadyPresent && visited[n].visitInProgress);
    }

    /** Ends the visit of `orig`; `final` is null when the node was removed. */
    method Finish<L(==)>(heap: Graph<L>, orig: nat, final: Ptr) returns (changed: bool)
      requires orig in visited && orig in heap && InGraph(heap, final)
      modifies this
      ensures orig in visited && !visited[orig].visitInProgress
      ensures visited[orig].visitOnce == old(visited[orig].visitOnce)
      ensures changed <==> final == Null || heap[final.id] != heap[orig] || final.id in old(visited)
      ensures visited[orig].result == if changed then final else old(visited[orig].result)
      ensures forall k | k in old(visited) && k != orig :: k in visited && visited[k] == old(visited[k])
      ensures forall k | k in visited && k !in old(visited) ::
        changed && To(k) == final && visited[k] == VisitInfo(false, visited[orig].visitOnce, final)
      ensures final.To? && heap[final.id] != heap[orig] ==> final.id in visited
    {
      var info := visited[orig].(visitInProgress := false);
      visited := visited[orig := info];
      if final == Null {
        visited := visited[orig := info.(result := final)];
        return true;
      } else if final.id != orig && heap[final.id] != heap[orig] {
        visited := visited[orig := info.(result := final)];
        if final.id !in visited {
          visited := visited[final.id := VisitInfo(false, info.visitOnce, final)];
        }
        return true;
      } else if final.id in visited {
        visited := visited[orig := info.(result := final)];
        return true;
      } else {
        return false;
      }
    }

    predicate Busy(n: nat)
      reads this
    {
      n in visited && visited[n].visitInProgress
    }

    predicate Done(n: nat)
      reads this
    {
      n in visited && !visited[n].visitInProgress && visited[n].visitOnce
    }

    function Result(n: nat): Ptr
      reads this
    {
      if n in visited then visited[n].result else To(n)
    }
  }

  datatype Outcome = Visited(result: Ptr) | LoopDetected

  /** `r` is the rewriting of `p`: it unfolds to the mapped tree, and it is `p`
      itself exactly when that tree is the tree of `p`. */
  ghost predicate Rewritten<L(!new)>(orig: Graph<L>, g: Graph<L>, pre: L -> L, post: (L, seq<Kid<L>>) -> L, p: Ptr, r: Ptr) {
    && HasTree(orig, p)
    && Unfolds(g, r, MapTree(pre, post, TreeOf(orig, p)))
    && (r == p <==> MapTree(pre, post, TreeOf(orig, p)) == TreeOf(orig, p))
    && (r.To? && r.id in orig ==> r == p)
  }

  /** `r` has the results of the children of `n` as its children, so parents share them. */
  ghost predicate SharesResults<L>(orig: Graph<L>, g: Graph<L>, visited: map<nat, VisitInfo>, n: nat, r: Ptr) {
    && n in orig && r.To? && r.id in g
    && |g[r.id].children| == |orig[n].children|
    && forall i | 0 <= i < |orig[n].children| :: ResultOf(visited, orig[n].children[i], g[r.id].children[i])
  }

  ghost predicate ResultOf(visited: map<nat, VisitInfo>, c: Ptr, r: Ptr) {
    match c
    case Null => r == Null
    case To(id) => id in visited && !visited[id].visitInProgress && visited[id].result == r
  }

  ghost predicate EntryOk<L(!new)>(orig: Graph<L>, g: Graph<L>, visited: map<nat, VisitInfo>,
                                   pre: L -> L, post: (L, seq<Kid<L>>) -> L, root: Ptr, k: nat)
    requires k in visited
  {
    var e := visited[k];
    && e.visitOnce
    && k in g
    && if k !in orig then !e.visitInProgress && e.result == To(k)
       else
         && Reaches(orig, root, k)
         && if e.visitInProgress then e.result == To(k)
            else Rewritten(orig, g, pre, post, To(k), e.result) && SharesResults(orig, g, visited, k, e.result)
  }

  /** `n` lies strictly below `b` in whatever tree `b` unfolds to. */
  ghost predicate Below<L(!new)>(orig: Graph<L>, b: nat, n: nat) {
    HasTree(orig, To(b)) ==> HasTree(orig, To(n)) && Height(TreeOf(orig, To(n))) < Height(TreeOf(orig, To(b)))
  }

  /** Later states of the tracker only add finished entries, for given nodes or new clones. */
  ghost predicate VisitedGrows<L>(orig: Graph<L>, firstNew: nat, before: map<nat, VisitInfo>, after: map<nat, VisitInfo>) {
    && (forall k {:trigger k in before} {:trigger before[k]} | k in before :: k in after && after[k] == before[k])
    && (forall k | k in after && k !in before :: !after[k].visitInProgress && (k in orig || k >= firstNew))
  }

  lemma EntryOkGrows<L(!new)>(orig: Graph<L>, g: Graph<L>, h: Graph<L>, visited: map<nat, VisitInfo>, later: map<nat, VisitInfo>,
                              pre: L -> L, post: (L, seq<Kid<L>>) -> L, root: Ptr, k: nat)
    requires k in visited && EntryOk(orig, g, visited, pre, post, root, k)
    requires Extends(g, h)
    requires k in later && later[k] == visited[k]
    requires forall j | j in visited && !visited[j].visitInProgress :: j in later && later[j] == visited[j]
    ensures EntryOk(orig, h, later, pre, post, root, k)
  {
    var e := visited[k];
    if k in orig && !e.visitInProgress {
      UnfoldsInExtension(g, h, e.result, MapTree(pre, post, TreeOf(orig, To(k))));
      forall i | 0 <= i < |orig[k].children|
        ensures ResultOf(later, orig[k].children[i], h[e.result.id].children[i])
      {
        assert ResultOf(visited, orig[k].children[i], g[e.result.id].children[i]);
      }
    }
  }

  /** Joins the results of the children of `n` into the result of `n`. */
  lemma RewrittenFromChildren<L(!new)>(orig: Graph<L>, g: Graph<L>, pre: L -> L, post: (L, seq<Kid<L>>) -> L, n: nat, node: Node<L>)
    requires n in orig
    requires |node.children| == |orig[n].children|
    requires forall i | 0 <= i < |node.children| ::
      Rewritten(orig, g, pre, post, orig[n].children[i], node.children[i])
    requires node.data == post(pre(orig[n].data), KidsOf(g, node.children))
    ensures HasTree(orig, To(n))
    ensures forall r: Ptr | r.To? && r.id in g && g[r.id] == node ::
      Unfolds(g, r, MapTree(pre, post, TreeOf(orig, To(n))))
    ensures node == orig[n] <==> MapTree(pre, post, TreeOf(orig, To(n))) == TreeOf(orig, To(n))
  {
    HasTreeFromChildren(orig, n);
    var t := TreeOf(orig, To(n));
    var m := MapTree(pre, post, t);
    assert t.Branch? && |m.kids| == |node.children|;
    forall i | 0 <= i < |node.children|
      ensures m.kids[i] == MapTree(pre, post, TreeOf(orig, orig[n].children[i]))
      ensures Unfolds(g, node.children[i], m.kids[i])
      ensures KidsOf(g, node.children)[i] == RootData(m.kids[i])
      ensures node.children[i] == orig[n].children[i] <==> m.kids[i] == t.kids[i]
    {
      assert Rewritten(orig, g, pre, post, orig[n].children[i], node.children[i]);
    }
    assert KidsOf(g, node.children) == seq(|t.kids|, i requires 0 <= i < |t.kids| => RootData(m.kids[i]));
    assert m.data == node.data;
    assert node.children == orig[n].children <==> m.kids == t.kids by {
      if node.children == orig[n].children {
        assert forall i | 0 <= i < |node.children| :: node.children[i] == orig[n].children[i];
      }
      if m.kids == t.kids {
        assert forall i | 0 <= i < |node.children| :: m.kids[i] == t.kids[i];
      }
    }
  }

  /** The data of the nodes that `ps` points to. */
  function KidsOf<L>(g: Graph<L>, ps: seq<Ptr>): (ks: seq<Kid<L>>)
    ensures |ks| == |ps|
  {
    seq(|ps|, i requires 0 <= i < |ps| => if ps[i].To? && ps[i].id in g then Kid.Kid(g[ps[i].id].data) else NoKid)
  }

  ghost predicate SameExcept<L>(before: Graph<L>, after: Graph<L>, n: nat) {
    forall k {:trigger k in before} {:trigger before[k]} | k in before && k != n :: k in after && after[k] == before[k]
  }

  ghost predicate AllEntriesOk<L(!new)>(orig: Graph<L>, g: Graph<L>, visited: map<nat, VisitInfo>,
                                        pre: L -> L, post: (L, seq<Kid<L>>) -> L, root: Ptr) {
    forall k {:trigger EntryOk(orig, g, visited, pre, post, root, k)} | k in visited ::
      EntryOk(orig, g, visited, pre, post, root, k)
  }

  /** `r` is what the traversal has made of `p`. */
  ghost predicate VisitedAs<L(!new)>(orig: Graph<L>, fixed: Graph<L>, visited: map<nat, VisitInfo>,
                                     pre: L -> L, post: (L, seq<Kid<L>>) -> L, p: Ptr, r: Ptr) {
    && Rewritten(orig, fixed, pre, post, p, r)
    && ResultOf(visited, p, r)
  }

  /** The first `n` pointers of `before` have become those of `after`. */
  ghost predicate AllVisitedAs<L(!new)>(orig: Graph<L>, fixed: Graph<L>, visited: map<nat, VisitInfo>,
                                        pre: L -> L, post: (L, seq<Kid<L>>) -> L, before: seq<Ptr>, after: seq<Ptr>, n: nat) {
    && n <= |before| == |after|
    && forall i {:trigger VisitedAs(orig, fixed, visited, pre, post, before[i], after[i])} | 0 <= i < n ::
         VisitedAs(orig, fixed, visited, pre, post, before[i], after[i])
  }

  /** Mentioned in a proof to look inside `Inv`; always true. */
  ghost predicate Open(k: nat) {
    true
  }

  /** What holds between any two steps of a traversal. */
  ghost predicate Inv<L(!new)>(orig: Graph<L>, fixed: Graph<L>, heap: Graph<L>, currentId: nat, visited: map<nat, VisitInfo>,
                               pre: L -> L, post: (L, seq<Kid<L>>) -> L, root: Ptr, hooked: seq<nat>) {
    forall k {:trigger Open(k)} | Open(k) ::
      && Closed(orig) && Extends(orig, fixed) && Extends(fixed, heap)
      && (forall k | k in heap :: k < currentId)
      && (forall k | k in fixed :: k in orig || k in visited)
      && AllEntriesOk(orig, fixed, visited, pre, post, root)
      && NoDuplicates(hooked)
      && (forall k :: k in hooked <==> k in orig && k in visited && !visited[k].visitInProgress)
  }

  /** The preorder hook has run once on each node that has been started. */
  ghost predicate AreEntered<L>(orig: Graph<L>, visited: map<nat, VisitInfo>, entered: seq<nat>) {
    forall z {:trigger EnteredOpen(entered, z)} | EnteredOpen(entered, z) ::
      NoDuplicates(entered) && forall k :: k in entered <==> k in orig && k in visited
  }

  /** Mentioned in a proof to look inside `AreEntered`; always true. */
  ghost predicate EnteredOpen(entered: seq<nat>, z: nat) {
    true
  }

  lemma OneMoreEntered<L>(orig: Graph<L>, visited: map<nat, VisitInfo>, entered: seq<nat>, id: nat)
    requires AreEntered(orig, visited, entered) && id in orig && id !in visited
    ensures AreEntered(orig, visited[id := VisitInfo(true, true, To(id))], entered + [id])
  {
    assert EnteredOpen(entered, 0);
  }

  lemma StillEntered<L>(orig: Graph<L>, visited: map<nat, VisitInfo>, later: map<nat, VisitInfo>, entered: seq<nat>, copy: nat)
    requires AreEntered(orig, visited, entered) && copy !in orig
    requires later.Keys == visited.Keys || later.Keys == visited.Keys + {copy}
    ensures AreEntered(orig, later, entered)
  {
    assert EnteredOpen(entered, 0);
    assert forall k | k in orig :: k in later.Keys <==> k in visited.Keys;
  }

  lemma EnteredAtEnd<L(!new)>(orig: Graph<L>, fixed: Graph<L>, heap: Graph<L>, currentId: nat, visited: map<nat, VisitInfo>,
                             pre: L -> L, post: (L, seq<Kid<L>>) -> L, root: Ptr, hooked: seq<nat>, entered: seq<nat>, firstNew: nat)
    requires Inv(orig, fixed, heap, currentId, visited, pre, post, root, hooked) && AreEntered(orig, visited, entered)
    requires VisitedGrows(orig, firstNew, map[], visited)
    ensures NoDuplicates(entered) && forall n :: n in entered <==> n in hooked
  {
    assert EnteredOpen(entered, 0) && Open(0);
  }

  lemma EntriesAfterStart<L(!new)>(orig: Graph<L>, g: Graph<L>, visited: map<nat, VisitInfo>,
                                   pre: L -> L, post: (L, seq<Kid<L>>) -> L, root: Ptr, id: nat)
    requires AllEntriesOk(orig, g, visited, pre, post, root)
    requires id in orig && id in g && id !in visited && Reaches(orig, root, id)
    ensures AllEntriesOk(orig, g, visited[id := VisitInfo(true, true, To(id))], pre, post, root)
  {
    var later := visited[id := VisitInfo(true, true, To(id))];
    forall k | k in later ensures EntryOk(orig, g, later, pre, post, root, k) {
      if k != id {
        EntryOkGrows(orig, g, g, visited, later, pre, post, root, k);
      }
    }
  }

  /** The tracker once the clone of `id` has become `node`: kept if it differs, dropped if not. */
  ghost function VisitedAfter<L>(orig: Graph<L>, visited: map<nat, VisitInfo>, id: nat, copy: nat, node: Node<L>): map<nat, VisitInfo>
    requires id in orig
  {
    if node == orig[id] then visited[id := VisitInfo(false, true, To(id))]
    else visited[id := VisitInfo(false, true, To(copy))][copy := VisitInfo(false, true, To(copy))]
  }

  ghost function FixedAfter<L>(orig: Graph<L>, g: Graph<L>, id: nat, copy: nat, node: Node<L>): Graph<L>
    requires id in orig
  {
    if node == orig[id] then g else g[copy := node]
  }

  lemma EntriesAfterFinish<L(!new)>(orig: Graph<L>, g: Graph<L>, visited: map<nat, VisitInfo>,
                                    pre: L -> L, post: (L, seq<Kid<L>>) -> L, root: Ptr, id: nat, copy: nat, node: Node<L>)
    requires AllEntriesOk(orig, g, visited, pre, post, root) && Extends(orig, g)
    requires id in orig && id in visited && visited[id].visitInProgress
    requires copy !in orig && copy !in g && copy !in visited
    requires |node.children| == |orig[id].children|
    requires forall i | 0 <= i < |node.children| ::
      && Rewritten(orig, g, pre, post, orig[id].children[i], node.children[i])
      && ResultOf(visited, orig[id].children[i], node.children[i])
    requires node.data == post(pre(orig[id].data), KidsOf(g, node.children))
    ensures AllEntriesOk(orig, FixedAfter(orig, g, id, copy, node), VisitedAfter(orig, visited, id, copy, node), pre, post, root)
  {
    var h, later := FixedAfter(orig, g, id, copy, node), VisitedAfter(orig, visited, id, copy, node);
    var r := later[id].result;
    assert Extends(g, h);
    FinishedIsRewritten(orig, g, h, pre, post, id, r, node);
    forall i | 0 <= i < |node.children| ensures ResultOf(later, orig[id].children[i], h[r.id].children[i]) {
      assert ResultOf(visited, orig[id].children[i], node.children[i]);
    }
    assert EntryOk(orig, h, later, pre, post, root, id) by {
      assert EntryOk(orig, g, visited, pre, post, root, id);
      assert SharesResults(orig, h, later, id, r);
    }
    forall k | k in later ensures EntryOk(orig, h, later, pre, post, root, k) {
      if k != id && k in visited {
        EntryOkGrows(orig, g, h, visited, later, pre, post, root, k);
      }
    }
  }

  lemma FinishedIsRewritten<L(!new)>(orig: Graph<L>, g: Graph<L>, h: Graph<L>,
                                     pre: L -> L, post: (L, seq<Kid<L>>) -> L, id: nat, r: Ptr, node: Node<L>)
    requires Extends(g, h) && id in orig && |node.children| == |orig[id].children|
    requires r.To? && r.id in h && h[r.id] == node
    requires if node == orig[id] then r == To(id) else r.id !in orig
    requires forall i | 0 <= i < |node.children| :: Rewritten(orig, g, pre, post, orig[id].children[i], node.children[i])
    requires node.data == post(pre(orig[id].data), KidsOf(g, node.children))
    ensures Rewritten(orig, h, pre, post, To(id), r)
  {
    forall i | 0 <= i < |node.children|
      ensures Rewritten(orig, h, pre, post, orig[id].children[i], node.children[i])
      ensures InGraph(g, node.children[i])
    {
      var c := orig[id].children[i];
      assert Rewritten(orig, g, pre, post, c, node.children[i]);
      UnfoldsInExtension(g, h, node.children[i], MapTree(pre, post, TreeOf(orig, c)));
    }
    KidsAgree(g, h, node.children);
    RewrittenFromChildren(orig, h, pre, post, id, node);
  }

  /** Child `i` of `n` may be visited when `n` may be: it is reachable and lies below all that is in progress. */
  lemma ChildIsBelow<L(!new)>(orig: Graph<L>, root: Ptr, n: nat, i: nat)
    requires Closed(orig) && n in orig && Reaches(orig, root, n) && i < |orig[n].children|
    ensures orig[n].children[i].To? ==>
      var c := orig[n].children[i].id;
      && Reaches(orig, root, c)
      && forall b | b == n || Below(orig, b, n) :: Below(orig, b, c)
  {
    if orig[n].children[i].To? {
      var c := orig[n].children[i].id;
      assert To(c) in orig[n].children;
      ReachesStep(orig, root, n, c);
      if HasTree(orig, To(n)) {
        ChildHasTree(orig, n, i);
      }
    }
  }

  /** Child pointers with the nodes already done replaced by their results. */
  ghost function Forwarded(visited: map<nat, VisitInfo>, ps: seq<Ptr>): seq<Ptr> {
    seq(|ps|, i requires 0 <= i < |ps| =>
      if ps[i].To? && ps[i].id in visited && !visited[ps[i].id].visitInProgress && visited[ps[i].id].visitOnce
      then visited[ps[i].id].result else ps[i])
  }

  /** A child pointer of a clone before it is visited. */
  ghost predicate CopiedOrForwarded(visited: map<nat, VisitInfo>, c: Ptr, r: Ptr) {
    r == c || ResultOf(visited, c, r)
  }

  /** The pointers from index `n` on wait to be visited. */
  ghost predicate AllReady(visited: map<nat, VisitInfo>, before: seq<Ptr>, after: seq<Ptr>, n: nat) {
    && |before| == |after|
    && forall i {:trigger CopiedOrForwarded(visited, before[i], after[i])} | n <= i < |before| ::
         CopiedOrForwarded(visited, before[i], after[i])
  }

  lemma AllReadyGrows<L>(orig: Graph<L>, visited: map<nat, VisitInfo>, visited': map<nat, VisitInfo>, firstNew: nat,
                         before: seq<Ptr>, after: seq<Ptr>, n: nat, r: Ptr)
    requires VisitedGrows(orig, firstNew, visited, visited')
    requires AllReady(visited, before, after, n) && n < |before|
    ensures AllReady(visited', before, after[n := r], n + 1)
  {
    forall i | n < i < |before| ensures CopiedOrForwarded(visited', before[i], after[n := r][i]) {
      assert CopiedOrForwarded(visited, before[i], after[i]);
    }
  }

  lemma InvFacts<L(!new)>(orig: Graph<L>, fixed: Graph<L>, heap: Graph<L>, currentId: nat, visited: map<nat, VisitInfo>,
                          pre: L -> L, post: (L, seq<Kid<L>>) -> L, root: Ptr, hooked: seq<nat>, k: nat)
    requires Inv(orig, fixed, heap, currentId, visited, pre, post, root, hooked)
    ensures k in visited ==> EntryOk(orig, fixed, visited, pre, post, root, k)
    ensures k in visited ==> k in heap
    ensures k in heap ==> k < currentId
    ensures k in fixed ==> k in heap && heap[k] == fixed[k] && (k in orig || k in visited)
    ensures k in orig ==> k in fixed && fixed[k] == orig[k]
  {
    assert Open(0);
    assert k in visited ==> EntryOk(orig, fixed, visited, pre, post, root, k);
  }

  lemma InvAfterStart<L(!new)>(orig: Graph<L>, fixed: Graph<L>, heap: Graph<L>, currentId: nat, visited: map<nat, VisitInfo>,
                               pre: L -> L, post: (L, seq<Kid<L>>) -> L, root: Ptr, hooked: seq<nat>, id: nat, node: Node<L>)
    requires Inv(orig, fixed, heap, currentId, visited, pre, post, root, hooked)
    requires id in orig && id !in visited && Reaches(orig, root, id)
    ensures Inv(orig, fixed, heap[currentId := node], currentId + 1, visited[id := VisitInfo(true, true, To(id))], pre, post, root, hooked)
  {
    assert Open(0);
    EntriesAfterStart(orig, fixed, visited, pre, post, root, id);
  }

  /** The invariant says nothing about clones still being edited. */
  lemma InvWithClone<L(!new)>(orig: Graph<L>, fixed: Graph<L>, heap: Graph<L>, currentId: nat, visited: map<nat, VisitInfo>,
                              pre: L -> L, post: (L, seq<Kid<L>>) -> L, root: Ptr, hooked: seq<nat>, copy: nat, node: Node<L>)
    requires Inv(orig, fixed, heap, currentId, visited, pre, post, root, hooked)
    requires copy !in orig && copy !in visited && copy < currentId
    ensures copy !in fixed
    ensures Inv(orig, fixed, heap[copy := node], currentId, visited, pre, post, root, hooked)
  {
    assert Open(0);
  }

  lemma InvAfterFinish<L(!new)>(orig: Graph<L>, fixed: Graph<L>, heap: Graph<L>, currentId: nat, visited: map<nat, VisitInfo>,
                                pre: L -> L, post: (L, seq<Kid<L>>) -> L, root: Ptr, hooked: seq<nat>, id: nat, copy: nat, node: Node<L>)
    requires Inv(orig, fixed, heap, currentId, visited, pre, post, root, hooked)
    requires id in orig && id in visited && visited[id].visitInProgress
    requires copy in heap && copy !in orig && copy !in visited
    requires AllVisitedAs(orig, fixed, visited, pre, post, orig[id].children, node.children, |orig[id].children|)
    requires node.data == post(pre(orig[id].data), KidsOf(heap, node.children))
    ensures
      var f, v := FixedAfter(orig, fixed, id, copy, node), VisitedAfter(orig, visited, id, copy, node);
      && Inv(orig, f, heap[copy := node], currentId, v, pre, post, root, hooked + [id])
      && VisitedAs(orig, f, v, pre, post, To(id), v[id].result)
      && Extends(fixed, f)
  {
    assert Open(0);
    assert EntryOk(orig, fixed, visited, pre, post, root, id);
    forall i | 0 <= i < |node.children|
      ensures VisitedAs(orig, fixed, visited, pre, post, orig[id].children[i], node.children[i])
      ensures InGraph(fixed, node.children[i])
    {
    }
    KidsAgree(fixed, heap, node.children);
    EntriesAfterFinish(orig, fixed, visited, pre, post, root, id, copy, node);
    var f, v := FixedAfter(orig, fixed, id, copy, node), VisitedAfter(orig, visited, id, copy, node);
    assert EntryOk(orig, f, v, pre, post, root, id);
  }

  /** Child `i` of a clone of `id` can be visited, forwarded or not. */
  lemma ChildIsReady<L(!new)>(orig: Graph<L>, fixed: Graph<L>, heap: Graph<L>, currentId: nat, visited: map<nat, VisitInfo>,
                              pre: L -> L, post: (L, seq<Kid<L>>) -> L, root: Ptr, hooked: seq<nat>, id: nat, i: nat, child: Ptr)
    requires Inv(orig, fixed, heap, currentId, visited, pre, post, root, hooked)
    requires id in orig && Reaches(orig, root, id) && i < |orig[id].children|
    requires forall b | b in visited && visited[b].visitInProgress :: b == id || Below(orig, b, id)
    requires CopiedOrForwarded(visited, orig[id].children[i], child)
    ensures InGraph(fixed, child) && InGraph(orig, orig[id].children[i])
    ensures child.To? && child.id in orig ==> child == orig[id].children[i]
    ensures child.To? && child.id in orig ==> Reaches(orig, root, child.id)
    ensures child.To? && child.id in orig ==>
      forall b | b in visited && visited[b].visitInProgress :: Below(orig, b, child.id)
    ensures child != orig[id].children[i] ==> VisitedAs(orig, fixed, visited, pre, post, orig[id].children[i], child)
  {
    assert Open(0);
    ChildIsBelow(orig, root, id, i);
    var c := orig[id].children[i];
    if child != c {
      assert EntryOk(orig, fixed, visited, pre, post, root, c.id);
    }
  }

  /** One more child has been visited; what was visited before it stays so. */
  lemma ChildIsVisited<L(!new)>(orig: Graph<L>, fixed: Graph<L>, later: Graph<L>, visited: map<nat, VisitInfo>, visited': map<nat, VisitInfo>,
                                firstNew: nat, pre: L -> L, post: (L, seq<Kid<L>>) -> L, before: seq<Ptr>, after: seq<Ptr>, i: nat, r: Ptr)
    requires Extends(fixed, later) && VisitedGrows(orig, firstNew, visited, visited')
    requires i < |before| && AllVisitedAs(orig, fixed, visited, pre, post, before, after, i)
    requires VisitedAs(orig, later, visited', pre, post, before[i], r)
         || (after[i] == r && VisitedAs(orig, fixed, visited, pre, post, before[i], r))
    ensures AllVisitedAs(orig, later, visited', pre, post, before, after[i := r], i + 1)
  {
    forall j | 0 <= j <= i ensures VisitedAs(orig, later, visited', pre, post, before[j], after[i := r][j]) {
      if !VisitedAs(orig, later, visited', pre, post, before[j], after[i := r][j]) {
        assert VisitedAs(orig, fixed, visited, pre, post, before[j], after[j]);
        UnfoldsInExtension(fixed, later, after[j], MapTree(pre, post, TreeOf(orig, before[j])));
      }
    }
  }

  /** The children of the result of `n` are the results of its children. */
  ghost predicate SharesWith<L>(orig: Graph<L>, heap: Graph<L>, results: map<nat, Ptr>, n: nat) {
    && n in orig && n in results && results[n].To? && results[n].id in heap
    && var before, after := orig[n].children, heap[results[n].id].children;
       && |before| == |after|
       && forall i | 0 <= i < |before| ::
            match before[i]
            case Null => after[i] == Null
            case To(c) => c in results && after[i] == results[c]
  }

  // What the postorder hook is given.

  /** `kid` stands for what the pointer `p` leads to. */
  ghost predicate Sees<L>(g: Graph<L>, p: Ptr, kid: Kid<L>) {
    match p
    case Null => kid == NoKid
    case To(c) => c in g && kid == Kid.Kid(g[c].data)
  }

  /** One argument for each child, in order. */
  ghost predicate SeesAll<L>(g: Graph<L>, ps: seq<Ptr>, kids: seq<Kid<L>>) {
    |kids| == |ps| && forall i | 0 <= i < |ps| :: Sees(g, ps[i], kids[i])
  }

  /** The data of the result `r` of `n` is what the postorder hook makes of the data after preorder and of
      the children of `r`. */
  ghost predicate HookedOnChildren<L(!new)>(orig: Graph<L>, g: Graph<L>, pre: L -> L, post: (L, seq<Kid<L>>) -> L, n: nat, r: Ptr) {
    && n in orig && r.To? && r.id in g
    && exists kids :: SeesAll(g, g[r.id].children, kids) && g[r.id].data == post(pre(orig[n].data), kids)
  }

  lemma HookSawChildren<L(!new)>(orig: Graph<L>, g: Graph<L>, pre: L -> L, post: (L, seq<Kid<L>>) -> L, n: nat, r: Ptr)
    requires n in orig && Rewritten(orig, g, pre, post, To(n), r)
    ensures HookedOnChildren(orig, g, pre, post, n, r)
  {
    var t := TreeOf(orig, To(n));
    var m := MapTree(pre, post, t);
    var ps, kids := g[r.id].children, seq(|m.kids|, i requires 0 <= i < |m.kids| => RootData(m.kids[i]));
    forall i | 0 <= i < |ps| ensures Sees(g, ps[i], kids[i]) {
      assert Unfolds(g, ps[i], m.kids[i]);
    }
    assert kids == seq(|t.kids|, i requires 0 <= i < |t.kids| => RootData(MapTree(pre, post, t.kids[i])));
    assert SeesAll(g, ps, kids);
  }

  /** More nodes change nothing of it. */
  lemma StillHooked<L(!new)>(orig: Graph<L>, g: Graph<L>, h: Graph<L>, pre: L -> L, post: (L, seq<Kid<L>>) -> L, n: nat, r: Ptr)
    requires HookedOnChildren(orig, g, pre, post, n, r) && Extends(g, h)
    ensures HookedOnChildren(orig, h, pre, post, n, r)
  {
    var kids :| SeesAll(g, g[r.id].children, kids) && g[r.id].data == post(pre(orig[n].data), kids);
    forall i | 0 <= i < |kids| ensures Sees(h, h[r.id].children[i], kids[i]) {
      assert Sees(g, g[r.id].children[i], kids[i]);
    }
    assert SeesAll(h, h[r.id].children, kids);
  }

  ghost function NodeSum(t: Tree<int>): int
    decreases t, 1
  {
    match t
    case Nil => 0
    case Branch(l, ks) => l + SumAll(ks)
  }

  ghost function SumAll(ts: seq<Tree<int>>): int
    decreases ts, 0
  {
    if ts == [] then 0 else NodeSum(ts[0]) + SumAll(ts[1..])
  }

  ghost function KidSum(kids: seq<Kid<int>>): int {
    if kids == [] then 0 else (if kids[0].Kid? then kids[0].data else 0) + KidSum(kids[1..])
  }

  /** A postorder hook that adds up the data of the children makes the sum over all nodes of the unfolded input. */
  lemma {:induction false} AddsUp(g: Graph<int>, r: Ptr, pre: int -> int, post: (int, seq<Kid<int>>) -> int, t: Tree<int>)
    requires Unfolds(g, r, MapTree(pre, post, t))
    requires (forall l :: pre(l) == l) && forall l, kids :: post(l, kids) == l + KidSum(kids)
    ensures if t.Branch? then r.To? && r.id in g && g[r.id].data == NodeSum(t) else r == Null
    decreases t
  {
    if t.Branch? {
      var m, ps := MapTree(pre, post, t), g[r.id].children;
      var kids := seq(|t.kids|, i requires 0 <= i < |t.kids| => RootData(m.kids[i]));
      assert kids == seq(|t.kids|, i requires 0 <= i < |t.kids| => RootData(MapTree(pre, post, t.kids[i])));
      forall i | 0 <= i < |ps|
        ensures kids[i] == if t.kids[i].Branch? then Kid.Kid(NodeSum(t.kids[i])) else NoKid
      {
        AddsUp(g, ps[i], pre, post, t.kids[i]);
      }
      KidsAddUp(t.kids, kids);
    }
  }

  lemma {:induction false} KidsAddUp(ts: seq<Tree<int>>, kids: seq<Kid<int>>)
    requires |kids| == |ts|
    requires forall i | 0 <= i < |ts| :: kids[i] == if ts[i].Branch? then Kid.Kid(NodeSum(ts[i])) else NoKid
    ensures KidSum(kids) == SumAll(ts)
  {
    if ts != [] {
      KidsAddUp(ts[1..], kids[1..]);
    }
  }

  lemma InvAtEnd<L(!new)>(orig: Graph<L>, fixed: Graph<L>, heap: Graph<L>, currentId: nat, visited: map<nat, VisitInfo>,
                          pre: L -> L, post: (L, seq<Kid<L>>) -> L, root: Ptr, hooked: seq<nat>, firstNew: nat, r: Ptr)
    requires Inv(orig, fixed, heap, currentId, visited, pre, post, root, hooked)
    requires VisitedGrows(orig, firstNew, map[], visited)
    requires VisitedAs(orig, fixed, visited, pre, post, root, r)
    ensures Unfolds(heap, r, MapTree(pre, post, TreeOf(orig, root)))
    ensures NoDuplicates(hooked) && forall n :: n in hooked <==> Reaches(orig, root, n)
    ensures forall n | Reaches(orig, root, n) :: SharesWith(orig, heap, (map k | k in visited :: visited[k].result), n)
    ensures forall n | Reaches(orig, root, n) :: n in visited && HookedOnChildren(orig, heap, pre, post, n, visited[n].result)
  {
    assert Open(0);
    UnfoldsInExtension(fixed, heap, r, MapTree(pre, post, TreeOf(orig, root)));
    var s := set n | n in hooked;
    forall x, y | x in s && Edge(orig, x, y) ensures y in s {
      assert EntryOk(orig, fixed, visited, pre, post, root, x);
      var i :| 0 <= i < |orig[x].children| && orig[x].children[i] == To(y);
      assert ResultOf(visited, orig[x].children[i], fixed[visited[x].result.id].children[i]);
    }
    forall n ensures n in hooked <==> Reaches(orig, root, n) {
      if n in hooked {
        assert EntryOk(orig, fixed, visited, pre, post, root, n);
      }
      if Reaches(orig, root, n) {
        ReachesStaysInside(orig, root, n, s);
      }
    }
    forall n | Reaches(orig, root, n)
      ensures SharesWith(orig, heap, (map k | k in visited :: visited[k].result), n)
    {
      assert n in hooked;
      assert EntryOk(orig, fixed, visited, pre, post, root, n);
      var before, after := orig[n].children, fixed[visited[n].result.id].children;
      forall i | 0 <= i < |before| ensures ResultOf(visited, before[i], after[i]) {
      }
    }
    forall n | Reaches(orig, root, n) ensures n in visited && HookedOnChildren(orig, heap, pre, post, n, visited[n].result) {
      assert n in hooked;
      assert EntryOk(orig, fixed, visited, pre, post, root, n);
      HookSawChildren(orig, fixed, pre, post, n, visited[n].result);
      StillHooked(orig, fixed, heap, pre, post, n, visited[n].result);
    }
  }

  /** Starting `id`, visiting below it and finishing it amounts to one step forward. */
  lemma VisitComposes<L>(orig: Graph<L>, firstNew: nat, id: nat, copy: nat, before: map<nat, VisitInfo>, started: map<nat, VisitInfo>,
                         below: map<nat, VisitInfo>, after: map<nat, VisitInfo>)
    requires id in orig && id !in before && started == before[id := VisitInfo(true, true, To(id))]
    requires VisitedGrows(orig, firstNew, started, below)
    requires after.Keys == below.Keys || after.Keys == below.Keys + {copy}
    requires copy >= firstNew && (copy in after ==> !after[copy].visitInProgress)
    requires forall k | k in below && k != id :: after[k] == below[k]
    requires id in after && !after[id].visitInProgress
    ensures VisitedGrows(orig, firstNew, before, after)
  {
    forall k | k in before ensures k in after && after[k] == before[k] {
      assert k in started && started[k] == before[k];
      assert k in below;
    }
    forall k | k in after && k !in before ensures !after[k].visitInProgress && (k in orig || k >= firstNew) {
      if k != id && k != copy {
        assert k in below && k !in started;
      }
    }
  }

  lemma HeapComposes<L>(h0: Graph<L>, h1: Graph<L>, h2: Graph<L>, h3: Graph<L>, copy: nat)
    requires Extends(h0, h1) && SameExcept(h1, h2, copy) && SameExcept(h2, h3, copy) && copy !in h0
    ensures Extends(h0, h3)
  {
    forall k | k in h0 ensures k in h3 && h3[k] == h0[k] {
      assert k in h1 && k in h2;
    }
  }

  /** `KidsOf` looks at the children only. */
  lemma KidsAgree<L>(g: Graph<L>, h: Graph<L>, ps: seq<Ptr>)
    requires Extends(g, h) && forall i | 0 <= i < |ps| :: InGraph(g, ps[i])
    ensures KidsOf(g, ps) == KidsOf(h, ps)
  {
    assert forall i | 0 <= i < |ps| :: InGraph(g, ps[i]);
  }

  class Modifier<L(==,!new)> {
    var heap: Graph<L>
    var currentId: nat
    const tracker: ChangeTracker
    const preorder: L -> L
    const postorder: (L, seq<Kid<L>>) -> L
    const visitDagOnce: bool := true
    const dontForwardChildrenBeforePreorder: bool

    /** The graph and root of the running traversal, and the originals on whose clones the postorder and
        the preorder hook have run. */
    ghost var orig: Graph<L>
    ghost var root: Ptr
    ghost var hooked: seq<nat>
    ghost var entered: seq<nat>
    /** What will not change any more: the given nodes and the finished clones. */
    ghost var fixed: Graph<L>

    constructor (heap: Graph<L>, currentId: nat, preorder: L -> L, postorder: (L, seq<Kid<L>>) -> L, dontForward: bool)
      requires Closed(heap) && forall k | k in heap :: k < currentId
      ensures this.heap == heap && this.currentId == currentId
      ensures this.preorder == preorder && this.postorder == postorder
      ensures this.dontForwardChildrenBeforePreorder == dontForward
      ensures fresh(tracker)
    {
      this.heap, this.currentId := heap, currentId;
      this.preorder, this.postorder := preorder, postorder;
      dontForwardChildrenBeforePreorder := dontForward;
      tracker := new ChangeTracker();
      orig, root, hooked, entered, fixed := heap, Null, [], [], heap;
    }

    ghost predicate Valid()
      reads this, tracker
    {
      Inv(orig, fixed, heap, currentId, tracker.visited, preorder, postorder, root, hooked) && AreEntered(orig, tracker.visited, entered)
    }

    /** What a completed visit may have changed. */
    twostate predicate Progress()
      reads this, tracker
    {
      && orig == old(orig) && root == old(root)
      && currentId >= old(currentId) && Extends(old(fixed), fixed)
      && VisitedGrows(orig, old(currentId), old(tracker.visited), tracker.visited)
    }

    /** The measure of the recursion: given nodes not yet started. */
    ghost function Unstarted(): set<nat>
      reads this, tracker
    {
      orig.Keys - tracker.visited.Keys
    }

    /** `ForwardChildren`: children already done are replaced by their results. */
    method ForwardChildren(copy: nat)
      requires copy in heap
      modifies this`heap
      ensures heap == old(heap)[copy := old(heap[copy]).(children := Forwarded(tracker.visited, old(heap[copy].children)))]
    {
      ghost var before, node0 := heap, heap[copy];
      ghost var children := Forwarded(tracker.visited, node0.children);
      var i := 0;
      while i < |heap[copy].children|
        invariant copy in heap && 0 <= i <= |heap[copy].children| == |children|
        invariant heap[copy].data == node0.data && heap == before[copy := heap[copy]]
        invariant forall j | 0 <= j < i :: heap[copy].children[j] == children[j]
        invariant forall j | i <= j < |children| :: heap[copy].children[j] == node0.children[j]
      {
        var node := heap[copy];
        var c := node.children[i];
        if c.To? && tracker.Done(c.id) {
          c := tracker.Result(c.id);
        }
        heap := heap[copy := node.(children := node.children[i := c])];
        i := i + 1;
      }
      assert heap[copy].children == children;
    }

    method ApplyVisitor(n: Ptr) returns (out: Outcome)
      requires Valid() && InGraph(fixed, n)
      requires n.To? && n.id in orig ==> Reaches(orig, root, n.id)
      requires n.To? && n.id in orig ==> forall b | tracker.Busy(b) :: Below(orig, b, n.id)
      modifies this, tracker
      ensures out.Visited? ==> Valid() && Progress() && Extends(old(heap), heap)
      ensures out.Visited? && n.To? && n.id !in orig ==> out.result == n
      ensures out.Visited? && InGraph(orig, n) ==> VisitedAs(orig, fixed, tracker.visited, preorder, postorder, n, out.result)
      ensures out.LoopDetected? ==> n.To? && n.id in old(orig) && !HasTree(old(orig), n)
      decreases |Unstarted()|, 1
    {
      if n == Null {
        assert Unfolds(orig, n, Nil);
        UnfoldsUnique(orig, n, Nil, TreeOf(orig, n));
        return Visited(n);
      }
      var id := n.id;
      InvFacts(orig, fixed, heap, currentId, tracker.visited, preorder, postorder, root, hooked, id);
      if tracker.Busy(id) {
        assert Below(orig, id, id);
        out := LoopDetected;
      } else if tracker.Done(id) {
        out := Visited(tracker.Result(id));
      } else {
        out := VisitNewNode(id);
      }
    }

    /** The last branch of `apply_visitor`: the node is neither in progress nor done. */
    method VisitNewNode(id: nat) returns (out: Outcome)
      requires Valid() && id in orig && id !in tracker.visited
      requires Reaches(orig, root, id)
      requires forall b | tracker.Busy(b) :: Below(orig, b, id)
      modifies this, tracker
      ensures out.Visited? ==> Valid() && Progress() && Extends(old(heap), heap)
      ensures out.Visited? ==> VisitedAs(orig, fixed, tracker.visited, preorder, postorder, To(id), out.result)
      ensures out.LoopDetected? ==> !HasTree(old(orig), To(id))
      decreases |Unstarted()|, 0
    {
      ghost var h0, v0, firstNew := heap, tracker.visited, currentId;
      var copy := StartNode(id);
      ghost var h1, v1 := heap, tracker.visited;
      SmallerSet(Unstarted(), old(Unstarted()), id);
      var ok := VisitChildren(id, copy);
      if !ok {
        return LoopDetected;
      }
      ghost var h2, v2 := heap, tracker.visited;
      assert VisitedGrows(orig, firstNew, v1, v2) && id in v2;
      out := FinishNode(id, copy);
      VisitComposes(orig, firstNew, id, copy, v0, v1, v2, tracker.visited);
      HeapComposes(h0, h1, h2, heap, copy);
    }

    /** Clones the node, forwards its children and runs the preorder hook on the clone. */
    method StartNode(id: nat) returns (copy: nat)
      requires Valid() && id in orig && id !in tracker.visited
      requires Reaches(orig, root, id)
      modifies this, tracker
      ensures Valid() && orig == old(orig) && root == old(root) && fixed == old(fixed)
      ensures tracker.visited == old(tracker.visited)[id := VisitInfo(true, true, To(id))]
      ensures copy == old(currentId) < currentId && copy !in orig && copy !in tracker.visited
      ensures copy in heap && copy !in old(heap) && Extends(old(heap), heap)
      ensures heap[copy].data == preorder(orig[id].data)
      ensures AllReady(tracker.visited, orig[id].children, heap[copy].children, 0)
    {
      ghost var heap0, visited0 := heap, tracker.visited;
      InvFacts(orig, fixed, heap, currentId, tracker.visited, preorder, postorder, root, hooked, id);
      InvFacts(orig, fixed, heap, currentId, tracker.visited, preorder, postorder, root, hooked, currentId);
      var ok := tracker.Start(id, visitDagOnce);
      copy := currentId;
      currentId := currentId + 1;
      heap := heap[copy := heap[id]];
      if !dontForwardChildrenBeforePreorder {
        ForwardChildren(copy);
      }
      heap, entered := heap[copy := heap[copy].(data := preorder(heap[copy].data))], entered + [id];
      OneMoreEntered(orig, visited0, old(entered), id);
      InvAfterStart(orig, fixed, heap0, copy, visited0, preorder, postorder, root, hooked, id, heap[copy]);
      assert heap == heap0[copy := heap[copy]];
    }

    method VisitChildren(id: nat, copy: nat) returns (ok: bool)
      requires Valid() && id in orig && tracker.Busy(id)
      requires Reaches(orig, root, id)
      requires forall b | tracker.Busy(b) :: b == id || Below(orig, b, id)
      requires copy in heap && copy !in orig && copy !in tracker.visited && copy < currentId
      requires AllReady(tracker.visited, orig[id].children, heap[copy].children, 0)
      modifies this, tracker
      ensures ok ==> Valid() && Progress() && copy !in tracker.visited
      ensures ok ==> copy in heap && SameExcept(old(heap), heap, copy)
      ensures ok ==> heap[copy].data == old(heap[copy].data)
      ensures ok ==> AllVisitedAs(orig, fixed, tracker.visited, preorder, postorder, orig[id].children, heap[copy].children, |orig[id].children|)
      ensures !ok ==> !HasTree(old(orig), To(id))
      decreases |Unstarted()|, 3
    {
      var i := 0;
      while i < |heap[copy].children|
        invariant Valid() && Progress()
        invariant copy in heap && copy !in tracker.visited
        invariant SameExcept(old(heap), heap, copy) && heap[copy].data == old(heap[copy].data)
        invariant i <= |heap[copy].children|
        invariant AllVisitedAs(orig, fixed, tracker.visited, preorder, postorder, orig[id].children, heap[copy].children, i)
        invariant AllReady(tracker.visited, orig[id].children, heap[copy].children, i)
      {
        SubsetCardinality(Unstarted(), old(Unstarted()));
        ok := VisitChild(id, copy, i);
        if !ok {
          return;
        }
        i := i + 1;
      }
      ok := true;
    }

    /** Visits child `i` of the clone and stores the result in its place. */
    method VisitChild(id: nat, copy: nat, i: nat) returns (ok: bool)
      requires Valid() && id in orig && tracker.Busy(id)
      requires Reaches(orig, root, id)
      requires forall b | tracker.Busy(b) :: b == id || Below(orig, b, id)
      requires copy in heap && copy !in orig && copy !in tracker.visited && copy < currentId
      requires i < |heap[copy].children|
      requires AllVisitedAs(orig, fixed, tracker.visited, preorder, postorder, orig[id].children, heap[copy].children, i)
      requires AllReady(tracker.visited, orig[id].children, heap[copy].children, i)
      modifies this, tracker
      ensures ok ==> Valid() && Progress() && copy !in tracker.visited
      ensures ok ==> copy in heap && SameExcept(old(heap), heap, copy)
      ensures ok ==> heap[copy].data == old(heap[copy].data) && |heap[copy].children| == old(|heap[copy].children|)
      ensures ok ==> AllVisitedAs(orig, fixed, tracker.visited, preorder, postorder, orig[id].children, heap[copy].children, i + 1)
      ensures ok ==> AllReady(tracker.visited, orig[id].children, heap[copy].children, i + 1)
      ensures !ok ==> !HasTree(old(orig), To(id))
      decreases |Unstarted()|, 2
    {
      var child := heap[copy].children[i];
      ghost var f, v, n, node := fixed, tracker.visited, currentId, heap[copy];
      ChildIsReady(orig, fixed, heap, currentId, v, preorder, postorder, root, hooked, id, i, child);
      var out := ApplyVisitor(child);
      if out.LoopDetected? {
        return false;
      }
      assert heap[copy] == node;
      ChildIsVisited(orig, f, fixed, v, tracker.visited, n, preorder, postorder, orig[id].children, node.children, i, out.result);
      AllReadyGrows(orig, v, tracker.visited, n, orig[id].children, node.children, i, out.result);
      InvWithClone(orig, fixed, heap, currentId, tracker.visited, preorder, postorder, root, hooked, copy,
                   node.(children := node.children[i := out.result]));
      heap := heap[copy := heap[copy].(children := heap[copy].children[i := out.result])];
      ok := true;
    }

    /** Runs the postorder hook and keeps the clone only if it differs from the original. */
    method FinishNode(id: nat, copy: nat) returns (out: Outcome)
      requires Valid() && id in orig && tracker.Busy(id)
      requires copy in heap && copy !in orig && copy !in tracker.visited
      requires heap[copy].data == preorder(orig[id].data)
      requires AllVisitedAs(orig, fixed, tracker.visited, preorder, postorder, orig[id].children, heap[copy].children, |orig[id].children|)
      modifies this, tracker
      ensures Valid() && out.Visited?
      ensures orig == old(orig) && root == old(root) && currentId == old(currentId)
      ensures Extends(old(fixed), fixed) && SameExcept(old(heap), heap, copy)
      ensures tracker.visited.Keys == old(tracker.visited).Keys || tracker.visited.Keys == old(tracker.visited).Keys + {copy}
      ensures forall k | k in old(tracker.visited) && k != id :: tracker.visited[k] == old(tracker.visited[k])
      ensures copy in tracker.visited ==> !tracker.visited[copy].visitInProgress
      ensures VisitedAs(orig, fixed, tracker.visited, preorder, postorder, To(id), out.result)
    {
      ghost var heap0, visited0, fixed0, hooked0 := heap, tracker.visited, fixed, hooked;
      heap, hooked := heap[copy := heap[copy].(data := postorder(heap[copy].data, KidsOf(heap, heap[copy].children)))], hooked + [id];
      ghost var node := heap[copy];
      InvFacts(orig, fixed, heap0, currentId, visited0, preorder, postorder, root, hooked0, id);
      InvAfterFinish(orig, fixed, heap0, currentId, visited0, preorder, postorder, root, hooked0, id, copy, node);
      var changed := tracker.Finish(heap, id, To(copy));
      fixed := FixedAfter(orig, fixed, id, copy, node);
      assert tracker.visited == VisitedAfter(orig, visited0, id, copy, node);
      StillEntered(orig, visited0, tracker.visited, entered, copy);
      out := Visited(if changed then To(copy) else To(id));
    }

    /** `Visitor::init_apply` and the visit of the root. */
    method Apply(p: Ptr) returns (out: Outcome, ghost results: map<nat, Ptr>)
      requires Closed(heap) && InGraph(heap, p)
      requires forall k | k in heap :: k < currentId
      modifies this, tracker
      // The traversal fails exactly on graphs with a loop below the root.
      ensures out.LoopDetected? <==> !HasTree(old(heap), p)
      // No node that was given changes.
      ensures out.Visited? ==> Extends(old(heap), heap)
      // The result unfolds to the bottom-up rewriting of the unfolded input.
      ensures out.Visited? ==> Unfolds(heap, out.result, MapTree(preorder, postorder, TreeOf(old(heap), p)))
      // The same pointer comes back exactly when nothing below it changed.
      ensures out.Visited? ==> (out.result == p <==>
        MapTree(preorder, postorder, TreeOf(old(heap), p)) == TreeOf(old(heap), p))
      // Each hook runs once on each reachable node and on no other.
      ensures out.Visited? ==> NoDuplicates(hooked) && forall n :: n in hooked <==> Reaches(old(heap), p, n)
      ensures out.Visited? ==> NoDuplicates(entered) && forall n :: n in entered <==> Reaches(old(heap), p, n)
      // Every parent gets the same result of a shared child.
      ensures out.Visited? ==> forall n | Reaches(old(heap), p, n) :: SharesWith(old(heap), heap, results, n)
      ensures out.Visited? && p.To? ==> p.id in results && results[p.id] == out.result
      // The postorder hook is given the data of the result's children, in order.
      ensures out.Visited? ==> forall n | Reaches(old(heap), p, n) ::
        n in results && HookedOnChildren(old(heap), heap, preorder, postorder, n, results[n])
    {
      orig, fixed, root, hooked, entered, results := heap, heap, p, [], [], map[];
      tracker.Clear();
      if p.To? {
        ReachesSelf(orig, p.id);
      }
      assert Open(0);
      ghost var given, firstNew := heap, currentId;
      out := ApplyVisitor(p);
      if out.Visited? {
        results := map k | k in tracker.visited :: tracker.visited[k].result;
        InvAtEnd(orig, fixed, heap, currentId, tracker.visited, preorder, postorder, root, hooked, firstNew, out.result);
        EnteredAtEnd(orig, fixed, heap, currentId, tracker.visited, preorder, postorder, root, hooked, entered, firstNew);
      } else {
        assert !HasTree(given, p);
      }
    }
  }
}
