/** `forAllEvaluatedBlocks`: a worklist over the blocks under a block. */
module EvaluatedBlocks {
  import opened IrGraph
  import opened Collections

  /** An entry of `constantValue`: optional arguments may be null, and not every value is a block. */
  datatype Value = NullValue | OtherValue | BlockValue(block: nat)

  type Blocks = map<nat, seq<Value>>

  function Target(v: Value): Ptr {
    if v.BlockValue? then To(v.block) else Null
  }

  /** The graph of the blocks alone. */
  ghost function Links(blocks: Blocks): Graph<()> {
    map b | b in blocks :: Node((), seq(|blocks[b]|, i requires 0 <= i < |blocks[b]| => Target(blocks[b][i])))
  }

  ghost predicate WellLinked(blocks: Blocks) {
    forall b, v | b in blocks && v in blocks[b] && v.BlockValue? :: v.block in blocks
  }

  /** Blocks that have been visited or wait to be: reachable, listed once, and with all that `done` leads to. */
  ghost predicate Worklist(blocks: Blocks, root: nat, visited: seq<nat>, frontier: seq<nat>) {
    && root in visited + frontier && NoDuplicates(visited + frontier)
    && forall b | b in visited + frontier :: b in blocks && Reaches(Links(blocks), To(root), b)
  }

  /** The first `n` values of `b` have been looked at. */
  ghost predicate Covered(blocks: Blocks, b: nat, n: nat, all: seq<nat>) {
    b in blocks && n <= |blocks[b]| && forall i | 0 <= i < n && blocks[b][i].BlockValue? :: blocks[b][i].block in all
  }

  lemma LinkOf(blocks: Blocks, b: nat, i: nat)
    requires b in blocks && i < |blocks[b]| && blocks[b][i].BlockValue?
    ensures Edge(Links(blocks), b, blocks[b][i].block)
  {
    assert Links(blocks)[b].children[i] == To(blocks[b][i].block);
  }

  /** When nothing waits any more, all that is reachable has been visited. */
  lemma AllVisited(blocks: Blocks, root: nat, visited: seq<nat>, b: nat)
    requires root in visited && forall x | x in visited :: x in blocks && Covered(blocks, x, |blocks[x]|, visited)
    requires Reaches(Links(blocks), To(root), b)
    ensures b in visited
  {
    var s := set x | x in visited;
    forall x, y | x in s && Edge(Links(blocks), x, y) ensures y in s {
      var i :| 0 <= i < |Links(blocks)[x].children| && Links(blocks)[x].children[i] == To(y);
      assert Covered(blocks, x, |blocks[x]|, visited);
      assert blocks[x][i] == BlockValue(y);
    }
    ReachesStaysInside(Links(blocks), To(root), b, s);
  }

  class Worker {
    var visited: set<nat>
    var frontier: seq<nat>
    /** The blocks that the function has been called on, in order. */
    ghost var called: seq<nat>

    ghost predicate Valid(blocks: Blocks, root: nat)
      reads this
    {
      && visited == (set b | b in called) && WellLinked(blocks)
      && Worklist(blocks, root, called, frontier)
    }

    constructor ()
      ensures visited == {} && frontier == [] && called == []
    {
      visited, frontier, called := {}, [], [];
    }

    /** Calls the function exactly once on every block that can be reached, and on nothing else. */
    method ForAll(blocks: Blocks, block: nat)
      requires WellLinked(blocks) && block in blocks && visited == {} && called == []
      modifies this
      ensures NoDuplicates(called) && forall b :: b in called <==> Reaches(Links(blocks), To(block), b)
      ensures called != [] && called[0] == block
    {
      frontier := [block];
      ReachesSelf(Links(blocks), block);
      while frontier != []
        invariant Valid(blocks, block) && if called == [] then frontier == [block] else called[0] == block
        invariant forall x | x in called :: Covered(blocks, x, |blocks[x]|, called + frontier)
        decreases blocks.Keys - visited
      {
        Visit(blocks, block);
      }
      assert called + [] == called;
      forall b | Reaches(Links(blocks), To(block), b) ensures b in called {
        AllVisited(blocks, block, called, b);
      }
    }

    /** Takes the first block off the frontier and puts its new children on. */
    method Visit(blocks: Blocks, root: nat)
      requires Valid(blocks, root) && frontier != []
      requires forall x | x in called :: Covered(blocks, x, |blocks[x]|, called + frontier)
      modifies this
      ensures Valid(blocks, root) && called == old(called) + [old(frontier)[0]]
      ensures forall x | x in called :: Covered(blocks, x, |blocks[x]|, called + frontier)
      ensures blocks.Keys - visited < old(blocks.Keys - visited)
    {
      var evaluatedBlock := frontier[0];
      assert called + frontier == (called + [evaluatedBlock]) + frontier[1..];
      NotListedTwice(called, frontier);
      assert evaluatedBlock in blocks.Keys - visited;
      frontier := frontier[1..];
      visited := visited + {evaluatedBlock};
      called := called + [evaluatedBlock];
      var values := blocks[evaluatedBlock];
      for i := 0 to |values|
        invariant Valid(blocks, root) && called == old(called) + [evaluatedBlock] && visited == old(visited) + {evaluatedBlock}
        invariant Covered(blocks, evaluatedBlock, i, called + frontier)
        invariant forall x | x in old(called) :: Covered(blocks, x, |blocks[x]|, called + frontier)
      {
        AddChild(blocks, root, evaluatedBlock, i);
      }
    }

    /** Puts a child on the frontier unless it has been visited or is there already. */
    method AddChild(blocks: Blocks, root: nat, b: nat, i: nat)
      requires Valid(blocks, root) && b in called && b in blocks && i < |blocks[b]|
      modifies this`frontier
      ensures Valid(blocks, root) && old(frontier) <= frontier
      ensures blocks[b][i].BlockValue? ==> blocks[b][i].block in called + frontier
    {
      var value := blocks[b][i];
      if value.BlockValue? && value.block !in visited && value.block !in frontier {
        var child := value.block;
        LinkOf(blocks, b, i);
        assert b in called + frontier;
        ReachesStep(Links(blocks), To(root), b, child);
        assert value in blocks[b];
        assert called + (frontier + [child]) == (called + frontier) + [child];
        frontier := frontier + [child];
      }
    }
  }

  lemma NotListedTwice(visited: seq<nat>, frontier: seq<nat>)
    requires NoDuplicates(visited + frontier) && frontier != []
    ensures frontier[0] !in visited
  {
    var all := visited + frontier;
    assert all[|visited|] == frontier[0];
    forall j | 0 <= j < |visited| ensures visited[j] != frontier[0] {
      assert all[j] == visited[j];
    }
  }
}
