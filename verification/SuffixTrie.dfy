/** `P4SymbolSuffixSet`: a tree of the components of symbol names, from the last one on. */
module SuffixTrie {
  import opened SymbolNames
  import opened Wrappers

  /** A node; `edges` holds the positions of its successors. */
  datatype Node = Node(instances: nat, edges: map<string, nat>)

  /** Node `i` is reached by the components `paths[i]`, and by no others. */
  ghost predicate Shape(nodes: seq<Node>, paths: seq<seq<string>>) {
    && |paths| == |nodes| > 0 && paths[0] == []
    && (forall i, c {:trigger c in nodes[i].edges} | 0 <= i < |nodes| && c in nodes[i].edges :: EdgeFits(nodes, paths, i, c))
    && (forall i, j {:trigger Later(i, j)} | 0 <= i < j < |nodes| && Later(i, j) :: paths[i] != paths[j])
    && (forall i {:trigger HasParent(nodes, paths, i)} | 0 < i < |nodes| :: HasParent(nodes, paths, i))
  }

  ghost predicate Later(i: nat, j: nat) {
    i < j
  }

  ghost predicate EdgeFits(nodes: seq<Node>, paths: seq<seq<string>>, i: nat, c: string)
    requires i < |nodes| == |paths| && c in nodes[i].edges
  {
    nodes[i].edges[c] < |nodes| && paths[nodes[i].edges[c]] == paths[i] + [c]
  }

  ghost predicate HasParent(nodes: seq<Node>, paths: seq<seq<string>>, i: nat)
    requires i < |nodes| == |paths|
  {
    paths[i] != [] && exists p :: 0 <= p < |nodes| && IsParent(nodes, paths, p, i)
  }

  ghost predicate IsParent(nodes: seq<Node>, paths: seq<seq<string>>, p: nat, i: nat)
    requires p < |nodes| == |paths| && i < |nodes| && paths[i] != []
  {
    var n := |paths[i]| - 1;
    paths[p] == paths[i][..n] && paths[i][n] in nodes[p].edges
  }

  /** A node counts the symbols that have its components, and one more along `extra`. */
  ghost predicate Counts(nodes: seq<Node>, paths: seq<seq<string>>, symbols: set<string>, extra: seq<string>) {
    |paths| == |nodes| && forall i {:trigger CountsAt(nodes, paths, symbols, extra, i)} | 0 < i < |nodes| :: CountsAt(nodes, paths, symbols, extra, i)
  }

  ghost predicate CountsAt(nodes: seq<Node>, paths: seq<seq<string>>, symbols: set<string>, extra: seq<string>, i: nat)
    requires i < |nodes| == |paths|
  {
    nodes[i].instances == |Owners(symbols, paths[i])| + if paths[i] <= extra then 1 else 0
  }

  /** All suffixes of all symbols are in the tree. */
  ghost predicate Complete(paths: seq<seq<string>>, symbols: set<string>) {
    forall s | s in symbols :: CompleteFor(paths, Rev(s))
  }

  ghost predicate CompleteFor(paths: seq<seq<string>>, rev: seq<string>) {
    forall n {:trigger rev[..n]} | 0 <= n <= |rev| :: rev[..n] in paths
  }

  /** A path with its last component is in the tree only if there is an edge. */
  lemma NodeHasEdge(nodes: seq<Node>, paths: seq<seq<string>>, node: nat, c: string)
    requires Shape(nodes, paths) && node < |nodes| && paths[node] + [c] in paths
    ensures c in nodes[node].edges
  {
    var path := paths[node] + [c];
    var i :| 0 <= i < |paths| && paths[i] == path;
    assert HasParent(nodes, paths, i);
    var p: nat :| p < |nodes| && IsParent(nodes, paths, p, i);
    assert paths[p] == paths[node];
    assert Later(p, node) || Later(node, p) || p == node;
  }

  lemma NoEdgeNoNode(nodes: seq<Node>, paths: seq<seq<string>>, node: nat, c: string)
    requires Shape(nodes, paths) && node < |nodes| && c !in nodes[node].edges
    ensures paths[node] + [c] !in paths
  {
    if paths[node] + [c] in paths {
      NodeHasEdge(nodes, paths, node, c);
    }
  }

  ghost function WithNode(nodes: seq<Node>, node: nat, c: string): seq<Node>
    requires node < |nodes|
  {
    nodes[node := nodes[node].(edges := nodes[node].edges[c := |nodes|])] + [Node(0, map[])]
  }

  lemma NewNode(nodes: seq<Node>, paths: seq<seq<string>>, node: nat, c: string)
    requires Shape(nodes, paths) && node < |nodes| && c !in nodes[node].edges
    ensures Shape(WithNode(nodes, node, c), paths + [paths[node] + [c]])
  {
    NoEdgeNoNode(nodes, paths, node, c);
    var nodes', paths', k := WithNode(nodes, node, c), paths + [paths[node] + [c]], |nodes|;
    forall i, d {:trigger d in nodes'[i].edges} | 0 <= i < |nodes'| && d in nodes'[i].edges ensures EdgeFits(nodes', paths', i, d) {
      if !(i == node && d == c) {
        assert d in nodes[i].edges;
        assert EdgeFits(nodes, paths, i, d);
      }
    }
    forall i {:trigger HasParent(nodes', paths', i)} | 0 < i < |nodes'| ensures HasParent(nodes', paths', i) {
      if i == k {
        assert (paths[node] + [c])[..|paths[node]|] == paths[node];
        assert IsParent(nodes', paths', node, k);
      } else {
        assert HasParent(nodes, paths, i);
        var p: nat :| p < |nodes| && IsParent(nodes, paths, p, i);
        assert IsParent(nodes', paths', p, i);
      }
    }
  }

  /** A new node belongs to no symbol yet. */
  lemma NewCounts(nodes: seq<Node>, paths: seq<seq<string>>, symbols: set<string>, extra: seq<string>, node: nat, c: string)
    requires Shape(nodes, paths) && node < |nodes| && c !in nodes[node].edges && paths[node] == extra
    requires Counts(nodes, paths, symbols, extra) && Complete(paths, symbols)
    ensures Counts(WithNode(nodes, node, c), paths + [paths[node] + [c]], symbols, extra)
  {
    var nodes', paths' := WithNode(nodes, node, c), paths + [paths[node] + [c]];
    NoEdgeNoNode(nodes, paths, node, c);
    OwnersHaveNode(paths, symbols, paths[node] + [c]);
    forall i {:trigger CountsAt(nodes', paths', symbols, extra, i)} | 0 < i < |nodes'| ensures CountsAt(nodes', paths', symbols, extra, i) {
      assert i < |nodes| ==> CountsAt(nodes, paths, symbols, extra, i);
    }
  }

  lemma OwnerHasNode(paths: seq<seq<string>>, symbols: set<string>, path: seq<string>, s: string)
    requires Complete(paths, symbols) && s in Owners(symbols, path)
    ensures path in paths
  {
    assert CompleteFor(paths, Rev(s));
    assert path == Rev(s)[..|path|];
  }

  lemma OwnersHaveNode(paths: seq<seq<string>>, symbols: set<string>, path: seq<string>)
    requires Complete(paths, symbols)
    ensures path !in paths ==> Owners(symbols, path) == {}
  {
    if s :| s in Owners(symbols, path) {
      OwnerHasNode(paths, symbols, path, s);
    }
  }

  /** Counting one more at the node where `extra` gets longer. */
  lemma CountOneMore(nodes: seq<Node>, paths: seq<seq<string>>, symbols: set<string>, extra: seq<string>, k: nat, c: string)
    requires Shape(nodes, paths) && Counts(nodes, paths, symbols, extra) && 0 < k < |nodes| && paths[k] == extra + [c]
    ensures Counts(nodes[k := nodes[k].(instances := nodes[k].instances + 1)], paths, symbols, extra + [c])
    ensures Shape(nodes[k := nodes[k].(instances := nodes[k].instances + 1)], paths)
  {
    var nodes' := nodes[k := nodes[k].(instances := nodes[k].instances + 1)];
    forall i {:trigger CountsAt(nodes', paths, symbols, extra + [c], i)} | 0 < i < |nodes'| ensures CountsAt(nodes', paths, symbols, extra + [c], i) {
      assert CountsAt(nodes, paths, symbols, extra, i);
      assert Later(i, k) || Later(k, i) || i == k;
      PrefixOfLonger(paths[i], extra, c);
    }
    SameShape(nodes, nodes', paths);
  }

  lemma PrefixOfLonger(p: seq<string>, extra: seq<string>, c: string)
    ensures p <= extra + [c] <==> p <= extra || p == extra + [c]
  {
  }

  lemma SameShape(nodes: seq<Node>, nodes': seq<Node>, paths: seq<seq<string>>)
    requires Shape(nodes, paths) && |nodes'| == |nodes| && forall i | 0 <= i < |nodes| :: nodes'[i].edges == nodes[i].edges
    ensures Shape(nodes', paths)
  {
    forall i, d {:trigger d in nodes'[i].edges} | 0 <= i < |nodes'| && d in nodes'[i].edges ensures EdgeFits(nodes', paths, i, d) {
      assert d in nodes[i].edges;
      assert EdgeFits(nodes, paths, i, d);
    }
    forall i {:trigger HasParent(nodes', paths, i)} | 0 < i < |nodes'| ensures HasParent(nodes', paths, i) {
      assert HasParent(nodes, paths, i);
      var p: nat :| p < |nodes| && IsParent(nodes, paths, p, i);
      assert IsParent(nodes', paths, p, i);
    }
  }

  /** The symbol itself becomes the one that is counted along its components. */
  lemma CountSymbol(nodes: seq<Node>, paths: seq<seq<string>>, symbols: set<string>, s: string)
    requires Shape(nodes, paths) && Counts(nodes, paths, symbols, Rev(s)) && s !in symbols
    ensures Counts(nodes, paths, symbols + {s}, [])
  {
    forall i {:trigger CountsAt(nodes, paths, symbols + {s}, [], i)} | 0 < i < |nodes| ensures CountsAt(nodes, paths, symbols + {s}, [], i) {
      assert CountsAt(nodes, paths, symbols, Rev(s), i);
      assert HasParent(nodes, paths, i);
      OneMoreOwner(symbols, paths[i], s);
    }
  }

  lemma OneMoreOwner(symbols: set<string>, path: seq<string>, s: string)
    requires s !in symbols
    ensures |Owners(symbols + {s}, path)| == |Owners(symbols, path)| + if path <= Rev(s) then 1 else 0
  {
    assert Owners(symbols + {s}, path) == Owners(symbols, path) + if path <= Rev(s) then {s} else {};
  }

  class P4SymbolSuffixSet {
    var symbols: set<string>
    var nodes: seq<Node>
    ghost var paths: seq<seq<string>>

    ghost predicate Valid()
      reads this
    {
      Shape(nodes, paths) && Counts(nodes, paths, symbols, []) && Complete(paths, symbols)
    }

    constructor ()
      ensures Valid() && symbols == {}
    {
      symbols, nodes, paths := {}, [Node(0, map[])], [[]];
    }

    method AddSymbol(symbol: string)
      requires Valid() && symbol != ""
      modifies this
      ensures Valid() && symbols == old(symbols) + {symbol}
    {
      if symbol in symbols {
        return;
      }
      var components := Split(symbol);
      ghost var before, rev := symbols, Rev(symbol);
      symbols := symbols + {symbol};
      var node: nat := 0;
      var k := |components|;
      assert rev[..0] == [];
      while k > 0
        invariant symbols == before + {symbol} && 0 <= k <= |components| == |rev|
        invariant node < |nodes| && Shape(nodes, paths) && paths[node] == rev[..|rev| - k]
        invariant Counts(nodes, paths, before, rev[..|rev| - k]) && Complete(paths, before)
        invariant forall n {:trigger rev[..n]} | 0 <= n <= |rev| - k :: rev[..n] in paths
      {
        k := k - 1;
        var component := components[k];
        assert rev[..|rev| - k] == rev[..|rev| - k - 1] + [component];
        node := Step(node, component, before);
      }
      assert rev[..|rev|] == rev;
      CountSymbol(nodes, paths, before, symbol);
      assert CompleteFor(paths, Rev(symbol));
    }

    /** One component on, along an edge that is made if there is none. */
    method Step(node: nat, component: string, ghost before: set<string>) returns (next: nat)
      requires node < |nodes| && Shape(nodes, paths) && Counts(nodes, paths, before, paths[node]) && Complete(paths, before)
      modifies this`nodes, this`paths
      ensures next < |nodes| && Shape(nodes, paths) && paths[next] == old(paths)[node] + [component]
      ensures Counts(nodes, paths, before, old(paths)[node] + [component]) && Complete(paths, before)
      ensures old(paths) <= paths
    {
      ghost var extra := paths[node];
      if component !in nodes[node].edges {
        NewNode(nodes, paths, node, component);
        NewCounts(nodes, paths, before, extra, node, component);
        MorePaths(paths, extra + [component], before);
        ghost var nodes' := WithNode(nodes, node, component);
        next := |nodes|;
        nodes := nodes[node := nodes[node].(edges := nodes[node].edges[component := next])];
        nodes := nodes + [Node(0, map[])];
        paths := paths + [extra + [component]];
        assert nodes == nodes';
      }
      assert component in nodes[node].edges;
      next := nodes[node].edges[component];
      CountOneMore(nodes, paths, before, extra, next, component);
      nodes := nodes[next := nodes[next].(instances := nodes[next].instances + 1)];
    }

    method ShortestUniqueSuffix(symbol: string) returns (r: Option<string>)
      requires Valid() && symbol != ""
      ensures symbol in symbols ==> r == Some(Alias(symbols, symbol))
    {
      var components := Split(symbol);
      ghost var rev := Rev(symbol);
      var neededComponents: nat := 0;
      var node: nat := 0;
      assert rev[..0] == [];
      while neededComponents < |components|
        invariant neededComponents <= |components| == |rev|
        invariant node < |nodes| && paths[node] == rev[..neededComponents]
        invariant symbol in symbols ==> NotEnough(symbols, symbol, neededComponents)
      {
        var component := components[|components| - 1 - neededComponents];
        ghost var path := rev[..neededComponents + 1];
        NextReversed(components, neededComponents);
        if component !in nodes[node].edges {
          NoEdgeNoNode(nodes, paths, node, component);
          assert symbol in symbols ==> CompleteFor(paths, rev);
          return None;
        }
        if symbol in symbols {
          OneMoreNeeded(symbols, symbol, neededComponents);
        }
        node := nodes[node].edges[component];
        neededComponents := neededComponents + 1;
        assert paths[node] == path;
        assert CountsAt(nodes, paths, symbols, [], node);
        if nodes[node].instances < 2 {
          break;
        }
      }
      assert symbol in symbols ==> neededComponents == Needed(symbols, symbol, 1);
      var text := AliasOf(components[|components| - neededComponents..]);
      return Some(text);
    }

    method AliasOf(components: seq<string>) returns (uniqueSuffix: string)
      ensures uniqueSuffix == AliasText("", components)
    {
      uniqueSuffix := "";
      assert components[0..] == components;
      for i := 0 to |components|
        invariant AliasText("", components) == AliasText(uniqueSuffix, components[i..])
      {
        assert components[i..][1..] == components[i + 1..];
        if uniqueSuffix != "" {
          uniqueSuffix := uniqueSuffix + ".";
        }
        uniqueSuffix := uniqueSuffix + components[i];
      }
    }
  }

  /** The alias of `s` takes more than the last `n` components, or all of them. */
  ghost predicate NotEnough(symbols: set<string>, s: string, n: nat)
    requires n <= |Rev(s)|
  {
    Needed(symbols, s, 1) == if n < |Rev(s)| then Needed(symbols, s, n + 1) else n
  }

  lemma NextReversed(cs: seq<string>, n: nat)
    requires n < |cs|
    ensures Reverse(cs)[..n + 1] == Reverse(cs)[..n] + [cs[|cs| - 1 - n]]
  {
    assert Reverse(cs)[n] == cs[|cs| - 1 - n];
  }

  lemma OneMoreNeeded(symbols: set<string>, s: string, n: nat)
    requires n < |Rev(s)| && NotEnough(symbols, s, n)
    ensures if |Owners(symbols, Rev(s)[..n + 1])| < 2 then Needed(symbols, s, 1) == n + 1 else NotEnough(symbols, s, n + 1)
  {
  }

  lemma MorePaths(paths: seq<seq<string>>, path: seq<string>, symbols: set<string>)
    requires Complete(paths, symbols)
    ensures Complete(paths + [path], symbols)
  {
    forall s | s in symbols ensures CompleteFor(paths + [path], Rev(s)) {
      assert CompleteFor(paths, Rev(s));
    }
  }
}
