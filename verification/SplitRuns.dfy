/** Running a state before and after an array in it was split: the graph allows the same orders of execution, and in
    each of them the accesses read the same values from the parts as from the array. */
module SplitRuns {
  import opened Digraph
  import opened ArraySplit
  import opened ArrayLayout

  /** An order in which the nodes that compute, or access other containers, may run: all of them, each once, and none
      before one it depends on. */
  ghost predicate Allowed(nodes: map<Node, Kind>, edges: seq<Edge>, order: seq<Node>) {
    && (forall n :: n in order <==> n in nodes && nodes[n].OtherNode?)
    && (forall i, j :: 0 <= i < j < |order| ==> order[i] != order[j] && !Reach(PairsOf(edges), order[j], order[i]))
  }

  /** The accesses of the nodes, in the order they run. */
  ghost function Program<V>(order: seq<Node>, does: Node -> seq<Op<V>>): seq<Op<V>> {
    if order == [] then [] else does(order[0]) + Program(order[1..], does)
  }

  /** The access is one an edge of the node stands for. */
  ghost predicate ByEdge<V>(edges: seq<Edge>, shape: seq<nat>, dim: nat, n: Node, op: Op<V>)
    requires dim < |shape|
  {
    InBounds(shape, op.idx) &&
    exists e :: e in edges && e.memlet == Touch(Literal(op.idx[dim])) && n == if op.Read? then e.dst else e.src
  }

  lemma {:induction false} InProgram<V>(order: seq<Node>, does: Node -> seq<Op<V>>, op: Op<V>) returns (n: Node)
    requires op in Program(order, does)
    ensures n in order && op in does(n)
    decreases |order|
  {
    if op in does(order[0]) {
      n := order[0];
    } else {
      n := InProgram(order[1..], does, op);
    }
  }

  lemma SameOrders(nodes: map<Node, Kind>, edges: seq<Edge>, nodes': map<Node, Kind>, edges': seq<Edge>,
                   order: seq<Node>)
    requires SplitOf(nodes, edges, nodes', edges')
    ensures Allowed(nodes', edges', order) <==> Allowed(nodes, edges, order)
  {
    if forall n :: n in order <==> n in nodes && nodes[n].OtherNode? {
      forall i, j | 0 <= i < j < |order|
        ensures Reach(PairsOf(edges'), order[j], order[i]) <==> Reach(PairsOf(edges), order[j], order[i])
      {
        var u, v := order[j], order[i];
        assert u in order && v in order;
        assert u in nodes && v in nodes && nodes[u].OtherNode? && nodes[v].OtherNode?;
      }
    }
  }

  /** Every order the split graph allows, the graph allowed before, and the other way round; and run in it, whatever the
      nodes do through their edges, the accesses read the same values from the parts as from the array, and leave the
      parts holding the array. */
  lemma SplitRunsSame<V(!new)>(nodes: map<Node, Kind>, edges: seq<Edge>, nodes': map<Node, Kind>, edges': seq<Edge>,
                               used: set<int>, order: seq<Node>, does: Node -> seq<Op<V>>, shape: seq<nat>, dim: nat,
                               a: map<seq<int>, V>, parts: map<int, seq<V>>)
    requires SplitOf(nodes, edges, nodes', edges') && forall k :: k in used <==> TouchedAt(edges, k)
    requires dim < |shape| && Allocated(shape, dim, used, parts) && Holds(shape, dim, used, a, parts)
    requires Allowed(nodes', edges', order)
    requires forall n, op :: n in order && op in does(n) ==> ByEdge(edges, shape, dim, n, op)
    ensures Allowed(nodes, edges, order)
    ensures var ops := Program(order, does);
            && (forall op :: op in ops ==> op.idx in a && Accepted(shape, dim, used, op))
            && RunArray(a, ops).0 == RunParts(shape, dim, used, parts, ops).0
            && Allocated(shape, dim, used, RunParts(shape, dim, used, parts, ops).1)
            && Holds(shape, dim, used, RunArray(a, ops).1, RunParts(shape, dim, used, parts, ops).1)
  {
    SameOrders(nodes, edges, nodes', edges', order);
    var ops := Program(order, does);
    forall op | op in ops ensures Accepted(shape, dim, used, op) {
      var n := InProgram(order, does, op);
      assert ByEdge(edges, shape, dim, n, op);
      assert TouchedAt(edges, op.idx[dim]);
    }
    PartsSimulate(shape, dim, used, a, parts, ops);
  }
}
