/** Splitting the access nodes of an array inside one dataflow state: each node becomes one node per constant index,
    and empty (ordering) edges restore the order the shared node gave. */
module ArraySplit {
  import opened Digraph
  import opened Options

  type Node = int

  /** The split dimension's subscript: a literal, or anything the pass cannot read. */
  datatype Subscript = Literal(k: int) | Symbolic

  /** What an edge carries: nothing (it only orders its ends), data of other containers, or part of the array. */
  datatype Memlet = Empty | Foreign | Touch(sub: Subscript)

  datatype Edge = Edge(src: Node, dst: Node, memlet: Memlet)

  datatype Kind = ArrayAccess | PartAccess(index: int) | OtherNode

  /** The replacement dictionary of one node: its indices in order of first use, their nodes numbered from `base`. */
  datatype Parts = Parts(base: Node, keys: seq<int>) {
    predicate Has(n: Node) {
      base <= n < base + |keys|
    }

    function Of(k: int): (n: Node)
      requires k in keys
      ensures Has(n) && keys[n - base] == k
    {
      base + Position(keys, k)
    }

    function List(): (r: seq<Node>)
      ensures forall n :: n in r <==> Has(n)
    {
      var r := seq(|keys|, i => base + i);
      assert forall n :: Has(n) ==> r[n - base] == n;
      r
    }

    ghost function Nodes(): map<Node, Kind> {
      map n | base <= n < base + |keys| && Has(n) :: PartAccess(keys[n - base])
    }
  }

  function Position(keys: seq<int>, k: int): (i: nat)
    requires k in keys
    ensures i < |keys| && keys[i] == k
  {
    if keys[0] == k then 0 else 1 + Position(keys[1..], k)
  }

  ghost function PairsOf(edges: seq<Edge>): set<(Node, Node)> {
    set e | e in edges :: (e.src, e.dst)
  }

  function PairList(edges: seq<Edge>): (r: seq<(Node, Node)>)
    ensures EdgeSet(r) == PairsOf(edges)
  {
    var r := seq(|edges|, i requires 0 <= i < |edges| => (edges[i].src, edges[i].dst));
    assert forall i :: 0 <= i < |edges| ==> r[i] == (edges[i].src, edges[i].dst) && edges[i] in edges;
    assert forall e :: e in edges ==> exists i :: 0 <= i < |edges| && edges[i] == e && r[i] == (e.src, e.dst);
    r
  }

  function Incident(edges: seq<Edge>, node: Node): (r: seq<Edge>)
    ensures forall e :: e in r <==> e in edges && (e.src == node || e.dst == node)
  {
    if edges == [] then []
    else (if edges[0].src == node || edges[0].dst == node then [edges[0]] else []) + Incident(edges[1..], node)
  }

  function NotIncident(edges: seq<Edge>, node: Node): (r: seq<Edge>)
    ensures forall e :: e in r <==> e in edges && e.src != node && e.dst != node
  {
    if edges == [] then []
    else (if edges[0].src == node || edges[0].dst == node then [] else [edges[0]]) + NotIncident(edges[1..], node)
  }

  /** `_written`: some edge into the node carries data. */
  predicate Written(edges: seq<Edge>, node: Node) {
    exists e :: e in edges && e.dst == node && !e.memlet.Empty?
  }

  /** No edge into the node carries data. */
  ghost predicate NoDataInto(edges: seq<Edge>, node: Node) {
    forall e :: e in edges && e.dst == node ==> e.memlet.Empty?
  }

  /** Writes into two parts, and a read of the second. */
  ghost predicate BothWritten(edges: seq<Edge>, parts: seq<Node>, f: Edge, f': Edge, g: Edge) {
    && DataEdge(edges, f) && DataEdge(edges, f') && DataEdge(edges, g)
    && f.dst in parts && f'.dst in parts && f.dst != f'.dst && g.src == f'.dst
  }

  ghost predicate DataEdge(edges: seq<Edge>, e: Edge) {
    e in edges && !e.memlet.Empty?
  }

  // ---------------------------------------------------------------- the order argument, on plain graphs

  /** Contract the parts back into the node they came from. */
  ghost function Fold(parts: set<Node>, node: Node, x: Node): Node {
    if x in parts then node else x
  }

  /** Every edge of `G` folds to a path of `E`, or joins a written part to one only read. */
  ghost predicate Folds(E: set<(Node, Node)>, G: set<(Node, Node)>, node: Node, parts: set<Node>, written: set<Node>) {
    forall e :: e in G ==>
      e.0 != node && e.1 != node &&
      (ReachPlus(E, Fold(parts, node, e.0), Fold(parts, node, e.1)) || (e.0 in written && e.1 in parts - written))
  }

  /** `G` keeps the edges away from the node and orders each of its predecessors before each of its successors. */
  ghost predicate Covers(E: set<(Node, Node)>, G: set<(Node, Node)>, node: Node) {
    && (forall e :: e in E && e.0 != node && e.1 != node ==> e in G)
    && (forall x, y :: (x, node) in E && (node, y) in E ==> Reach(G, x, y))
  }

  lemma {:induction false} WalkFolds(E: set<(Node, Node)>, G: set<(Node, Node)>, node: Node, parts: set<Node>,
                                     written: set<Node>, u: Node, p: seq<Node>, v: Node)
    requires Folds(E, G, node, parts, written) && written <= parts
    requires Walk(G, u, p, v)
    ensures Reach(E, Fold(parts, node, u), Fold(parts, node, v))
    decreases |p|
  {
    if p == [] {
      ReachRefl(E, Fold(parts, node, u));
    } else {
      WalkFolds(E, G, node, parts, written, p[0], p[1..], v);
      assert (u, p[0]) in G;
      if ReachPlus(E, Fold(parts, node, u), Fold(parts, node, p[0])) {
        ReachPlusThen(E, Fold(parts, node, u), Fold(parts, node, p[0]), Fold(parts, node, v));
      }
    }
  }

  lemma {:induction false} WalkCovered(E: set<(Node, Node)>, G: set<(Node, Node)>, node: Node,
                                       u: Node, p: seq<Node>, v: Node)
    requires Covers(E, G, node) && (node, node) !in E
    requires u != node && v != node && Walk(E, u, p, v)
    ensures Reach(G, u, v)
    decreases |p|
  {
    if p == [] {
      ReachRefl(G, u);
    } else if p[0] != node {
      WalkCovered(E, G, node, p[0], p[1..], v);
      assert (u, p[0]) in G;
      ReachStep(G, u, p[0], v);
    } else {
      var q := p[1..];
      assert Walk(E, node, q, v) && q != [];
      assert (node, q[0]) in E;
      WalkCovered(E, G, node, q[0], q[1..], v);
      ReachTrans(G, u, q[0], v);
    }
  }

  /** Splitting the node neither loses nor adds order between the other nodes. */
  lemma OrderExact(E: set<(Node, Node)>, G: set<(Node, Node)>, node: Node, parts: set<Node>, written: set<Node>,
                   u: Node, v: Node)
    requires Folds(E, G, node, parts, written) && written <= parts && Covers(E, G, node) && (node, node) !in E
    requires u != node && v != node && u !in parts && v !in parts
    ensures Reach(E, u, v) <==> Reach(G, u, v)
  {
    if Reach(E, u, v) {
      var p :| Walk(E, u, p, v);
      WalkCovered(E, G, node, u, p, v);
    }
    if Reach(G, u, v) {
      var p :| Walk(G, u, p, v);
      WalkFolds(E, G, node, parts, written, u, p, v);
    }
  }

  /** The ordering edges close no cycle. */
  lemma StaysAcyclic(E: set<(Node, Node)>, G: set<(Node, Node)>, node: Node, parts: set<Node>, written: set<Node>)
    requires Folds(E, G, node, parts, written) && written <= parts
    requires Acyclic(E)
    ensures Acyclic(G)
  {
    forall u ensures !ReachPlus(G, u, u) {
      if ReachPlus(G, u, u) {
        var m :| (u, m) in G && Reach(G, m, u);
        if !ReachPlus(E, Fold(parts, node, u), Fold(parts, node, m)) {
          ReachCases(G, m, u);
          var m' :| (m, m') in G && Reach(G, m', u);
          FoldsToCycle(E, G, node, parts, written, m, m', u);
        } else {
          FoldsToCycle(E, G, node, parts, written, u, m, u);
        }
      }
    }
  }

  lemma FoldsToCycle(E: set<(Node, Node)>, G: set<(Node, Node)>, node: Node, parts: set<Node>, written: set<Node>,
                     u: Node, m: Node, v: Node)
    requires Folds(E, G, node, parts, written) && written <= parts
    requires Fold(parts, node, u) == Fold(parts, node, v)
    requires ReachPlus(E, Fold(parts, node, u), Fold(parts, node, m)) && Reach(G, m, v)
    ensures !Acyclic(E)
  {
    var p :| Walk(G, m, p, v);
    WalkFolds(E, G, node, parts, written, m, p, v);
    ReachPlusThen(E, Fold(parts, node, u), Fold(parts, node, m), Fold(parts, node, v));
  }

  // ---------------------------------------------------------------- one node

  /** Edge `e` of the state once the node has become `parts` (before `KeepOrder`). */
  ghost predicate Moved(edges: seq<Edge>, node: Node, parts: Parts, e: Edge) {
    || (e in edges && e.src != node && e.dst != node)
    || (exists f :: f in edges && MovedTouch(f, node, parts, e))
    || (exists b :: b in edges && OrderInto(b, edges, node, parts, e))
    || (parts.Has(e.src) && e.memlet.Empty? && Edge(node, e.dst, Empty) in edges)
  }

  ghost predicate AllMoved(edges: seq<Edge>, node: Node, parts: Parts, moved: seq<Edge>) {
    forall e :: e in moved <==> Moved(edges, node, parts, e)
  }

  /** A data edge keeps its other end and its memlet and moves to the part of its own index. */
  ghost predicate MovedTouch(f: Edge, node: Node, parts: Parts, e: Edge) {
    && f.memlet.Touch? && f.memlet.sub.Literal? && f.memlet.sub.k in parts.keys
    && (|| (f.dst == node && e == f.(dst := parts.Of(f.memlet.sub.k)))
        || (f.dst != node && f.src == node && e == f.(src := parts.Of(f.memlet.sub.k))))
  }

  /** An ordering edge into the node goes to each part or, without parts, on to what the node was ordered before. */
  ghost predicate OrderInto(b: Edge, edges: seq<Edge>, node: Node, parts: Parts, e: Edge) {
    b.dst == node && b.memlet.Empty? && e.src == b.src && e.memlet.Empty? && OrderTarget(edges, node, parts, e.dst)
  }

  ghost predicate OrderTarget(edges: seq<Edge>, node: Node, parts: Parts, t: Node) {
    if parts.keys != [] then parts.Has(t) else Edge(node, t, Empty) in edges
  }

  /** What `KeepOrder` promises of the edges it appends. */
  ghost predicate OrderEdge(edges: seq<Edge>, parts: seq<Node>, e: Edge) {
    && e.memlet.Empty? && e.src in parts && Written(edges, e.src)
    && ((e.dst in parts && !Written(edges, e.dst)) ||
        (exists f :: f in edges && f.src in parts && !f.memlet.Empty? && f.dst == e.dst))
  }

  /** Part `w` comes before everything that part `o` hands data to (and before `o` itself when `o` is only read). */
  ghost predicate Ordered(base: seq<Edge>, G: set<(Node, Node)>, w: Node, o: Node) {
    if !Written(base, o) then Reach(G, w, o)
    else forall f :: f in base && f.src == o && !f.memlet.Empty? ==> Reach(G, w, f.dst)
  }

  /** Every written part is ordered before every other part. */
  ghost predicate AllOrdered(base: seq<Edge>, G: set<(Node, Node)>, parts: seq<Node>) {
    forall w, o :: w in parts && o in parts && w != o && Written(base, w) ==> Ordered(base, G, w, o)
  }

  /** Edge ends are nodes, and a data edge at an access node of the array touches the array, and no second node of it;
      at a part it touches that part's index. */
  ghost predicate ValidState(nodes: map<Node, Kind>, edges: seq<Edge>, next: Node) {
    (forall n :: n in nodes ==> n < next) && ValidEdges(nodes, edges)
  }

  ghost predicate ValidEdge(src: Kind, dst: Kind, memlet: Memlet) {
    && (!memlet.Empty? && (src.ArrayAccess? || dst.ArrayAccess?) ==>
          memlet.Touch? && !(src.ArrayAccess? && dst.ArrayAccess?))
    && (!memlet.Empty? && src.PartAccess? ==> memlet == Touch(Literal(src.index)))
    && (!memlet.Empty? && dst.PartAccess? ==> memlet == Touch(Literal(dst.index)))
  }

  ghost predicate ValidEdges(nodes: map<Node, Kind>, edges: seq<Edge>) {
    forall e :: e in edges ==> e.src in nodes && e.dst in nodes && ValidEdge(nodes[e.src], nodes[e.dst], e.memlet)
  }

  ghost predicate LiteralOnly(edges: seq<Edge>) {
    forall e :: e in edges && e.memlet.Touch? ==> e.memlet.sub.Literal?
  }

  class StateGraph {
    var nodes: map<Node, Kind>
    var edges: seq<Edge>
    var next: Node

    ghost predicate Valid()
      reads this
    {
      ValidState(nodes, edges, next)
    }

    ghost predicate AllLiteral()
      reads this
    {
      LiteralOnly(edges)
    }

    ghost function Pairs(): set<(Node, Node)>
      reads this
    {
      PairsOf(edges)
    }

    /** networkx `has_path`: every node has a path to itself. */
    method HasPath(u: Node, v: Node) returns (b: bool)
      ensures b <==> Reach(Pairs(), u, v)
    {
      if u == v {
        ReachRefl(Pairs(), u);
        return true;
      }
      b := Reaches(PairList(edges), u, v);
      if b {
        ReachPlusReach(Pairs(), u, v);
      } else if Reach(Pairs(), u, v) {
        ReachCases(Pairs(), u, v);
      }
    }

    /** `_keep_order`. */
    method KeepOrder(parts: seq<Node>)
      modifies this`edges
      ensures Extended(old(edges), edges, parts) && EachNeeded(|old(edges)|, edges)
      ensures AllOrdered(old(edges), Pairs(), parts)
      ensures forall f, o :: DataEdge(old(edges), f) && f.dst in parts && o in parts && NoDataInto(old(edges), o) ==>
                Reach(Pairs(), f.dst, o)
      ensures forall f, f', g :: BothWritten(old(edges), parts, f, f', g) ==> Reach(Pairs(), f.dst, g.dst)
    {
      ghost var base := edges;
      for i := 0 to |parts|
        invariant Extended(base, edges, parts) && EachNeeded(|base|, edges)
        invariant forall w, o :: w in parts[..i] && o in parts && w != o && Written(base, w) ==>
                    Ordered(base, Pairs(), w, o)
      {
        ghost var e0 := edges;
        var part := parts[i];
        WrittenSame(base, edges, parts, part);
        if Written(edges, part) {
          for j := 0 to |parts|
            invariant Extended(base, edges, parts) && EachNeeded(|base|, edges) && e0 <= edges
            invariant forall o :: o in parts[..j] && part != o ==> Ordered(base, Pairs(), part, o)
          {
            var other := parts[j];
            if other != part {
              ghost var e1 := edges;
              Order(part, other, base, parts);
              forall o | o in parts[..j] && part != o ensures Ordered(base, Pairs(), part, o) {
                OrderedMono(base, e1, edges, part, o);
              }
            }
            assert parts[..j + 1] == parts[..j] + [other];
          }
        }
        forall w, o | w in parts[..i + 1] && o in parts && w != o && Written(base, w)
          ensures Ordered(base, Pairs(), w, o)
        {
          assert parts[..i + 1] == parts[..i] + [part] && parts[..|parts|] == parts;
          if w != part {
            OrderedMono(base, e0, edges, w, o);
          }
        }
      }
      assert parts[..|parts|] == parts;
      forall f, o | DataEdge(base, f) && f.dst in parts && o in parts && NoDataInto(base, o)
        ensures Reach(Pairs(), f.dst, o)
      {
        assert Ordered(base, Pairs(), f.dst, o);
      }
      forall f, f', g | BothWritten(base, parts, f, f', g) ensures Reach(Pairs(), f.dst, g.dst)
      {
        assert Ordered(base, Pairs(), f.dst, f'.dst);
      }
    }

    /** The inner body of `_keep_order`: order `part`, which something writes, before `other`. */
    method Order(part: Node, other: Node, ghost base: seq<Edge>, ghost parts: seq<Node>)
      requires Extended(base, edges, parts) && EachNeeded(|base|, edges)
      requires part in parts && other in parts && part != other && Written(base, part)
      modifies this`edges
      ensures Extended(base, edges, parts) && EachNeeded(|base|, edges) && old(edges) <= edges
      ensures Ordered(base, Pairs(), part, other)
    {
      WrittenSame(base, edges, parts, other);
      if !Written(edges, other) {
        Link(part, other, base, parts);
        return;
      }
      var outs := Incident(edges, other);
      ghost var e0 := edges;
      for k := 0 to |outs|
        invariant Extended(base, edges, parts) && EachNeeded(|base|, edges) && e0 <= edges
        invariant forall l :: 0 <= l < k && outs[l].src == other && !outs[l].memlet.Empty? ==>
                    Reach(Pairs(), part, outs[l].dst)
      {
        var e := outs[k];
        if e.src == other && !e.memlet.Empty? {
          ghost var e1 := edges;
          assert e in e0 && e in base;
          Link(part, e.dst, base, parts);
          forall l | 0 <= l < k && outs[l].src == other && !outs[l].memlet.Empty?
            ensures Reach(Pairs(), part, outs[l].dst)
          {
            ReachMono(PairsOf(e1), Pairs(), part, outs[l].dst);
          }
        }
      }
      forall f | f in base && f.src == other && !f.memlet.Empty? ensures Reach(Pairs(), part, f.dst) {
        assert f in outs;
      }
    }

    /** An ordering edge, unless a path already orders the two. */
    method Link(part: Node, target: Node, ghost base: seq<Edge>, ghost parts: seq<Node>)
      requires Extended(base, edges, parts) && EachNeeded(|base|, edges)
      requires OrderEdge(base, parts, Edge(part, target, Empty))
      modifies this`edges
      ensures Extended(base, edges, parts) && EachNeeded(|base|, edges) && old(edges) <= edges
      ensures Reach(Pairs(), part, target)
    {
      var known := HasPath(part, target);
      if !known {
        NeededNext(|base|, edges, Edge(part, target, Empty));
        edges := edges + [Edge(part, target, Empty)];
        assert edges[|edges| - 1] == Edge(part, target, Empty);
        ReachEdge(Pairs(), part, target);
      }
    }

    /** `constant_indices`, on this state: the indices the accesses use, if each of them is one literal. */
    method ConstantIndices() returns (r: Option<set<int>>)
      ensures r.Some? <==> AllLiteral()
      ensures r.Some? ==> forall k :: k in r.value <==> TouchedAt(edges, k)
    {
      var indices := {};
      for i := 0 to |edges|
        invariant forall j :: 0 <= j < i && edges[j].memlet.Touch? ==>
                    edges[j].memlet.sub.Literal? && edges[j].memlet.sub.k in indices
        invariant forall k :: k in indices ==> TouchedAt(edges, k)
      {
        match edges[i].memlet
        case Touch(Literal(k)) =>
          assert edges[i] in edges;
          indices := indices + {k};
        case Touch(Symbolic) =>
          assert edges[i] in edges;
          return None;
        case _ =>
      }
      return Some(indices);
    }

    /** `split_array`, on this state: split every access node of the array, or leave the state as it is. */
    method SplitArray() returns (r: Option<set<int>>)
      requires Valid() && Acyclic(Pairs())
      requires forall n :: n in nodes ==> !nodes[n].PartAccess?
      modifies this
      ensures r.Some? <==> old(AllLiteral()) && exists k :: TouchedAt(old(edges), k)
      ensures r.None? ==> unchanged(this)
      ensures r.Some? ==> forall k :: k in r.value <==> TouchedAt(old(edges), k)
      ensures r.Some? ==> Valid() && Acyclic(Pairs()) && forall n :: n in nodes ==> !nodes[n].ArrayAccess?
      ensures Accesses(nodes, edges) == old(Accesses(nodes, edges))
      ensures SplitOf(old(nodes), old(edges), nodes, edges)
      ensures r.Some? ==> forall n :: n in old(nodes) && old(nodes)[n].ArrayAccess? ==>
              WritesLead(old(edges), nodes, edges, n) && PartsLead(old(edges), nodes, edges, n)
    {
      r := ConstantIndices();
      if r.None? {
        return;
      }
      if r.value == {} {
        return None;
      }
      ghost var k := Inhabited(r.value);
      assert TouchedAt(edges, k);
      ghost var nodes0, pairs0, edges0 := nodes, Pairs(), edges;
      var todo := set n | n in nodes && nodes[n].ArrayAccess?;
      while todo != {}
        invariant Valid() && AllLiteral() && Acyclic(Pairs())
        invariant forall n :: n in todo <==> n in nodes && nodes[n].ArrayAccess?
        invariant Accesses(nodes, edges) == old(Accesses(nodes, edges))
        invariant Survive(nodes0, nodes)
        invariant SameOrder(nodes0, pairs0, Pairs())
        invariant forall n :: n in nodes0 && nodes0[n].ArrayAccess? ==>
          if n in todo then Waiting(edges0, edges, n) else WritesLead(edges0, nodes, edges, n)
        invariant forall n :: n in nodes0 && nodes0[n].ArrayAccess? ==> ReadsPlaced(edges0, nodes, edges, todo, n)
      {
        ghost var some := Inhabited(todo);
        var node :| node in todo;
        ghost var nodes1, edges1 := nodes, edges;
        var parts := SplitNode(node);
        SameAccesses(nodes1, edges1, node, parts, edges);
        LeadsAfter(nodes0, edges0, nodes1, edges1, node, parts, nodes, edges, todo);
        forall n | n in nodes0 && nodes0[n].ArrayAccess? ensures ReadsPlaced(edges0, nodes, edges, todo - {node}, n) {
          ReadsAfter(nodes0, edges0, nodes1, edges1, node, parts, nodes, edges, todo, n);
        }
        todo := todo - {node};
      }
    }

    /** The body of `split_array`'s loop over the access nodes: `node` becomes one node per index its edges use. */
    method SplitNode(node: Node) returns (parts: Parts)
      requires Valid() && AllLiteral() && Acyclic(Pairs())
      requires node in nodes && nodes[node].ArrayAccess?
      modifies this
      ensures Valid() && AllLiteral()
      ensures parts.base == old(next) && nodes == (old(nodes) - {node}) + parts.Nodes()
      ensures forall k :: k in parts.keys <==> UsesIndex(old(edges), node, k)
      ensures forall e :: e in edges && !e.memlet.Empty? <==> MovedData(old(edges), node, parts, e)
      ensures forall f, g :: WriteInto(old(edges), node, f) && ReadFrom(old(edges), node, g) ==>
                f.memlet.sub.k in parts.keys && Reach(Pairs(), parts.Of(f.memlet.sub.k), g.dst)
      ensures forall f, k :: WriteInto(old(edges), node, f) && OnlyRead(old(edges), node, k) ==>
                KeyBeforeKey(edges, parts, f.memlet.sub.k, k)
      ensures forall u, v :: u in nodes && v in nodes && u in old(nodes) && v in old(nodes) ==>
                (Reach(Pairs(), u, v) <==> Reach(old(Pairs()), u, v))
      ensures Acyclic(Pairs())
    {
      ghost var nodes0, edges0 := nodes, edges;
      NoSelfEdge(edges0, node);
      parts := MakeParts(node);
      MoveEdges(node, parts);
      ghost var moved := edges;
      KeepOrder(parts.List());
      ghost var split := Split(nodes0, edges0, node, parts, moved, edges);
      assert split.Holds();
      split.Exact();
      split.AllReadPartsLater();
      split.StillValid(next);
    }

    /** First pass over the edges of `node`: a new access node per index. */
    method MakeParts(node: Node) returns (parts: Parts)
      requires Valid() && AllLiteral()
      modifies this`nodes, this`next
      ensures parts.base == old(next) && next == parts.base + |parts.keys|
      ensures nodes == old(nodes) + parts.Nodes()
      ensures forall k :: k in parts.keys <==> UsesIndex(edges, node, k)
    {
      parts := Parts(next, []);
      var incident := Incident(edges, node);
      for i := 0 to |incident|
        invariant parts.base == old(next) && next == parts.base + |parts.keys|
        invariant nodes == old(nodes) + parts.Nodes()
        invariant forall k :: k in parts.keys ==> UsesIndex(edges, node, k)
        invariant forall j :: 0 <= j < i && incident[j].memlet.Touch? ==> incident[j].memlet.sub.k in parts.keys
      {
        var e := incident[i];
        assert e in incident && e in edges;
        if e.memlet.Touch? && e.memlet.sub.k !in parts.keys {
          parts := parts.(keys := parts.keys + [e.memlet.sub.k]);
          nodes := nodes[next := PartAccess(e.memlet.sub.k)];
          next := next + 1;
        }
      }
      forall k | UsesIndex(edges, node, k) ensures k in parts.keys {
        var e :| e in edges && (e.src == node || e.dst == node) && e.memlet == Touch(Literal(k));
        assert e in incident;
      }
    }

    /** Second pass: every edge of `node` goes to the part of its index or, carrying no data, to each part; the node
        goes away with what is left at it. */
    method MoveEdges(node: Node, parts: Parts)
      requires AllLiteral() && node in nodes
      requires forall e :: e in edges && (e.src == node || e.dst == node) ==> e.memlet.Empty? || e.memlet.Touch?
      requires forall e :: e in edges ==> !(e.src == node && e.dst == node)
      requires forall k :: k in parts.keys <==> UsesIndex(edges, node, k)
      requires !parts.Has(node)
      modifies this`nodes, this`edges
      ensures nodes == old(nodes) - {node}
      ensures AllMoved(old(edges), node, parts, edges)
    {
      ghost var edges0 := edges;
      var incident := Incident(edges, node);
      var after := [];
      for i := 0 to |incident|
        invariant forall t :: t in after <==> exists j :: 0 <= j < i && incident[j] == Edge(node, t, Empty)
      {
        if incident[i].src == node && incident[i].memlet.Empty? {
          after := after + [incident[i].dst];
        }
      }
      forall t ensures t in after <==> Edge(node, t, Empty) in edges0 {
        if Edge(node, t, Empty) in edges0 {
          assert Edge(node, t, Empty) in incident;
        }
      }
      var added := [];
      ghost var nodes0 := nodes;
      for i := 0 to |incident|
        invariant nodes == nodes0 && edges == edges0
        invariant forall e :: e in added ==> exists f :: f in incident && Contributes(f, edges0, node, parts, e)
        invariant forall j, e :: 0 <= j < i && Contributes(incident[j], edges0, node, parts, e) ==> e in added
      {
        var f := incident[i];
        assert f in incident && f in edges0;
        assert f.memlet.Touch? ==> UsesIndex(edges0, node, f.memlet.sub.k);
        var more := Replacement(f, node, parts, after);
        added := added + more;
      }
      edges := NotIncident(edges, node) + added;
      nodes := nodes - {node};
      forall e ensures e in edges <==> Moved(edges0, node, parts, e) {
        if Moved(edges0, node, parts, e) && !(e in edges0 && e.src != node && e.dst != node) {
          var f := MovedFrom(edges0, node, parts, e);
          assert f in incident;
          var j :| 0 <= j < |incident| && incident[j] == f;
        }
      }
    }
  }

  function Replacement(f: Edge, node: Node, parts: Parts, after: seq<Node>): seq<Edge>
    requires f.memlet.Touch? ==> f.memlet.sub.Literal? && f.memlet.sub.k in parts.keys
  {
    if f.memlet.Touch? then
      [if f.dst == node then f.(dst := parts.Of(f.memlet.sub.k)) else f.(src := parts.Of(f.memlet.sub.k))]
    else if f.dst == node then Fan(f.src, if parts.keys != [] then parts.List() else after)
    else Gather(parts.List(), f.dst)
  }

  lemma MovedFrom(edges: seq<Edge>, node: Node, parts: Parts, e: Edge) returns (f: Edge)
    requires Moved(edges, node, parts, e) && !(e in edges && e.src != node && e.dst != node)
    requires forall e :: e in edges ==> !(e.src == node && e.dst == node)
    ensures f in edges && (f.src == node || f.dst == node) && Contributes(f, edges, node, parts, e)
  {
    if f' :| f' in edges && MovedTouch(f', node, parts, e) {
      f := f';
    } else if b :| b in edges && OrderInto(b, edges, node, parts, e) {
      f := b;
    } else {
      f := Edge(node, e.dst, Empty);
    }
  }

  /** `e` is one of the edges that replace `f`. */
  ghost predicate Contributes(f: Edge, edges: seq<Edge>, node: Node, parts: Parts, e: Edge) {
    || MovedTouch(f, node, parts, e)
    || OrderInto(f, edges, node, parts, e)
    || (f.memlet.Empty? && f.dst != node && f.src == node && parts.Has(e.src) && e.memlet.Empty? && e.dst == f.dst)
  }

  /** Ordering edges from one node to several, and from several to one. */
  function Fan(src: Node, targets: seq<Node>): (r: seq<Edge>)
    ensures forall e :: e in r <==> e.src == src && e.dst in targets && e.memlet.Empty?
  {
    if targets == [] then [] else [Edge(src, targets[0], Empty)] + Fan(src, targets[1..])
  }

  function Gather(sources: seq<Node>, dst: Node): (r: seq<Edge>)
    ensures forall e :: e in r <==> e.src in sources && e.dst == dst && e.memlet.Empty?
  {
    if sources == [] then [] else [Edge(sources[0], dst, Empty)] + Gather(sources[1..], dst)
  }

  ghost predicate WriteInto(edges: seq<Edge>, node: Node, f: Edge) {
    f in edges && f.dst == node && f.memlet.Touch? && f.memlet.sub.Literal?
  }

  ghost predicate ReadFrom(edges: seq<Edge>, node: Node, f: Edge) {
    f in edges && f.src == node && f.memlet.Touch?
  }

  ghost predicate UsesIndex(edges: seq<Edge>, node: Node, k: int) {
    exists e :: e in edges && (e.src == node || e.dst == node) && e.memlet == Touch(Literal(k))
  }

  /** The node's edges at the index carry data out of it only. */
  ghost predicate OnlyRead(edges: seq<Edge>, node: Node, k: int) {
    UsesIndex(edges, node, k) && forall f :: WriteInto(edges, node, f) ==> f.memlet.sub.k != k
  }

  /** A path leads from one part to another. */
  ghost predicate KeyBeforeKey(edges: seq<Edge>, parts: Parts, k: int, l: int) {
    k in parts.keys && l in parts.keys && Reach(PairsOf(edges), parts.Of(k), parts.Of(l))
  }

  /** The data edges after the split: those elsewhere, and those of the node at the part of their index. */
  ghost predicate MovedData(edges: seq<Edge>, node: Node, parts: Parts, e: Edge) {
    || (e in edges && e.src != node && e.dst != node && !e.memlet.Empty?)
    || (exists f :: f in edges && MovedTouch(f, node, parts, e))
  }

  /** One node's split, before and after: the facts the three passes establish, and what follows from them. */
  datatype Split = Split(nodes: map<Node, Kind>, edges: seq<Edge>, node: Node, parts: Parts,
                         moved: seq<Edge>, final: seq<Edge>)
  {
    ghost predicate Holds() {
      && ValidState(nodes, edges, parts.base) && LiteralOnly(edges) && Acyclic(PairsOf(edges))
      && node in nodes && nodes[node].ArrayAccess?
      && (forall k :: k in parts.keys <==> UsesIndex(edges, node, k))
      && AllMoved(edges, node, parts, moved)
      && Extended(moved, final, parts.List())
      && AllOrdered(moved, PairsOf(final), parts.List())
    }

    ghost function PartSet(): set<Node> {
      set n | n in parts.List()
    }

    ghost function WrittenParts(): set<Node> {
      set n | n in PartSet() && Written(moved, n)
    }

    lemma NodeEdge(f: Edge)
      requires Holds() && f in edges && (f.src == node || f.dst == node)
      ensures f.src != f.dst
      ensures f.memlet.Empty? || (f.memlet.Touch? && f.memlet.sub.Literal? && f.memlet.sub.k in parts.keys)
      ensures !parts.Has(f.src) && !parts.Has(f.dst)
    {
      NoSelfEdge(edges, node);
      if !f.memlet.Empty? {
        assert f.memlet == Touch(Literal(f.memlet.sub.k));
        assert UsesIndex(edges, node, f.memlet.sub.k);
      }
    }

    lemma InFinal(e: Edge)
      requires Holds() && Moved(edges, node, parts, e)
      ensures e in moved && e in final && (e.src, e.dst) in PairsOf(final)
    {
      assert e in moved;
      assert e in final;
    }

    /** A written part precedes every reader of every part. */
    lemma WritersFirst(f: Edge, g: Edge)
      requires Holds() && WriteInto(edges, node, f) && ReadFrom(edges, node, g)
      ensures f.memlet.sub.k in parts.keys && Reach(PairsOf(final), parts.Of(f.memlet.sub.k), g.dst)
    {
      var G := PairsOf(final);
      NodeEdge(f);
      NodeEdge(g);
      var w, o := parts.Of(f.memlet.sub.k), parts.Of(g.memlet.sub.k);
      var f', g' := f.(dst := w), g.(src := o);
      assert MovedTouch(f, node, parts, f') && MovedTouch(g, node, parts, g');
      InFinal(f');
      InFinal(g');
      ReachEdge(G, o, g.dst);
      if w != o {
        assert Written(moved, w);
        assert Ordered(moved, G, w, o);
        if !Written(moved, o) {
          ReachTrans(G, w, o, g.dst);
        }
      }
    }

    /** A written part precedes each part that is only read. */
    lemma WritersBeforeReadParts(f: Edge, k: int)
      requires Holds() && WriteInto(edges, node, f) && OnlyRead(edges, node, k)
      ensures KeyBeforeKey(final, parts, f.memlet.sub.k, k)
    {
      NodeEdge(f);
      var w, o := parts.Of(f.memlet.sub.k), parts.Of(k);
      assert MovedTouch(f, node, parts, f.(dst := w));
      InFinal(f.(dst := w));
      NotWritten(k);
      assert Written(moved, w) && Ordered(moved, PairsOf(final), w, o);
    }

    lemma AllReadPartsLater()
      requires Holds()
      ensures forall f, k :: WriteInto(edges, node, f) && OnlyRead(edges, node, k) ==>
                KeyBeforeKey(final, parts, f.memlet.sub.k, k)
    {
      forall f, k | WriteInto(edges, node, f) && OnlyRead(edges, node, k)
        ensures KeyBeforeKey(final, parts, f.memlet.sub.k, k)
      {
        WritersBeforeReadParts(f, k);
      }
    }

    lemma NotWritten(k: int)
      requires Holds() && OnlyRead(edges, node, k) && k in parts.keys
      ensures !Written(moved, parts.Of(k))
    {
      forall e | e in moved && e.dst == parts.Of(k) ensures e.memlet.Empty? {
        assert Moved(edges, node, parts, e);
        if f :| f in edges && MovedTouch(f, node, parts, e) {
          NodeEdge(f);
          assert WriteInto(edges, node, f);
          assert false;
        }
      }
    }

    lemma Covered(f: Edge, g: Edge)
      requires Holds() && f in edges && g in edges && f.dst == node && g.src == node
      ensures Reach(PairsOf(final), f.src, g.dst)
    {
      var G := PairsOf(final);
      NodeEdge(f);
      NodeEdge(g);
      if f.memlet.Touch? {
        var w := parts.Of(f.memlet.sub.k);
        assert MovedTouch(f, node, parts, f.(dst := w));
        InFinal(f.(dst := w));
        ReachEdge(G, f.src, w);
        if g.memlet.Touch? {
          WritersFirst(f, g);
        } else {
          InFinal(Edge(w, g.dst, Empty));
          ReachEdge(G, w, g.dst);
        }
        ReachTrans(G, f.src, w, g.dst);
      } else if parts.keys == [] {
        assert OrderInto(f, edges, node, parts, Edge(f.src, g.dst, Empty));
        InFinal(Edge(f.src, g.dst, Empty));
        ReachEdge(G, f.src, g.dst);
      } else {
        var o := if g.memlet.Touch? then parts.Of(g.memlet.sub.k) else parts.base;
        assert OrderInto(f, edges, node, parts, Edge(f.src, o, Empty));
        InFinal(Edge(f.src, o, Empty));
        ReachEdge(G, f.src, o);
        if g.memlet.Touch? {
          assert MovedTouch(g, node, parts, g.(src := o));
          InFinal(g.(src := o));
        } else {
          InFinal(Edge(o, g.dst, Empty));
        }
        ReachEdge(G, o, g.dst);
        ReachTrans(G, f.src, o, g.dst);
      }
    }

    lemma CoversAll()
      requires Holds()
      ensures Covers(PairsOf(edges), PairsOf(final), node)
    {
      var E, G := PairsOf(edges), PairsOf(final);
      forall p | p in E && p.0 != node && p.1 != node ensures p in G {
        var e :| e in edges && p == (e.src, e.dst);
        InFinal(e);
      }
      forall x, y | (x, node) in E && (node, y) in E ensures Reach(G, x, y) {
        var f :| f in edges && (x, node) == (f.src, f.dst);
        var g :| g in edges && (node, y) == (g.src, g.dst);
        Covered(f, g);
      }
    }

    /** An edge the second pass leaves folds to a path of the original. */
    lemma MovedFolds(e: Edge)
      requires Holds() && e in moved
      ensures e.src != node && e.dst != node
      ensures ReachPlus(PairsOf(edges), Fold(PartSet(), node, e.src), Fold(PartSet(), node, e.dst))
    {
      var E := PairsOf(edges);
      assert Moved(edges, node, parts, e);
      if e in edges && e.src != node && e.dst != node {
        ReachEdge(E, e.src, e.dst);
      } else {
        NoSelfEdge(edges, node);
        var f := MovedFrom(edges, node, parts, e);
        NodeEdge(f);
        ReachEdge(E, f.src, f.dst);
        if OrderInto(f, edges, node, parts, e) && parts.keys == [] {
          NodeEdge(Edge(node, e.dst, Empty));
          assert (node, e.dst) in E by { assert Edge(node, e.dst, Empty) in edges; }
          ReachEdge(E, node, e.dst);
          ReachPlusThen(E, f.src, node, e.dst);
        }
      }
    }

    lemma FoldsAll()
      requires Holds()
      ensures Folds(PairsOf(edges), PairsOf(final), node, PartSet(), WrittenParts())
    {
      var E, G := PairsOf(edges), PairsOf(final);
      forall p | p in G
        ensures p.0 != node && p.1 != node
        ensures ReachPlus(E, Fold(PartSet(), node, p.0), Fold(PartSet(), node, p.1)) ||
                (p.0 in WrittenParts() && p.1 in PartSet() - WrittenParts())
      {
        var e :| e in final && p == (e.src, e.dst);
        if e in moved {
          MovedFolds(e);
        } else {
          assert OrderEdge(moved, parts.List(), e);
          if !(e.dst in parts.List() && !Written(moved, e.dst)) {
            var f :| f in moved && f.src in parts.List() && !f.memlet.Empty? && f.dst == e.dst;
            MovedFolds(f);
          }
        }
      }
    }

    lemma Exact()
      requires Holds()
      ensures forall u, v :: u in nodes && v in nodes && u != node && v != node ==>
                (Reach(PairsOf(final), u, v) <==> Reach(PairsOf(edges), u, v))
      ensures Acyclic(PairsOf(final))
      ensures forall f, g :: WriteInto(edges, node, f) && ReadFrom(edges, node, g) ==>
                f.memlet.sub.k in parts.keys && Reach(PairsOf(final), parts.Of(f.memlet.sub.k), g.dst)
    {
      var E, G := PairsOf(edges), PairsOf(final);
      CoversAll();
      FoldsAll();
      NoSelfEdge(edges, node);
      StaysAcyclic(E, G, node, PartSet(), WrittenParts());
      forall u, v | u in nodes && v in nodes && u != node && v != node
        ensures Reach(G, u, v) <==> Reach(E, u, v)
      {
        OrderExact(E, G, node, PartSet(), WrittenParts(), u, v);
      }
      forall f, g | WriteInto(edges, node, f) && ReadFrom(edges, node, g)
        ensures f.memlet.sub.k in parts.keys && Reach(G, parts.Of(f.memlet.sub.k), g.dst)
      {
        WritersFirst(f, g);
      }
    }

    lemma StillValid(next: Node)
      requires Holds() && next == parts.base + |parts.keys|
      ensures ValidState(NewNodes(), final, next) && LiteralOnly(final)
      ensures forall e :: e in final && !e.memlet.Empty? <==> MovedData(edges, node, parts, e)
    {
      forall e | e in final ensures GoodEdge(e) {
        FinalValid(e);
      }
      forall e | MovedData(edges, node, parts, e) ensures e in final && !e.memlet.Empty? {
        InFinal(e);
      }
    }

    ghost function NewNodes(): map<Node, Kind> {
      (nodes - {node}) + parts.Nodes()
    }

    ghost predicate GoodEdge(e: Edge) {
      && e.src in NewNodes() && e.dst in NewNodes()
      && ValidEdge(NewNodes()[e.src], NewNodes()[e.dst], e.memlet)
      && (!e.memlet.Empty? ==> MovedData(edges, node, parts, e))
      && (e.memlet.Touch? ==> e.memlet.sub.Literal?)
    }

    lemma OrderValid(f: Edge, e: Edge)
      requires Holds() && f in edges && (f.src == node || f.dst == node)
      requires Contributes(f, edges, node, parts, e) && !MovedTouch(f, node, parts, e)
      ensures GoodEdge(e)
    {
      NodeEdge(f);
      if OrderInto(f, edges, node, parts, e) && parts.keys == [] {
        NodeEdge(Edge(node, e.dst, Empty));
      }
    }

    lemma MovedValid(e: Edge)
      requires Holds() && e in moved
      ensures GoodEdge(e)
    {
      assert Moved(edges, node, parts, e);
      if !(e in edges && e.src != node && e.dst != node) {
        NoSelfEdge(edges, node);
        var f := MovedFrom(edges, node, parts, e);
        NodeEdge(f);
        if MovedTouch(f, node, parts, e) {
          assert parts.Has(parts.Of(f.memlet.sub.k));
          assert ValidEdge(nodes[f.src], nodes[f.dst], f.memlet);
          assert MovedData(edges, node, parts, e);
        } else {
          OrderValid(f, e);
        }
      }
    }

    lemma FinalValid(e: Edge)
      requires Holds() && e in final
      ensures GoodEdge(e)
    {
      if e in moved {
        MovedValid(e);
      } else {
        assert OrderEdge(moved, parts.List(), e);
        if e.dst !in parts.List() {
          var f :| f in moved && f.src in parts.List() && !f.memlet.Empty? && f.dst == e.dst;
          MovedValid(f);
        }
      }
    }
  }

  lemma NoSelfEdge(edges: seq<Edge>, node: Node)
    requires Acyclic(PairsOf(edges))
    ensures (node, node) !in PairsOf(edges)
    ensures forall e :: e in edges ==> !(e.src == node && e.dst == node)
  {
    if (node, node) in PairsOf(edges) {
      ReachEdge(PairsOf(edges), node, node);
    }
    forall e | e in edges ensures !(e.src == node && e.dst == node) {
      assert (e.src, e.dst) in PairsOf(edges);
    }
  }

  ghost predicate TouchedAt(edges: seq<Edge>, k: int) {
    exists e :: e in edges && e.memlet == Touch(Literal(k))
  }

  /** One end of a data edge, the array's nodes and parts all being the array. */
  ghost function End(nodes: map<Node, Kind>, n: Node): Option<Node> {
    if n in nodes && !nodes[n].OtherNode? then None else Some(n)
  }

  /** What the data edges of a state read and write: the element accesses a split must not change. */
  ghost function Accesses(nodes: map<Node, Kind>, edges: seq<Edge>): set<(Option<Node>, Option<Node>, Memlet)> {
    set e | e in edges && !e.memlet.Empty? :: Access(nodes, e)
  }

  /** The nodes of other containers stay, and none is added. */
  ghost predicate Survive(nodes: map<Node, Kind>, nodes': map<Node, Kind>) {
    forall n :: n in nodes && nodes[n].OtherNode? <==> n in nodes' && nodes'[n].OtherNode?
  }

  /** What the split of a state promises, as far as its runs go: the same nodes besides those of the array, in the same
      order. */
  ghost predicate SplitOf(nodes: map<Node, Kind>, edges: seq<Edge>, nodes': map<Node, Kind>, edges': seq<Edge>) {
    Survive(nodes, nodes') && SameOrder(nodes, PairsOf(edges), PairsOf(edges'))
  }

  /** Every write into the node is a write into a part, and that part leads to every reader of the node. */
  ghost predicate WritesLead(edges: seq<Edge>, nodes': map<Node, Kind>, edges': seq<Edge>, node: Node) {
    forall f, g :: WriteInto(edges, node, f) && ReadFrom(edges, node, g) ==> PartLeads(nodes', edges', f, g)
  }

  /** And to each part that the node's readers read and nothing writes. */
  ghost predicate PartsLead(edges: seq<Edge>, nodes': map<Node, Kind>, edges': seq<Edge>, node: Node) {
    forall f, g :: WriteInto(edges, node, f) && ReadFrom(edges, node, g) && ReadOnly(edges, node, g) ==>
        PartBeforePart(nodes', edges', f, g)
  }

  ghost predicate ReadOnly(edges: seq<Edge>, node: Node, g: Edge) {
    g.memlet.Touch? && g.memlet.sub.Literal? && OnlyRead(edges, node, g.memlet.sub.k)
  }

  ghost predicate PartBeforePart(nodes: map<Node, Kind>, edges: seq<Edge>, f: Edge, g: Edge)
    requires f.memlet.Touch? && f.memlet.sub.Literal? && g.memlet.Touch? && g.memlet.sub.Literal?
  {
    exists p, q :: LeadsToPart(nodes, edges, f, g, p, q)
  }

  ghost predicate LeadsToPart(nodes: map<Node, Kind>, edges: seq<Edge>, f: Edge, g: Edge, p: Node, q: Node)
    requires f.memlet.Touch? && f.memlet.sub.Literal? && g.memlet.Touch? && g.memlet.sub.Literal?
  {
    && p in nodes && nodes[p] == PartAccess(f.memlet.sub.k) && f.(dst := p) in edges
    && q in nodes && nodes[q] == PartAccess(g.memlet.sub.k) && g.(src := q) in edges
    && Reach(PairsOf(edges), p, q)
  }

  ghost predicate PartLeads(nodes: map<Node, Kind>, edges: seq<Edge>, f: Edge, g: Edge)
    requires f.memlet.Touch? && f.memlet.sub.Literal?
  {
    exists p :: LeadsFrom(nodes, edges, f, g, p)
  }

  ghost predicate LeadsFrom(nodes: map<Node, Kind>, edges: seq<Edge>, f: Edge, g: Edge, p: Node)
    requires f.memlet.Touch? && f.memlet.sub.Literal?
  {
    p in nodes && nodes[p] == PartAccess(f.memlet.sub.k) && f.(dst := p) in edges && g.dst in nodes &&
        Reach(PairsOf(edges), p, g.dst)
  }

  /** The node's edges are still there. */
  ghost predicate Waiting(edges: seq<Edge>, edges': seq<Edge>, node: Node) {
    forall e :: e in edges && (e.src == node || e.dst == node) && e.memlet.Touch? ==> e in edges'
  }

  /** What one node's split establishes for it, and keeps for the others. */
  lemma LeadsAfter(nodes0: map<Node, Kind>, edges0: seq<Edge>, nodes1: map<Node, Kind>, edges1: seq<Edge>, node: Node,
                   parts: Parts, nodes2: map<Node, Kind>, edges2: seq<Edge>, todo: set<Node>)
    requires ValidEdges(nodes0, edges0)
    requires forall n :: n in nodes0 ==> !nodes0[n].PartAccess?
    requires Survive(nodes0, nodes1) && node in nodes1 && nodes1[node].ArrayAccess? && node in todo
    requires nodes2 == (nodes1 - {node}) + parts.Nodes() && forall n :: n in nodes1 ==> n < parts.base
    requires forall e :: e in edges2 && !e.memlet.Empty? <==> MovedData(edges1, node, parts, e)
    requires forall f, g :: WriteInto(edges1, node, f) && ReadFrom(edges1, node, g) ==>
      f.memlet.sub.k in parts.keys && Reach(PairsOf(edges2), parts.Of(f.memlet.sub.k), g.dst)
    requires forall u, v :: u in nodes1 && v in nodes1 && u in nodes2 && v in nodes2 ==>
      (Reach(PairsOf(edges2), u, v) <==> Reach(PairsOf(edges1), u, v))
    requires forall n :: n in nodes0 && nodes0[n].ArrayAccess? ==>
      if n in todo then Waiting(edges0, edges1, n) else WritesLead(edges0, nodes1, edges1, n)
    requires node in nodes0 && nodes0[node].ArrayAccess?
    ensures forall n :: n in nodes0 && nodes0[n].ArrayAccess? ==>
      if n in todo - {node} then Waiting(edges0, edges2, n) else WritesLead(edges0, nodes2, edges2, n)
  {
    forall n | n in nodes0 && nodes0[n].ArrayAccess?
      ensures if n in todo - {node} then Waiting(edges0, edges2, n) else WritesLead(edges0, nodes2, edges2, n)
    {
      if n in todo - {node} {
        forall e | e in edges0 && (e.src == n || e.dst == n) && e.memlet.Touch? ensures e in edges2 {
          assert nodes0[if e.src == n then e.dst else e.src].OtherNode?;
          assert MovedData(edges1, node, parts, e);
        }
      } else {
        forall f, g | WriteInto(edges0, n, f) && ReadFrom(edges0, n, g) ensures PartLeads(nodes2, edges2, f, g) {
          assert nodes0[f.src].OtherNode? && nodes0[g.dst].OtherNode?;
          if n == node {
            var p := parts.Of(f.memlet.sub.k);
            assert MovedTouch(f, node, parts, f.(dst := p));
            assert MovedData(edges1, node, parts, f.(dst := p));
            assert LeadsFrom(nodes2, edges2, f, g, p);
          } else {
            var p :| LeadsFrom(nodes1, edges1, f, g, p);
            assert MovedData(edges1, node, parts, f.(dst := p));
            assert LeadsFrom(nodes2, edges2, f, g, p);
          }
        }
      }
    }
  }

  /** The node has got no data edges. */
  ghost predicate NoMore(edges: seq<Edge>, edges': seq<Edge>, node: Node) {
    forall e :: e in edges' && (e.src == node || e.dst == node) && !e.memlet.Empty? ==> e in edges
  }

  /** How far the reads of a node have come: as they were, or behind the writes. */
  ghost predicate ReadsPlaced(edges0: seq<Edge>, nodes: map<Node, Kind>, edges: seq<Edge>, todo: set<Node>, n: Node) {
    if n in todo then Waiting(edges0, edges, n) && NoMore(edges0, edges, n) else PartsLead(edges0, nodes, edges, n)
  }

  /** The same of the parts only read: the node split, */
  lemma {:induction false} PartsHere(edges0: seq<Edge>, nodes1: map<Node, Kind>, edges1: seq<Edge>, node: Node,
                                     parts: Parts, nodes2: map<Node, Kind>, edges2: seq<Edge>)
    requires Waiting(edges0, edges1, node) && NoMore(edges0, edges1, node)
    requires nodes2 == (nodes1 - {node}) + parts.Nodes()
    requires forall e :: e in edges2 && !e.memlet.Empty? <==> MovedData(edges1, node, parts, e)
    requires forall f, k :: WriteInto(edges1, node, f) && OnlyRead(edges1, node, k) ==>
      KeyBeforeKey(edges2, parts, f.memlet.sub.k, k)
    requires forall e :: e in edges0 ==> !(e.src == node && e.dst == node)
    ensures PartsLead(edges0, nodes2, edges2, node)
  {
    PartsAreNodes(nodes1 - {node}, parts);
    forall f, g | WriteInto(edges0, node, f) && ReadFrom(edges0, node, g) && ReadOnly(edges0, node, g)
      ensures PartBeforePart(nodes2, edges2, f, g)
    {
      StillReadOnly(edges0, edges1, node, g);
      assert f in edges1 && WriteInto(edges1, node, f);
      assert KeyBeforeKey(edges2, parts, f.memlet.sub.k, g.memlet.sub.k);
      OnePairHere(edges1, node, parts, nodes2, edges2, f, g);
    }
  }

  lemma {:induction false} StillReadOnly(edges0: seq<Edge>, edges1: seq<Edge>, node: Node, g: Edge)
    requires Waiting(edges0, edges1, node) && NoMore(edges0, edges1, node)
    requires ReadFrom(edges0, node, g) && ReadOnly(edges0, node, g)
    ensures OnlyRead(edges1, node, g.memlet.sub.k) && g in edges1
  {
    assert g.memlet == Touch(Literal(g.memlet.sub.k));
  }

  ghost predicate HoldsParts(nodes: map<Node, Kind>, parts: Parts) {
    forall n :: parts.Has(n) ==> n in nodes && nodes[n] == PartAccess(parts.keys[n - parts.base])
  }

  lemma PartsAreNodes(nodes: map<Node, Kind>, parts: Parts)
    ensures HoldsParts(nodes + parts.Nodes(), parts)
  {
  }

  lemma {:induction false} OnePairHere(edges1: seq<Edge>, node: Node, parts: Parts, nodes2: map<Node, Kind>,
                                       edges2: seq<Edge>, f: Edge, g: Edge)
    requires WriteInto(edges1, node, f) && g in edges1 && g.src == node && g.dst != node
    requires g.memlet.Touch? && g.memlet.sub.Literal?
    requires KeyBeforeKey(edges2, parts, f.memlet.sub.k, g.memlet.sub.k)
    requires HoldsParts(nodes2, parts)
    requires forall e :: e in edges2 && !e.memlet.Empty? <==> MovedData(edges1, node, parts, e)
    ensures PartBeforePart(nodes2, edges2, f, g)
  {
    var p, q := parts.Of(f.memlet.sub.k), parts.Of(g.memlet.sub.k);
    assert MovedTouch(f, node, parts, f.(dst := p)) && MovedTouch(g, node, parts, g.(src := q));
    assert MovedData(edges1, node, parts, f.(dst := p)) && MovedData(edges1, node, parts, g.(src := q));
    assert LeadsToPart(nodes2, edges2, f, g, p, q);
  }

  /** a node split before, */
  lemma {:induction false} PartsStay(edges0: seq<Edge>, n: Node, nodes1: map<Node, Kind>, edges1: seq<Edge>,
                  node: Node, parts: Parts, nodes2: map<Node, Kind>, edges2: seq<Edge>)
    requires PartsLead(edges0, nodes1, edges1, n)
    requires node in nodes1 && nodes1[node].ArrayAccess? && nodes2 == (nodes1 - {node}) + parts.Nodes()
    requires forall m :: m in nodes1 ==> m < parts.base
    requires forall e :: e in edges0 && (e.src == n || e.dst == n) && e.memlet.Touch? ==> e.src != node && e.dst != node
    requires forall e :: e in edges2 && !e.memlet.Empty? <==> MovedData(edges1, node, parts, e)
    requires forall u, v :: u in nodes1 && v in nodes1 && u in nodes2 && v in nodes2 ==>
      (Reach(PairsOf(edges2), u, v) <==> Reach(PairsOf(edges1), u, v))
    ensures PartsLead(edges0, nodes2, edges2, n)
  {
    forall f, g | WriteInto(edges0, n, f) && ReadFrom(edges0, n, g) && ReadOnly(edges0, n, g)
      ensures PartBeforePart(nodes2, edges2, f, g)
    {
      var p, q :| LeadsToPart(nodes1, edges1, f, g, p, q);
      assert MovedData(edges1, node, parts, f.(dst := p)) && MovedData(edges1, node, parts, g.(src := q));
      assert LeadsToPart(nodes2, edges2, f, g, p, q);
    }
  }

  /** and a node still to be split. */
  lemma NoMoreStay(nodes1: map<Node, Kind>, edges0: seq<Edge>, n: Node, edges1: seq<Edge>, node: Node, parts: Parts,
                   edges2: seq<Edge>)
    requires NoMore(edges0, edges1, n) && n != node && n in nodes1 && nodes1[n].ArrayAccess?
    requires node in nodes1 && nodes1[node].ArrayAccess?
    requires ValidState(nodes1, edges1, parts.base) && !parts.Has(n)
    requires forall e :: e in edges2 && !e.memlet.Empty? <==> MovedData(edges1, node, parts, e)
    ensures NoMore(edges0, edges2, n)
  {
    forall e | e in edges2 && (e.src == n || e.dst == n) && !e.memlet.Empty? ensures e in edges0 {
      assert MovedData(edges1, node, parts, e);
    }
  }

  lemma ReadsAfter(nodes0: map<Node, Kind>, edges0: seq<Edge>, nodes1: map<Node, Kind>, edges1: seq<Edge>, node: Node,
                   parts: Parts, nodes2: map<Node, Kind>, edges2: seq<Edge>, todo: set<Node>, n: Node)
    requires ValidEdges(nodes0, edges0) && Acyclic(PairsOf(edges0)) && ValidState(nodes1, edges1, parts.base)
    requires nodes2 == (nodes1 - {node}) + parts.Nodes()
    requires forall e :: e in edges2 && !e.memlet.Empty? <==> MovedData(edges1, node, parts, e)
    requires forall f, k :: WriteInto(edges1, node, f) && OnlyRead(edges1, node, k) ==>
      KeyBeforeKey(edges2, parts, f.memlet.sub.k, k)
    requires forall u, v :: u in nodes1 && v in nodes1 && u in nodes2 && v in nodes2 ==>
      (Reach(PairsOf(edges2), u, v) <==> Reach(PairsOf(edges1), u, v))
    requires node in todo && node in nodes0 && nodes0[node].ArrayAccess?
    requires n in nodes0 && nodes0[n].ArrayAccess? && ReadsPlaced(edges0, nodes1, edges1, todo, n)
    requires Waiting(edges0, edges1, node) && NoMore(edges0, edges1, node)
    requires forall m :: m in todo <==> m in nodes1 && nodes1[m].ArrayAccess?
    requires n in todo - {node} ==> Waiting(edges0, edges2, n)
    ensures ReadsPlaced(edges0, nodes2, edges2, todo - {node}, n)
  {
    NoSelfEdge(edges0, node);
    forall e | e in edges0 && (e.src == n || e.dst == n) && e.memlet.Touch? && n != node
      ensures e.src != node && e.dst != node
    {
      assert ValidEdge(nodes0[e.src], nodes0[e.dst], e.memlet);
    }
    if n == node {
      PartsHere(edges0, nodes1, edges1, node, parts, nodes2, edges2);
    } else if n in todo {
      NoMoreStay(nodes1, edges0, n, edges1, node, parts, edges2);
    } else {
      PartsStay(edges0, n, nodes1, edges1, node, parts, nodes2, edges2);
    }
  }

  /** Between the nodes of other containers, a path exists after exactly where one existed before. */
  ghost predicate SameOrder(nodes: map<Node, Kind>, E: set<(Node, Node)>, G: set<(Node, Node)>) {
    forall u, v :: u in nodes && v in nodes && nodes[u].OtherNode? && nodes[v].OtherNode? ==>
      (Reach(G, u, v) <==> Reach(E, u, v))
  }

  /** The access `e` stands for. */
  ghost function Access(nodes: map<Node, Kind>, e: Edge): (Option<Node>, Option<Node>, Memlet) {
    (End(nodes, e.src), End(nodes, e.dst), e.memlet)
  }

  lemma SameAccess(nodes: map<Node, Kind>, node: Node, parts: Parts, f: Edge, e: Edge)
    requires forall n :: n in nodes ==> n < parts.base
    requires node in nodes && nodes[node].ArrayAccess?
    requires f.src in nodes && f.dst in nodes && f.src != f.dst
    requires (f == e && f.src != node && f.dst != node) || MovedTouch(f, node, parts, e)
    ensures Access((nodes - {node}) + parts.Nodes(), e) == Access(nodes, f)
  {}

  lemma SameAccesses(nodes: map<Node, Kind>, edges: seq<Edge>, node: Node, parts: Parts, edges': seq<Edge>)
    requires ValidState(nodes, edges, parts.base) && LiteralOnly(edges) && node in nodes && nodes[node].ArrayAccess?
    requires Acyclic(PairsOf(edges))
    requires forall k :: k in parts.keys <==> UsesIndex(edges, node, k)
    requires forall e :: e in edges' && !e.memlet.Empty? <==> MovedData(edges, node, parts, e)
    ensures Accesses((nodes - {node}) + parts.Nodes(), edges') == Accesses(nodes, edges)
  {
    var nodes' := (nodes - {node}) + parts.Nodes();
    forall a | a in Accesses(nodes', edges') ensures a in Accesses(nodes, edges) {
      var e :| e in edges' && !e.memlet.Empty? && a == Access(nodes', e);
      assert MovedData(edges, node, parts, e);
      var f := e;
      if !(e in edges && e.src != node && e.dst != node) {
        f :| f in edges && MovedTouch(f, node, parts, e);
      }
      NoSelfEdge(edges, f.src);
      SameAccess(nodes, node, parts, f, e);
    }
    forall a | a in Accesses(nodes, edges) ensures a in Accesses(nodes', edges') {
      var f :| f in edges && !f.memlet.Empty? && a == Access(nodes, f);
      var e := f;
      if f.src == node || f.dst == node {
        assert f.memlet == Touch(Literal(f.memlet.sub.k)) && UsesIndex(edges, node, f.memlet.sub.k);
        var w := parts.Of(f.memlet.sub.k);
        e := if f.dst == node then f.(dst := w) else f.(src := w);
        assert MovedTouch(f, node, parts, e);
      }
      assert MovedData(edges, node, parts, e);
      NoSelfEdge(edges, f.src);
      SameAccess(nodes, node, parts, f, e);
    }
  }

  /** `edges` is `base` followed by ordering edges. */
  ghost predicate Extended(base: seq<Edge>, edges: seq<Edge>, parts: seq<Node>) {
    base <= edges && forall e :: e in edges && e !in base ==> OrderEdge(base, parts, e)
  }

  /** Each edge added orders two nodes that no path ordered. */
  ghost predicate EachNeeded(n: nat, edges: seq<Edge>) {
    forall k :: n <= k < |edges| ==> !Reach(PairsOf(edges[..k]), edges[k].src, edges[k].dst)
  }

  lemma NeededNext(n: nat, edges: seq<Edge>, e: Edge)
    requires EachNeeded(n, edges) && n <= |edges| && !Reach(PairsOf(edges), e.src, e.dst)
    ensures EachNeeded(n, edges + [e])
  {
    var more := edges + [e];
    forall k | n <= k < |more| ensures !Reach(PairsOf(more[..k]), more[k].src, more[k].dst) {
      assert more[..k] == edges[..k] && edges[..|edges|] == edges;
    }
  }

  lemma WrittenSame(base: seq<Edge>, edges: seq<Edge>, parts: seq<Node>, n: Node)
    requires Extended(base, edges, parts)
    ensures Written(base, n) <==> Written(edges, n)
  {}

  lemma OrderedMono(base: seq<Edge>, e0: seq<Edge>, e1: seq<Edge>, w: Node, o: Node)
    requires e0 <= e1 && Ordered(base, PairsOf(e0), w, o)
    ensures Ordered(base, PairsOf(e1), w, o)
  {
    assert PairsOf(e0) <= PairsOf(e1);
    if !Written(base, o) {
      ReachMono(PairsOf(e0), PairsOf(e1), w, o);
    } else {
      forall f | f in base && f.src == o && !f.memlet.Empty? ensures Reach(PairsOf(e1), w, f.dst) {
        ReachMono(PairsOf(e0), PairsOf(e1), w, f.dst);
      }
    }
  }

  lemma ReachPlusReach(E: set<(Node, Node)>, u: Node, v: Node)
    requires ReachPlus(E, u, v)
    ensures Reach(E, u, v)
  {
    var m :| (u, m) in E && Reach(E, m, v);
    ReachStep(E, u, m, v);
  }
}
