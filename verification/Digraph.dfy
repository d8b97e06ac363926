/** Finite directed graphs given by their edges: walks, reachability, cycles, and the worklist search
    that decides reachability. */
module Digraph {

  /** `p` lists the nodes a walk from `u` to `v` visits after `u`. */
  ghost predicate Walk<V(!new)>(E: set<(V, V)>, u: V, p: seq<V>, v: V)
    decreases |p|
  {
    if p == [] then u == v else (u, p[0]) in E && Walk(E, p[0], p[1..], v)
  }

  /** A walk of any length, the empty one included. */
  ghost predicate Reach<V(!new)>(E: set<(V, V)>, u: V, v: V) {
    exists p :: Walk(E, u, p, v)
  }

  /** A walk with at least one edge. */
  ghost predicate ReachPlus<V(!new)>(E: set<(V, V)>, u: V, v: V) {
    exists m :: (u, m) in E && Reach(E, m, v)
  }

  ghost predicate Acyclic<V(!new)>(E: set<(V, V)>) {
    forall u :: !ReachPlus(E, u, u)
  }

  lemma ReachRefl<V(!new)>(E: set<(V, V)>, u: V)
    ensures Reach(E, u, u)
  {
    assert Walk(E, u, [], u);
  }

  lemma ReachStep<V(!new)>(E: set<(V, V)>, u: V, m: V, v: V)
    requires (u, m) in E && Reach(E, m, v)
    ensures Reach(E, u, v)
  {
    var p :| Walk(E, m, p, v);
    assert ([m] + p)[1..] == p;
    assert Walk(E, u, [m] + p, v);
  }

  lemma ReachEdge<V(!new)>(E: set<(V, V)>, u: V, v: V)
    requires (u, v) in E
    ensures Reach(E, u, v) && ReachPlus(E, u, v)
  {
    ReachRefl(E, v);
    ReachStep(E, u, v, v);
  }

  lemma {:induction false} WalkThen<V(!new)>(E: set<(V, V)>, u: V, p: seq<V>, m: V, v: V)
    requires Walk(E, u, p, m) && Reach(E, m, v)
    ensures Reach(E, u, v)
    decreases |p|
  {
    if p != [] {
      WalkThen(E, p[0], p[1..], m, v);
      ReachStep(E, u, p[0], v);
    }
  }

  lemma ReachTrans<V(!new)>(E: set<(V, V)>, u: V, m: V, v: V)
    requires Reach(E, u, m) && Reach(E, m, v)
    ensures Reach(E, u, v)
  {
    var p :| Walk(E, u, p, m);
    WalkThen(E, u, p, m, v);
  }

  lemma ReachPlusThen<V(!new)>(E: set<(V, V)>, u: V, m: V, v: V)
    requires ReachPlus(E, u, m) && Reach(E, m, v)
    ensures ReachPlus(E, u, v) && Reach(E, u, v)
  {
    var a :| (u, a) in E && Reach(E, a, m);
    ReachTrans(E, a, m, v);
    ReachStep(E, u, a, v);
  }

  lemma ReachThenEdge<V(!new)>(E: set<(V, V)>, u: V, m: V, v: V)
    requires Reach(E, u, m) && (m, v) in E
    ensures ReachPlus(E, u, v) && Reach(E, u, v)
  {
    var p :| Walk(E, u, p, m);
    ReachEdge(E, m, v);
    if p != [] {
      assert Walk(E, p[0], p[1..], m);
      assert ReachPlus(E, u, m);
      ReachPlusThen(E, u, m, v);
    }
  }

  /** Either the walk is empty or it leaves along some edge. */
  lemma ReachCases<V(!new)>(E: set<(V, V)>, u: V, v: V)
    requires Reach(E, u, v)
    ensures u == v || ReachPlus(E, u, v)
  {
    var p :| Walk(E, u, p, v);
    if p != [] {
      assert Walk(E, p[0], p[1..], v);
    }
  }

  lemma {:induction false} WalkMono<V(!new)>(E: set<(V, V)>, F: set<(V, V)>, u: V, p: seq<V>, v: V)
    requires E <= F && Walk(E, u, p, v)
    ensures Walk(F, u, p, v)
    decreases |p|
  {
    if p != [] {
      WalkMono(E, F, p[0], p[1..], v);
    }
  }

  lemma ReachMono<V(!new)>(E: set<(V, V)>, F: set<(V, V)>, u: V, v: V)
    requires E <= F && Reach(E, u, v)
    ensures Reach(F, u, v)
  {
    var p :| Walk(E, u, p, v);
    WalkMono(E, F, u, p, v);
  }

  /** A set closed under edges holds everything its members reach. */
  lemma {:induction false} WalkInClosed<V(!new)>(E: set<(V, V)>, S: set<V>, u: V, p: seq<V>, v: V)
    requires u in S && Walk(E, u, p, v)
    requires forall e :: e in E && e.0 in S ==> e.1 in S
    ensures v in S
    decreases |p|
  {
    if p != [] {
      assert (u, p[0]) in E;
      WalkInClosed(E, S, p[0], p[1..], v);
    }
  }

  /** The edges of a list, as the relation they stand for. */
  ghost function EdgeSet<V>(edges: seq<(V, V)>): set<(V, V)> {
    set e | e in edges
  }

  /** The inner loop of `_reaches`: look at the successors of `u`, note the unseen ones, stop at `dst`. */
  method Expand<V(!new,==)>(edges: seq<(V, V)>, u: V, dst: V, seen: set<V>, stack: seq<V>)
    returns (found: bool, seen': set<V>, stack': seq<V>)
    ensures found ==> (u, dst) in edges
    ensures !found ==> forall e :: e in edges && e.0 == u ==> e.1 in seen' && e.1 != dst
    ensures seen <= seen' && (seen' == seen ==> stack' == stack)
    ensures forall x :: x in seen' && x !in seen ==> (u, x) in edges
    ensures forall x :: x in stack' <==> x in stack || (x in seen' && x !in seen)
  {
    found, seen', stack' := false, seen, stack;
    for i := 0 to |edges|
      invariant seen <= seen' && (seen' == seen ==> stack' == stack)
      invariant forall x :: x in seen' && x !in seen ==> (u, x) in edges
      invariant forall x :: x in stack' <==> x in stack || (x in seen' && x !in seen)
      invariant forall j :: 0 <= j < i && edges[j].0 == u ==> edges[j].1 in seen' && edges[j].1 != dst
    {
      if edges[i].0 == u {
        var next := edges[i].1;
        assert edges[i] == (u, next);
        if next == dst {
          found := true;
          return;
        }
        if next !in seen' {
          seen', stack' := seen' + {next}, stack' + [next];
        }
      }
    }
  }

  /** The search of `_reaches`: is there a nonempty path from `src` to `dst`?  `src` itself starts out seen, so a
      cycle back to it is found only through the comparison with `dst`. */
  method Reaches<V(!new,==)>(edges: seq<(V, V)>, src: V, dst: V) returns (found: bool)
    ensures found <==> ReachPlus(EdgeSet(edges), src, dst)
  {
    ghost var E := EdgeSet(edges);
    ghost var universe := {src} + set e | e in edges :: e.1;
    var seen, stack := {src}, [src];
    ReachRefl(E, src);
    while stack != []
      invariant src in seen && seen <= universe
      invariant forall x :: x in stack ==> x in seen
      invariant forall x :: x in seen ==> Reach(E, src, x)
      invariant forall e :: e in E && e.0 in seen && e.0 !in stack ==> e.1 in seen && e.1 != dst
      decreases |universe - seen|, |stack|
    {
      var u := stack[|stack| - 1];
      ghost var seen0 := seen;
      var rest := stack[..|stack| - 1];
      assert stack == rest + [u];
      var hit;
      hit, seen, stack := Expand(edges, u, dst, seen, rest);
      if hit {
        ReachThenEdge(E, src, u, dst);
        return true;
      }
      forall x | x in seen ensures Reach(E, src, x) && x in universe {
        if x !in seen0 {
          ReachThenEdge(E, src, u, x);
          assert (u, x).1 == x;
        }
      }
      if seen != seen0 {
        assert universe - seen < universe - seen0;
        ProperSubsetSmaller(universe - seen, universe - seen0);
      }
    }
    if ReachPlus(E, src, dst) {
      LastEdge(E, src, dst, seen);
    }
    return false;
  }

  lemma Inhabited<V>(s: set<V>) returns (x: V)
    requires s != {}
    ensures x in s
  {
    x :| x in s;
  }

  lemma ProperSubsetSmaller<V>(a: set<V>, b: set<V>)
    requires a < b
    ensures |a| < |b|
  {
    assert b == a + (b - a);
  }

  /** A closed set that `src` is in, none of whose edges ends in `dst`, rules the path out. */
  lemma {:induction false} LastEdge<V(!new)>(E: set<(V, V)>, src: V, dst: V, S: set<V>)
    requires src in S && ReachPlus(E, src, dst)
    requires forall e :: e in E && e.0 in S ==> e.1 in S
    ensures exists e :: e in E && e.0 in S && e.1 == dst
  {
    var m :| (src, m) in E && Reach(E, m, dst);
    var p :| Walk(E, m, p, dst);
    WalkLastEdge(E, src, [m] + p, dst, S);
  }

  lemma {:induction false} WalkLastEdge<V(!new)>(E: set<(V, V)>, u: V, p: seq<V>, v: V, S: set<V>)
    requires u in S && p != [] && Walk(E, u, p, v)
    requires forall e :: e in E && e.0 in S ==> e.1 in S
    ensures exists e :: e in E && e.0 in S && e.1 == v
    decreases |p|
  {
    assert (u, p[0]) in E;
    if |p| > 1 {
      WalkLastEdge(E, p[0], p[1..], v, S);
    }
  }
}
