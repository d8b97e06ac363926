/** When every block lies on a run, the condition under which separated loops never both run is exact. */
module ExclusionExact {
  import opened ControlFlow
  import opened Digraph
  import opened LoopExclusion

  /** Every block of the region lies on a walk from the start to a block without an edge out. */
  ghost predicate Flows(rg: Region) {
    && (forall e :: e in rg.edges ==> e.src < |rg.blocks| && e.dst < |rg.blocks|)
    && (rg.blocks != [] ==> rg.start < |rg.blocks|)
    && (forall i: nat :: i < |rg.blocks| ==> Reach(Flow(rg), rg.start, i) && ReachesSink(rg, i))
  }

  ghost predicate ReachesSink(rg: Region, i: nat) {
    exists k: nat :: k < |rg.blocks| && Sink(rg, k) && Reach(Flow(rg), i, k)
  }

  /** In the region and in the branches below it, outside loops. */
  ghost predicate AllFlow(rg: Region)
    decreases rg
  {
    Flows(rg) && forall i :: 0 <= i < |rg.blocks| ==> BlockFlows(rg.blocks[i])
  }

  ghost predicate BlockFlows(b: Block)
    decreases b
  {
    b.Cond? ==> forall i :: 0 <= i < |b.branches| ==> AllFlow(b.branches[i].body)
  }

  // ---------------------------------------------------------------- building runs

  lemma {:induction false} SomeBlockRun(b: Block) returns (r: BlockRun)
    requires BlockFlows(b)
    ensures ValidBlock(b, r)
    decreases b, 0, 0
  {
    match b
    case Cond(_, branches) =>
      if branches == [] {
        r := NoneTaken;
      } else {
        var inner := SomeRegionRun(branches[0].body);
        r := Taken(0, inner);
      }
    case Loop(_, _) => r := Iterations([]);
    case _ => r := Plain;
  }

  lemma {:induction false} SomeRegionRun(rg: Region) returns (r: RegionRun)
    requires AllFlow(rg)
    ensures ValidRegion(rg, r)
    decreases rg, 3, 0
  {
    if rg.blocks == [] {
      r := Empty;
    } else {
      var run := SomeBlockRun(rg.blocks[rg.start]);
      r := ToEnd(rg, rg.start, run);
    }
  }

  /** What a longer run visits besides. */
  ghost predicate VisitsAll(rg: Region, r: RegionRun, tail: RegionRun) {
    forall q :: IsLoopPath(rg, q) && Visits(rg, tail, q) ==> Visits(rg, r, q)
  }

  /** Along a walk to where a run goes on. */
  lemma {:induction false} Onward(rg: Region, u: nat, p: seq<nat>, tail: RegionRun) returns (r: RegionRun)
    requires AllFlow(rg) && u < |rg.blocks| && ValidPath(rg, tail) && !tail.Empty? && Walk(Flow(rg), u, p, tail.block)
    ensures ValidPath(rg, r) && !r.Empty? && r.block == u && VisitsAll(rg, r, tail)
    decreases rg, 1, |p|
  {
    if p == [] {
      r := tail;
    } else {
      var via := EdgeOf(rg, u, p[0]);
      var rest := Onward(rg, p[0], p[1..], tail);
      var run := SomeBlockRun(rg.blocks[u]);
      r := Then(u, run, via, rest);
    }
  }

  lemma EdgeOf(rg: Region, u: nat, v: nat) returns (via: nat)
    requires (u, v) in Flow(rg) && Flows(rg)
    ensures ValidVia(rg, u, via, v) && v < |rg.blocks|
  {
    via :| 0 <= via < |rg.edges| && Pairs(rg)[via] == (u, v);
    assert rg.edges[via] in rg.edges;
  }

  /** From a block, run as given, to the end of the region. */
  lemma {:induction false} ToEnd(rg: Region, i: nat, run: BlockRun) returns (r: RegionRun)
    requires AllFlow(rg) && i < |rg.blocks| && ValidBlock(rg.blocks[i], run)
    ensures ValidPath(rg, r) && !r.Empty? && r.block == i && r.run == run
    decreases rg, 2, 0
  {
    assert Reach(Flow(rg), rg.start, i) && ReachesSink(rg, i);
    var k: nat :| k < |rg.blocks| && Sink(rg, k) && Reach(Flow(rg), i, k);
    var p: seq<nat> :| Walk(Flow(rg), i, p, k);
    if p == [] {
      r := Last(i, run);
    } else {
      var via := EdgeOf(rg, i, p[0]);
      var last := SomeBlockRun(rg.blocks[k]);
      var rest := Onward(rg, p[0], p[1..], Last(k, last));
      r := Then(i, run, via, rest);
    }
  }

  lemma FromStart(rg: Region, tail: RegionRun) returns (r: RegionRun)
    requires AllFlow(rg) && ValidPath(rg, tail) && !tail.Empty?
    ensures ValidRegion(rg, r) && VisitsAll(rg, r, tail)
  {
    assert Reach(Flow(rg), rg.start, tail.block);
    var p: seq<nat> :| Walk(Flow(rg), rg.start, p, tail.block);
    r := Onward(rg, rg.start, p, tail);
  }

  /** Every loop runs in some run. */
  lemma {:induction false} VisitingRun(rg: Region, p: Path) returns (r: RegionRun)
    requires AllFlow(rg) && IsLoopPath(rg, p)
    ensures ValidRegion(rg, r) && Visits(rg, r, p)
    decreases |p|, 1
  {
    var run := VisitingBlockRun(rg, p);
    var tail := ToEnd(rg, p[0], run);
    r := FromStart(rg, tail);
    assert Visits(rg, tail, p);
  }

  lemma {:induction false} VisitingBlockRun(rg: Region, p: Path) returns (run: BlockRun)
    requires AllFlow(rg) && IsLoopPath(rg, p)
    ensures ValidBlock(rg.blocks[p[0]], run) && VisitsIn(rg, run, p)
    decreases |p|, 0
  {
    if |p| == 1 {
      run := Iterations([]);
    } else {
      assert BlockFlows(rg.blocks[p[0]]);
      var inner := VisitingRun(rg.blocks[p[0]].branches[p[1]].body, p[2..]);
      run := Taken(p[1], inner);
    }
  }

  // ---------------------------------------------------------------- the run that visits both

  /** To the conditional both are in, into the branch of one, round the cycle, into that of the other, and on to the
      end. */
  lemma RoundRun(rg: Region, a: Path, b: Path) returns (r: RegionRun)
    requires AllFlow(rg) && IsLoopPath(rg, a) && IsLoopPath(rg, b) && a[0] == b[0] && ReachPlus(Flow(rg), a[0], a[0])
    ensures ValidRegion(rg, r) && Visits(rg, r, a) && Visits(rg, r, b)
  {
    var runA := VisitingBlockRun(rg, a);
    var runB := VisitingBlockRun(rg, b);
    var tailB := ToEnd(rg, b[0], runB);
    assert Visits(rg, tailB, b);
    var m: nat :| (a[0], m) in Flow(rg) && Reach(Flow(rg), m, a[0]);
    var via := EdgeOf(rg, a[0], m);
    var p: seq<nat> :| Walk(Flow(rg), m, p, a[0]);
    var rest := Onward(rg, m, p, tailB);
    var tail := Then(a[0], runA, via, rest);
    assert Visits(rg, tail, a) && Visits(rg, tail, b);
    r := FromStart(rg, tail);
  }

  lemma {:induction false} BothRun(rg: Region, a: Path, b: Path) returns (r: RegionRun)
    requires AllFlow(rg) && IsLoopPath(rg, a) && IsLoopPath(rg, b) && Separated(rg, a, b)
    requires !OnceAbove(rg, a, CommonLength(a, b))
    ensures ValidRegion(rg, r) && Visits(rg, r, a) && Visits(rg, r, b)
    decreases |a|
  {
    if ReachPlus(Flow(rg), a[0], a[0]) {
      r := RoundRun(rg, a, b);
    } else {
      assert a[1] == b[1];
      assert a[1..][1..] == a[2..] && b[1..][1..] == b[2..];
      assert CommonLength(a, b) == 2 + CommonLength(a[2..], b[2..]);
      var body := rg.blocks[a[0]].branches[a[1]].body;
      assert BlockFlows(rg.blocks[a[0]]) && Separated(body, a[2..], b[2..]);
      var inner := BothRun(body, a[2..], b[2..]);
      var run := Taken(a[1], inner);
      assert VisitsIn(rg, run, a) && VisitsIn(rg, run, b);
      var tail := ToEnd(rg, a[0], run);
      assert Visits(rg, tail, a) && Visits(rg, tail, b);
      r := FromStart(rg, tail);
    }
  }

  /** No run of the region reaches both loops. */
  ghost predicate NeverTogetherIn(rg: Region, a: Path, b: Path)
    requires IsLoopPath(rg, a) && IsLoopPath(rg, b)
  {
    forall r :: ValidRegion(rg, r) ==> !(Visits(rg, r, a) && Visits(rg, r, b))
  }

  /** Separated loops never both run exactly when no conditional above both is run again. */
  lemma NeverBothIff(rg: Region, a: Path, b: Path)
    requires AllFlow(rg) && IsLoopPath(rg, a) && IsLoopPath(rg, b) && Separated(rg, a, b)
    ensures NeverTogetherIn(rg, a, b) <==> OnceAbove(rg, a, CommonLength(a, b))
  {
    if OnceAbove(rg, a, CommonLength(a, b)) {
      forall r | ValidRegion(rg, r) ensures !(Visits(rg, r, a) && Visits(rg, r, b)) {
        NeverBoth(rg, r, a, b);
      }
    } else {
      var r := BothRun(rg, a, b);
    }
  }

  // ---------------------------------------------------------------- loops that are not separated

  /** A path leads from the block of one to the block of the other: the run along it enters both. */
  lemma {:induction false} PathRun(rg: Region, a: Path, b: Path) returns (r: RegionRun)
    requires AllFlow(rg) && IsLoopPath(rg, a) && IsLoopPath(rg, b) && ReachPlus(Flow(rg), a[0], b[0])
    ensures ValidRegion(rg, r) && Visits(rg, r, a) && Visits(rg, r, b)
  {
    var runA := VisitingBlockRun(rg, a);
    var runB := VisitingBlockRun(rg, b);
    var tailB := ToEnd(rg, b[0], runB);
    assert Visits(rg, tailB, b);
    var m: nat :| (a[0], m) in Flow(rg) && Reach(Flow(rg), m, b[0]);
    var via := EdgeOf(rg, a[0], m);
    var p: seq<nat> :| Walk(Flow(rg), m, p, b[0]);
    var rest := Onward(rg, m, p, tailB);
    var tail := Then(a[0], runA, via, rest);
    assert Visits(rg, tail, a) && Visits(rg, tail, b);
    r := FromStart(rg, tail);
  }

  /** Neither loop holds the other. */
  ghost predicate Beside(a: Path, b: Path) {
    CommonLength(a, b) < |a| && CommonLength(a, b) < |b|
  }

  lemma {:induction false} CommonSteps(a: Path, b: Path)
    requires |a| > 1 && |b| > 1 && a[0] == b[0]
    ensures CommonLength(a, b) == if a[1] == b[1] then 2 + CommonLength(a[2..], b[2..]) else 1
  {
    assert a[1..][1..] == a[2..] && b[1..][1..] == b[2..];
    assert CommonLength(a, b) == 1 + CommonLength(a[1..], b[1..]);
  }

  /** Loops in one block are in one branch of it, and not separated there. */
  lemma {:induction false} UnseparatedBelow(rg: Region, a: Path, b: Path)
    requires IsLoopPath(rg, a) && IsLoopPath(rg, b) && Beside(a, b) && !Separated(rg, a, b) && a[0] == b[0]
    ensures |a| > 2 && |b| > 2 && a[1] == b[1] && rg.blocks[a[0]].Cond? && a[1] < |rg.blocks[a[0]].branches|
    ensures var body := rg.blocks[a[0]].branches[a[1]].body;
            && IsLoopPath(body, a[2..]) && IsLoopPath(body, b[2..])
            && Beside(a[2..], b[2..]) && !Separated(body, a[2..], b[2..])
  {
    var n := CommonLength(a, b);
    LongerPath(rg, a);
    LongerPath(rg, b);
    CommonSteps(a, b);
    var body := rg.blocks[a[0]].branches[a[1]].body;
    assert RegionAt(rg, a, n) == RegionAt(body, a[2..], n - 2);
    assert a[n] == a[2..][n - 2] && b[n] == b[2..][n - 2];
  }

  lemma {:induction false} LongerPath(rg: Region, p: Path)
    requires IsLoopPath(rg, p) && |p| > 1
    ensures |p| > 2 && rg.blocks[p[0]].Cond? && p[1] < |rg.blocks[p[0]].branches|
    ensures IsLoopPath(rg.blocks[p[0]].branches[p[1]].body, p[2..])
  {
  }

  lemma {:induction false} UnseparatedRun(rg: Region, a: Path, b: Path) returns (r: RegionRun)
    requires AllFlow(rg) && IsLoopPath(rg, a) && IsLoopPath(rg, b) && Beside(a, b) && !Separated(rg, a, b)
    ensures ValidRegion(rg, r) && Visits(rg, r, a) && Visits(rg, r, b)
    decreases |a|
  {
    if a[0] == b[0] {
      UnseparatedBelow(rg, a, b);
      assert BlockFlows(rg.blocks[a[0]]);
      var body := rg.blocks[a[0]].branches[a[1]].body;
      var inner := UnseparatedRun(body, a[2..], b[2..]);
      var tail := ToEnd(rg, a[0], Taken(a[1], inner));
      assert Visits(rg, tail, a) && Visits(rg, tail, b);
      r := FromStart(rg, tail);
    } else if ReachPlus(Flow(rg), a[0], b[0]) {
      r := PathRun(rg, a, b);
    } else {
      r := PathRun(rg, b, a);
    }
  }

  /** Of loops beside one another: no run enters both exactly when they are separated and no conditional above both is
      run again. */
  lemma SeparatedIff(rg: Region, a: Path, b: Path)
    requires AllFlow(rg) && IsLoopPath(rg, a) && IsLoopPath(rg, b) && Beside(a, b)
    ensures NeverTogetherIn(rg, a, b) <==> Separated(rg, a, b) && OnceAbove(rg, a, CommonLength(a, b))
  {
    if Separated(rg, a, b) {
      NeverBothIff(rg, a, b);
    } else {
      var r := UnseparatedRun(rg, a, b);
    }
  }
}
