/** Loops that can never both run: the branches of one conditional, or blocks of one region with no path between them.
    Such loops cannot exchange values through an array only they touch, so each may have its own copy. */
module LoopExclusion {
  import opened ControlFlow
  import opened Digraph
  import opened LoopCopies
  import opened Renaming
  import opened Options

  /** Where an object of the program sits: block numbers of regions and branch numbers of conditionals in turn, from the
      top down.  A path of even length names a region, one of odd length a block. */
  type Path = seq<nat>

  function Pairs(rg: Region): seq<(nat, nat)> {
    seq(|rg.edges|, i requires 0 <= i < |rg.edges| => (rg.edges[i].src, rg.edges[i].dst))
  }

  ghost function Flow(rg: Region): set<(nat, nat)> {
    EdgeSet(Pairs(rg))
  }

  /** The path leads to a loop that no other loop holds. */
  predicate IsLoopPath(rg: Region, p: Path)
    decreases |p|
  {
    && p != [] && p[0] < |rg.blocks|
    && if |p| == 1 then rg.blocks[p[0]].Loop?
       else rg.blocks[p[0]].Cond? && p[1] < |rg.blocks[p[0]].branches| &&
            IsLoopPath(rg.blocks[p[0]].branches[p[1]].body, p[2..])
  }

  function LoopAt(rg: Region, p: Path): (b: Block)
    requires IsLoopPath(rg, p)
    ensures b.Loop?
    decreases |p|
  {
    if |p| == 1 then rg.blocks[p[0]] else LoopAt(rg.blocks[p[0]].branches[p[1]].body, p[2..])
  }

  /** The region an even prefix of a loop's path names. */
  function RegionAt(rg: Region, p: Path, n: nat): Region
    requires IsLoopPath(rg, p) && n < |p| && n % 2 == 0
    decreases n
  {
    if n == 0 then rg else RegionAt(rg.blocks[p[0]].branches[p[1]].body, p[2..], n - 2)
  }

  // ---------------------------------------------------------------- ancestry

  ghost function CommonLength(a: Path, b: Path): nat {
    if a == [] || b == [] || a[0] != b[0] then 0 else 1 + CommonLength(a[1..], b[1..])
  }

  lemma {:induction false} CommonIsLongest(a: Path, b: Path, n: nat)
    requires n <= |a|
    ensures CommonLength(a, b) <= |a| && CommonLength(a, b) <= |b|
    ensures n <= |b| && a[..n] == b[..n] <==> n <= CommonLength(a, b)
    decreases |a|
  {
    if a != [] && b != [] && a[0] == b[0] && n > 0 {
      CommonIsLongest(a[1..], b[1..], n - 1);
      assert a[..n] == [a[0]] + a[1..][..n - 1];
      assert n <= |b| ==> b[..n] == [b[0]] + b[1..][..n - 1];
      assert n <= |b| && a[..n] == b[..n] ==> a[1..][..n - 1] == a[..n][1..] == b[..n][1..] == b[1..][..n - 1];
    } else if n > 0 {
      assert n <= |b| && a[..n] == b[..n] ==> a[..n][0] == b[..n][0];
      CommonBound(a, b);
    } else {
      CommonBound(a, b);
    }
  }

  lemma CommonBound(a: Path, b: Path)
    ensures CommonLength(a, b) <= |a| && CommonLength(a, b) <= |b|
  {
  }

  /** `_ancestry`: the object, its parent, and so on up to the top. */
  method Ancestry(p: Path) returns (chain: seq<Path>)
    ensures |chain| == |p| + 1 && forall i :: 0 <= i < |chain| ==> chain[i] == p[..|p| - i]
  {
    chain := [p];
    while chain[|chain| - 1] != []
      invariant 1 <= |chain| <= |p| + 1
      invariant forall i :: 0 <= i < |chain| ==> chain[i] == p[..|p| - i]
      decreases |p| + 1 - |chain|
    {
      var last := chain[|chain| - 1];
      chain := chain + [last[..|last| - 1]];
    }
  }

  lemma InChain(a: Path, b: Path, chain: seq<Path>, n: nat)
    requires n <= |a| && n <= CommonLength(a, b)
    requires |chain| == |b| + 1 && forall i :: 0 <= i < |chain| ==> chain[i] == b[..|b| - i]
    ensures a[..n] in chain
  {
    CommonIsLongest(a, b, n);
    assert chain[|b| - n] == a[..n];
  }

  /** The search in `_exclusive`: the first of one chain that is in the other is the lowest common ancestor. */
  method CommonAncestor(a: Path, b: Path) returns (n: nat)
    ensures n == CommonLength(a, b)
  {
    var ca := Ancestry(a);
    var cb := Ancestry(b);
    var i := 0;
    CommonIsLongest(a, b, 0);
    assert ca[|a|] == [] && cb[|b|] == [];
    while ca[i] !in cb
      invariant 0 <= i <= |a|
      invariant forall k :: 0 <= k < i ==> ca[k] !in cb
      invariant CommonLength(a, b) <= |a| - i
      decreases |a| - i
    {
      if CommonLength(a, b) == |a| - i {
        InChain(a, b, cb, |a| - i);
      }
      i := i + 1;
    }
    n := |a| - i;
    CommonIsLongest(a, b, n);
    var k :| 0 <= k < |cb| && cb[k] == ca[i];
    assert |b[..|b| - k]| == n;
  }

  // ---------------------------------------------------------------- `_exclusive`

  /** Different branches of the conditional both are in, or blocks of the region both are in with no path from either to
      the other.  (The remaining case of the pass compares branch conditions and is not part of this model.) */
  ghost predicate Separated(rg: Region, a: Path, b: Path)
    requires IsLoopPath(rg, a) && IsLoopPath(rg, b)
  {
    var n := CommonLength(a, b);
    CommonBound(a, b);
    n < |a| && n < |b| && (n % 2 == 0 ==> Unordered(RegionAt(rg, a, n), a[n], b[n]))
  }

  ghost predicate Unordered(rg: Region, i: nat, j: nat) {
    !ReachPlus(Flow(rg), i, j) && !ReachPlus(Flow(rg), j, i)
  }

  method Exclusive(rg: Region, a: Path, b: Path) returns (r: bool)
    requires IsLoopPath(rg, a) && IsLoopPath(rg, b)
    ensures r <==> Separated(rg, a, b)
  {
    var n := CommonAncestor(a, b);
    CommonBound(a, b);
    if n == |a| || n == |b| {
      return false;
    }
    if n % 2 == 1 {
      return true;
    }
    var common := RegionAt(rg, a, n);
    var forth := Reaches(Pairs(common), a[n], b[n]);
    var back := Reaches(Pairs(common), b[n], a[n]);
    r := !forth && !back;
  }

  method MutuallyExclusive(rg: Region, loops: seq<Path>) returns (r: bool)
    requires forall i :: 0 <= i < |loops| ==> IsLoopPath(rg, loops[i])
    ensures r <==> AllSeparated(rg, loops)
  {
    for i := 0 to |loops|
      invariant forall k, j :: 0 <= k < i && k < j < |loops| ==> Separated(rg, loops[k], loops[j])
    {
      for j := i + 1 to |loops|
        invariant forall k :: i < k < j ==> Separated(rg, loops[i], loops[k])
      {
        var e := Exclusive(rg, loops[i], loops[j]);
        if !e {
          return false;
        }
      }
    }
    return true;
  }

  ghost predicate AllSeparated(rg: Region, loops: seq<Path>)
    requires forall i :: 0 <= i < |loops| ==> IsLoopPath(rg, loops[i])
  {
    forall i, j :: 0 <= i < j < |loops| ==> Separated(rg, loops[i], loops[j])
  }

  // ---------------------------------------------------------------- runs

  /** The run of the region reaches the loop at `p`. */
  ghost predicate Visits(rg: Region, r: RegionRun, p: Path)
    requires IsLoopPath(rg, p)
    decreases r, 1
  {
    !r.Empty? && ((r.block == p[0] && VisitsIn(rg, r.run, p)) || (r.Then? && Visits(rg, r.rest, p)))
  }

  ghost predicate VisitsIn(rg: Region, r: BlockRun, p: Path)
    requires IsLoopPath(rg, p)
    decreases r, 0
  {
    |p| > 1 ==> r.Taken? && r.branch == p[1] && Visits(rg.blocks[p[0]].branches[p[1]].body, r.inner, p[2..])
  }

  /** A run that reaches a block reaches it along edges. */
  lemma {:induction false} VisitReach(rg: Region, r: RegionRun, p: Path)
    requires IsLoopPath(rg, p) && ValidPath(rg, r) && Visits(rg, r, p)
    ensures Reach(Flow(rg), r.block, p[0])
    decreases r
  {
    if r.block == p[0] {
      ReachRefl(Flow(rg), r.block);
    } else {
      VisitReach(rg, r.rest, p);
      assert Pairs(rg)[r.via] == (r.block, r.rest.block);
      ReachStep(Flow(rg), r.block, r.rest.block, p[0]);
    }
  }

  lemma VisitLater(rg: Region, r: RegionRun, p: Path)
    requires IsLoopPath(rg, p) && ValidPath(rg, r) && r.Then? && Visits(rg, r.rest, p)
    ensures ReachPlus(Flow(rg), r.block, p[0])
  {
    VisitReach(rg, r.rest, p);
    assert Pairs(rg)[r.via] == (r.block, r.rest.block);
  }

  /** No region above the `n`-th step of the path runs the block the path goes through a second time. */
  ghost predicate OnceAbove(rg: Region, p: Path, n: nat)
    requires IsLoopPath(rg, p) && n < |p|
    decreases n
  {
    n > 0 ==>
      && !ReachPlus(Flow(rg), p[0], p[0])
      && (n > 1 ==> OnceAbove(rg.blocks[p[0]].branches[p[1]].body, p[2..], n - 2))
  }

  /** Separated loops never both run, whatever the tests say and however the run goes. */
  lemma {:induction false} NeverBoth(rg: Region, r: RegionRun, a: Path, b: Path)
    requires IsLoopPath(rg, a) && IsLoopPath(rg, b) && Separated(rg, a, b)
    requires OnceAbove(rg, a, CommonLength(a, b)) && ValidPath(rg, r)
    ensures !(Visits(rg, r, a) && Visits(rg, r, b))
    decreases r, 1
  {
    if Visits(rg, r, a) && Visits(rg, r, b) {
      if r.block == a[0] && VisitsIn(rg, r.run, a) {
        if r.block == b[0] && VisitsIn(rg, r.run, b) {
          NeverBothIn(rg, r.run, a, b);
        } else {
          VisitLater(rg, r, b);
        }
      } else if r.block == b[0] && VisitsIn(rg, r.run, b) {
        VisitLater(rg, r, a);
      } else {
        NeverBoth(rg, r.rest, a, b);
      }
    }
  }

  lemma {:induction false} NeverBothIn(rg: Region, r: BlockRun, a: Path, b: Path)
    requires IsLoopPath(rg, a) && IsLoopPath(rg, b) && Separated(rg, a, b)
    requires OnceAbove(rg, a, CommonLength(a, b)) && a[0] == b[0] && ValidBlock(rg.blocks[a[0]], r)
    ensures !(VisitsIn(rg, r, a) && VisitsIn(rg, r, b))
    decreases r, 0
  {
    if VisitsIn(rg, r, a) && VisitsIn(rg, r, b) {
      assert a[1] == b[1];
      var body := rg.blocks[a[0]].branches[a[1]].body;
      assert a[1..][1..] == a[2..] && b[1..][1..] == b[2..];
      assert CommonLength(a, b) == 2 + CommonLength(a[2..], b[2..]);
      assert Separated(body, a[2..], b[2..]);
      assert body.blocks != [];
      NeverBoth(body, r.inner, a[2..], b[2..]);
    }
  }

  /** A conditional in a cycle of its region is run again: there the branches do both run, one after the other. */
  lemma CycleRunsBoth()
    ensures var idle := Loop(Header([], Test([], 0), []), Region(9, [], [], 0));
            var branch := Branch(None, Region(8, [idle], [], 0));
            var rg := Region(7, [Cond(6, [branch, branch]), Jump(5)], [Edge(0, 0, []), Edge(0, 1, [])], 0);
            var inner := Last(0, Iterations([]));
            var r := Then(0, Taken(0, inner), 0, Then(0, Taken(1, inner), 1, Last(1, Plain)));
            && IsLoopPath(rg, [0, 0, 0]) && IsLoopPath(rg, [0, 1, 0]) && Separated(rg, [0, 0, 0], [0, 1, 0])
            && ValidRegion(rg, r) && Visits(rg, r, [0, 0, 0]) && Visits(rg, r, [0, 1, 0])
  {
    var idle := Loop(Header([], Test([], 0), []), Region(9, [], [], 0));
    var body := Region(8, [idle], [], 0);
    var branch := Branch(None, body);
    var rg := Region(7, [Cond(6, [branch, branch]), Jump(5)], [Edge(0, 0, []), Edge(0, 1, [])], 0);
    var inner := Last(0, Iterations([]));
    var a, b := [0, 0, 0], [0, 1, 0];
    assert a[2..] == [0] && b[2..] == [0];
    assert IsLoopPath(body, [0]);
    assert IsLoopPath(rg, a) && IsLoopPath(rg, b);
    assert a[1..][0] == 0 && b[1..][0] == 1;
    assert CommonLength(a[1..], b[1..]) == 0 && CommonLength(a, b) == 1;
    assert ValidPath(body, inner) && Visits(body, inner, [0]);
    var last := Last(1, Plain);
    var again := Then(0, Taken(1, inner), 1, last);
    assert ValidPath(rg, last);
    assert ValidPath(rg, again);
    assert Visits(rg, again, b);
    assert VisitsIn(rg, Taken(0, inner), a);
  }

  // ---------------------------------------------------------------- the copies

  /** Every loop of the run that mentions the array has the copy `to`. */
  ghost predicate OnlyCopy(b: Block, r: BlockRun, name: Name, copy: nat -> Name, to: Name)
    requires ValidBlock(b, r)
    decreases r, 0
  {
    match b
    case Cond(_, branches) => r.Taken? ==> RegionOnlyCopy(branches[r.branch].body, r.inner, name, copy, to)
    case Loop(_, body) => copy(body.id) == to || RegionQuiet(body, {name})
    case _ => true
  }

  ghost predicate RegionOnlyCopy(rg: Region, r: RegionRun, name: Name, copy: nat -> Name, to: Name)
    requires ValidRegion(rg, r)
    decreases r, 2
  {
    rg.blocks != [] ==> PathOnlyCopy(rg, r, name, copy, to)
  }

  ghost predicate PathOnlyCopy(rg: Region, r: RegionRun, name: Name, copy: nat -> Name, to: Name)
    requires ValidPath(rg, r)
    decreases r, 1
  {
    OnlyCopy(rg.blocks[r.block], r.run, name, copy, to) && (r.Then? ==> PathOnlyCopy(rg, r.rest, name, copy, to))
  }

  /** If not, the run visits a loop with another copy. */
  lemma {:induction false} OtherCopy(rg: Region, r: RegionRun, name: Name, copy: nat -> Name, to: Name)
    returns (p: Path)
    requires ValidPath(rg, r) && !PathOnlyCopy(rg, r, name, copy, to)
    ensures IsLoopPath(rg, p) && Visits(rg, r, p)
    ensures copy(LoopAt(rg, p).body.id) != to && !RegionQuiet(LoopAt(rg, p).body, {name})
    decreases r
  {
    var b := rg.blocks[r.block];
    if OnlyCopy(b, r.run, name, copy, to) {
      p := OtherCopy(rg, r.rest, name, copy, to);
    } else if b.Loop? {
      p := [r.block];
    } else {
      var body := b.branches[r.run.branch].body;
      assert ValidRegion(body, r.run.inner) && !RegionOnlyCopy(body, r.run.inner, name, copy, to);
      var q := OtherCopy(body, r.run.inner, name, copy, to);
      p := [r.block, r.run.branch] + q;
      assert p[2..] == q;
      assert VisitsIn(rg, r.run, p);
    }
  }

  /** What the renaming needs of the loops: edges set symbols, nested headers do not name the array. */
  ghost predicate LoopsRenamable(loops: seq<Block>, name: Name) {
    forall l :: l in loops ==> Renamable(l, name)
  }

  /** In a run with only one copy in use, the rewritten program's events are the program's, with that one name. */
  lemma {:induction false} OneCopyTrace(b: Block, r: BlockRun, name: Name, copy: nat -> Name, to: Name,
                                        hidden: set<Name>)
    requires ValidBlock(b, r) && OnlyCopy(b, r, name, copy, to)
    requires LoopsOnly(b, name, hidden) && name in hidden && LoopsRenamable(LoopsOf(b), name)
    ensures ValidBlock(SplitBlock(b, name, copy), r)
    ensures BlockTrace(SplitBlock(b, name, copy), r) == RenameTrace(BlockTrace(b, r), name, to)
    decreases r, 1
  {
    SplitBlockRuns(b, r, name, copy);
    match b
    case State(_, stmts) => RenameSilent(StmtEvents(stmts), name, to);
    case Jump(_) =>
    case Cond(_, branches) => OneCopyCond(b, r, name, copy, to, hidden);
    case Loop(h, body) =>
      assert b in LoopsOf(b);
      RenameBlockTrace(b, r, name, copy(body.id));
      if copy(body.id) != to {
        assert Quiet(b, {name}) by { assert name in hidden; }
        QuietTrace(b, r, {name});
        assert Silent(BlockTrace(b, r), name) by { assert name in {name}; }
        RenameSilent(BlockTrace(b, r), name, to);
        RenameSilent(BlockTrace(b, r), name, copy(body.id));
      }
  }

  lemma {:induction false} OneCopyCond(b: Block, r: BlockRun, name: Name, copy: nat -> Name, to: Name,
                                       hidden: set<Name>)
    requires b.Cond? && ValidBlock(b, r) && OnlyCopy(b, r, name, copy, to) && ValidBlock(SplitBlock(b, name, copy), r)
    requires LoopsOnly(b, name, hidden) && name in hidden && LoopsRenamable(LoopsOf(b), name)
    ensures BlockTrace(SplitBlock(b, name, copy), r) == RenameTrace(BlockTrace(b, r), name, to)
    decreases r, 0
  {
    var branches, branches' := b.branches, SplitBlock(b, name, copy).branches;
    if r.Taken? {
      var i := r.branch;
      forall l | l in RegionLoops(branches[i].body, 0) ensures Renamable(l, name) {
        BranchLoopsHold(b, 0, i, l);
      }
      OneCopyRegion(branches[i].body, r.inner, name, copy, to, hidden);
      RefusedQuiet(branches[..i], hidden);
      SameTests(branches[..i], branches'[..i]);
      var before := Refused(branches[..i]) + Entered(branches[i]);
      SilentAllConcat(Refused(branches[..i]), Entered(branches[i]), hidden);
      assert Silent(before, name);
      RenameSilent(before, name, to);
      RenameConcat(before, RegionTrace(branches[i].body, r.inner), name, to);
    } else {
      RefusedQuiet(branches, hidden);
      SameTests(branches, branches');
      assert Silent(Refused(branches), name);
      RenameSilent(Refused(branches), name, to);
    }
  }

  lemma {:induction false} OneCopyRegion(rg: Region, r: RegionRun, name: Name, copy: nat -> Name, to: Name,
                                         hidden: set<Name>)
    requires ValidRegion(rg, r) && RegionOnlyCopy(rg, r, name, copy, to)
    requires RegionLoopsOnly(rg, name, hidden) && name in hidden && LoopsRenamable(RegionLoops(rg, 0), name)
    ensures ValidRegion(SplitRegion(rg, name, copy), r)
    ensures RegionTrace(SplitRegion(rg, name, copy), r) == RenameTrace(RegionTrace(rg, r), name, to)
    decreases r, 2
  {
    if rg.blocks != [] {
      OneCopyPath(rg, r, name, copy, to, hidden);
    }
  }

  lemma {:induction false} OneCopyPath(rg: Region, r: RegionRun, name: Name, copy: nat -> Name, to: Name,
                                       hidden: set<Name>)
    requires ValidPath(rg, r) && PathOnlyCopy(rg, r, name, copy, to)
    requires RegionLoopsOnly(rg, name, hidden) && name in hidden && LoopsRenamable(RegionLoops(rg, 0), name)
    ensures ValidPath(SplitRegion(rg, name, copy), r)
    ensures PathTrace(SplitRegion(rg, name, copy), r) == RenameTrace(PathTrace(rg, r), name, to)
    decreases r, 1
  {
    var rg' := SplitRegion(rg, name, copy);
    var b := rg.blocks[r.block];
    forall l | l in LoopsOf(b) ensures Renamable(l, name) {
      RegionLoopsHold(rg, 0, r.block, l);
    }
    SplitPathRuns(rg, r, name, copy);
    OneCopyTrace(b, r.run, name, copy, to, hidden);
    var t := BlockTrace(b, r.run);
    if r.Last? {
      assert t + [] == t;
    } else {
      OneCopyPath(rg, r.rest, name, copy, to, hidden);
      var acts := rg.edges[r.via].acts;
      assert SilentAll(acts, hidden) && Silent(acts, name);
      RenameSilent(acts, name, to);
      RenameConcat(acts, PathTrace(rg, r.rest), name, to);
      RenameConcat(t, acts + PathTrace(rg, r.rest), name, to);
    }
  }

  // ---------------------------------------------------------------- the rewrite is safe

  /** The loops at `loops` are separated, and nothing above two of them runs the pair again. */
  ghost predicate NeverTogether(rg: Region, loops: seq<Path>)
    requires forall i :: 0 <= i < |loops| ==> IsLoopPath(rg, loops[i])
  {
    AllSeparated(rg, loops) && RunOnce(rg, loops)
  }

  ghost predicate RunOnce(rg: Region, loops: seq<Path>)
    requires forall i :: 0 <= i < |loops| ==> IsLoopPath(rg, loops[i])
  {
    forall i, j :: 0 <= i < j < |loops| && CommonLength(loops[i], loops[j]) < |loops[i]| ==>
      OnceAbove(rg, loops[i], CommonLength(loops[i], loops[j]))
  }

  /** `loops` are paths of loops, among them every one that mentions the array. */
  ghost predicate AllUsers(rg: Region, name: Name, loops: seq<Path>) {
    && (forall i :: 0 <= i < |loops| ==> IsLoopPath(rg, loops[i]))
    && (forall p :: IsLoopPath(rg, p) && !RegionQuiet(LoopAt(rg, p).body, {name}) ==> p in loops)
  }

  /** Of the loops that use the array, a run enters at most one. */
  lemma AtMostOne(rg: Region, r: RegionRun, name: Name, loops: seq<Path>, p: Path, q: Path)
    requires AllUsers(rg, name, loops) && NeverTogether(rg, loops) && ValidPath(rg, r)
    requires p in loops && q in loops && p != q
    ensures !(Visits(rg, r, p) && Visits(rg, r, q))
  {
    var i :| 0 <= i < |loops| && loops[i] == p;
    var j :| 0 <= j < |loops| && loops[j] == q;
    if i < j {
      assert Separated(rg, loops[i], loops[j]);
      NeverBoth(rg, r, p, q);
    } else {
      assert Separated(rg, loops[j], loops[i]);
      NeverBoth(rg, r, q, p);
    }
  }

  lemma OneCopySuffices(rg: Region, r: RegionRun, name: Name, copy: nat -> Name, loops: seq<Path>) returns (p: Path)
    requires AllUsers(rg, name, loops) && NeverTogether(rg, loops) && ValidPath(rg, r) && loops != []
    ensures p in loops && PathOnlyCopy(rg, r, name, copy, copy(LoopAt(rg, p).body.id))
  {
    p := loops[0];
    if !PathOnlyCopy(rg, r, name, copy, copy(LoopAt(rg, p).body.id)) {
      p := OtherCopy(rg, r, name, copy, copy(LoopAt(rg, p).body.id));
      if !PathOnlyCopy(rg, r, name, copy, copy(LoopAt(rg, p).body.id)) {
        var q := OtherCopy(rg, r, name, copy, copy(LoopAt(rg, p).body.id));
        AtMostOne(rg, r, name, loops, p, q);
      }
    }
  }

  /** Each copy starts out holding what the array starts out holding (a transient: whatever the memory holds). */
  ghost predicate SeededAlike(s: Store, s': Store, name: Name, hidden: set<Name>) {
    forall x :: x in hidden ==> Get(s', x) == Get(s, name)
  }

  /** Giving each of the separated loops its own copy leaves every other container as it was, in every run. */
  lemma ExclusiveCopiesSame(m: Meaning, rg: Region, r: RegionRun, name: Name, copy: nat -> Name, hidden: set<Name>,
                            loops: seq<Path>, s: Store, s': Store)
    requires AllUsers(rg, name, loops) && NeverTogether(rg, loops) && loops != []
    requires RegionLoopsOnly(rg, name, hidden) && RegionQuiet(rg, hidden - {name})
    requires LoopsRenamable(RegionLoops(rg, 0), name) && name in hidden && forall i :: copy(i) in hidden
    requires ValidRegion(rg, r) && Agree(s, s', hidden) && SeededAlike(s, s', name, hidden)
    ensures ValidRegion(SplitRegion(rg, name, copy), r)
    ensures AgreeResults(Exec(m, RegionTrace(rg, r), s), Exec(m, RegionTrace(SplitRegion(rg, name, copy), r), s'),
            hidden)
  {
    if rg.blocks != [] {
      var p := OneCopySuffices(rg, r, name, copy, loops);
      var to, t := copy(LoopAt(rg, p).body.id), RegionTrace(rg, r);
      OneCopyRegion(rg, r, name, copy, to, hidden);
      QuietRegionTrace(rg, r, hidden - {name});
      RenamedSame(m, t, name, to, hidden, s, s', true);
    }
  }

  lemma {:induction false} WidenBlock(b: Block, name: Name, hidden: set<Name>)
    requires LoopsOnly(b, name, {name}) && Quiet(b, hidden - {name})
    ensures LoopsOnly(b, name, hidden)
    decreases b
  {
    var one, rest := {name}, hidden - {name};
    match b
    case State(_, stmts) =>
      forall x | x in hidden ensures Silent(StmtEvents(stmts), x) { assert x in one || x in rest; }
    case Cond(_, branches) =>
      forall i | 0 <= i < |branches|
        ensures CondQuiet(branches[i].cond, hidden) && RegionLoopsOnly(branches[i].body, name, hidden)
      {
        assert CondQuiet(branches[i].cond, one) && CondQuiet(branches[i].cond, rest);
        WidenRegion(branches[i].body, name, hidden);
      }
    case Loop(h, body) =>
      forall x | x in hidden ensures HeaderSilent(h, x) { assert x in one || x in rest; }
    case Jump(_) =>
  }

  lemma {:induction false} WidenRegion(rg: Region, name: Name, hidden: set<Name>)
    requires RegionLoopsOnly(rg, name, {name}) && RegionQuiet(rg, hidden - {name})
    ensures RegionLoopsOnly(rg, name, hidden)
    decreases rg
  {
    var one, rest := {name}, hidden - {name};
    forall i | 0 <= i < |rg.blocks| ensures LoopsOnly(rg.blocks[i], name, hidden) {
      WidenBlock(rg.blocks[i], name, hidden);
    }
    forall i | 0 <= i < |rg.edges| ensures SilentAll(rg.edges[i].acts, hidden) {
      assert SilentAll(rg.edges[i].acts, one) && SilentAll(rg.edges[i].acts, rest);
      forall x | x in hidden ensures Silent(rg.edges[i].acts, x) { assert x in one || x in rest; }
    }
  }

  /** Both programs have the same runs, and a run from stores that differ in the hidden containers only ends in such. */
  ghost predicate CopiesSame(rg: Region, rg': Region, name: Name, hidden: set<Name>) {
    && (forall r :: ValidRegion(rg, r) <==> ValidRegion(rg', r))
    && (forall m, r, s, s' :: ValidRegion(rg, r) && ValidRegion(rg', r) ==>
        SameFrom(m, rg, rg', r, name, hidden, s, s'))
  }

  ghost predicate SameFrom(m: Meaning, rg: Region, rg': Region, r: RegionRun, name: Name, hidden: set<Name>,
                           s: Store, s': Store)
    requires ValidRegion(rg, r) && ValidRegion(rg', r)
  {
    Agree(s, s', hidden) && SeededAlike(s, s', name, hidden) ==>
      AgreeResults(Exec(m, RegionTrace(rg, r), s), Exec(m, RegionTrace(rg', r), s'), hidden)
  }

  lemma PrivatizeSame(rg: Region, name: Name, copy: nat -> Name, hidden: set<Name>, loops: seq<Path>)
    requires AllUsers(rg, name, loops) && NeverTogether(rg, loops) && loops != []
    requires RegionLoopsOnly(rg, name, {name}) && RegionQuiet(rg, hidden - {name})
    requires LoopsRenamable(RegionLoops(rg, 0), name) && name in hidden && forall i :: copy(i) in hidden
    ensures CopiesSame(rg, SplitRegion(rg, name, copy), name, hidden)
  {
    var rg' := SplitRegion(rg, name, copy);
    WidenRegion(rg, name, hidden);
    forall r ensures ValidRegion(rg, r) <==> ValidRegion(rg', r) {
      SplitRegionRuns(rg, r, name, copy);
    }
    forall m, r, s, s' | ValidRegion(rg, r) && ValidRegion(rg', r)
      ensures SameFrom(m, rg, rg', r, name, hidden, s, s')
    {
      if Agree(s, s', hidden) && SeededAlike(s, s', name, hidden) {
        ExclusiveCopiesSame(m, rg, r, name, copy, hidden, loops, s, s');
      }
    }
  }

  function LoopIds(rg: Region, loops: seq<Path>): seq<nat>
    requires forall i :: 0 <= i < |loops| ==> IsLoopPath(rg, loops[i])
  {
    seq(|loops|, k requires 0 <= k < |loops| => LoopAt(rg, loops[k]).body.id)
  }

  ghost predicate Distinct(ids: seq<nat>) {
    forall i, j :: 0 <= i < j < |ids| ==> ids[i] != ids[j]
  }

  /** The first loop keeps the array, the others take the copies in turn. */
  ghost predicate Distributes(rg: Region, loops: seq<Path>, name: Name, copies: seq<Name>, copy: nat -> Name)
    requires forall i :: 0 <= i < |loops| ==> IsLoopPath(rg, loops[i])
  {
    |loops| == |copies| + 1 &&
    forall k :: 0 <= k < |loops| ==> copy(LoopIds(rg, loops)[k]) == if k == 0 then name else copies[k - 1]
  }

  /** The naming loop of `_privatize`: a new name for every loop but the first. */
  method NameCopies(ids: seq<nat>, names: set<Name>, newName: set<Name> -> Name)
    returns (copies: seq<Name>, byLoop: map<nat, Name>)
    requires ids != [] && forall used :: newName(used) !in used
    requires Distinct(ids)
    ensures |copies| == |ids| - 1 && NewNames(copies, names)
    ensures forall id :: id in byLoop ==> byLoop[id] in copies
    ensures ids[0] !in byLoop && forall k :: 1 <= k < |ids| ==> ids[k] in byLoop && byLoop[ids[k]] == copies[k - 1]
  {
    copies, byLoop := [], map[];
    for k := 1 to |ids|
      invariant |copies| == k - 1 && NewNames(copies, names)
      invariant forall id :: id in byLoop ==> id in ids[1..k] && byLoop[id] in copies
      invariant forall j :: 1 <= j < k ==> ids[j] in byLoop && byLoop[ids[j]] == copies[j - 1]
    {
      var added := newName(names + set x | x in copies);
      byLoop := byLoop[ids[k] := added];
      copies := copies + [added];
    }
  }

  /** The renaming part of `_privatize`. */
  method Rewrite(rg: Region, name: Name, loops: seq<Path>, names: set<Name>, newName: set<Name> -> Name)
    returns (copies: seq<Name>, rg': Region)
    requires name in names && forall used :: newName(used) !in used
    requires AllUsers(rg, name, loops) && NeverTogether(rg, loops) && loops != [] && Distinct(LoopIds(rg, loops))
    requires RegionLoopsOnly(rg, name, {name}) && LoopsRenamable(RegionLoops(rg, 0), name)
    requires forall xs: set<Name> :: xs !! names ==> RegionQuiet(rg, xs)
    ensures NewNames(copies, names)
    ensures CopiesSame(rg, rg', name, {name} + set x | x in copies)
    ensures exists copy :: rg' == SplitRegion(rg, name, copy) && Distributes(rg, loops, name, copies, copy)
  {
    var byLoop;
    copies, byLoop := NameCopies(LoopIds(rg, loops), names, newName);
    var copy := (id: nat) => if id in byLoop then byLoop[id] else name;
    ghost var hidden := {name} + set x | x in copies;
    assert hidden - {name} !! names;
    PrivatizeSame(rg, name, copy, hidden, loops);
    assert Distributes(rg, loops, name, copies, copy);
    rg' := SplitRegion(rg, name, copy);
  }

  class Sdfg {
    var names: set<Name>
    var top: Region

    /** The exclusive arm of `_privatize`, on one array that no code outside the loops touches: the first loop keeps the
        name, each of the others gets a copy under a name not in use. */
    method Privatize(name: Name, loops: seq<Path>, newName: set<Name> -> Name) returns (copies: seq<Name>)
      requires name in names && forall used :: newName(used) !in used
      requires AllUsers(top, name, loops) && RunOnce(top, loops) && Distinct(LoopIds(top, loops))
      requires RegionLoopsOnly(top, name, {name}) && LoopsRenamable(RegionLoops(top, 0), name)
      requires forall xs: set<Name> :: xs !! names ==> RegionQuiet(top, xs)
      modifies this
      ensures |loops| < 2 || !AllSeparated(old(top), loops) ==> copies == [] && unchanged(this)
      ensures |loops| >= 2 && AllSeparated(old(top), loops) ==>
                CopiesSame(old(top), top, name, {name} + set x | x in copies)
      ensures |loops| >= 2 && AllSeparated(old(top), loops) ==>
                exists copy :: top == SplitRegion(old(top), name, copy) &&
                    Distributes(old(top), loops, name, copies, copy)
      ensures NewNames(copies, old(names)) && names == old(names) + set x | x in copies
    {
      copies := [];
      if |loops| < 2 {
        return;
      }
      var exclusive := MutuallyExclusive(top, loops);
      if !exclusive {
        return;
      }
      copies, top := Rewrite(top, name, loops, names, newName);
      names := names + set x | x in copies;
    }
  }
}
