/** How the order of a region's blocks in its list bears on the must-be-defined analysis, which sweeps over them in that
    order and stops after eight rounds. */
module ScanOrder {
  import opened ControlFlow
  import opened MustDefined
  import opened Renaming

  /** Some path of `n` blocks ends in the block. */
  ghost predicate PathTo(rg: Region, b: nat, n: nat)
    decreases n
  {
    n <= 1 || exists via :: 0 <= via < |rg.edges| && EdgeTo(rg, b, via) && PathTo(rg, rg.edges[via].src, n - 1)
  }

  ghost predicate EdgeTo(rg: Region, b: nat, via: nat)
    requires via < |rg.edges|
  {
    rg.edges[via].dst == b && rg.edges[via].src < |rg.blocks|
  }

  ghost predicate PathsBelow(rg: Region, n: nat) {
    forall b: nat :: b < |rg.blocks| ==> !PathTo(rg, b, n)
  }

  lemma {:induction false} PathShorter(rg: Region, b: nat, n: nat)
    requires PathTo(rg, b, n + 1)
    ensures PathTo(rg, b, n)
    decreases n
  {
    if n > 1 {
      var via :| 0 <= via < |rg.edges| && EdgeTo(rg, b, via) && PathTo(rg, rg.edges[via].src, n);
      PathShorter(rg, rg.edges[via].src, n - 1);
    }
  }

  // ---------------------------------------------------------------- each round settles the blocks one step further

  /** The same where no path of more than `n` blocks ends. */
  ghost predicate AgreeBelow(rg: Region, a: seq<bool>, b: seq<bool>, n: nat) {
    |a| == |b| == |rg.blocks| && forall i: nat :: i < |a| && !PathTo(rg, i, n + 1) ==> a[i] == b[i]
  }

  lemma EntryAgrees(rg: Region, entry: bool, a: seq<bool>, b: seq<bool>, n: nat, i: nat)
    requires AgreeBelow(rg, a, b, n) && !PathTo(rg, i, n + 2)
    ensures EntryOf(rg, entry, a, i) == EntryOf(rg, entry, b, i)
  {
    forall e | e in rg.edges && e.dst == i && e.src < |a| ensures a[e.src] == b[e.src] {
      var via: nat :| via < |rg.edges| && rg.edges[via] == e;
      assert EdgeTo(rg, i, via) && !PathTo(rg, e.src, n + 1);
    }
  }

  lemma {:induction false} SweepAgrees(rg: Region, name: Name, entry: bool, a: seq<bool>, b: seq<bool>, n: nat, i: nat)
    requires AgreeBelow(rg, a, b, n) && i <= |a|
    requires forall j: nat :: j < i && !PathTo(rg, j, n + 2) ==> a[j] == b[j]
    ensures AgreeBelow(rg, Sweep(rg, name, entry, a, i), Sweep(rg, name, entry, b, i), n + 1)
    decreases |a| - i
  {
    if i < |a| {
      var a' := a[i := BlockExit(rg.blocks[i], name, EntryOf(rg, entry, a, i)).exit];
      var b' := b[i := BlockExit(rg.blocks[i], name, EntryOf(rg, entry, b, i)).exit];
      if !PathTo(rg, i, n + 2) {
        EntryAgrees(rg, entry, a, b, n, i);
      } else {
        PathShorter(rg, i, n + 1);
      }
      SweepAgrees(rg, name, entry, a', b', n, i + 1);
    }
  }

  lemma {:induction false} SweepsAgree(rg: Region, name: Name, entry: bool, a: seq<bool>, b: seq<bool>, n: nat, k: nat)
    requires AgreeBelow(rg, a, b, n)
    ensures AgreeBelow(rg, Sweeps(rg, name, entry, a, k), Sweeps(rg, name, entry, b, k), n + k)
    decreases k
  {
    if k > 0 {
      SweepAgrees(rg, name, entry, a, b, n, 0);
      SweepsAgree(rg, name, entry, Sweep(rg, name, entry, a, 0), Sweep(rg, name, entry, b, 0), n + 1, k - 1);
    }
  }

  lemma {:induction false} SweepsAhead(rg: Region, name: Name, entry: bool, out: seq<bool>, k: nat)
    requires |out| == |rg.blocks|
    ensures Sweeps(rg, name, entry, Sweep(rg, name, entry, out, 0), k) ==
            Sweep(rg, name, entry, Sweeps(rg, name, entry, out, k), 0)
    decreases k
  {
    if k > 0 {
      SweepsAhead(rg, name, entry, Sweep(rg, name, entry, out, 0), k - 1);
    }
  }

  lemma {:induction false} SweepKeeps(rg: Region, name: Name, entry: bool, out: seq<bool>, i: nat)
    requires |out| == |rg.blocks| && i <= |out|
    ensures forall j :: 0 <= j < i ==> Sweep(rg, name, entry, out, i)[j] == out[j]
    decreases |out| - i
  {
    if i < |out| {
      SweepKeeps(rg, name, entry, out[i := BlockExit(rg.blocks[i], name, EntryOf(rg, entry, out, i)).exit], i + 1);
    }
  }

  lemma {:induction false} FixpointSolves(rg: Region, name: Name, entry: bool, out: seq<bool>, i: nat)
    requires |out| == |rg.blocks| && i <= |out| && Sweep(rg, name, entry, out, i) == out
    ensures forall j :: i <= j < |out| ==> SolvedAt(rg, name, entry, out, j)
    decreases |out| - i
  {
    if i < |out| {
      var out' := out[i := BlockExit(rg.blocks[i], name, EntryOf(rg, entry, out, i)).exit];
      SweepKeeps(rg, name, entry, out', i + 1);
      assert out'[i] == out[i] && out' == out;
      FixpointSolves(rg, name, entry, out, i + 1);
    }
  }

  /** In any listing: when no path has more than `k` blocks, `k` rounds from any start end in the one solution. */
  lemma ShortPathsSettle(rg: Region, name: Name, entry: bool, out: seq<bool>, k: nat)
    requires |out| == |rg.blocks| && PathsBelow(rg, k + 1)
    ensures var settled := Rounds(rg, name, entry, out, k);
            Solves(rg, name, entry, settled) && forall other :: Solves(rg, name, entry, other) ==> other == settled
  {
    RoundsAreSweeps(rg, name, entry, out, k);
    var settled, swept := Sweeps(rg, name, entry, out, k), Sweep(rg, name, entry, out, 0);
    SweepsAgree(rg, name, entry, out, swept, 0, k);
    SweepsAhead(rg, name, entry, out, k);
    assert Sweep(rg, name, entry, settled, 0) == settled;
    FixpointSolves(rg, name, entry, settled, 0);
    forall other | Solves(rg, name, entry, other) ensures other == settled {
      SolutionIsFixpoint(rg, name, entry, other, 0);
      SweepsAtFixpoint(rg, name, entry, other, k);
      SweepsAgree(rg, name, entry, out, other, 0, k);
    }
  }

  // ---------------------------------------------------------------- eight rounds

  ghost predicate EdgesInside(rg: Region) {
    forall e :: e in rg.edges ==> e.src < |rg.blocks| && e.dst < |rg.blocks|
  }

  /** One block more does not matter to acceptance, which reads what the last block is entered with only. */
  lemma SameJudgement(rg: Region, name: Name, entry: bool, a: seq<bool>, b: seq<bool>, k: nat)
    requires EdgesInside(rg) && PathsBelow(rg, k + 2) && AgreeBelow(rg, a, b, k)
    ensures Judge(rg, name, entry, a).ok == Judge(rg, name, entry, b).ok
  {
    forall e | e in rg.edges ensures a[e.src] == b[e.src] {
      var via: nat :| via < |rg.edges| && rg.edges[via] == e;
      assert !PathTo(rg, e.dst, k + 2) && EdgeTo(rg, e.dst, via);
    }
    forall i: nat | i < |a| ensures EntryOf(rg, entry, a, i) == EntryOf(rg, entry, b, i) {
      EntryAgrees(rg, entry, a, b, k, i);
    }
    SameBlocksOk(rg, name, entry, a, b, 0);
  }

  lemma {:induction false} SameBlocksOk(rg: Region, name: Name, entry: bool, a: seq<bool>, b: seq<bool>, i: nat)
    requires |a| == |b| == |rg.blocks| && i <= |a|
    requires forall j: nat :: j < |a| ==> EntryOf(rg, entry, a, j) == EntryOf(rg, entry, b, j)
    ensures BlocksOk(rg, name, entry, a, i) == BlocksOk(rg, name, entry, b, i)
    decreases |a| - i
  {
    if i < |a| {
      SameBlocksOk(rg, name, entry, a, b, i + 1);
    }
  }

  /** In any listing, a region without a path of ten blocks is accepted exactly when the solution of its equations says
      so; without one of nine blocks the verdict on its exit is that of the solution, too. */
  lemma EightRounds(rg: Region, name: Name, entry: bool, solution: seq<bool>)
    requires rg.blocks != [] && EdgesInside(rg) && PathsBelow(rg, ROUNDS + 2) && Solves(rg, name, entry, solution)
    ensures Scan(rg, name, entry).ok == Judge(rg, name, entry, solution).ok
    ensures PathsBelow(rg, ROUNDS + 1) ==> Scan(rg, name, entry) == Judge(rg, name, entry, solution)
  {
    var top := AllTrue(|rg.blocks|);
    RoundsAreSweeps(rg, name, entry, top, ROUNDS);
    SolutionIsFixpoint(rg, name, entry, solution, 0);
    SweepsAtFixpoint(rg, name, entry, solution, ROUNDS);
    SweepsAgree(rg, name, entry, top, solution, 0, ROUNDS);
    SameJudgement(rg, name, entry, Rounds(rg, name, entry, top, ROUNDS), solution, ROUNDS);
    if PathsBelow(rg, ROUNDS + 1) {
      ShortPathsSettle(rg, name, entry, top, ROUNDS);
    }
  }

  // ---------------------------------------------------------------- ten blocks, listed backwards

  /** A path of `n` blocks listed from its end, where the scalar is read; nothing writes it. */
  ghost function Backwards(n: nat, s: Name): Region
    requires n >= 1
  {
    Region(0, seq(n, i requires 0 <= i => if i == 0 then Reader(s) else Jump(i)),
           seq(n - 1, i requires 0 <= i => Edge(i + 1, i, [])), n - 1)
  }

  ghost function Reader(s: Name): Block {
    State(1, [Stmt([Node(0, s)], Node(1, "t"), 0)])
  }

  lemma ReaderVerdict(s: Name, entry: bool)
    requires s != "t"
    ensures BlockExit(Reader(s), s, entry) == Verdict(entry, entry)
  {
    var copy := Stmt([Node(0, s)], Node(1, "t"), 0);
    assert copy in Reader(s).stmts && Node(0, s) in copy.inputs;
  }

  lemma BackwardsEntry(n: nat, s: Name, out: seq<bool>, i: nat)
    requires n >= 1 && |out| == n && i < n
    ensures EntryOf(Backwards(n, s), false, out, i) == (i + 1 < n && out[i + 1])
  {
    var rg := Backwards(n, s);
    if i + 1 < n {
      assert rg.edges[i] == Edge(i + 1, i, []) && rg.edges[i] in rg.edges;
    }
  }

  /** The first `m` still count as defined. */
  ghost function Left(n: nat, m: int): seq<bool> {
    seq(n, j => j < m)
  }

  lemma {:induction false} BackwardsSweep(n: nat, s: Name, m: int, out: seq<bool>, i: nat)
    requires s != "t" && n >= 1 && m <= n && i <= n == |out|
    requires forall j :: 0 <= j < n ==> out[j] == (j < if j < i then m - 1 else m)
    ensures Sweep(Backwards(n, s), s, false, out, i) == Left(n, m - 1)
    decreases n - i
  {
    if i < n {
      BackwardsEntry(n, s, out, i);
      ReaderVerdict(s, i + 1 < n && out[i + 1]);
      BackwardsSweep(n, s, m, out[i := i < m - 1], i + 1);
    }
  }

  lemma {:induction false} BackwardsSweeps(n: nat, s: Name, m: int, k: nat)
    requires s != "t" && n >= 1 && m <= n
    ensures Sweeps(Backwards(n, s), s, false, Left(n, m), k) == Left(n, m - k)
    decreases k
  {
    if k > 0 {
      BackwardsSweep(n, s, m, Left(n, m), 0);
      BackwardsSweeps(n, s, m - 1, k - 1);
    }
  }

  lemma {:induction false} BackwardsOk(n: nat, s: Name, out: seq<bool>, i: nat)
    requires s != "t" && n >= 1 && |out| == n && i <= n
    ensures BlocksOk(Backwards(n, s), s, false, out, i) <==> i > 0 || (n > 1 && out[1])
    decreases n - i
  {
    if i < n {
      BackwardsEntry(n, s, out, i);
      ReaderVerdict(s, i + 1 < n && out[i + 1]);
      BackwardsOk(n, s, out, i + 1);
    }
  }

  /** The analysis accepts the path exactly when it has at least ten blocks. */
  lemma LongPathAccepted(n: nat, s: Name)
    requires s != "t" && n >= 1
    ensures Scan(Backwards(n, s), s, false).ok <==> n >= ROUNDS + 2
  {
    var rg, top := Backwards(n, s), AllTrue(n);
    RoundsAreSweeps(rg, s, false, top, ROUNDS);
    assert top == Left(n, n);
    BackwardsSweeps(n, s, n, ROUNDS);
    BackwardsOk(n, s, Left(n, n - ROUNDS), 0);
  }

  ghost function AllAlong(i: nat): RegionRun {
    if i == 0 then Last(0, Plain) else Then(i, Plain, i - 1, AllAlong(i - 1))
  }

  lemma {:induction false} BackwardsTrace(n: nat, s: Name, i: nat)
    requires n >= 1 && i < n
    ensures var rg, r := Backwards(n, s), AllAlong(i);
            !r.Empty? && r.block == i && ValidPath(rg, r) && PathTrace(rg, r) == [Do([s], "t", 0)]
    decreases i
  {
    var rg := Backwards(n, s);
    if i == 0 {
      assert Names([Node(0, s)]) == [s];
      assert StmtEvents(Reader(s).stmts) == [Do([s], "t", 0)];
      assert Sink(rg, 0);
    } else {
      BackwardsTrace(n, s, i - 1);
      assert ValidVia(rg, i, i - 1, i - 1);
    }
  }

  /** Whatever its length, every read on it is of a value nothing has written. */
  lemma LongPathNotCovered(n: nat, s: Name)
    requires n >= 1
    ensures !CoveredInRuns(Backwards(n, s), s)
  {
    var rg, r := Backwards(n, s), AllAlong(n - 1);
    BackwardsTrace(n, s, n - 1);
    assert ValidRegion(rg, r) && RegionTrace(rg, r)[0] == Do([s], "t", 0);
    assert s in RegionTrace(rg, r)[0].uses && !Defined(RegionTrace(rg, r)[..0], s, false);
  }
}
