/** The must-be-defined analysis of one scalar: is every read of it reached by a write on every path from the region's
    entry?  Here the analysis itself and its fixpoints; its table is in `MustDefinedMemo`. */
module MustDefined {
  import opened ControlFlow

  /** `ok`: no read without a definition; `exit`: defined where the block ends. */
  datatype Verdict = Verdict(ok: bool, exit: bool)

  const ROUNDS: nat := 8

  // ---------------------------------------------------------------- one state

  /** Something in the state writes the access node. */
  predicate HasInEdge(stmts: seq<Stmt>, n: Node) {
    exists s :: s in stmts && s.output == n
  }

  /** `_state_access`, first component: a node that is read and that nothing in the state writes. */
  predicate UncoveredRead(stmts: seq<Stmt>, name: Name) {
    exists s :: s in stmts && exists n :: n in s.inputs && n.data == name && !HasInEdge(stmts, n)
  }

  /** `_state_access`, second component. */
  predicate StateWrites(stmts: seq<Stmt>, name: Name) {
    exists s :: s in stmts && s.output.data == name
  }

  predicate ActsRead(acts: seq<Event>, name: Name) {
    exists e :: e in acts && name in e.uses
  }

  /** `_mentions`, for a loop. */
  predicate HeaderNames(h: Header, name: Name) {
    || name in h.cond.uses
    || (exists e :: e in h.init && (name in e.uses || Writes(e, name)))
    || (exists e :: e in h.update && (name in e.uses || Writes(e, name)))
  }

  // ---------------------------------------------------------------- blocks and regions

  function BlockExit(b: Block, name: Name, entry: bool): Verdict
    decreases b, 2
  {
    match b
    case State(_, stmts) => Verdict(!UncoveredRead(stmts, name) || entry, entry || StateWrites(stmts, name))
    case Cond(_, branches) =>
      var all := Branches(b, name, entry, 0);
      Verdict(all.ok, if HasElse(branches) then all.exit else entry && all.exit)
    case Loop(h, body) =>
      if HeaderNames(h, name) then Verdict(false, entry)
      else LoopRounds(body, name, entry, entry, Verdict(true, entry), ROUNDS)
    case Jump(_) => Verdict(true, entry)
  }

  predicate HasElse(branches: seq<Branch>) {
    exists br :: br in branches && br.cond.None?
  }

  /** Conjunction over the branches from `i` on. */
  function Branches(b: Block, name: Name, entry: bool, i: nat): Verdict
    requires b.Cond? && i <= |b.branches|
    decreases b, 1, |b.branches| - i
  {
    if i == |b.branches| then Verdict(true, true)
    else
      var first, rest := Scan(b.branches[i].body, name, entry), Branches(b, name, entry, i + 1);
      Verdict(first.ok && rest.ok, first.exit && rest.exit)
  }

  /** The loop case: `last` is what the rounds so far left. */
  function LoopRounds(body: Region, name: Name, entry: bool, seen: bool, last: Verdict, k: nat): Verdict
    decreases body, 4, k
  {
    if k == 0 then last
    else
      var v := Scan(body, name, seen);
      var next := entry || v.exit;
      if next == seen then Verdict(v.ok, next)
      else LoopRounds(body, name, entry, next, Verdict(v.ok, next), k - 1)
  }

  function Scan(rg: Region, name: Name, entry: bool): Verdict
    decreases rg, 3
  {
    if rg.blocks == [] then Verdict(true, entry)
    else
      var out := Rounds(rg, name, entry, AllTrue(|rg.blocks|), ROUNDS);
      Judge(rg, name, entry, out)
  }

  /** The optimistic start. */
  function AllTrue(n: nat): seq<bool> {
    seq(n, i => true)
  }

  /** Rounds of sweeps, until one changes nothing or the rounds are used up. */
  function Rounds(rg: Region, name: Name, entry: bool, out: seq<bool>, k: nat): (r: seq<bool>)
    requires |out| == |rg.blocks|
    ensures |r| == |out|
    decreases rg, 2, k
  {
    if k == 0 then out
    else
      var swept := Sweep(rg, name, entry, out, 0);
      if swept == out then out else Rounds(rg, name, entry, swept, k - 1)
  }

  /** One sweep over the blocks from `i` on, each seeing what the ones before it left. */
  function Sweep(rg: Region, name: Name, entry: bool, out: seq<bool>, i: nat): (r: seq<bool>)
    requires |out| == |rg.blocks| && i <= |out|
    ensures |r| == |out|
    decreases rg, 1, |out| - i
  {
    if i == |out| then out
    else Sweep(rg, name, entry, out[i := BlockExit(rg.blocks[i], name, EntryOf(rg, entry, out, i)).exit], i + 1)
  }

  /** Defined on entry: what every predecessor leaves, or the region's entry for a block without one. */
  predicate EntryOf(rg: Region, entry: bool, out: seq<bool>, b: nat)
    requires |out| == |rg.blocks|
  {
    if exists e :: e in rg.edges && e.dst == b then
      forall e :: e in rg.edges && e.dst == b && e.src < |out| ==> out[e.src]
    else entry
  }

  /** The verdict on the region once `out` is settled. */
  function Judge(rg: Region, name: Name, entry: bool, out: seq<bool>): Verdict
    requires |out| == |rg.blocks|
    decreases rg, 1, 0
  {
    Verdict(BlocksOk(rg, name, entry, out, 0) && EdgesOk(rg, name, out), ExitOf(rg, entry, out))
  }

  /** An interstate edge that reads the scalar needs it defined where the edge leaves. */
  predicate EdgesOk(rg: Region, name: Name, out: seq<bool>)
    requires |out| == |rg.blocks|
  {
    forall e :: e in rg.edges && ActsRead(e.acts, name) && e.src < |out| ==> out[e.src]
  }

  predicate ExitOf(rg: Region, entry: bool, out: seq<bool>)
    requires |out| == |rg.blocks|
  {
    if exists i :: 0 <= i < |out| && IsSink(rg, i) then forall i :: 0 <= i < |out| && IsSink(rg, i) ==> out[i]
    else entry
  }

  predicate IsSink(rg: Region, b: nat) {
    forall e :: e in rg.edges ==> e.src != b
  }

  predicate BlocksOk(rg: Region, name: Name, entry: bool, out: seq<bool>, i: nat)
    requires |out| == |rg.blocks| && i <= |out|
    decreases rg, 0, |out| - i
  {
    i < |out| ==>
      BlockExit(rg.blocks[i], name, EntryOf(rg, entry, out, i)).ok && BlocksOk(rg, name, entry, out, i + 1)
  }

  // ---------------------------------------------------------------- monotone in the entry value

  ghost predicate Le(a: Verdict, b: Verdict) {
    (a.ok ==> b.ok) && (a.exit ==> b.exit)
  }

  ghost predicate LeAll(a: seq<bool>, b: seq<bool>) {
    |a| == |b| && forall i :: 0 <= i < |a| ==> a[i] ==> b[i]
  }

  /** A true entry can only help: the verdicts grow. */
  lemma {:induction false} BlockMono(b: Block, name: Name, e1: bool, e2: bool)
    requires e1 ==> e2
    ensures Le(BlockExit(b, name, e1), BlockExit(b, name, e2))
    decreases b, 2
  {
    match b
    case Cond(_, branches) => BranchesMono(b, name, e1, e2, 0);
    case Loop(h, body) =>
      LoopClosedForm(body, name, e1, Verdict(true, e1), ROUNDS);
      LoopClosedForm(body, name, e2, Verdict(true, e2), ROUNDS);
      ScanMono(body, name, false, true);
    case _ =>
  }

  lemma {:induction false} BranchesMono(b: Block, name: Name, e1: bool, e2: bool, i: nat)
    requires b.Cond? && i <= |b.branches| && (e1 ==> e2)
    ensures Le(Branches(b, name, e1, i), Branches(b, name, e2, i))
    decreases b, 1, |b.branches| - i
  {
    if i < |b.branches| {
      ScanMono(b.branches[i].body, name, e1, e2);
      BranchesMono(b, name, e1, e2, i + 1);
    }
  }

  lemma {:induction false} ScanMono(rg: Region, name: Name, e1: bool, e2: bool)
    requires e1 ==> e2
    ensures Le(Scan(rg, name, e1), Scan(rg, name, e2))
    decreases rg, 3
  {
    if rg.blocks != [] {
      var top := AllTrue(|rg.blocks|);
      RoundsMono(rg, name, e1, e2, top, top, ROUNDS);
      var out1, out2 := Rounds(rg, name, e1, top, ROUNDS), Rounds(rg, name, e2, top, ROUNDS);
      JudgeMono(rg, name, e1, e2, out1, out2);
    }
  }

  lemma JudgeMono(rg: Region, name: Name, e1: bool, e2: bool, out1: seq<bool>, out2: seq<bool>)
    requires |out1| == |rg.blocks| && LeAll(out1, out2) && (e1 ==> e2)
    ensures Le(Judge(rg, name, e1, out1), Judge(rg, name, e2, out2))
    decreases rg, 1
  {
    BlocksOkMono(rg, name, e1, e2, out1, out2, 0);
  }

  lemma {:induction false} BlocksOkMono(rg: Region, name: Name, e1: bool, e2: bool, out1: seq<bool>, out2: seq<bool>,
                                        i: nat)
    requires |out1| == |rg.blocks| && LeAll(out1, out2) && i <= |out1| && (e1 ==> e2)
    ensures BlocksOk(rg, name, e1, out1, i) ==> BlocksOk(rg, name, e2, out2, i)
    decreases rg, 0, |out1| - i
  {
    if i < |out1| {
      BlockMono(rg.blocks[i], name, EntryOf(rg, e1, out1, i), EntryOf(rg, e2, out2, i));
      BlocksOkMono(rg, name, e1, e2, out1, out2, i + 1);
    }
  }

  lemma {:induction false} SweepMono(rg: Region, name: Name, e1: bool, e2: bool, out1: seq<bool>, out2: seq<bool>,
                                     i: nat)
    requires |out1| == |rg.blocks| && LeAll(out1, out2) && i <= |out1| && (e1 ==> e2)
    ensures LeAll(Sweep(rg, name, e1, out1, i), Sweep(rg, name, e2, out2, i))
    decreases rg, 0, |out1| - i
  {
    if i < |out1| {
      var n1, n2 := EntryOf(rg, e1, out1, i), EntryOf(rg, e2, out2, i);
      BlockMono(rg.blocks[i], name, n1, n2);
      SweepMono(rg, name, e1, e2, out1[i := BlockExit(rg.blocks[i], name, n1).exit],
                out2[i := BlockExit(rg.blocks[i], name, n2).exit], i + 1);
    }
  }

  /** Stopping at the first sweep that changes nothing is the same as sweeping on. */
  ghost function Sweeps(rg: Region, name: Name, entry: bool, out: seq<bool>, k: nat): (r: seq<bool>)
    requires |out| == |rg.blocks|
    ensures |r| == |out|
    decreases k
  {
    if k == 0 then out else Sweeps(rg, name, entry, Sweep(rg, name, entry, out, 0), k - 1)
  }

  lemma {:induction false} SweepsAtFixpoint(rg: Region, name: Name, entry: bool, out: seq<bool>, k: nat)
    requires |out| == |rg.blocks| && Sweep(rg, name, entry, out, 0) == out
    ensures Sweeps(rg, name, entry, out, k) == out
  {
    if k > 0 {
      SweepsAtFixpoint(rg, name, entry, out, k - 1);
    }
  }

  lemma {:induction false} RoundsAreSweeps(rg: Region, name: Name, entry: bool, out: seq<bool>, k: nat)
    requires |out| == |rg.blocks|
    ensures Rounds(rg, name, entry, out, k) == Sweeps(rg, name, entry, out, k)
    decreases k
  {
    if k > 0 {
      var swept := Sweep(rg, name, entry, out, 0);
      if swept == out {
        SweepsAtFixpoint(rg, name, entry, out, k);
      } else {
        RoundsAreSweeps(rg, name, entry, swept, k - 1);
      }
    }
  }

  lemma {:induction false} SweepsMono(rg: Region, name: Name, e1: bool, e2: bool, out1: seq<bool>, out2: seq<bool>,
                                      k: nat)
    requires |out1| == |rg.blocks| && LeAll(out1, out2) && (e1 ==> e2)
    ensures LeAll(Sweeps(rg, name, e1, out1, k), Sweeps(rg, name, e2, out2, k))
    decreases rg, 1, k
  {
    if k > 0 {
      SweepMono(rg, name, e1, e2, out1, out2, 0);
      SweepsMono(rg, name, e1, e2, Sweep(rg, name, e1, out1, 0), Sweep(rg, name, e2, out2, 0), k - 1);
    }
  }

  lemma RoundsMono(rg: Region, name: Name, e1: bool, e2: bool, out1: seq<bool>, out2: seq<bool>, k: nat)
    requires |out1| == |rg.blocks| && LeAll(out1, out2) && (e1 ==> e2)
    ensures LeAll(Rounds(rg, name, e1, out1, k), Rounds(rg, name, e2, out2, k))
    decreases rg, 2
  {
    RoundsAreSweeps(rg, name, e1, out1, k);
    RoundsAreSweeps(rg, name, e2, out2, k);
    SweepsMono(rg, name, e1, e2, out1, out2, k);
  }

  // ---------------------------------------------------------------- defined on entry, defined on exit

  /** Nothing undefines the scalar. */
  lemma {:induction false} TrueStays(b: Block, name: Name)
    ensures BlockExit(b, name, true).exit
    decreases b, 2
  {
    match b
    case Cond(_, branches) => BranchesTrue(b, name, 0);
    case Loop(h, body) => LoopClosedForm(body, name, true, Verdict(true, true), ROUNDS);
    case _ =>
  }

  lemma {:induction false} BranchesTrue(b: Block, name: Name, i: nat)
    requires b.Cond? && i <= |b.branches|
    ensures Branches(b, name, true, i).exit
    decreases b, 1, |b.branches| - i
  {
    if i < |b.branches| {
      ScanTrue(b.branches[i].body, name);
      BranchesTrue(b, name, i + 1);
    }
  }

  lemma {:induction false} ScanTrue(rg: Region, name: Name)
    ensures Scan(rg, name, true).exit
    decreases rg, 3
  {
    if rg.blocks != [] {
      SweepTrue(rg, name, AllTrue(|rg.blocks|), 0);
    }
  }

  lemma {:induction false} SweepTrue(rg: Region, name: Name, out: seq<bool>, i: nat)
    requires |out| == |rg.blocks| && i <= |out| && forall j :: 0 <= j < |out| ==> out[j]
    ensures Sweep(rg, name, true, out, i) == out
    decreases rg, 0, |out| - i
  {
    if i < |out| {
      TrueStays(rg.blocks[i], name);
      assert EntryOf(rg, true, out, i);
      assert out[i := true] == out;
      SweepTrue(rg, name, out, i + 1);
    }
  }

  // ---------------------------------------------------------------- the loop settles in two rounds

  /** What the rounds of the loop case come to. */
  ghost function LoopVerdict(body: Region, name: Name, entry: bool): Verdict {
    if entry || Scan(body, name, false).exit then Verdict(Scan(body, name, true).ok, true)
    else Verdict(Scan(body, name, false).ok, false)
  }

  /** Two rounds decide the loop whatever its body: the cap on the rounds never does. */
  lemma LoopClosedForm(body: Region, name: Name, entry: bool, last: Verdict, k: nat)
    requires k >= 2
    ensures LoopRounds(body, name, entry, entry, last, k) == LoopVerdict(body, name, entry)
    decreases body, 4
  {
    ScanTrue(body, name);
  }

  // ---------------------------------------------------------------- topological order settles in two sweeps

  /** Every edge leads to a block later in the list. */
  ghost predicate Topological(rg: Region) {
    forall e :: e in rg.edges ==> e.src < e.dst < |rg.blocks|
  }

  /** `out` is a solution of the region's equations. */
  ghost predicate Solves(rg: Region, name: Name, entry: bool, out: seq<bool>) {
    |out| == |rg.blocks| && SolvesBelow(rg, name, entry, out, |out|)
  }

  ghost predicate SolvesBelow(rg: Region, name: Name, entry: bool, out: seq<bool>, n: nat)
    requires |out| == |rg.blocks| && n <= |out|
  {
    forall i :: 0 <= i < n ==> SolvedAt(rg, name, entry, out, i)
  }

  ghost predicate SolvedAt(rg: Region, name: Name, entry: bool, out: seq<bool>, i: nat)
    requires |out| == |rg.blocks| && i < |out|
  {
    out[i] == BlockExit(rg.blocks[i], name, EntryOf(rg, entry, out, i)).exit
  }

  lemma {:induction false} SweepSolves(rg: Region, name: Name, entry: bool, out: seq<bool>, i: nat)
    requires Topological(rg) && |out| == |rg.blocks| && i <= |out|
    requires SolvesBelow(rg, name, entry, out, i)
    ensures Solves(rg, name, entry, Sweep(rg, name, entry, out, i))
    decreases |out| - i
  {
    if i < |out| {
      var out' := out[i := BlockExit(rg.blocks[i], name, EntryOf(rg, entry, out, i)).exit];
      forall j | 0 <= j <= i ensures SolvedAt(rg, name, entry, out', j) {
        assert j < i ==> SolvedAt(rg, name, entry, out, j);
      }
      SweepSolves(rg, name, entry, out', i + 1);
    }
  }

  lemma {:induction false} SolutionIsFixpoint(rg: Region, name: Name, entry: bool, out: seq<bool>, i: nat)
    requires |out| == |rg.blocks| && i <= |out| && Solves(rg, name, entry, out)
    ensures Sweep(rg, name, entry, out, i) == out
    decreases |out| - i
  {
    if i < |out| {
      assert SolvedAt(rg, name, entry, out, i);
      assert out[i := out[i]] == out;
      SolutionIsFixpoint(rg, name, entry, out, i + 1);
    }
  }

  /** In a region listed in topological order the first sweep solves the equations and the second finds nothing to
      change, so any cap of at least one round gives the same, and the solution is the only one. */
  lemma TopologicalSettles(rg: Region, name: Name, entry: bool, out: seq<bool>, k: nat)
    requires Topological(rg) && |out| == |rg.blocks| && k >= 1
    ensures var settled := Sweep(rg, name, entry, out, 0);
            Sweep(rg, name, entry, settled, 0) == settled && Rounds(rg, name, entry, out, k) == settled &&
            Solves(rg, name, entry, settled)
  {
    var settled := Sweep(rg, name, entry, out, 0);
    SweepSolves(rg, name, entry, out, 0);
    SolutionIsFixpoint(rg, name, entry, settled, 0);
  }

  lemma {:induction false} SolutionUnique(rg: Region, name: Name, entry: bool, out: seq<bool>, out': seq<bool>, n: nat)
    requires Topological(rg) && Solves(rg, name, entry, out) && Solves(rg, name, entry, out') && n <= |out|
    ensures out[..n] == out'[..n]
  {
    if n > 0 {
      SolutionUnique(rg, name, entry, out, out', n - 1);
      forall j | 0 <= j < n - 1 ensures out[j] == out'[j] {
        assert out[..n - 1][j] == out'[..n - 1][j];
      }
      assert SolvedAt(rg, name, entry, out, n - 1) && SolvedAt(rg, name, entry, out', n - 1);
    }
  }
}
