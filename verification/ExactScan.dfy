/** Which bodies really write a scalar before they read it: a scan like the analysis of `MustDefined`, but with the
    tests of branches, with loops that may run no iteration, with the entry of the start block, and with as many rounds
    as it takes.  It is exact: it says no only when some run reads too early. */
module ExactScan {
  import opened ControlFlow
  import opened MustDefined
  import opened Renaming

  // ---------------------------------------------------------------- the scan

  function EventsVerdict(t: seq<Event>, name: Name, entry: bool): Verdict
    decreases |t|
  {
    if t == [] then Verdict(true, entry)
    else
      var rest := EventsVerdict(t[1..], name, entry || Writes(t[0], name));
      Verdict((name in t[0].uses ==> entry) && rest.ok, rest.exit)
  }

  predicate TestsRead(branches: seq<Branch>, name: Name) {
    exists i :: 0 <= i < |branches| && branches[i].cond.Some? && name in branches[i].cond.value.uses
  }

  function SafeBlock(b: Block, name: Name, entry: bool): Verdict
    decreases b, 1
  {
    match b
    case State(_, stmts) => EventsVerdict(StmtEvents(stmts), name, entry)
    case Cond(_, branches) =>
      Verdict((TestsRead(branches, name) ==> entry) &&
              forall i :: 0 <= i < |branches| ==> SafeScan(branches[i].body, name, entry).ok,
              (HasElse(branches) || entry) &&
              forall i :: 0 <= i < |branches| ==> SafeScan(branches[i].body, name, entry).exit)
    case Loop(h, body) =>
      var init := EventsVerdict(h.init, name, entry);
      var inner := SafeScan(body, name, init.exit);
      var update := EventsVerdict(h.update, name, inner.exit);
      Verdict(init.ok && (name in h.cond.uses ==> init.exit) && inner.ok && update.ok, init.exit)
    case Jump(_) => Verdict(true, entry)
  }

  function SafeScan(rg: Region, name: Name, entry: bool): Verdict
    decreases rg, 4
  {
    if rg.blocks == [] then Verdict(true, entry)
    else
      var out := SafeRounds(rg, name, entry, AllTrue(|rg.blocks|), |rg.blocks|);
      Verdict(SafeBlocks(rg, name, entry, out) && EdgesOk(rg, name, out), ExitOf(rg, entry, out))
  }

  function SafeRounds(rg: Region, name: Name, entry: bool, out: seq<bool>, k: nat): (r: seq<bool>)
    requires |out| == |rg.blocks|
    ensures |r| == |out|
    decreases rg, 3, k
  {
    if k == 0 then out
    else
      var swept := SafeSweep(rg, name, entry, out, 0);
      if swept == out then out else SafeRounds(rg, name, entry, swept, k - 1)
  }

  function SafeSweep(rg: Region, name: Name, entry: bool, out: seq<bool>, i: nat): (r: seq<bool>)
    requires |out| == |rg.blocks| && i <= |out|
    ensures |r| == |out|
    decreases rg, 2, |out| - i
  {
    if i == |out| then out
    else SafeSweep(rg, name, entry, out[i := SafeBlock(rg.blocks[i], name, SafeEntry(rg, entry, out, i)).exit], i + 1)
  }

  /** The start block is entered from outside, too. */
  predicate SafeEntry(rg: Region, entry: bool, out: seq<bool>, b: nat)
    requires |out| == |rg.blocks|
  {
    (b == rg.start ==> entry) && forall e :: e in rg.edges && e.dst == b && e.src < |out| ==> out[e.src]
  }

  predicate SafeBlocks(rg: Region, name: Name, entry: bool, out: seq<bool>)
    requires |out| == |rg.blocks|
    decreases rg, 2
  {
    forall i :: 0 <= i < |out| ==> SafeBlock(rg.blocks[i], name, SafeEntry(rg, entry, out, i)).ok
  }

  // ---------------------------------------------------------------- entered defined, nothing is undefined

  lemma EventsTrue(t: seq<Event>, name: Name)
    ensures EventsVerdict(t, name, true) == Verdict(true, true)
  {
    EventsExact(t, name, true);
  }

  lemma {:induction false} SafeTrue(b: Block, name: Name)
    ensures SafeBlock(b, name, true) == Verdict(true, true)
    decreases b, 1
  {
    match b
    case State(_, stmts) => EventsTrue(StmtEvents(stmts), name);
    case Cond(_, branches) =>
      forall i | 0 <= i < |branches| ensures SafeScan(branches[i].body, name, true) == Verdict(true, true) {
        SafeScanTrue(branches[i].body, name);
      }
    case Loop(h, body) =>
      EventsTrue(h.init, name);
      EventsTrue(h.update, name);
      SafeScanTrue(body, name);
    case Jump(_) =>
  }

  lemma {:induction false} SafeScanTrue(rg: Region, name: Name)
    ensures SafeScan(rg, name, true) == Verdict(true, true)
    decreases rg, 3
  {
    if rg.blocks != [] {
      var out := AllTrue(|rg.blocks|);
      SafeSweepTrue(rg, name, out, 0);
      forall i | 0 <= i < |out| ensures SafeBlock(rg.blocks[i], name, SafeEntry(rg, true, out, i)).ok {
        SafeTrue(rg.blocks[i], name);
      }
    }
  }

  lemma {:induction false} SafeSweepTrue(rg: Region, name: Name, out: seq<bool>, i: nat)
    requires |out| == |rg.blocks| && i <= |out| && forall j :: 0 <= j < |out| ==> out[j]
    ensures SafeSweep(rg, name, true, out, i) == out
    decreases rg, 2, |out| - i
  {
    if i < |out| {
      SafeTrue(rg.blocks[i], name);
      assert SafeEntry(rg, true, out, i) && out[i := true] == out;
      SafeSweepTrue(rg, name, out, i + 1);
    }
  }

  // ---------------------------------------------------------------- the rounds solve the equations

  ghost predicate SafeAt(rg: Region, name: Name, entry: bool, out: seq<bool>, i: nat)
    requires |out| == |rg.blocks| && i < |out|
  {
    out[i] == SafeBlock(rg.blocks[i], name, SafeEntry(rg, entry, out, i)).exit
  }

  ghost predicate SafeSolved(rg: Region, name: Name, entry: bool, out: seq<bool>) {
    |out| == |rg.blocks| && forall i :: 0 <= i < |out| ==> SafeAt(rg, name, entry, out, i)
  }

  /** The equations give no block more than it has. */
  ghost predicate SafeAbove(rg: Region, name: Name, entry: bool, out: seq<bool>) {
    |out| == |rg.blocks| && forall i :: 0 <= i < |out| ==> Bounds(rg, name, entry, out, i)
  }

  ghost predicate Bounds(rg: Region, name: Name, entry: bool, out: seq<bool>, i: nat)
    requires |out| == |rg.blocks| && i < |out|
  {
    SafeBlock(rg.blocks[i], name, SafeEntry(rg, entry, out, i)).exit ==> out[i]
  }

  ghost function Trues(out: seq<bool>): nat {
    if out == [] then 0 else Trues(out[..|out| - 1]) + if out[|out| - 1] then 1 else 0
  }

  lemma {:induction false} FewerTrues(a: seq<bool>, b: seq<bool>)
    requires LeAll(a, b)
    ensures Trues(a) <= Trues(b) <= |b| && (a != b ==> Trues(a) < Trues(b))
    decreases |a|
  {
    if a != [] {
      var n := |a| - 1;
      FewerTrues(a[..n], b[..n]);
      assert a == a[..n] + [a[n]] && b == b[..n] + [b[n]];
    }
  }

  /** A block that gets less leaves less. */
  lemma {:induction false} LessBounds(rg: Region, name: Name, entry: bool, out: seq<bool>, i: nat)
    requires SafeAbove(rg, name, entry, out) && i < |out|
    ensures var out' := out[i := SafeBlock(rg.blocks[i], name, SafeEntry(rg, entry, out, i)).exit];
            SafeAbove(rg, name, entry, out') && LeAll(out', out)
  {
    var out' := out[i := SafeBlock(rg.blocks[i], name, SafeEntry(rg, entry, out, i)).exit];
    assert Bounds(rg, name, entry, out, i);
    forall j | 0 <= j < |out| ensures Bounds(rg, name, entry, out', j) {
      assert Bounds(rg, name, entry, out, j);
      SafeTrue(rg.blocks[j], name);
      assert SafeEntry(rg, entry, out', j) ==> SafeEntry(rg, entry, out, j);
    }
  }

  lemma {:induction false} SweepShrinks(rg: Region, name: Name, entry: bool, out: seq<bool>, i: nat)
    requires SafeAbove(rg, name, entry, out) && i <= |out|
    ensures var swept := SafeSweep(rg, name, entry, out, i);
            && SafeAbove(rg, name, entry, swept) && LeAll(swept, out)
            && (forall j :: 0 <= j < i ==> swept[j] == out[j])
            && (swept == out ==> forall j :: i <= j < |out| ==> SafeAt(rg, name, entry, out, j))
    decreases |out| - i
  {
    if i < |out| {
      var out' := out[i := SafeBlock(rg.blocks[i], name, SafeEntry(rg, entry, out, i)).exit];
      LessBounds(rg, name, entry, out, i);
      SweepShrinks(rg, name, entry, out', i + 1);
      if SafeSweep(rg, name, entry, out, i) == out {
        assert out'[i] == out[i] && out' == out;
      }
    }
  }

  lemma {:induction false} RoundsSolve(rg: Region, name: Name, entry: bool, out: seq<bool>, k: nat)
    requires SafeAbove(rg, name, entry, out) && Trues(out) <= k
    ensures SafeSolved(rg, name, entry, SafeRounds(rg, name, entry, out, k))
    decreases k
  {
    var swept := SafeSweep(rg, name, entry, out, 0);
    SweepShrinks(rg, name, entry, out, 0);
    FewerTrues(swept, out);
    if k > 0 && swept != out {
      RoundsSolve(rg, name, entry, swept, k - 1);
    }
  }

  lemma ScanSolves(rg: Region, name: Name, entry: bool)
    ensures SafeSolved(rg, name, entry, SafeRounds(rg, name, entry, AllTrue(|rg.blocks|), |rg.blocks|))
  {
    var out := AllTrue(|rg.blocks|);
    FewerTrues(out, out);
    assert forall i :: 0 <= i < |out| ==> Bounds(rg, name, entry, out, i);
    RoundsSolve(rg, name, entry, out, |out|);
  }

  // ---------------------------------------------------------------- the regions covered

  /** Interstate edges set symbols, not the scalar. */
  ghost predicate Shaped(b: Block, name: Name)
    decreases b
  {
    match b
    case Cond(_, branches) => forall i :: 0 <= i < |branches| ==> RegionShaped(branches[i].body, name)
    case Loop(_, body) => RegionShaped(body, name)
    case _ => true
  }

  ghost predicate RegionShaped(rg: Region, name: Name)
    decreases rg
  {
    && (forall i :: 0 <= i < |rg.blocks| ==> Shaped(rg.blocks[i], name))
    && (forall i :: 0 <= i < |rg.edges| ==> SetsSymbols(rg.edges[i].acts, name))
  }

  /** A region starts at one of its blocks, its edges join its blocks, and each block has a way out of the region. */
  ghost predicate Live(b: Block)
    decreases b
  {
    match b
    case Cond(_, branches) => forall i :: 0 <= i < |branches| ==> RegionLive(branches[i].body)
    case Loop(_, body) => RegionLive(body)
    case _ => true
  }

  ghost predicate RegionLive(rg: Region)
    decreases rg
  {
    && (forall i :: 0 <= i < |rg.blocks| ==> Live(rg.blocks[i]))
    && (rg.blocks != [] ==> rg.start < |rg.blocks|)
    && (forall via :: 0 <= via < |rg.edges| ==> Joins(rg, via))
    && (forall i: nat :: i < |rg.blocks| ==> HasWayOut(rg, i))
  }

  ghost predicate Joins(rg: Region, via: nat)
    requires via < |rg.edges|
  {
    rg.edges[via].src < |rg.blocks| && rg.edges[via].dst < |rg.blocks|
  }

  ghost predicate HasWayOut(rg: Region, i: nat) {
    exists path :: WayOut(rg, i, path)
  }

  /** Along the edges of `path` to a block without an edge out. */
  ghost predicate WayOut(rg: Region, i: nat, path: seq<nat>)
    decreases |path|
  {
    if path == [] then Sink(rg, i)
    else path[0] < |rg.edges| && rg.edges[path[0]].src == i && WayOut(rg, rg.edges[path[0]].dst, path[1..])
  }

  /** Where the blocks are listed in topological order, each has a way out. */
  lemma {:induction false} TopologicalWayOut(rg: Region, i: nat)
    requires Topological(rg) && i < |rg.blocks|
    ensures HasWayOut(rg, i)
    decreases |rg.blocks| - i
  {
    if via :| 0 <= via < |rg.edges| && rg.edges[via].src == i {
      assert rg.edges[via] in rg.edges;
      TopologicalWayOut(rg, rg.edges[via].dst);
      var path :| WayOut(rg, rg.edges[via].dst, path);
      assert ([via] + path)[1..] == path;
      assert WayOut(rg, i, [via] + path);
    } else {
      NoEdgeOut(rg, i);
      assert WayOut(rg, i, []);
    }
  }

  lemma NoEdgeOut(rg: Region, i: nat)
    requires forall via :: 0 <= via < |rg.edges| ==> rg.edges[via].src != i
    ensures Sink(rg, i)
  {
    forall e | e in rg.edges ensures e.src != i {
      var via :| 0 <= via < |rg.edges| && rg.edges[via] == e;
    }
  }

  // ---------------------------------------------------------------- sound: what it accepts is covered in every run

  lemma {:induction false} EventsExact(t: seq<Event>, name: Name, entry: bool)
    ensures EventsVerdict(t, name, entry).ok <==> Covered(t, name, entry)
    ensures EventsVerdict(t, name, entry).exit <==> Defined(t, name, entry)
    decreases |t|
  {
    if t != [] {
      var first, rest, seen := [t[0]], t[1..], entry || Writes(t[0], name);
      EventsExact(rest, name, seen);
      assert t == first + rest && t[..0] == [];
      assert Writes(t[0], name) ==> Writes(first[0], name);
      assert Defined(first, name, entry) <==> seen;
      DefinedConcat(first, rest, name, entry);
      if Covered(t, name, entry) {
        CoveredTail(t, name, entry);
      }
      if EventsVerdict(t, name, entry).ok {
        CoveredConcat(first, rest, name, entry);
      }
    }
  }

  /** Tests write nothing, and read the scalar only if one of them names it. */
  lemma {:induction false} RefusedTests(branches: seq<Branch>, name: Name)
    ensures forall i :: 0 <= i < |Refused(branches)| ==> Refused(branches)[i].Check?
    ensures !Defined(Refused(branches), name, false)
    ensures !TestsRead(branches, name) ==> Silent(Refused(branches), name)
    decreases |branches|
  {
    if branches != [] {
      RefusedTests(branches[1..], name);
      assert TestsRead(branches[1..], name) ==> TestsRead(branches, name) by {
        if i :| 0 <= i < |branches[1..]| && branches[1..][i].cond.Some? && name in branches[1..][i].cond.value.uses {
          assert branches[i + 1] == branches[1..][i];
        }
      }
    }
  }

  /** The tests up to the branch taken. */
  lemma TestsCovered(branches: seq<Branch>, i: nat, name: Name, entry: bool)
    requires i < |branches| && (TestsRead(branches, name) ==> entry)
    ensures Covered(Refused(branches[..i]) + Entered(branches[i]), name, entry)
  {
    if !entry {
      assert !TestsRead(branches[..i], name);
      RefusedTests(branches[..i], name);
      SilentCovered(Refused(branches[..i]) + Entered(branches[i]), name, entry);
    }
  }

  /** What the scan says of a block holds in every run of it. */
  lemma {:induction false} BlockSound(b: Block, name: Name, entry: bool, r: BlockRun)
    requires Shaped(b, name) && ValidBlock(b, r)
    ensures SafeBlock(b, name, entry).ok ==> Covered(BlockTrace(b, r), name, entry)
    ensures SafeBlock(b, name, entry).exit ==> Defined(BlockTrace(b, r), name, entry)
    decreases r, 0
  {
    match b
    case State(_, stmts) => EventsExact(StmtEvents(stmts), name, entry);
    case Jump(_) =>
    case Cond(_, branches) => CondSound(b, name, entry, r);
    case Loop(h, body) => LoopBlockSound(b, name, entry, r);
  }

  lemma {:induction false} CondSound(b: Block, name: Name, entry: bool, r: BlockRun)
    requires b.Cond? && Shaped(b, name) && ValidBlock(b, r)
    ensures SafeBlock(b, name, entry).ok ==> Covered(BlockTrace(b, r), name, entry)
    ensures SafeBlock(b, name, entry).exit ==> Defined(BlockTrace(b, r), name, entry)
    decreases r, 0, 0
  {
    var branches := b.branches;
    if r.Taken? {
      var i := r.branch;
      var tests, t := Refused(branches[..i]) + Entered(branches[i]), RegionTrace(branches[i].body, r.inner);
      RegionSound(branches[i].body, name, entry, r.inner);
      DefinedConcat(tests, t, name, entry);
      if SafeBlock(b, name, entry).ok {
        TestsCovered(branches, i, name, entry);
        CoveredConcat(tests, t, name, entry);
      }
    } else {
      RefusedTests(branches, name);
      if !TestsRead(branches, name) {
        SilentCovered(Refused(branches), name, entry);
      }
      assert !HasElse(branches);
    }
  }

  lemma {:induction false} LoopBlockSound(b: Block, name: Name, entry: bool, r: BlockRun)
    requires b.Loop? && Shaped(b, name) && ValidBlock(b, r)
    ensures SafeBlock(b, name, entry).ok ==> Covered(BlockTrace(b, r), name, entry)
    ensures SafeBlock(b, name, entry).exit ==> Defined(BlockTrace(b, r), name, entry)
    decreases r, 0, 0
  {
    var h, body := b.header, b.body;
    var d := Defined(h.init, name, entry);
    EventsExact(h.init, name, entry);
    var t, done := LoopTrace(h, body, r.iters), [Asked(h.cond, false)];
    assert h.init + (t + done) == h.init + t + done;
    DefinedConcat(h.init, t + done, name, entry);
    if SafeBlock(b, name, entry).ok {
      LoopSound(h, body, name, d, r.iters);
      TestCovered(h.cond, false, name, Defined(t, name, d));
      CoveredConcat(t, done, name, d);
      CoveredConcat(h.init, t + done, name, entry);
    }
  }

  lemma TestCovered(t: Test, outcome: bool, name: Name, before: bool)
    requires name in t.uses ==> before
    ensures Covered([Asked(t, outcome)], name, before)
  {
  }

  /** The iterations, entered with at least `entry`. */
  lemma {:induction false} LoopSound(h: Header, body: Region, name: Name, entry: bool, iters: seq<RegionRun>)
    requires RegionShaped(body, name) && (name in h.cond.uses ==> entry) && SafeScan(body, name, entry).ok
    requires EventsVerdict(h.update, name, SafeScan(body, name, entry).exit).ok
    requires forall i :: 0 <= i < |iters| ==> ValidRegion(body, iters[i])
    ensures Covered(LoopTrace(h, body, iters), name, entry)
    decreases iters
  {
    if iters != [] {
      RegionSound(body, name, entry, iters[0]);
      LoopSound(h, body, name, entry, iters[1..]);
      EventsExact(h.update, name, SafeScan(body, name, entry).exit);
      var first, t, rest := [Asked(h.cond, true)], RegionTrace(body, iters[0]), LoopTrace(h, body, iters[1..]);
      TestCovered(h.cond, true, name, entry);
      DefinedConcat(first, t, name, entry);
      DefinedConcat(first + t, h.update, name, entry);
      assert Defined(t, name, entry) ==> Defined(t, name, Defined(first, name, entry));
      CoveredConcat(first, t, name, entry);
      CoveredConcat(first + t, h.update, name, entry);
      CoveredConcat(first + t + h.update, rest, name, entry);
    }
  }

  lemma {:induction false} RegionSound(rg: Region, name: Name, entry: bool, r: RegionRun)
    requires RegionShaped(rg, name) && ValidRegion(rg, r)
    ensures SafeScan(rg, name, entry).ok ==> Covered(RegionTrace(rg, r), name, entry)
    ensures SafeScan(rg, name, entry).exit ==> Defined(RegionTrace(rg, r), name, entry)
    decreases r, 2
  {
    if rg.blocks != [] {
      ScanSolves(rg, name, entry);
      PathSound(rg, name, entry, SafeRounds(rg, name, entry, AllTrue(|rg.blocks|), |rg.blocks|), r, entry);
    }
  }

  lemma {:induction false} PathSound(rg: Region, name: Name, entry: bool, out: seq<bool>, r: RegionRun, before: bool)
    requires RegionShaped(rg, name) && ValidPath(rg, r)
    requires SafeSolved(rg, name, entry, out) && (SafeEntry(rg, entry, out, r.block) ==> before)
    ensures SafeBlocks(rg, name, entry, out) && EdgesOk(rg, name, out) ==> Covered(PathTrace(rg, r), name, before)
    ensures ExitOf(rg, entry, out) ==> Defined(PathTrace(rg, r), name, before)
    decreases r, 1
  {
    var b, seen := rg.blocks[r.block], SafeEntry(rg, entry, out, r.block);
    assert SafeAt(rg, name, entry, out, r.block);
    BlockSound(b, name, seen, r.run);
    var t := BlockTrace(b, r.run);
    if r.Last? {
      assert IsSink(rg, r.block);
      assert t + [] == t;
    } else {
      var e := rg.edges[r.via];
      assert e in rg.edges && e.dst == r.rest.block;
      var after := Defined(t, name, before);
      assert out[r.block] ==> after;
      PathSound(rg, name, entry, out, r.rest, after);
      var rest := PathTrace(rg, r.rest);
      DefinedConcat(e.acts, rest, name, after);
      DefinedConcat(t, e.acts + rest, name, before);
      if SafeBlocks(rg, name, entry, out) && EdgesOk(rg, name, out) {
        EdgeCovered(rg, name, out, r.via, after);
        CoveredConcat(e.acts, rest, name, after);
        CoveredConcat(t, e.acts + rest, name, before);
      }
    }
  }

  lemma EdgeCovered(rg: Region, name: Name, out: seq<bool>, via: nat, after: bool)
    requires |out| == |rg.blocks| && EdgesOk(rg, name, out) && via < |rg.edges|
    requires rg.edges[via].src < |out| && (out[rg.edges[via].src] ==> after)
    ensures Covered(rg.edges[via].acts, name, after)
  {
    var e := rg.edges[via];
    forall i | 0 <= i < |e.acts| && name in e.acts[i].uses ensures after {
      assert e in rg.edges && e.acts[i] in e.acts && ActsRead(e.acts, name);
    }
  }

  // ---------------------------------------------------------------- complete: what it rejects some run reads too early

  lemma {:induction false} SomeRun(b: Block, name: Name) returns (r: BlockRun)
    requires Shaped(b, name) && Live(b)
    ensures ValidBlock(b, r)
    decreases b, 1, 0
  {
    match b
    case Cond(_, branches) =>
      if branches == [] {
        r := NoneTaken;
      } else {
        var inner := SomeRegionRun(branches[0].body, name);
        r := Taken(0, inner);
      }
    case Loop(_, _) => r := Iterations([]);
    case _ => r := Plain;
  }

  lemma {:induction false} SomeRegionRun(rg: Region, name: Name) returns (r: RegionRun)
    requires RegionShaped(rg, name) && RegionLive(rg)
    ensures ValidRegion(rg, r)
    decreases rg, 3, 0
  {
    if rg.blocks == [] {
      r := Empty;
    } else {
      var run := SomeRun(rg.blocks[rg.start], name);
      r := SomeTail(rg, name, rg.start, run);
    }
  }

  lemma {:induction false} SomeTail(rg: Region, name: Name, i: nat, run: BlockRun) returns (r: RegionRun)
    requires RegionShaped(rg, name) && RegionLive(rg) && i < |rg.blocks| && ValidBlock(rg.blocks[i], run)
    ensures ValidPath(rg, r) && !r.Empty? && r.block == i && r.run == run
    decreases rg, 2, 1, 0
  {
    assert HasWayOut(rg, i);
    var path :| WayOut(rg, i, path);
    r := TailFrom(rg, name, i, run, path);
  }

  /** From a block on to the end of the region. */
  lemma {:induction false} TailFrom(rg: Region, name: Name, i: nat, run: BlockRun, path: seq<nat>)
    returns (r: RegionRun)
    requires RegionShaped(rg, name) && RegionLive(rg) && i < |rg.blocks| && ValidBlock(rg.blocks[i], run)
    requires WayOut(rg, i, path)
    ensures ValidPath(rg, r) && !r.Empty? && r.block == i && r.run == run
    decreases rg, 2, 0, |path|
  {
    if path == [] {
      r := Last(i, run);
    } else {
      assert Joins(rg, path[0]);
      var next := rg.edges[path[0]].dst;
      var on := SomeRun(rg.blocks[next], name);
      var rest := TailFrom(rg, name, next, on, path[1..]);
      r := Then(i, run, path[0], rest);
      assert ValidVia(rg, i, path[0], next);
    }
  }

  /** Along the edges of `path` from the start to a block, past blocks that need not write the scalar. */
  ghost predicate DryWalk(rg: Region, name: Name, path: seq<nat>, i: nat)
    decreases |path|
  {
    if path == [] then i == rg.start
    else
      var n := |path| - 1;
      path[n] < |rg.edges| && rg.edges[path[n]].dst == i && rg.edges[path[n]].src < |rg.blocks| &&
      DryLeft(rg, name, rg.edges[path[n]].src) && DryWalk(rg, name, path[..n], rg.edges[path[n]].src)
  }

  ghost predicate DryLeft(rg: Region, name: Name, i: nat)
    requires i < |rg.blocks|
  {
    !SafeBlock(rg.blocks[i], name, false).exit
  }

  ghost predicate DryEntered(rg: Region, name: Name, i: nat) {
    exists path :: DryWalk(rg, name, path, i)
  }

  /** Whatever the rounds have found undefined is. */
  ghost predicate AllDry(rg: Region, name: Name, out: seq<bool>) {
    |out| == |rg.blocks| && forall i: nat :: i < |out| && !out[i] ==> DryLeft(rg, name, i) && DryEntered(rg, name, i)
  }

  lemma {:induction false} EnteredDry(rg: Region, name: Name, out: seq<bool>, i: nat)
    requires AllDry(rg, name, out) && i < |out| && !SafeEntry(rg, false, out, i)
    ensures DryEntered(rg, name, i)
  {
    if i == rg.start {
      assert DryWalk(rg, name, [], i);
    } else {
      var e :| e in rg.edges && e.dst == i && e.src < |out| && !out[e.src];
      var via: nat :| via < |rg.edges| && rg.edges[via] == e;
      assert DryEntered(rg, name, e.src);
      var path :| DryWalk(rg, name, path, e.src);
      assert (path + [via])[..|path|] == path;
      assert DryWalk(rg, name, path + [via], i);
    }
  }

  lemma {:induction false} SweepDry(rg: Region, name: Name, out: seq<bool>, i: nat)
    requires AllDry(rg, name, out) && i <= |out|
    ensures AllDry(rg, name, SafeSweep(rg, name, false, out, i))
    decreases |out| - i
  {
    if i < |out| {
      var entry := SafeEntry(rg, false, out, i);
      var out' := out[i := SafeBlock(rg.blocks[i], name, entry).exit];
      SafeTrue(rg.blocks[i], name);
      if !entry {
        EnteredDry(rg, name, out, i);
      }
      SweepDry(rg, name, out', i + 1);
    }
  }

  lemma {:induction false} RoundsDry(rg: Region, name: Name, out: seq<bool>, k: nat)
    requires AllDry(rg, name, out)
    ensures AllDry(rg, name, SafeRounds(rg, name, false, out, k))
    decreases k
  {
    if k > 0 {
      SweepDry(rg, name, out, 0);
      var swept := SafeSweep(rg, name, false, out, 0);
      if swept != out {
        RoundsDry(rg, name, swept, k - 1);
      }
    }
  }

  /** A block the scan says is entered undefined is reached by some run that has not written the scalar. */
  lemma {:induction false} LeadTo(rg: Region, name: Name, path: seq<nat>, i: nat, tail: RegionRun)
    returns (r: RegionRun, before: seq<Event>)
    requires RegionShaped(rg, name) && RegionLive(rg) && DryWalk(rg, name, path, i)
    requires ValidPath(rg, tail) && !tail.Empty? && tail.block == i
    ensures ValidRegion(rg, r) && RegionTrace(rg, r) == before + PathTrace(rg, tail)
    ensures !Defined(before, name, false)
    decreases rg, 2, 0, |path|
  {
    if path == [] {
      r, before := tail, [];
    } else {
      var n := |path| - 1;
      var via, e := path[n], rg.edges[path[n]];
      var run := DryRun(rg.blocks[e.src], name);
      assert ValidVia(rg, e.src, via, i);
      var longer := Then(e.src, run, via, tail);
      var sooner;
      r, sooner := LeadTo(rg, name, path[..n], e.src, longer);
      var t := BlockTrace(rg.blocks[e.src], run);
      before := sooner + t + e.acts;
      StillDry(sooner, t, e.acts, PathTrace(rg, tail), name);
    }
  }

  lemma {:induction false} LeadIn(rg: Region, name: Name, i: nat, tail: RegionRun)
    returns (r: RegionRun, before: seq<Event>)
    requires RegionShaped(rg, name) && RegionLive(rg) && DryEntered(rg, name, i)
    requires ValidPath(rg, tail) && !tail.Empty? && tail.block == i
    ensures ValidRegion(rg, r) && RegionTrace(rg, r) == before + PathTrace(rg, tail)
    ensures !Defined(before, name, false)
    decreases rg, 2, 1
  {
    var path :| DryWalk(rg, name, path, i);
    r, before := LeadTo(rg, name, path, i, tail);
  }

  /** What the scan settles on. */
  ghost function Settled(rg: Region, name: Name): (out: seq<bool>)
    ensures |out| == |rg.blocks|
  {
    SafeRounds(rg, name, false, AllTrue(|rg.blocks|), |rg.blocks|)
  }

  lemma SettledDry(rg: Region, name: Name)
    ensures AllDry(rg, name, Settled(rg, name)) && SafeSolved(rg, name, false, Settled(rg, name))
  {
    RoundsDry(rg, name, AllTrue(|rg.blocks|), |rg.blocks|);
    ScanSolves(rg, name, false);
  }

  lemma StillDry(sooner: seq<Event>, t: seq<Event>, acts: seq<Event>, rest: seq<Event>, name: Name)
    requires !Defined(sooner, name, false) && !Defined(t, name, false) && SetsSymbols(acts, name)
    ensures !Defined(sooner + t + acts, name, false)
    ensures sooner + (t + (acts + rest)) == sooner + t + acts + rest
  {
    DefinedConcat(sooner, t, name, false);
    DefinedConcat(sooner + t, acts, name, false);
  }

  /** A run of the block that does not write the scalar. */
  lemma {:induction false} DryRun(b: Block, name: Name) returns (r: BlockRun)
    requires Shaped(b, name) && Live(b) && !SafeBlock(b, name, false).exit
    ensures ValidBlock(b, r) && !Defined(BlockTrace(b, r), name, false)
    decreases b, 1, 0
  {
    match b
    case State(_, stmts) =>
      EventsExact(StmtEvents(stmts), name, false);
      r := Plain;
    case Jump(_) => r := Plain;
    case Loop(h, body) =>
      EventsExact(h.init, name, false);
      r := Iterations([]);
      DefinedConcat(h.init, [Asked(h.cond, false)], name, false);
      assert h.init + [] == h.init;
    case Cond(_, branches) =>
      if !HasElse(branches) {
        r := NoneTaken;
        RefusedTests(branches, name);
      } else {
        var i :| 0 <= i < |branches| && !SafeScan(branches[i].body, name, false).exit;
        var inner := DryRegionRun(branches[i].body, name);
        r := Taken(i, inner);
        DryTests(branches, i, name);
        DefinedConcat(Refused(branches[..i]) + Entered(branches[i]), RegionTrace(branches[i].body, inner), name, false);
      }
  }

  lemma {:induction false} DryRegionRun(rg: Region, name: Name) returns (r: RegionRun)
    requires RegionShaped(rg, name) && RegionLive(rg) && !SafeScan(rg, name, false).exit
    ensures ValidRegion(rg, r) && !Defined(RegionTrace(rg, r), name, false)
    decreases rg, 3, 0
  {
    if rg.blocks == [] {
      r := Empty;
    } else {
      var out := Settled(rg, name);
      SettledDry(rg, name);
      var i := DrySink(rg, out);
      var run := DryRun(rg.blocks[i], name);
      var before;
      r, before := LeadIn(rg, name, i, Last(i, run));
      var t := BlockTrace(rg.blocks[i], run);
      assert t + [] == t;
      DefinedConcat(before, t, name, false);
    }
  }

  /** A block without an edge out that the scan says is left undefined. */
  lemma DrySink(rg: Region, out: seq<bool>) returns (i: nat)
    requires rg.blocks != [] && RegionLive(rg) && |out| == |rg.blocks| && !ExitOf(rg, false, out)
    ensures i < |out| && IsSink(rg, i) && Sink(rg, i) && !out[i]
  {
    assert HasWayOut(rg, rg.start);
    var path :| WayOut(rg, rg.start, path);
    var k := SinkAhead(rg, rg.start, path);
    assert IsSink(rg, k);
    i :| 0 <= i < |out| && IsSink(rg, i) && !out[i];
  }

  lemma {:induction false} SinkAhead(rg: Region, i: nat, path: seq<nat>) returns (k: nat)
    requires RegionLive(rg) && i < |rg.blocks| && WayOut(rg, i, path)
    ensures k < |rg.blocks| && Sink(rg, k)
    decreases |path|
  {
    if path == [] {
      k := i;
    } else {
      assert Joins(rg, path[0]);
      k := SinkAhead(rg, rg.edges[path[0]].dst, path[1..]);
    }
  }

  /** A run of the block that reads the scalar before anything has written it. */
  lemma {:induction false} BadRun(b: Block, name: Name) returns (r: BlockRun)
    requires Shaped(b, name) && Live(b) && !SafeBlock(b, name, false).ok
    ensures ValidBlock(b, r) && !Covered(BlockTrace(b, r), name, false)
    decreases b, 1, 0
  {
    match b
    case State(_, stmts) =>
      EventsExact(StmtEvents(stmts), name, false);
      r := Plain;
    case Cond(_, _) => r := BadCondRun(b, name);
    case Loop(_, _) => r := BadLoopRun(b, name);
  }

  lemma {:induction false} BadCondRun(b: Block, name: Name) returns (r: BlockRun)
    requires b.Cond? && Shaped(b, name) && Live(b) && !SafeBlock(b, name, false).ok
    ensures ValidBlock(b, r) && !Covered(BlockTrace(b, r), name, false)
    decreases b, 0, 0
  {
    var branches := b.branches;
    if TestsRead(branches, name) {
      var i :| 0 <= i < |branches| && branches[i].cond.Some? && name in branches[i].cond.value.uses;
      var inner := SomeRegionRun(branches[i].body, name);
      r := Taken(i, inner);
      BadTest(branches, i, RegionTrace(branches[i].body, inner), name);
    } else {
      var i :| 0 <= i < |branches| && !SafeScan(branches[i].body, name, false).ok;
      var inner := BadRegionRun(branches[i].body, name);
      r := Taken(i, inner);
      DryTests(branches, i, name);
      LaterUncovered(Refused(branches[..i]) + Entered(branches[i]), RegionTrace(branches[i].body, inner), name);
    }
  }

  lemma DryTests(branches: seq<Branch>, i: nat, name: Name)
    requires i < |branches|
    ensures !Defined(Refused(branches[..i]) + Entered(branches[i]), name, false)
  {
    RefusedTests(branches[..i], name);
    DefinedConcat(Refused(branches[..i]), Entered(branches[i]), name, false);
  }

  lemma BadTest(branches: seq<Branch>, i: nat, t: seq<Event>, name: Name)
    requires i < |branches| && branches[i].cond.Some? && name in branches[i].cond.value.uses
    ensures !Covered(Refused(branches[..i]) + Entered(branches[i]) + t, name, false)
  {
    var refused, entered := Refused(branches[..i]), Entered(branches[i]);
    RefusedTests(branches[..i], name);
    assert refused + entered + t == refused + (entered + t) && (entered + t)[..0] == [];
    EarlyRead(refused, entered + t, name, 0);
  }

  /** A read right after events that write nothing. */
  lemma EarlyRead(a: seq<Event>, b: seq<Event>, name: Name, k: nat)
    requires !Defined(a, name, false) && k < |b| && name in b[k].uses && !Defined(b[..k], name, false)
    ensures !Covered(a + b, name, false)
  {
    var t := a + b;
    assert t[|a| + k] == b[k] && t[..|a| + k] == a + b[..k];
    DefinedConcat(a, b[..k], name, false);
  }

  lemma LaterUncovered(a: seq<Event>, b: seq<Event>, name: Name)
    requires !Defined(a, name, false) && !Covered(b, name, false)
    ensures !Covered(a + b, name, false)
  {
    var k :| 0 <= k < |b| && name in b[k].uses && !Defined(b[..k], name, false);
    EarlyRead(a, b, name, k);
  }

  lemma SoonerUncovered(a: seq<Event>, b: seq<Event>, name: Name)
    requires !Covered(a, name, false)
    ensures !Covered(a + b, name, false)
  {
    var k :| 0 <= k < |a| && name in a[k].uses && !Defined(a[..k], name, false);
    assert (a + b)[k] == a[k] && (a + b)[..k] == a[..k];
  }

  lemma {:induction false} BadLoopRun(b: Block, name: Name) returns (r: BlockRun)
    requires b.Loop? && Shaped(b, name) && Live(b) && !SafeBlock(b, name, false).ok
    ensures ValidBlock(b, r) && !Covered(BlockTrace(b, r), name, false)
    decreases b, 0, 0
  {
    var h, body := b.header, b.body;
    EventsExact(h.init, name, false);
    SafeScanTrue(body, name);
    EventsTrue(h.update, name);
    if !Covered(h.init, name, false) || name in h.cond.uses {
      r := Iterations([]);
      BadHeader(h, name);
    } else {
      var inner := BadIteration(h, body, name);
      r := Iterations([inner]);
      assert [inner][1..] == [];
      OneBadIteration(h, RegionTrace(body, inner), name);
      assert LoopTrace(h, body, [inner]) == [Asked(h.cond, true)] + RegionTrace(body, inner) + h.update + [];
    }
  }

  lemma BadHeader(h: Header, name: Name)
    requires !Covered(h.init, name, false) || (name in h.cond.uses && !Defined(h.init, name, false))
    ensures !Covered(h.init + [] + [Asked(h.cond, false)], name, false)
  {
    var done := [Asked(h.cond, false)];
    assert h.init + [] + done == h.init + done && done[..0] == [];
    if Covered(h.init, name, false) {
      EarlyRead(h.init, done, name, 0);
    } else {
      SoonerUncovered(h.init, done, name);
    }
  }

  lemma OneBadIteration(h: Header, t: seq<Event>, name: Name)
    requires !Defined(h.init, name, false) && !Covered(t + h.update, name, false)
    ensures !Covered(h.init + ([Asked(h.cond, true)] + t + h.update + []) + [Asked(h.cond, false)], name, false)
  {
    var first, done := [Asked(h.cond, true)], [Asked(h.cond, false)];
    LaterUncovered(first, t + h.update, name);
    LaterUncovered(h.init, first + (t + h.update), name);
    SoonerUncovered(h.init + (first + (t + h.update)), done, name);
    assert first + t + h.update + [] == first + (t + h.update);
  }

  /** An iteration entered undefined that reads too early, in the body or in the update. */
  lemma {:induction false} BadIteration(h: Header, body: Region, name: Name) returns (r: RegionRun)
    requires RegionShaped(body, name) && RegionLive(body)
    requires var inner := SafeScan(body, name, false); !inner.ok || !EventsVerdict(h.update, name, inner.exit).ok
    ensures ValidRegion(body, r) && !Covered(RegionTrace(body, r) + h.update, name, false)
    decreases body, 4, 0
  {
    EventsTrue(h.update, name);
    EventsExact(h.update, name, false);
    if !SafeScan(body, name, false).ok {
      r := BadRegionRun(body, name);
      SoonerUncovered(RegionTrace(body, r), h.update, name);
    } else {
      r := DryRegionRun(body, name);
      LaterUncovered(RegionTrace(body, r), h.update, name);
    }
  }

  lemma {:induction false} BadRegionRun(rg: Region, name: Name) returns (r: RegionRun)
    requires RegionShaped(rg, name) && RegionLive(rg) && !SafeScan(rg, name, false).ok
    ensures ValidRegion(rg, r) && !Covered(RegionTrace(rg, r), name, false)
    decreases rg, 3, 0
  {
    var out := Settled(rg, name);
    SettledDry(rg, name);
    if !SafeBlocks(rg, name, false, out) {
      var i :| 0 <= i < |out| && !SafeBlock(rg.blocks[i], name, SafeEntry(rg, false, out, i)).ok;
      SafeTrue(rg.blocks[i], name);
      EnteredDry(rg, name, out, i);
      var run := BadRun(rg.blocks[i], name);
      var tail := SomeTail(rg, name, i, run);
      var before;
      r, before := LeadIn(rg, name, i, tail);
      BadFirst(rg, tail, name);
      LaterUncovered(before, PathTrace(rg, tail), name);
    } else {
      r := BadEdgeRun(rg, name, out);
    }
  }

  lemma BadFirst(rg: Region, tail: RegionRun, name: Name)
    requires ValidPath(rg, tail) && !Covered(BlockTrace(rg.blocks[tail.block], tail.run), name, false)
    ensures !Covered(PathTrace(rg, tail), name, false)
  {
    var t := BlockTrace(rg.blocks[tail.block], tail.run);
    SoonerUncovered(t, if tail.Last? then [] else rg.edges[tail.via].acts + PathTrace(rg, tail.rest), name);
  }

  /** An interstate edge that reads the scalar, left undefined. */
  lemma {:induction false} BadEdgeRun(rg: Region, name: Name, out: seq<bool>) returns (r: RegionRun)
    requires RegionShaped(rg, name) && RegionLive(rg) && AllDry(rg, name, out) && !EdgesOk(rg, name, out)
    ensures ValidRegion(rg, r) && !Covered(RegionTrace(rg, r), name, false)
    decreases rg, 2, 2
  {
    var e :| e in rg.edges && ActsRead(e.acts, name) && e.src < |out| && !out[e.src];
    var via :| 0 <= via < |rg.edges| && rg.edges[via] == e;
    assert Joins(rg, via) && DryLeft(rg, name, e.src);
    var run := DryRun(rg.blocks[e.src], name);
    var on := SomeRun(rg.blocks[e.dst], name);
    var rest := SomeTail(rg, name, e.dst, on);
    assert ValidVia(rg, e.src, via, e.dst);
    var tail := Then(e.src, run, via, rest);
    var before;
    r, before := LeadIn(rg, name, e.src, tail);
    var t := BlockTrace(rg.blocks[e.src], run);
    var k := ReadingAct(e.acts, name);
    EarlyRead(t, e.acts + PathTrace(rg, rest), name, k);
    LaterUncovered(before, t + (e.acts + PathTrace(rg, rest)), name);
  }

  lemma ReadingAct(acts: seq<Event>, name: Name) returns (k: nat)
    requires ActsRead(acts, name) && SetsSymbols(acts, name)
    ensures k < |acts| && name in acts[k].uses && forall b: seq<Event> :: !Defined((acts + b)[..k], name, false)
  {
    var e :| e in acts && name in e.uses;
    k :| 0 <= k < |acts| && acts[k] == e;
  }

  /** The scan is exact: it accepts a region exactly when in every run each read of the scalar has an earlier write. */
  lemma SafeScanExact(rg: Region, name: Name)
    requires RegionShaped(rg, name) && RegionLive(rg)
    ensures CoveredInRuns(rg, name) <==> SafeScan(rg, name, false).ok
    ensures DefinedInRuns(rg, name) <==> SafeScan(rg, name, false).exit
  {
    forall r | ValidRegion(rg, r)
      ensures SafeScan(rg, name, false).ok ==> Covered(RegionTrace(rg, r), name, false)
      ensures SafeScan(rg, name, false).exit ==> Defined(RegionTrace(rg, r), name, false)
    {
      RegionSound(rg, name, false, r);
    }
    if !SafeScan(rg, name, false).ok {
      var r := BadRegionRun(rg, name);
    }
    if !SafeScan(rg, name, false).exit {
      var r := DryRegionRun(rg, name);
    }
  }
}
