/** Giving each outermost loop its own copy of a scalar: which of the loops the analysis accepts really are local, and
    what the renamed program then computes. */
module ScalarFission {
  import opened ControlFlow
  import opened MustDefined
  import opened MustDefinedMemo
  import opened ExactScan
  import opened Renaming
  import opened LoopCopies
  import opened LoopRenames
  import opened Options

  // ---------------------------------------------------------------- where the analysis is right

  /** Statements in dataflow order: what reads a node written in the state comes after a write of it. */
  ghost predicate InOrder(stmts: seq<Stmt>) {
    forall i, k :: 0 <= i < |stmts| && 0 <= k < |stmts| && stmts[k].output in stmts[i].inputs ==>
      WrittenBefore(stmts, i, stmts[k].output)
  }

  ghost predicate WrittenBefore(stmts: seq<Stmt>, i: nat, n: Node)
    requires i <= |stmts|
  {
    exists j :: 0 <= j < i && stmts[j].output == n
  }

  /** What the analysis takes for granted: branch conditions do not name the scalar, a nested loop does not count as
      defining it, and regions are listed in topological order and entered at a block without predecessors. */
  ghost predicate Trusted(b: Block, name: Name)
    decreases b
  {
    match b
    case State(_, stmts) => InOrder(stmts)
    case Cond(_, branches) =>
      forall i :: 0 <= i < |branches| ==> CondSilent(branches[i].cond, name) && RegionTrusted(branches[i].body, name)
    case Loop(h, body) => RegionTrusted(body, name) && !Scan(body, name, false).exit
    case Jump(_) => true
  }

  ghost predicate RegionTrusted(rg: Region, name: Name)
    decreases rg
  {
    && Topological(rg) && (forall e :: e in rg.edges ==> e.dst != rg.start)
    && forall i :: 0 <= i < |rg.blocks| ==> Trusted(rg.blocks[i], name)
  }

  lemma StateSound(stmts: seq<Stmt>, name: Name, entry: bool)
    requires InOrder(stmts) && (!UncoveredRead(stmts, name) || entry)
    ensures Covered(StmtEvents(stmts), name, entry)
    ensures entry || StateWrites(stmts, name) ==> Defined(StmtEvents(stmts), name, entry)
  {
    var t := StmtEvents(stmts);
    forall i | 0 <= i < |t| && name in t[i].uses ensures Defined(t[..i], name, entry) {
      if !entry {
        var k :| 0 <= k < |stmts[i].inputs| && stmts[i].inputs[k].data == name;
        var n := stmts[i].inputs[k];
        assert stmts[i] in stmts && n in stmts[i].inputs;
        assert HasInEdge(stmts, n);
        var s :| s in stmts && s.output == n;
        var m :| 0 <= m < |stmts| && stmts[m] == s;
        assert WrittenBefore(stmts, i, stmts[m].output);
        var j :| 0 <= j < i && stmts[j].output == n;
        assert Writes(t[..i][j], name);
      }
    }
    if s :| s in stmts && s.output.data == name {
      var j :| 0 <= j < |stmts| && stmts[j] == s;
      assert Writes(t[j], name);
    }
  }

  lemma {:induction false} BranchesAt(b: Block, name: Name, entry: bool, i: nat, k: nat)
    requires b.Cond? && i <= k < |b.branches|
    ensures Branches(b, name, entry, i).ok ==> Scan(b.branches[k].body, name, entry).ok
    ensures Branches(b, name, entry, i).exit ==> Scan(b.branches[k].body, name, entry).exit
    decreases k - i
  {
    if i < k {
      BranchesAt(b, name, entry, i + 1, k);
    }
  }

  lemma {:induction false} BlocksOkAt(rg: Region, name: Name, entry: bool, out: seq<bool>, i: nat, k: nat)
    requires |out| == |rg.blocks| && i <= k < |out| && BlocksOk(rg, name, entry, out, i)
    ensures BlockExit(rg.blocks[k], name, EntryOf(rg, entry, out, k)).ok
    decreases k - i
  {
    if i < k {
      BlocksOkAt(rg, name, entry, out, i + 1, k);
    }
  }

  lemma SilentVerdict(acts: seq<Event>, name: Name, entry: bool)
    requires Silent(acts, name)
    ensures EventsVerdict(acts, name, entry) == Verdict(true, entry)
  {
    EventsExact(acts, name, entry);
    SilentCovered(acts, name, entry);
    forall i | 0 <= i < |acts| ensures !Writes(acts[i], name) {
      assert acts[i] in acts;
    }
  }

  lemma HeaderQuiet(h: Header, name: Name)
    ensures !HeaderNames(h, name) <==> HeaderSilent(h, name)
  {
  }

  /** There, what the analysis says of a block the exact scan says too. */
  lemma {:induction false} TrustedIsSafe(b: Block, name: Name, entry: bool)
    requires Trusted(b, name)
    ensures BlockExit(b, name, entry).ok ==> SafeBlock(b, name, entry).ok
    ensures BlockExit(b, name, entry).ok && BlockExit(b, name, entry).exit ==> SafeBlock(b, name, entry).exit
    decreases b
  {
    if BlockExit(b, name, entry).ok {
      match b
      case State(_, stmts) =>
        StateSound(stmts, name, entry);
        EventsExact(StmtEvents(stmts), name, entry);
      case Cond(_, branches) =>
        forall i | 0 <= i < |branches|
          ensures SafeScan(branches[i].body, name, entry).ok
          ensures BlockExit(b, name, entry).exit ==> SafeScan(branches[i].body, name, entry).exit
        {
          BranchesAt(b, name, entry, 0, i);
          TrustedRegionIsSafe(branches[i].body, name, entry);
        }
      case Loop(h, body) =>
        LoopClosedForm(body, name, entry, Verdict(true, entry), ROUNDS);
        HeaderQuiet(h, name);
        SilentVerdict(h.init, name, entry);
        TrustedRegionIsSafe(body, name, entry);
        SilentVerdict(h.update, name, SafeScan(body, name, entry).exit);
      case Jump(_) =>
    }
  }

  lemma {:induction false} TrustedRegionIsSafe(rg: Region, name: Name, entry: bool)
    requires RegionTrusted(rg, name) && Scan(rg, name, entry).ok
    ensures SafeScan(rg, name, entry).ok
    ensures Scan(rg, name, entry).exit ==> SafeScan(rg, name, entry).exit
    decreases rg
  {
    if rg.blocks != [] {
      var top := AllTrue(|rg.blocks|);
      TopologicalSettles(rg, name, entry, top, ROUNDS);
      ScanSolves(rg, name, entry);
      var out, safe := Rounds(rg, name, entry, top, ROUNDS), SafeRounds(rg, name, entry, top, |top|);
      forall i | 0 <= i < |out|
        ensures (out[i] ==> safe[i]) && SafeBlock(rg.blocks[i], name, SafeEntry(rg, entry, safe, i)).ok
      {
        TrustedBlocksAgree(rg, name, entry, out, safe, i);
      }
    }
  }

  lemma {:induction false} TrustedBlocksAgree(rg: Region, name: Name, entry: bool, out: seq<bool>, safe: seq<bool>,
                                              i: nat)
    requires RegionTrusted(rg, name) && Solves(rg, name, entry, out) && SafeSolved(rg, name, entry, safe)
    requires BlocksOk(rg, name, entry, out, 0) && i < |out|
    ensures (out[i] ==> safe[i]) && SafeBlock(rg.blocks[i], name, SafeEntry(rg, entry, safe, i)).ok
    decreases rg, 0, i
  {
    forall j | 0 <= j < i ensures out[j] ==> safe[j] {
      TrustedBlocksAgree(rg, name, entry, out, safe, j);
    }
    var b, e, e' := rg.blocks[i], EntryOf(rg, entry, out, i), SafeEntry(rg, entry, safe, i);
    assert e ==> e';
    assert SolvedAt(rg, name, entry, out, i) && SafeAt(rg, name, entry, safe, i);
    BlocksOkAt(rg, name, entry, out, 0, i);
    TrustedIsSafe(b, name, e);
    if e != e' {
      SafeTrue(b, name);
    }
  }

  // ---------------------------------------------------------------- where the two scans agree

  ghost predicate NeverWritten(stmts: seq<Stmt>, n: Node) {
    forall k :: 0 <= k < |stmts| ==> stmts[k].output != n
  }

  /** A node that nothing in the state writes is read before any write of the container. */
  ghost predicate ReadsFresh(stmts: seq<Stmt>, name: Name) {
    forall i, n :: 0 <= i < |stmts| && n in stmts[i].inputs && n.data == name && NeverWritten(stmts, n) ==>
      forall j :: 0 <= j < i ==> stmts[j].output.data != name
  }

  /** Where the analysis is not only right but refuses nothing it need not: besides what it takes for granted, headers
      do not name the scalar, states read fresh nodes first, and each block but the start has a predecessor. */
  ghost predicate Regular(b: Block, name: Name)
    decreases b
  {
    match b
    case State(_, stmts) => InOrder(stmts) && ReadsFresh(stmts, name)
    case Cond(_, branches) =>
      forall i :: 0 <= i < |branches| ==> CondSilent(branches[i].cond, name) && RegionRegular(branches[i].body, name)
    case Loop(h, body) => HeaderSilent(h, name) && RegionRegular(body, name) && !Scan(body, name, false).exit
    case Jump(_) => true
  }

  ghost predicate RegionRegular(rg: Region, name: Name)
    decreases rg
  {
    && Topological(rg) && (forall i :: 0 <= i < |rg.blocks| ==> (i == rg.start <==> !HasPred(rg, i)))
    && forall i :: 0 <= i < |rg.blocks| ==> Regular(rg.blocks[i], name)
  }

  ghost predicate HasPred(rg: Region, i: nat) {
    exists e :: e in rg.edges && e.dst == i
  }

  lemma StateComplete(stmts: seq<Stmt>, name: Name)
    requires ReadsFresh(stmts, name) && UncoveredRead(stmts, name)
    ensures !Covered(StmtEvents(stmts), name, false)
  {
    var s :| s in stmts && exists n :: n in s.inputs && n.data == name && !HasInEdge(stmts, n);
    var n :| n in s.inputs && n.data == name && !HasInEdge(stmts, n);
    var i :| 0 <= i < |stmts| && stmts[i] == s;
    var t := StmtEvents(stmts);
    var k :| 0 <= k < |s.inputs| && s.inputs[k] == n;
    assert t[i].uses[k] == name;
    forall j | 0 <= j < i ensures !Writes(t[..i][j], name) {
      assert t[..i][j] == StmtEvent(stmts[j]);
    }
  }

  /** There the analysis gives the exact scan's verdict on every block, accepted or refused. */
  lemma {:induction false} RegularAgrees(b: Block, name: Name, entry: bool)
    requires Regular(b, name)
    ensures BlockExit(b, name, entry) == SafeBlock(b, name, entry)
    decreases b
  {
    match b
    case State(_, stmts) => StateAgrees(stmts, name, entry);
    case Cond(_, branches) =>
      forall i | 0 <= i < |branches|
        ensures Scan(branches[i].body, name, entry) == SafeScan(branches[i].body, name, entry)
      {
        RegularRegionAgrees(branches[i].body, name, entry);
      }
      BranchesAll(b, name, entry, 0);
    case Loop(h, body) =>
      LoopClosedForm(body, name, entry, Verdict(true, entry), ROUNDS);
      HeaderQuiet(h, name);
      SilentVerdict(h.init, name, entry);
      RegularRegionAgrees(body, name, entry);
      SilentVerdict(h.update, name, SafeScan(body, name, entry).exit);
    case Jump(_) =>
  }

  lemma StateAgrees(stmts: seq<Stmt>, name: Name, entry: bool)
    requires InOrder(stmts) && ReadsFresh(stmts, name)
    ensures EventsVerdict(StmtEvents(stmts), name, entry) ==
            Verdict(!UncoveredRead(stmts, name) || entry, entry || StateWrites(stmts, name))
  {
    EventsExact(StmtEvents(stmts), name, entry);
    if !UncoveredRead(stmts, name) || entry {
      StateSound(stmts, name, entry);
    } else {
      StateComplete(stmts, name);
    }
    if i :| 0 <= i < |StmtEvents(stmts)| && Writes(StmtEvents(stmts)[i], name) {
      assert stmts[i] in stmts;
    }
    if s :| s in stmts && s.output.data == name {
      var j :| 0 <= j < |stmts| && stmts[j] == s;
      assert Writes(StmtEvents(stmts)[j], name);
    }
  }

  lemma {:induction false} BranchesAll(b: Block, name: Name, entry: bool, i: nat)
    requires b.Cond? && i <= |b.branches|
    ensures var all := Branches(b, name, entry, i);
            && (all.ok <==> forall k :: i <= k < |b.branches| ==> Scan(b.branches[k].body, name, entry).ok)
            && (all.exit <==> forall k :: i <= k < |b.branches| ==> Scan(b.branches[k].body, name, entry).exit)
    decreases |b.branches| - i
  {
    if i < |b.branches| {
      BranchesAll(b, name, entry, i + 1);
    }
  }

  lemma {:induction false} BlocksOkAll(rg: Region, name: Name, entry: bool, out: seq<bool>, i: nat)
    requires |out| == |rg.blocks| && i <= |out|
    ensures BlocksOk(rg, name, entry, out, i) <==>
            forall k :: i <= k < |out| ==> BlockExit(rg.blocks[k], name, EntryOf(rg, entry, out, k)).ok
    decreases |out| - i
  {
    if i < |out| {
      BlocksOkAll(rg, name, entry, out, i + 1);
    }
  }

  lemma {:induction false} RegularRegionAgrees(rg: Region, name: Name, entry: bool)
    requires RegionRegular(rg, name)
    ensures Scan(rg, name, entry) == SafeScan(rg, name, entry)
    decreases rg
  {
    if rg.blocks != [] {
      var top := AllTrue(|rg.blocks|);
      TopologicalSettles(rg, name, entry, top, ROUNDS);
      ScanSolves(rg, name, entry);
      var out, safe := Rounds(rg, name, entry, top, ROUNDS), SafeRounds(rg, name, entry, top, |top|);
      forall i | 0 <= i < |out| ensures out[i] == safe[i] {
        RegularBlocksAgree(rg, name, entry, out, safe, i);
      }
      assert out == safe;
      forall i | 0 <= i < |out|
        ensures BlockExit(rg.blocks[i], name, EntryOf(rg, entry, out, i)).ok ==
                SafeBlock(rg.blocks[i], name, SafeEntry(rg, entry, out, i)).ok
      {
        SameEntry(rg, entry, out, i);
        RegularAgrees(rg.blocks[i], name, EntryOf(rg, entry, out, i));
      }
      BlocksOkAll(rg, name, entry, out, 0);
    }
  }

  lemma SameEntry(rg: Region, entry: bool, out: seq<bool>, i: nat)
    requires |out| == |rg.blocks| && i < |out| && (i == rg.start <==> !HasPred(rg, i))
    ensures EntryOf(rg, entry, out, i) == SafeEntry(rg, entry, out, i)
  {
  }

  lemma {:induction false} RegularBlocksAgree(rg: Region, name: Name, entry: bool, out: seq<bool>, safe: seq<bool>,
                                              i: nat)
    requires RegionRegular(rg, name) && Solves(rg, name, entry, out) && SafeSolved(rg, name, entry, safe) && i < |out|
    ensures out[i] == safe[i]
    decreases rg, 0, i
  {
    forall j | 0 <= j < i ensures out[j] == safe[j] {
      RegularBlocksAgree(rg, name, entry, out, safe, j);
    }
    SameEntry(rg, entry, out, i);
    assert SafeEntry(rg, entry, out, i) == SafeEntry(rg, entry, safe, i);
    assert SolvedAt(rg, name, entry, out, i) && SafeAt(rg, name, entry, safe, i);
    RegularAgrees(rg.blocks[i], name, EntryOf(rg, entry, out, i));
  }

  lemma {:induction false} RegularLive(b: Block, name: Name)
    requires Regular(b, name)
    ensures Live(b)
    decreases b
  {
    match b
    case Cond(_, branches) =>
      forall i | 0 <= i < |branches| ensures RegionLive(branches[i].body) {
        RegularRegionLive(branches[i].body, name);
      }
    case Loop(_, body) => RegularRegionLive(body, name);
    case _ =>
  }

  lemma {:induction false} RegularRegionLive(rg: Region, name: Name)
    requires RegionRegular(rg, name)
    ensures RegionLive(rg)
    decreases rg
  {
    forall i | 0 <= i < |rg.blocks| ensures Live(rg.blocks[i]) && HasWayOut(rg, i) {
      RegularLive(rg.blocks[i], name);
      TopologicalWayOut(rg, i);
    }
    forall via | 0 <= via < |rg.edges| ensures Joins(rg, via) {
      assert rg.edges[via] in rg.edges;
    }
    if rg.blocks != [] {
      assert !HasPred(rg, 0);
    }
  }

  // ---------------------------------------------------------------- where the analysis claims too much

  /** A loop may run no iteration and then defines nothing: an exit the loop case claims for a loop entered undefined is
      never right in every run. */
  lemma LoopExitNeverRight(h: Header, body: Region, name: Name)
    requires BlockExit(Loop(h, body), name, false).exit
    ensures ValidBlock(Loop(h, body), Iterations([])) &&
            !Defined(BlockTrace(Loop(h, body), Iterations([])), name, false)
  {
    var loop, none := Loop(h, body), Iterations([]);
    HeaderQuiet(h, name);
    var t := BlockTrace(loop, none);
    assert t == h.init + [Asked(h.cond, false)];
    forall i | 0 <= i < |t| ensures !Writes(t[i], name) {
      assert i < |h.init| ==> t[i] in h.init;
    }
  }

  // ---------------------------------------------------------------- from acceptance to copies

  /** No nested loop of an accepted block names the scalar in its header, so renaming reaches every use. */
  lemma {:induction false} AcceptedRenamable(b: Block, name: Name, entry: bool)
    requires Shaped(b, name) && BlockExit(b, name, entry).ok
    ensures Renamable(b, name)
    decreases b
  {
    match b
    case Cond(_, branches) =>
      forall i | 0 <= i < |branches| ensures RegionRenamable(branches[i].body, name) {
        BranchesAt(b, name, entry, 0, i);
        AcceptedRegionRenamable(branches[i].body, name, entry);
      }
    case Loop(h, body) =>
      LoopClosedForm(body, name, entry, Verdict(true, entry), ROUNDS);
      HeaderQuiet(h, name);
      AcceptedRegionRenamable(body, name, entry || Scan(body, name, false).exit);
    case _ =>
  }

  lemma {:induction false} AcceptedRegionRenamable(rg: Region, name: Name, entry: bool)
    requires RegionShaped(rg, name) && Scan(rg, name, entry).ok
    ensures RegionRenamable(rg, name)
    decreases rg
  {
    if rg.blocks != [] {
      var out := Rounds(rg, name, entry, AllTrue(|rg.blocks|), ROUNDS);
      forall i | 0 <= i < |rg.blocks| ensures Renamable(rg.blocks[i], name) {
        BlocksOkAt(rg, name, entry, out, 0, i);
        AcceptedRenamable(rg.blocks[i], name, EntryOf(rg, entry, out, i));
      }
    }
  }

  /** An accepted loop is local to its iterations when the exact scan accepts it too. */
  lemma AcceptedIsLocal(l: Block, name: Name)
    requires l.Loop? && RegionShaped(l.body, name) && Scan(l.body, name, false).ok && SafeScan(l.body, name, false).ok
    ensures IterationLocal(l, name)
  {
    AcceptedRegionRenamable(l.body, name, false);
    forall r | ValidRegion(l.body, r) ensures Covered(RegionTrace(l.body, r), name, false) {
      RegionSound(l.body, name, false, r);
    }
  }

  /** And only then: of the loops the analysis accepts, those with every read covered in its own iteration, in every
      run, are the ones the exact scan accepts. */
  lemma AcceptedIsLocalIff(l: Block, name: Name)
    requires l.Loop? && RegionShaped(l.body, name) && RegionLive(l.body) && Scan(l.body, name, false).ok
    ensures IterationLocal(l, name) <==> SafeScan(l.body, name, false).ok
  {
    AcceptedRegionRenamable(l.body, name, false);
    SafeScanExact(l.body, name);
  }

  /** In particular all of them, where what the analysis takes for granted holds. */
  lemma TrustedAcceptedIsLocal(l: Block, name: Name)
    requires l.Loop? && RegionShaped(l.body, name) && RegionTrusted(l.body, name) && Scan(l.body, name, false).ok
    ensures IterationLocal(l, name)
  {
    TrustedRegionIsSafe(l.body, name, false);
    AcceptedIsLocal(l, name);
  }

  /** And exactly those that are local, where the two scans agree: nothing is refused that could have its copies. */
  lemma RegularAcceptedIff(l: Block, name: Name)
    requires l.Loop? && RegionShaped(l.body, name) && RegionRegular(l.body, name)
    ensures Scan(l.body, name, false).ok <==> IterationLocal(l, name)
  {
    RegularRegionAgrees(l.body, name, false);
    if Scan(l.body, name, false).ok {
      AcceptedIsLocal(l, name);
    } else {
      RegularRegionLive(l.body, name);
      SafeScanExact(l.body, name);
    }
  }

  lemma QuietIsLocal(l: Block, name: Name)
    requires l.Loop? && Quiet(l, {name})
    ensures IterationLocal(l, name)
  {
    QuietRenamable(l, name);
    forall r | ValidRegion(l.body, r) ensures Covered(RegionTrace(l.body, r), name, false) {
      QuietRegionTrace(l.body, r, {name});
      assert Silent(RegionTrace(l.body, r), name);
      SilentCovered(RegionTrace(l.body, r), name, false);
    }
  }

  lemma {:induction false} QuietRenamable(b: Block, name: Name)
    requires Quiet(b, {name})
    ensures Renamable(b, name)
    decreases b
  {
    match b
    case Cond(_, branches) =>
      forall i | 0 <= i < |branches| ensures RegionRenamable(branches[i].body, name) {
        QuietRegionRenamable(branches[i].body, name);
      }
    case Loop(h, body) =>
      assert name in {name};
      QuietRegionRenamable(body, name);
    case _ =>
  }

  lemma {:induction false} QuietRegionRenamable(rg: Region, name: Name)
    requires RegionQuiet(rg, {name})
    ensures RegionRenamable(rg, name)
    decreases rg
  {
    forall i | 0 <= i < |rg.blocks| ensures Renamable(rg.blocks[i], name) {
      QuietRenamable(rg.blocks[i], name);
    }
    forall i | 0 <= i < |rg.edges| ensures SetsSymbols(rg.edges[i].acts, name) {
      assert name in {name} && SilentAll(rg.edges[i].acts, {name});
      forall j | 0 <= j < |rg.edges[i].acts| ensures !Writes(rg.edges[i].acts[j], name) {
        assert rg.edges[i].acts[j] in rg.edges[i].acts;
      }
    }
  }

  // ---------------------------------------------------------------- the pass

  /** The scalar is used in loops only, and in each of them as a local of the iteration, says the analysis. */
  ghost predicate Accepts(rg: Region, name: Name) {
    var loops := Groups(RegionLoops(rg, 0), name);
    !TouchedOutside(rg, name) && loops != [] &&
    forall l :: l in loops && l.Loop? ==> !HeaderNames(l.header, name) && Scan(l.body, name, false).ok
  }

  /** So says the exact scan. */
  ghost predicate LoopsSafe(rg: Region, name: Name) {
    forall l :: l in Groups(RegionLoops(rg, 0), name) && l.Loop? ==> SafeScan(l.body, name, false).ok
  }

  /** Every outermost loop that touches the scalar has regions of the expected shape, and the others do not mention
      it. */
  ghost predicate Supported(rg: Region, name: Name) {
    TopTests(rg, name) &&
    forall l :: l in RegionLoops(rg, 0) ==>
      l.Loop? && if BlockTouches(l, name) then RegionShaped(l.body, name) else Quiet(l, {name})
  }

  /** The pass accepts a scalar used in regular loops only exactly when each of them covers its own reads. */
  lemma AcceptsIff(rg: Region, name: Name)
    ensures RegularLoops(rg, name) ==> (Accepts(rg, name) <==> LocalToLoops(rg, name))
  {
    if RegularLoops(rg, name) {
      var loops := Groups(RegionLoops(rg, 0), name);
      forall l | l in loops && l.Loop? ensures Scan(l.body, name, false).ok <==> IterationLocal(l, name) {
        GroupsAre(RegionLoops(rg, 0), name, l);
        RegularAcceptedIff(l, name);
      }
      forall l | l in RegionLoops(rg, 0) && l.Loop?
        ensures !HeaderNames(l.header, name) <==> HeaderSilent(l.header, name)
      {
        HeaderQuiet(l.header, name);
        GroupsAre(RegionLoops(rg, 0), name, l);
      }
      if LocalToLoops(rg, name) || Accepts(rg, name) {
        HeadersOfAll(rg, name);
        TouchedOutsideIff(rg, name);
      }
    }
  }

  lemma HeadersOfAll(rg: Region, name: Name)
    requires RegularLoops(rg, name) && (LocalToLoops(rg, name) || Accepts(rg, name))
    ensures forall l :: l in RegionLoops(rg, 0) && l.Loop? ==> HeaderSilent(l.header, name)
  {
    forall l | l in RegionLoops(rg, 0) && l.Loop? ensures HeaderSilent(l.header, name) {
      GroupsAre(RegionLoops(rg, 0), name, l);
      HeaderQuiet(l.header, name);
    }
  }

  /** Loops that touch the scalar are regular; elsewhere conditions and headers do not name it. */
  ghost predicate RegularLoops(rg: Region, name: Name) {
    TopTests(rg, name) &&
    forall l :: l in RegionLoops(rg, 0) && l.Loop? ==>
      if BlockTouches(l, name) then RegionShaped(l.body, name) && RegionRegular(l.body, name)
      else HeaderSilent(l.header, name)
  }

  /** Loops touch the scalar and nothing else does, and each of them leaves its header out and has every read covered in
      its own iteration, in every run. */
  ghost predicate LocalToLoops(rg: Region, name: Name) {
    var loops := Groups(RegionLoops(rg, 0), name);
    && OutsideSilent(rg, name) && loops != []
    && forall l :: l in loops && l.Loop? ==> HeaderSilent(l.header, name) && IterationLocal(l, name)
  }

  /** In every run, the rewritten program does to every container outside `hidden` what the program does. */
  ghost predicate SameProgram(rg: Region, rg': Region, hidden: set<Name>) {
    forall m, r :: SameRun(m, rg, rg', r, hidden)
  }

  ghost predicate SameRun(m: Meaning, rg: Region, rg': Region, r: RegionRun, hidden: set<Name>) {
    && (ValidRegion(rg, r) <==> ValidRegion(rg', r))
    && (ValidRegion(rg, r) && ValidRegion(rg', r) ==> SameEffect(m, RegionTrace(rg, r), RegionTrace(rg', r), hidden))
  }

  /** The whole pass on one scalar, as a statement about programs. */
  lemma FissionSame(rg: Region, name: Name, copy: nat -> Name, hidden: set<Name>)
    requires Supported(rg, name) && Accepts(rg, name) && LoopsSafe(rg, name)
    requires name in hidden && RegionQuiet(rg, hidden - {name}) && forall i :: copy(i) in hidden
    ensures SameProgram(rg, SplitRegion(rg, name, copy), hidden)
  {
    var loops, rg' := RegionLoops(rg, 0), SplitRegion(rg, name, copy);
    forall l | l in loops ensures IterationLocal(l, name) && HeaderSilent(l.header, name) {
      GroupsAre(loops, name, l);
      if BlockTouches(l, name) {
        AcceptedIsLocal(l, name);
      } else {
        QuietIsLocal(l, name);
        assert name in {name};
      }
    }
    RegionBecomesLoopsOnly(rg, name, hidden);
    forall m, r ensures SameRun(m, rg, rg', r, hidden) {
      SplitRegionRuns(rg, r, name, copy);
      if ValidRegion(rg, r) {
        SplitRegionSame(m, rg, r, name, copy, hidden);
      }
    }
  }

  /** `names` lists the names given so far. */
  datatype Outcome = LeftWhole | Made(names: seq<Name>) | Clash(names: seq<Name>)

  /** The groups' loops get the names of `made`, one each, and the other loops keep theirs. */
  ghost predicate Gives(groups: seq<Block>, name: Name, copy: nat -> Name, made: seq<Name>) {
    && |made| <= |groups|
    && (forall k :: 0 <= k < |made| ==> copy(BlockId(groups[k])) == made[k])
    && (forall id :: (forall k :: 0 <= k < |made| ==> id != BlockId(groups[k])) ==> copy(id) == name)
  }

  /** A name the program does not declare is mentioned nowhere in it. */
  ghost predicate Declared(rg: Region, names: set<Name>) {
    forall xs: set<Name> :: xs !! names ==> RegionQuiet(rg, xs)
  }

  /** The objects have identities of their own, as the scan's table needs. */
  ghost predicate Identified(groups: seq<Block>, world: map<nat, Thing>) {
    && (forall l :: l in groups ==> l.Loop? && l.body.id in world && world[l.body.id] == ABlock(l))
    && (forall l :: l in groups ==> BlocksFit(world, set x | x in groups :: BlockId(x), l.body))
  }

  /** The loops of the first groups go by the names of `made`, which are new, and nothing else was changed. */
  ghost predicate GaveNames(rg: Region, rg': Region, name: Name, named: nat -> Name, made: seq<Name>,
                            names: set<Name>) {
    var groups := Groups(RegionLoops(rg, 0), name);
    && |made| <= |groups| && NewNames(made, names)
    && (forall k :: 0 <= k < |made| ==> made[k] == named(BlockId(groups[k])))
    && exists copy :: rg' == SplitRegion(rg, name, copy) && Gives(groups, name, copy, made)
  }

  class Sdfg {
    var names: set<Name>
    var top: Region

    /** The body of `fission_loop_local_scalars`' loop, on one size-1 transient; `named` makes a name of a loop's label.
        On a clash the loops before have been renamed already. */
    method FissionScalar(name: Name, named: nat -> Name, ghost world: map<nat, Thing>) returns (r: Outcome)
      requires name in names && Identified(Groups(RegionLoops(top, 0), name), world)
      modifies this
      ensures r.LeftWhole? <==> !old(Accepts(top, name))
      ensures old(RegularLoops(top, name)) ==> (r.LeftWhole? <==> !old(LocalToLoops(top, name)))
      ensures r.LeftWhole? ==> unchanged(this)
      ensures !r.LeftWhole? ==> GaveNames(old(top), top, name, named, r.names, old(names))
      ensures r.Made? ==>
        && |r.names| == |Groups(RegionLoops(old(top), 0), name)| && !Touches(top, name)
        && names == old(names) - {name} + set x | x in r.names
      ensures r.Clash? ==>
        var groups := Groups(RegionLoops(old(top), 0), name);
        && |r.names| < |groups| && named(BlockId(groups[|r.names|])) in names
        && names == old(names) + set x | x in r.names
      ensures r.Made? && old(Supported(top, name) && Declared(top, names)) ==>
        RegionQuiet(top, {name}) && Declared(top, names)
      ensures r.Made? && old(Supported(top, name) && Declared(top, names) && LoopsSafe(top, name)) ==>
        SameProgram(old(top), top, {name} + set x | x in r.names)
    {
      ghost var rg, namesBefore := top, names;
      AcceptsIff(top, name);
      var loops := Groups(RegionLoops(top, 0), name);
      if TouchedOutside(top, name) || loops == [] {
        return LeftWhole;
      }
      var analysis := new Analysis(name);
      var safe := analysis.AllSafe(loops, world);
      if !safe {
        return LeftWhole;
      }
      r := RenameLoops(name, named, loops);
      if r.Clash? {
        return;
      }
      ghost var copy :| top == SplitRegion(rg, name, copy) && Gives(loops, name, copy, r.names);
      AllRenamed(rg, name, copy, loops, r.names, namesBefore);
      if !Touches(top, name) {
        names := names - {name};
      }
    }

    /** The loop over the groups. */
    method RenameLoops(name: Name, named: nat -> Name, loops: seq<Block>) returns (r: Outcome)
      requires name in names && loops == Groups(RegionLoops(top, 0), name)
      modifies this
      ensures !r.LeftWhole? && GaveNames(old(top), top, name, named, r.names, old(names))
      ensures names == old(names) + set x | x in r.names
      ensures r.Made? ==> |r.names| == |loops|
      ensures r.Clash? ==> |r.names| < |loops| && named(BlockId(loops[|r.names|])) in names
    {
      ghost var rg, namesBefore := top, names;
      var made := [];
      ghost var copy := (id: nat) => name;
      SplitSelf(top, name, copy);
      for i := 0 to |loops|
        invariant |made| == i && names == namesBefore + set x | x in made
        invariant NewNames(made, namesBefore) && Gives(loops, name, copy, made)
        invariant forall k :: 0 <= k < i ==> made[k] == named(BlockId(loops[k]))
        invariant top == SplitRegion(rg, name, copy)
      {
        var id := BlockId(loops[i]);
        var added := named(id);
        if added in names {
          return Clash(made);
        }
        ghost var copy' := (x: nat) => if x == id then added else copy(x);
        var only := (x: nat) => if x == id then added else name;
        GivesNext(loops, name, copy, made, id, added, copy');
        SplitAgain(rg, name, copy, only, copy');
        names := names + {added};
        top := SplitRegion(top, name, only);
        made := made + [added];
        copy := copy';
      }
      r := Made(made);
    }
  }

  lemma GivesNext(loops: seq<Block>, name: Name, copy: nat -> Name, made: seq<Name>, id: nat, added: Name,
                  copy': nat -> Name)
    requires Gives(loops, name, copy, made) && |made| < |loops| && id == BlockId(loops[|made|])
    requires forall k :: 0 <= k < |made| ==> BlockId(loops[k]) != id
    requires forall x :: copy'(x) == if x == id then added else copy(x)
    ensures Gives(loops, name, copy', made + [added]) && copy(id) == name
  {
  }

  /** With every group's loop renamed, the name is gone, and under the conditions of the theorem nothing else
      changed. */
  lemma AllRenamed(rg: Region, name: Name, copy: nat -> Name, loops: seq<Block>, made: seq<Name>, names: set<Name>)
    requires loops == Groups(RegionLoops(rg, 0), name) && |made| == |loops| && Accepts(rg, name) && name in names
    requires Gives(loops, name, copy, made) && NewNames(made, names)
    ensures !Touches(SplitRegion(rg, name, copy), name)
    ensures Supported(rg, name) && Declared(rg, names) ==>
      var rg' := SplitRegion(rg, name, copy);
      RegionQuiet(rg', {name}) && Declared(rg', names - {name} + set x | x in made)
    ensures Supported(rg, name) && Declared(rg, names) && LoopsSafe(rg, name) ==>
      SameProgram(rg, SplitRegion(rg, name, copy), {name} + set x | x in made)
  {
    forall l | l in RegionLoops(rg, 0) && l.Loop? && BlockTouches(l, name) ensures copy(l.body.id) != name {
      GroupsAre(RegionLoops(rg, 0), name, l);
      var k :| 0 <= k < |loops| && loops[k] == l;
      assert copy(BlockId(loops[k])) == made[k] && made[k] in made;
    }
    SplitUntouched(rg, name, copy);
    var hidden := {name} + set x | x in made;
    forall id ensures copy(id) in hidden {
      if k :| 0 <= k < |made| && id == BlockId(loops[k]) {
        assert made[k] in made;
      }
    }
    if Supported(rg, name) && Declared(rg, names) {
      NameGone(rg, name, copy);
      DeclaredStays(rg, name, copy, names, set x | x in made);
      if LoopsSafe(rg, name) {
        assert hidden - {name} !! names;
        FissionSame(rg, name, copy, hidden);
      }
    }
  }

  lemma NameGone(rg: Region, name: Name, copy: nat -> Name)
    requires Supported(rg, name) && Accepts(rg, name) && RegionQuiet(rg, {})
    requires forall l :: l in RegionLoops(rg, 0) && l.Loop? && BlockTouches(l, name) ==> copy(l.body.id) != name
    ensures RegionQuiet(SplitRegion(rg, name, copy), {name})
  {
    forall l | l in RegionLoops(rg, 0) && l.Loop? ensures HeaderSilent(l.header, name) && Renames(l, name, copy) {
      GroupsAre(RegionLoops(rg, 0), name, l);
      if BlockTouches(l, name) {
        AcceptedRegionRenamable(l.body, name, false);
      } else {
        QuietRenamable(l, name);
      }
    }
    assert {name} - {name} == {};
    RegionBecomesLoopsOnly(rg, name, {name});
    SplitQuiet(rg, name, copy);
  }

  lemma DeclaredStays(rg: Region, name: Name, copy: nat -> Name, names: set<Name>, made: set<Name>)
    requires Declared(rg, names) && RegionQuiet(SplitRegion(rg, name, copy), {name})
    requires forall id :: copy(id) in {name} + made
    ensures Declared(SplitRegion(rg, name, copy), names - {name} + made)
  {
    var rg' := SplitRegion(rg, name, copy);
    forall xs: set<Name> | xs !! names - {name} + made ensures RegionQuiet(rg', xs) {
      var ys := xs - {name};
      assert RegionQuiet(rg, ys);
      SplitKeepsQuiet(rg, name, copy, ys);
      QuietUnion(rg', ys, {name}, xs);
    }
  }
}
