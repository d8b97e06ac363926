/** One copy of a container per outermost loop: the rewrite both passes make, and the parts of its correctness they
    share. */
module LoopCopies {
  import opened ControlFlow
  import opened Renaming
  import opened Options

  // ---------------------------------------------------------------- the rewrite

  /** Inside each outermost loop the container goes by the name `copy` gives that loop. */
  function SplitBlock(b: Block, name: Name, copy: nat -> Name): Block
    decreases b
  {
    match b
    case Cond(id, branches) =>
      Cond(id, seq(|branches|, i requires 0 <= i < |branches| =>
        branches[i].(body := SplitRegion(branches[i].body, name, copy))))
    case Loop(h, body) => Loop(h, RenameRegion(body, name, copy(body.id)))
    case _ => b
  }

  function SplitRegion(rg: Region, name: Name, copy: nat -> Name): Region
    decreases rg
  {
    rg.(blocks := seq(|rg.blocks|, i requires 0 <= i < |rg.blocks| => SplitBlock(rg.blocks[i], name, copy)))
  }

  /** Names given to copies: none twice, and none in use. */
  ghost predicate NewNames(made: seq<Name>, names: set<Name>) {
    && (forall i, j :: 0 <= i < j < |made| ==> made[i] != made[j])
    && (forall x :: x in made ==> x !in names)
  }

  /** The rewrite changes no block's shape, so the program keeps its runs. */
  lemma {:induction false} SplitBlockRuns(b: Block, r: BlockRun, name: Name, copy: nat -> Name)
    ensures ValidBlock(SplitBlock(b, name, copy), r) <==> ValidBlock(b, r)
    decreases r, 0
  {
    match b
    case Cond(_, branches) =>
      if r.Taken? && r.branch < |branches| {
        SplitRegionRuns(branches[r.branch].body, r.inner, name, copy);
      }
      SameElse(branches, SplitBlock(b, name, copy).branches);
    case Loop(h, body) => RenameBlockRuns(b, r, name, copy(body.id));
    case _ =>
  }

  lemma {:induction false} SplitRegionRuns(rg: Region, r: RegionRun, name: Name, copy: nat -> Name)
    ensures ValidRegion(SplitRegion(rg, name, copy), r) <==> ValidRegion(rg, r)
    decreases r, 2
  {
    if rg.blocks != [] {
      SplitPathRuns(rg, r, name, copy);
    }
  }

  lemma {:induction false} SplitPathRuns(rg: Region, r: RegionRun, name: Name, copy: nat -> Name)
    ensures ValidPath(SplitRegion(rg, name, copy), r) <==> ValidPath(rg, r)
    decreases r, 1
  {
    if !r.Empty? && r.block < |rg.blocks| {
      SplitBlockRuns(rg.blocks[r.block], r.run, name, copy);
      SameSinks(rg, SplitRegion(rg, name, copy), r.block);
      if r.Then? {
        SplitPathRuns(rg, r.rest, name, copy);
      }
    }
  }

  // ---------------------------------------------------------------- same effect

  /** From stores equal outside `hidden`, both traces can be performed or neither, and leave stores equal outside it. */
  ghost predicate SameEffect(m: Meaning, a: seq<Event>, a': seq<Event>, hidden: set<Name>) {
    forall s, s' :: Agree(s, s', hidden) ==> AgreeResults(Exec(m, a, s), Exec(m, a', s'), hidden)
  }

  lemma SameConcat(m: Meaning, a: seq<Event>, a': seq<Event>, b: seq<Event>, b': seq<Event>, hidden: set<Name>)
    requires SameEffect(m, a, a', hidden) && SameEffect(m, b, b', hidden)
    ensures SameEffect(m, a + b, a' + b', hidden)
  {
    forall s, s' | Agree(s, s', hidden) ensures AgreeResults(Exec(m, a + b, s), Exec(m, a' + b', s'), hidden) {
      ExecConcat(m, a, b, s);
      ExecConcat(m, a', b', s');
      assert AgreeResults(Exec(m, a, s), Exec(m, a', s'), hidden);
    }
  }

  lemma SameSilent(m: Meaning, a: seq<Event>, hidden: set<Name>)
    requires SilentAll(a, hidden)
    ensures SameEffect(m, a, a, hidden)
  {
    forall s, s' | Agree(s, s', hidden) ensures AgreeResults(Exec(m, a, s), Exec(m, a, s'), hidden) {
      SilentSame(m, a, s, s', hidden);
    }
  }

  /** Events covered from the start do not need the old contents. */
  lemma SameRenamed(m: Meaning, a: seq<Event>, name: Name, to: Name, hidden: set<Name>)
    requires Covered(a, name, false) && name in hidden && to in hidden && SilentAll(a, hidden - {name})
    ensures SameEffect(m, a, RenameTrace(a, name, to), hidden)
  {
    forall s, s' | Agree(s, s', hidden)
      ensures AgreeResults(Exec(m, a, s), Exec(m, RenameTrace(a, name, to), s'), hidden)
    {
      RenamedSame(m, a, name, to, hidden, s, s', false);
    }
  }

  // ---------------------------------------------------------------- who mentions what

  ghost predicate CondQuiet(cond: Option<Test>, names: set<Name>) {
    forall x :: x in names && cond.Some? ==> x !in cond.value.uses
  }

  ghost predicate HeaderQuietAll(h: Header, names: set<Name>) {
    forall x :: x in names ==> HeaderSilent(h, x)
  }

  ghost predicate EdgesQuiet(rg: Region, names: set<Name>) {
    forall i :: 0 <= i < |rg.edges| ==> SilentAll(rg.edges[i].acts, names)
  }

  /** Nothing in the block mentions any of the names. */
  ghost predicate Quiet(b: Block, names: set<Name>)
    decreases b
  {
    match b
    case State(_, stmts) => SilentAll(StmtEvents(stmts), names)
    case Cond(_, branches) =>
      forall i :: 0 <= i < |branches| ==> CondQuiet(branches[i].cond, names) && RegionQuiet(branches[i].body, names)
    case Loop(h, body) => HeaderQuietAll(h, names) && RegionQuiet(body, names)
    case Jump(_) => true
  }

  ghost predicate RegionQuiet(rg: Region, names: set<Name>)
    decreases rg
  {
    EdgesQuiet(rg, names) && forall i :: 0 <= i < |rg.blocks| ==> Quiet(rg.blocks[i], names)
  }

  lemma {:induction false} RefusedQuiet(branches: seq<Branch>, names: set<Name>)
    requires forall i :: 0 <= i < |branches| ==> CondQuiet(branches[i].cond, names)
    ensures SilentAll(Refused(branches), names)
    decreases |branches|
  {
    if branches != [] {
      RefusedQuiet(branches[1..], names);
      var head := if branches[0].cond.Some? then [Asked(branches[0].cond.value, false)] else [];
      SilentAllConcat(head, Refused(branches[1..]), names);
    }
  }

  lemma {:induction false} QuietTrace(b: Block, r: BlockRun, names: set<Name>)
    requires ValidBlock(b, r) && Quiet(b, names)
    ensures SilentAll(BlockTrace(b, r), names)
    decreases r, 0
  {
    match b
    case State(_, _) =>
    case Jump(_) =>
    case Cond(_, branches) =>
      if r.Taken? {
        var i := r.branch;
        RefusedQuiet(branches[..i], names);
        QuietRegionTrace(branches[i].body, r.inner, names);
        SilentAllConcat(Refused(branches[..i]), Entered(branches[i]), names);
        SilentAllConcat(Refused(branches[..i]) + Entered(branches[i]), RegionTrace(branches[i].body, r.inner), names);
      } else {
        RefusedQuiet(branches, names);
      }
    case Loop(h, body) =>
      QuietLoopTrace(h, body, r.iters, names);
      SilentAllConcat(h.init, LoopTrace(h, body, r.iters), names);
      SilentAllConcat(h.init + LoopTrace(h, body, r.iters), [Asked(h.cond, false)], names);
  }

  lemma {:induction false} QuietLoopTrace(h: Header, body: Region, iters: seq<RegionRun>, names: set<Name>)
    requires HeaderQuietAll(h, names) && RegionQuiet(body, names)
    requires forall i :: 0 <= i < |iters| ==> ValidRegion(body, iters[i])
    ensures SilentAll(LoopTrace(h, body, iters), names)
    decreases iters
  {
    if iters != [] {
      QuietRegionTrace(body, iters[0], names);
      QuietLoopTrace(h, body, iters[1..], names);
      var first, t := [Asked(h.cond, true)], RegionTrace(body, iters[0]);
      SilentAllConcat(first, t, names);
      SilentAllConcat(first + t, h.update, names);
      SilentAllConcat(first + t + h.update, LoopTrace(h, body, iters[1..]), names);
    }
  }

  lemma {:induction false} QuietRegionTrace(rg: Region, r: RegionRun, names: set<Name>)
    requires ValidRegion(rg, r) && RegionQuiet(rg, names)
    ensures SilentAll(RegionTrace(rg, r), names)
    decreases r, 2
  {
    if rg.blocks != [] {
      QuietPathTrace(rg, r, names);
    }
  }

  lemma {:induction false} QuietPathTrace(rg: Region, r: RegionRun, names: set<Name>)
    requires ValidPath(rg, r) && RegionQuiet(rg, names)
    ensures SilentAll(PathTrace(rg, r), names)
    decreases r, 1
  {
    QuietTrace(rg.blocks[r.block], r.run, names);
    var t := BlockTrace(rg.blocks[r.block], r.run);
    if r.Last? {
      assert t + [] == t;
    } else {
      QuietPathTrace(rg, r.rest, names);
      SilentAllConcat(rg.edges[r.via].acts, PathTrace(rg, r.rest), names);
      SilentAllConcat(t, rg.edges[r.via].acts + PathTrace(rg, r.rest), names);
    }
  }

  /** Outside its loops the program mentions none of `hidden`, and inside them only `name`. */
  ghost predicate LoopsOnly(b: Block, name: Name, hidden: set<Name>)
    decreases b
  {
    match b
    case State(_, stmts) => SilentAll(StmtEvents(stmts), hidden)
    case Cond(_, branches) =>
      forall i :: 0 <= i < |branches| ==>
        CondQuiet(branches[i].cond, hidden) && RegionLoopsOnly(branches[i].body, name, hidden)
    case Loop(h, body) => HeaderQuietAll(h, hidden) && RegionQuiet(body, hidden - {name})
    case Jump(_) => true
  }

  ghost predicate RegionLoopsOnly(rg: Region, name: Name, hidden: set<Name>)
    decreases rg
  {
    EdgesQuiet(rg, hidden) && forall i :: 0 <= i < |rg.blocks| ==> LoopsOnly(rg.blocks[i], name, hidden)
  }

  /** The outermost loops of a block, and of a region. */
  function LoopsOf(b: Block): seq<Block>
    decreases b, 1
  {
    match b
    case Cond(_, branches) => BranchLoops(b, 0)
    case Loop(_, _) => [b]
    case _ => []
  }

  function BranchLoops(b: Block, i: nat): seq<Block>
    requires b.Cond? && i <= |b.branches|
    decreases b, 0, |b.branches| - i
  {
    if i == |b.branches| then [] else RegionLoops(b.branches[i].body, 0) + BranchLoops(b, i + 1)
  }

  function RegionLoops(rg: Region, i: nat): seq<Block>
    requires i <= |rg.blocks|
    decreases rg, 0, |rg.blocks| - i
  {
    if i == |rg.blocks| then [] else LoopsOf(rg.blocks[i]) + RegionLoops(rg, i + 1)
  }

  lemma {:induction false} BranchLoopsHold(b: Block, i: nat, k: nat, l: Block)
    requires b.Cond? && i <= k < |b.branches| && l in RegionLoops(b.branches[k].body, 0)
    ensures l in BranchLoops(b, i)
    decreases k - i
  {
    if i < k {
      BranchLoopsHold(b, i + 1, k, l);
    }
  }

  lemma {:induction false} RegionLoopsHold(rg: Region, i: nat, k: nat, l: Block)
    requires i <= k < |rg.blocks| && l in LoopsOf(rg.blocks[k])
    ensures l in RegionLoops(rg, i)
    decreases k - i
  {
    if i < k {
      RegionLoopsHold(rg, i + 1, k, l);
    }
  }

  // ---------------------------------------------------------------- copies the iterations do not notice

  /** Every run of the loop's body is covered from its start. */
  ghost predicate IterationLocal(l: Block, name: Name) {
    l.Loop? ==> RegionRenamable(l.body, name) && CoveredInRuns(l.body, name)
  }

  ghost predicate AllLocal(loops: seq<Block>, name: Name) {
    forall l :: l in loops ==> IterationLocal(l, name)
  }

  lemma {:induction false} LocalLoopSame(m: Meaning, h: Header, body: Region, iters: seq<RegionRun>, name: Name,
                                         to: Name, hidden: set<Name>)
    requires HeaderQuietAll(h, hidden) && RegionQuiet(body, hidden - {name}) && name in hidden && to in hidden
    requires IterationLocal(Loop(h, body), name)
    requires forall i :: 0 <= i < |iters| ==> ValidRegion(body, iters[i])
    ensures forall i :: 0 <= i < |iters| ==> ValidRegion(RenameRegion(body, name, to), iters[i])
    ensures SameEffect(m, LoopTrace(h, body, iters), LoopTrace(h, RenameRegion(body, name, to), iters), hidden)
    decreases iters
  {
    var body' := RenameRegion(body, name, to);
    if iters == [] {
      SameSilent(m, [], hidden);
    } else {
      LocalLoopSame(m, h, body, iters[1..], name, to, hidden);
      var r := iters[0];
      RenameRegionTrace(body, r, name, to);
      forall i | 0 <= i < |iters| ensures ValidRegion(body', iters[i]) {
        assert i > 0 ==> iters[i] == iters[1..][i - 1];
      }
      QuietRegionTrace(body, r, hidden - {name});
      var t, first := RegionTrace(body, r), [Asked(h.cond, true)];
      SameRenamed(m, t, name, to, hidden);
      SameSilent(m, first, hidden);
      SameSilent(m, h.update, hidden);
      var t' := RenameTrace(t, name, to);
      SameConcat(m, first, first, t, t', hidden);
      SameConcat(m, first + t, first + t', h.update, h.update, hidden);
      SameConcat(m, first + t + h.update, first + t' + h.update,
                 LoopTrace(h, body, iters[1..]), LoopTrace(h, body', iters[1..]), hidden);
    }
  }

  /** Splitting a container whose loops are iteration-local changes no other container, in any run. */
  lemma {:induction false} SplitBlockSame(m: Meaning, b: Block, r: BlockRun, name: Name, copy: nat -> Name,
                                          hidden: set<Name>)
    requires ValidBlock(b, r) && LoopsOnly(b, name, hidden) && AllLocal(LoopsOf(b), name)
    requires name in hidden && forall i :: copy(i) in hidden
    ensures ValidBlock(SplitBlock(b, name, copy), r)
    ensures SameEffect(m, BlockTrace(b, r), BlockTrace(SplitBlock(b, name, copy), r), hidden)
    decreases r, 1
  {
    match b
    case State(_, stmts) => SameSilent(m, StmtEvents(stmts), hidden);
    case Jump(_) => SameSilent(m, [], hidden);
    case Cond(_, branches) => SplitCondSame(m, b, r, name, copy, hidden);
    case Loop(h, body) =>
      assert b in LoopsOf(b);
      var body' := RenameRegion(body, name, copy(body.id));
      LocalLoopSame(m, h, body, r.iters, name, copy(body.id), hidden);
      var done := [Asked(h.cond, false)];
      SameSilent(m, h.init, hidden);
      SameSilent(m, done, hidden);
      SameConcat(m, h.init, h.init, LoopTrace(h, body, r.iters), LoopTrace(h, body', r.iters), hidden);
      SameConcat(m, h.init + LoopTrace(h, body, r.iters), h.init + LoopTrace(h, body', r.iters), done, done, hidden);
  }

  lemma {:induction false} SameTests(branches: seq<Branch>, branches': seq<Branch>)
    requires |branches| == |branches'| && forall i :: 0 <= i < |branches| ==> branches[i].cond == branches'[i].cond
    ensures Refused(branches) == Refused(branches')
    decreases |branches|
  {
    if branches != [] {
      SameTests(branches[1..], branches'[1..]);
    }
  }

  lemma {:induction false} SplitCondSame(m: Meaning, b: Block, r: BlockRun, name: Name, copy: nat -> Name,
                                         hidden: set<Name>)
    requires b.Cond? && ValidBlock(b, r) && LoopsOnly(b, name, hidden) && AllLocal(LoopsOf(b), name)
    requires name in hidden && forall i :: copy(i) in hidden
    ensures ValidBlock(SplitBlock(b, name, copy), r)
    ensures SameEffect(m, BlockTrace(b, r), BlockTrace(SplitBlock(b, name, copy), r), hidden)
    decreases r, 0
  {
    var branches, branches' := b.branches, SplitBlock(b, name, copy).branches;
    if r.Taken? {
      var i := r.branch;
      forall l | l in RegionLoops(branches[i].body, 0) ensures IterationLocal(l, name) {
        BranchLoopsHold(b, 0, i, l);
      }
      SplitRegionSame(m, branches[i].body, r.inner, name, copy, hidden);
      RefusedQuiet(branches[..i], hidden);
      SameTests(branches[..i], branches'[..i]);
      var before := Refused(branches[..i]) + Entered(branches[i]);
      SilentAllConcat(Refused(branches[..i]), Entered(branches[i]), hidden);
      SameSilent(m, before, hidden);
      SameConcat(m, before, before, RegionTrace(branches[i].body, r.inner),
                 RegionTrace(branches'[i].body, r.inner), hidden);
    } else {
      forall br | br in branches' ensures br.cond.Some? {
        var i :| 0 <= i < |branches'| && branches'[i] == br;
        assert branches[i] in branches;
      }
      RefusedQuiet(branches, hidden);
      SameTests(branches, branches');
      SameSilent(m, Refused(branches), hidden);
    }
  }

  lemma {:induction false} SplitRegionSame(m: Meaning, rg: Region, r: RegionRun, name: Name, copy: nat -> Name,
                                           hidden: set<Name>)
    requires ValidRegion(rg, r) && RegionLoopsOnly(rg, name, hidden) && AllLocal(RegionLoops(rg, 0), name)
    requires name in hidden && forall i :: copy(i) in hidden
    ensures ValidRegion(SplitRegion(rg, name, copy), r)
    ensures SameEffect(m, RegionTrace(rg, r), RegionTrace(SplitRegion(rg, name, copy), r), hidden)
    decreases r, 2
  {
    if rg.blocks == [] {
      SameSilent(m, [], hidden);
    } else {
      SplitPathSame(m, rg, r, name, copy, hidden);
    }
  }

  lemma {:induction false} SplitPathSame(m: Meaning, rg: Region, r: RegionRun, name: Name, copy: nat -> Name,
                                         hidden: set<Name>)
    requires ValidPath(rg, r) && RegionLoopsOnly(rg, name, hidden) && AllLocal(RegionLoops(rg, 0), name)
    requires name in hidden && forall i :: copy(i) in hidden
    ensures ValidPath(SplitRegion(rg, name, copy), r)
    ensures SameEffect(m, PathTrace(rg, r), PathTrace(SplitRegion(rg, name, copy), r), hidden)
    decreases r, 1
  {
    var rg' := SplitRegion(rg, name, copy);
    var b, b' := rg.blocks[r.block], rg'.blocks[r.block];
    forall l | l in LoopsOf(b) ensures IterationLocal(l, name) {
      RegionLoopsHold(rg, 0, r.block, l);
    }
    SplitBlockSame(m, b, r.run, name, copy, hidden);
    var t, t' := BlockTrace(b, r.run), BlockTrace(b', r.run);
    if r.Last? {
      assert t + [] == t && t' + [] == t';
    } else {
      SplitPathSame(m, rg, r.rest, name, copy, hidden);
      var acts := rg.edges[r.via].acts;
      SameSilent(m, acts, hidden);
      SameConcat(m, acts, acts, PathTrace(rg, r.rest), PathTrace(rg', r.rest), hidden);
      SameConcat(m, t, t', acts + PathTrace(rg, r.rest), acts + PathTrace(rg', r.rest), hidden);
    }
  }
}
