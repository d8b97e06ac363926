/** Renaming a container in some of the loops: which uses of it are left. */
module LoopRenames {
  import opened ControlFlow
  import opened MustDefined
  import opened Renaming
  import opened LoopCopies
  import opened Options

  // ---------------------------------------------------------------- who touches the container

  /** `_touched_states` and `_touched_edges`, inside one region: some state accesses the scalar or an edge reads it. */
  predicate Touches(rg: Region, name: Name)
    decreases rg
  {
    || (exists i :: 0 <= i < |rg.blocks| && BlockTouches(rg.blocks[i], name))
    || (exists e :: e in rg.edges && ActsRead(e.acts, name))
  }

  predicate BlockTouches(b: Block, name: Name)
    decreases b
  {
    match b
    case State(_, stmts) => StmtsTouch(stmts, name)
    case Cond(_, branches) => exists i :: 0 <= i < |branches| && Touches(branches[i].body, name)
    case Loop(_, body) => Touches(body, name)
    case Jump(_) => false
  }

  predicate StmtsTouch(stmts: seq<Stmt>, name: Name) {
    exists s :: s in stmts && (s.output.data == name || name in Names(s.inputs))
  }

  /** A touch that no loop encloses.  An edge between the blocks of an outermost loop counts: the pass looks for a loop
      around the edge's region, which is that loop itself. */
  predicate TouchedOutside(rg: Region, name: Name)
    decreases rg
  {
    || (exists i :: 0 <= i < |rg.blocks| && BlockTouchedOutside(rg.blocks[i], name))
    || (exists e :: e in rg.edges && ActsRead(e.acts, name))
  }

  predicate BlockTouchedOutside(b: Block, name: Name)
    decreases b
  {
    match b
    case State(_, stmts) => StmtsTouch(stmts, name)
    case Cond(_, branches) => exists i :: 0 <= i < |branches| && TouchedOutside(branches[i].body, name)
    case Loop(_, body) => exists e :: e in body.edges && ActsRead(e.acts, name)
    case Jump(_) => false
  }

  /** The loops of `loops` that touch the scalar: the groups of the pass. */
  function Groups(loops: seq<Block>, name: Name): seq<Block> {
    if loops == [] then []
    else (if BlockTouches(loops[0], name) then [loops[0]] else []) + Groups(loops[1..], name)
  }

  lemma {:induction false} GroupsAre(loops: seq<Block>, name: Name, l: Block)
    ensures l in Groups(loops, name) <==> l in loops && BlockTouches(l, name)
    decreases |loops|
  {
    if loops != [] {
      GroupsAre(loops[1..], name, l);
    }
  }

  ghost predicate CondSilent(cond: Option<Test>, name: Name) {
    cond.Some? ==> name !in cond.value.uses
  }

  /** What the pass takes for granted of the code outside loops: conditions do not name the scalar, edges set
      symbols. */
  ghost predicate TopTests(rg: Region, name: Name)
    decreases rg
  {
    && (forall i :: 0 <= i < |rg.edges| ==> SetsSymbols(rg.edges[i].acts, name))
    && (forall i :: 0 <= i < |rg.blocks| ==> BlockTopTests(rg.blocks[i], name))
  }

  ghost predicate BlockTopTests(b: Block, name: Name)
    decreases b
  {
    b.Cond? ==> forall i :: 0 <= i < |b.branches| ==>
      CondSilent(b.branches[i].cond, name) && TopTests(b.branches[i].body, name)
  }

  lemma {:induction false} BlockLoopsOnly(b: Block, name: Name, hidden: set<Name>)
    requires name in hidden && Quiet(b, hidden - {name}) && !BlockTouchedOutside(b, name) && BlockTopTests(b, name)
    requires forall l :: l in LoopsOf(b) && l.Loop? ==> HeaderSilent(l.header, name)
    ensures LoopsOnly(b, name, hidden)
    decreases b
  {
    match b
    case State(_, stmts) =>
      forall e | e in StmtEvents(stmts) ensures !Mentions(e, name) {
        var i :| 0 <= i < |stmts| && StmtEvents(stmts)[i] == e;
        assert stmts[i] in stmts;
      }
      assert Silent(StmtEvents(stmts), name);
    case Cond(_, branches) =>
      forall i | 0 <= i < |branches|
        ensures CondQuiet(branches[i].cond, hidden) && RegionLoopsOnly(branches[i].body, name, hidden)
      {
        forall l | l in RegionLoops(branches[i].body, 0) && l.Loop? ensures HeaderSilent(l.header, name) {
          BranchLoopsHold(b, 0, i, l);
        }
        assert CondSilent(branches[i].cond, name) && CondQuiet(branches[i].cond, hidden - {name});
        RegionBecomesLoopsOnly(branches[i].body, name, hidden);
      }
    case Loop(h, body) =>
      assert b in LoopsOf(b);
      forall x | x in hidden ensures HeaderSilent(h, x) {
        assert x == name || x in hidden - {name};
      }
    case Jump(_) =>
  }

  lemma {:induction false} RegionBecomesLoopsOnly(rg: Region, name: Name, hidden: set<Name>)
    requires name in hidden && RegionQuiet(rg, hidden - {name}) && !TouchedOutside(rg, name) && TopTests(rg, name)
    requires forall l :: l in RegionLoops(rg, 0) && l.Loop? ==> HeaderSilent(l.header, name)
    ensures RegionLoopsOnly(rg, name, hidden)
    decreases rg
  {
    forall i | 0 <= i < |rg.blocks| ensures LoopsOnly(rg.blocks[i], name, hidden) {
      forall l | l in LoopsOf(rg.blocks[i]) && l.Loop? ensures HeaderSilent(l.header, name) {
        RegionLoopsHold(rg, 0, i, l);
      }
      BlockLoopsOnly(rg.blocks[i], name, hidden);
    }
    forall i | 0 <= i < |rg.edges| ensures SilentAll(rg.edges[i].acts, hidden) {
      var acts := rg.edges[i].acts;
      assert rg.edges[i] in rg.edges && SilentAll(acts, hidden - {name}) && SetsSymbols(acts, name);
      forall e | e in acts ensures !Mentions(e, name) {
        var j :| 0 <= j < |acts| && acts[j] == e;
      }
      assert Silent(acts, name);
    }
  }

  // ---------------------------------------------------------------- what counts as outside

  /** No edge between the blocks of the loop itself reads the container. */
  ghost predicate OwnEdgesSilent(l: Block, name: Name) {
    l.Loop? ==> forall e :: e in l.body.edges ==> !ActsRead(e.acts, name)
  }

  /** Nothing the program does outside its loops mentions the container, nor do the loops' headers and own edges. */
  ghost predicate OutsideSilent(rg: Region, name: Name) {
    RegionLoopsOnly(rg, name, {name}) && forall l :: l in RegionLoops(rg, 0) ==> OwnEdgesSilent(l, name)
  }

  lemma {:induction false} QuietNothing(b: Block)
    ensures Quiet(b, {})
    decreases b
  {
    match b
    case Cond(_, branches) =>
      forall i | 0 <= i < |branches| ensures RegionQuiet(branches[i].body, {}) {
        RegionQuietNothing(branches[i].body);
      }
    case Loop(_, body) => RegionQuietNothing(body);
    case _ =>
  }

  lemma {:induction false} RegionQuietNothing(rg: Region)
    ensures RegionQuiet(rg, {})
    decreases rg
  {
    forall i | 0 <= i < |rg.blocks| ensures Quiet(rg.blocks[i], {}) {
      QuietNothing(rg.blocks[i]);
    }
  }

  lemma {:induction false} BlockOutside(b: Block, name: Name)
    requires LoopsOnly(b, name, {name}) && forall l :: l in LoopsOf(b) ==> OwnEdgesSilent(l, name)
    ensures !BlockTouchedOutside(b, name)
    decreases b
  {
    match b
    case State(_, stmts) =>
      assert name in {name} && Silent(StmtEvents(stmts), name);
      forall s | s in stmts ensures s.output.data != name && name !in Names(s.inputs) {
        var i :| 0 <= i < |stmts| && stmts[i] == s;
        assert StmtEvents(stmts)[i] in StmtEvents(stmts);
      }
    case Cond(_, branches) =>
      forall i | 0 <= i < |branches| ensures !TouchedOutside(branches[i].body, name) {
        forall l | l in RegionLoops(branches[i].body, 0) ensures OwnEdgesSilent(l, name) {
          BranchLoopsHold(b, 0, i, l);
        }
        RegionOutside(branches[i].body, name);
      }
    case Loop(h, body) =>
      assert b in LoopsOf(b);
      assert OwnEdgesSilent(b, name);
    case Jump(_) =>
  }

  lemma {:induction false} RegionOutside(rg: Region, name: Name)
    requires OutsideSilent(rg, name)
    ensures !TouchedOutside(rg, name)
    decreases rg
  {
    forall i | 0 <= i < |rg.blocks| ensures !BlockTouchedOutside(rg.blocks[i], name) {
      forall l | l in LoopsOf(rg.blocks[i]) ensures OwnEdgesSilent(l, name) {
        RegionLoopsHold(rg, 0, i, l);
      }
      BlockOutside(rg.blocks[i], name);
    }
    forall e | e in rg.edges ensures !ActsRead(e.acts, name) {
      var i :| 0 <= i < |rg.edges| && rg.edges[i] == e;
      assert name in {name} && Silent(rg.edges[i].acts, name);
    }
  }

  lemma {:induction false} LoopEdgesOutside(rg: Region, name: Name, i: nat, l: Block)
    requires i <= |rg.blocks| && l in RegionLoops(rg, i) && !TouchedOutside(rg, name)
    ensures OwnEdgesSilent(l, name)
    decreases rg, 0, |rg.blocks| - i
  {
    if l in LoopsOf(rg.blocks[i]) {
      BlockEdgesOutside(rg.blocks[i], name, l);
    } else {
      LoopEdgesOutside(rg, name, i + 1, l);
    }
  }

  lemma {:induction false} BlockEdgesOutside(b: Block, name: Name, l: Block)
    requires l in LoopsOf(b) && !BlockTouchedOutside(b, name)
    ensures OwnEdgesSilent(l, name)
    decreases b, 1
  {
    if b.Cond? {
      BranchEdgesOutside(b, name, 0, l);
    }
  }

  lemma {:induction false} BranchEdgesOutside(b: Block, name: Name, i: nat, l: Block)
    requires b.Cond? && i <= |b.branches| && l in BranchLoops(b, i) && !BlockTouchedOutside(b, name)
    ensures OwnEdgesSilent(l, name)
    decreases b, 0, |b.branches| - i
  {
    if l in RegionLoops(b.branches[i].body, 0) {
      LoopEdgesOutside(b.branches[i].body, name, 0, l);
    } else {
      BranchEdgesOutside(b, name, i + 1, l);
    }
  }

  /** The pass looks at states and edges; where conditions outside and headers do not name the container, that is all
      there is outside. */
  lemma TouchedOutsideIff(rg: Region, name: Name)
    requires TopTests(rg, name) && forall l :: l in RegionLoops(rg, 0) && l.Loop? ==> HeaderSilent(l.header, name)
    ensures TouchedOutside(rg, name) <==> !OutsideSilent(rg, name)
  {
    if OutsideSilent(rg, name) {
      RegionOutside(rg, name);
    }
    if !TouchedOutside(rg, name) {
      RegionQuietNothing(rg);
      assert {name} - {name} == {};
      RegionBecomesLoopsOnly(rg, name, {name});
      forall l | l in RegionLoops(rg, 0) ensures OwnEdgesSilent(l, name) {
        LoopEdgesOutside(rg, name, 0, l);
      }
    }
  }

  // ---------------------------------------------------------------- renaming to the same name

  lemma RenameReadsSelf(uses: seq<Name>, name: Name)
    ensures RenameReads(uses, name, name) == uses
  {
  }

  lemma RenameStmtSelf(s: Stmt, name: Name)
    ensures RenameStmt(s, name, name) == s
  {
    assert RenameStmt(s, name, name).inputs == s.inputs;
  }

  lemma RenameEdgeSelf(e: Edge, name: Name)
    ensures RenameEdge(e, name, name) == e
  {
    forall i | 0 <= i < |e.acts| ensures RenameAct(e.acts[i], name, name) == e.acts[i] {
      RenameReadsSelf(e.acts[i].uses, name);
    }
    assert RenameEdge(e, name, name).acts == e.acts;
  }

  lemma {:induction false} RenameBlockSelf(b: Block, name: Name)
    ensures RenameBlock(b, name, name) == b
    decreases b
  {
    match b
    case State(_, stmts) =>
      forall i | 0 <= i < |stmts| ensures RenameStmt(stmts[i], name, name) == stmts[i] {
        RenameStmtSelf(stmts[i], name);
      }
      assert RenameBlock(b, name, name).stmts == stmts;
    case Cond(_, branches) =>
      forall i | 0 <= i < |branches|
        ensures RenameCond(branches[i].cond, name, name) == branches[i].cond
        ensures RenameRegion(branches[i].body, name, name) == branches[i].body
      {
        if branches[i].cond.Some? {
          RenameReadsSelf(branches[i].cond.value.uses, name);
        }
        RenameSelf(branches[i].body, name);
      }
      assert RenameBlock(b, name, name).branches == branches;
    case Loop(_, body) => RenameSelf(body, name);
    case Jump(_) =>
  }

  lemma {:induction false} RenameSelf(rg: Region, name: Name)
    ensures RenameRegion(rg, name, name) == rg
    decreases rg
  {
    forall i | 0 <= i < |rg.blocks| ensures RenameBlock(rg.blocks[i], name, name) == rg.blocks[i] {
      RenameBlockSelf(rg.blocks[i], name);
    }
    forall i | 0 <= i < |rg.edges| ensures RenameEdge(rg.edges[i], name, name) == rg.edges[i] {
      RenameEdgeSelf(rg.edges[i], name);
    }
    assert RenameRegion(rg, name, name).blocks == rg.blocks && RenameRegion(rg, name, name).edges == rg.edges;
  }

  // ---------------------------------------------------------------- one loop after the other

  /** A second renaming, of loops the first left alone. */
  ghost predicate Composes(name: Name, first: nat -> Name, second: nat -> Name, both: nat -> Name) {
    forall id :: if first(id) == name then both(id) == second(id) else second(id) == name && both(id) == first(id)
  }

  lemma {:induction false} SplitBlockAgain(b: Block, name: Name, first: nat -> Name, second: nat -> Name,
                                           both: nat -> Name)
    requires Composes(name, first, second, both)
    ensures SplitBlock(SplitBlock(b, name, first), name, second) == SplitBlock(b, name, both)
    decreases b
  {
    match b
    case Cond(_, branches) =>
      forall i | 0 <= i < |branches|
        ensures SplitRegion(SplitRegion(branches[i].body, name, first), name, second) ==
                SplitRegion(branches[i].body, name, both)
      {
        SplitAgain(branches[i].body, name, first, second, both);
      }
      assert SplitBlock(SplitBlock(b, name, first), name, second).branches == SplitBlock(b, name, both).branches;
    case Loop(_, body) =>
      RenameSelf(body, name);
      RenameSelf(RenameRegion(body, name, first(body.id)), name);
      assert RenameRegion(body, name, first(body.id)).id == body.id;
    case _ =>
  }

  lemma {:induction false} SplitAgain(rg: Region, name: Name, first: nat -> Name, second: nat -> Name,
                                      both: nat -> Name)
    requires Composes(name, first, second, both)
    ensures SplitRegion(SplitRegion(rg, name, first), name, second) == SplitRegion(rg, name, both)
    decreases rg
  {
    forall i | 0 <= i < |rg.blocks|
      ensures SplitBlock(SplitBlock(rg.blocks[i], name, first), name, second) == SplitBlock(rg.blocks[i], name, both)
    {
      SplitBlockAgain(rg.blocks[i], name, first, second, both);
    }
    assert SplitRegion(SplitRegion(rg, name, first), name, second).blocks == SplitRegion(rg, name, both).blocks;
  }

  lemma {:induction false} SplitBlockSelf(b: Block, name: Name, copy: nat -> Name)
    requires forall id :: copy(id) == name
    ensures SplitBlock(b, name, copy) == b
    decreases b
  {
    match b
    case Cond(_, branches) =>
      forall i | 0 <= i < |branches| ensures SplitRegion(branches[i].body, name, copy) == branches[i].body {
        SplitSelf(branches[i].body, name, copy);
      }
      assert SplitBlock(b, name, copy).branches == branches;
    case Loop(_, body) => RenameSelf(body, name);
    case _ =>
  }

  lemma {:induction false} SplitSelf(rg: Region, name: Name, copy: nat -> Name)
    requires forall id :: copy(id) == name
    ensures SplitRegion(rg, name, copy) == rg
    decreases rg
  {
    forall i | 0 <= i < |rg.blocks| ensures SplitBlock(rg.blocks[i], name, copy) == rg.blocks[i] {
      SplitBlockSelf(rg.blocks[i], name, copy);
    }
    assert SplitRegion(rg, name, copy).blocks == rg.blocks;
  }

  // ---------------------------------------------------------------- what is left

  lemma {:induction false} RenamedBlockUntouched(b: Block, name: Name, to: Name)
    requires to != name
    ensures !BlockTouches(RenameBlock(b, name, to), name)
    decreases b
  {
    match b
    case State(_, stmts) =>
      var stmts' := RenameBlock(b, name, to).stmts;
      forall s | s in stmts' ensures s.output.data != name && name !in Names(s.inputs) {
        var i :| 0 <= i < |stmts'| && stmts'[i] == s;
        assert s == RenameStmt(stmts[i], name, to);
      }
    case Cond(_, branches) =>
      forall i | 0 <= i < |branches| ensures !Touches(RenameRegion(branches[i].body, name, to), name) {
        RenamedUntouched(branches[i].body, name, to);
      }
    case Loop(_, body) => RenamedUntouched(body, name, to);
    case Jump(_) =>
  }

  lemma {:induction false} RenamedUntouched(rg: Region, name: Name, to: Name)
    requires to != name
    ensures !Touches(RenameRegion(rg, name, to), name)
    decreases rg
  {
    var rg' := RenameRegion(rg, name, to);
    forall i | 0 <= i < |rg'.blocks| ensures !BlockTouches(rg'.blocks[i], name) {
      RenamedBlockUntouched(rg.blocks[i], name, to);
    }
    forall e | e in rg'.edges ensures !ActsRead(e.acts, name) {
      var i :| 0 <= i < |rg'.edges| && rg'.edges[i] == e;
      assert e == RenameEdge(rg.edges[i], name, to);
      forall a | a in e.acts ensures name !in a.uses {
        var j :| 0 <= j < |e.acts| && e.acts[j] == a;
        assert a == RenameAct(rg.edges[i].acts[j], name, to);
      }
    }
  }

  /** Once every outermost loop that touches the container has it under another name, nothing touches it. */
  lemma {:induction false} SplitBlockUntouched(b: Block, name: Name, copy: nat -> Name)
    requires !BlockTouchedOutside(b, name)
    requires forall l :: l in LoopsOf(b) && l.Loop? && BlockTouches(l, name) ==> copy(l.body.id) != name
    ensures !BlockTouches(SplitBlock(b, name, copy), name)
    decreases b
  {
    match b
    case Cond(_, branches) =>
      forall i | 0 <= i < |branches| ensures !Touches(SplitRegion(branches[i].body, name, copy), name) {
        forall l | l in RegionLoops(branches[i].body, 0) && l.Loop? && BlockTouches(l, name)
          ensures copy(l.body.id) != name
        {
          BranchLoopsHold(b, 0, i, l);
        }
        SplitUntouched(branches[i].body, name, copy);
      }
    case Loop(_, body) =>
      assert b in LoopsOf(b);
      if copy(body.id) == name {
        RenameSelf(body, name);
      } else {
        RenamedUntouched(body, name, copy(body.id));
      }
    case _ =>
  }

  lemma {:induction false} SplitUntouched(rg: Region, name: Name, copy: nat -> Name)
    requires !TouchedOutside(rg, name)
    requires forall l :: l in RegionLoops(rg, 0) && l.Loop? && BlockTouches(l, name) ==> copy(l.body.id) != name
    ensures !Touches(SplitRegion(rg, name, copy), name)
    decreases rg
  {
    forall i | 0 <= i < |rg.blocks| ensures !BlockTouches(SplitBlock(rg.blocks[i], name, copy), name) {
      forall l | l in LoopsOf(rg.blocks[i]) && l.Loop? && BlockTouches(l, name) ensures copy(l.body.id) != name {
        RegionLoopsHold(rg, 0, i, l);
      }
      SplitBlockUntouched(rg.blocks[i], name, copy);
    }
  }

  // ---------------------------------------------------------------- who mentions what afterwards

  lemma QuietEvents(t: seq<Event>, name: Name)
    ensures SilentAll(t, {name}) <==> Silent(t, name)
  {
    assert name in {name};
  }

  lemma {:induction false} RenamedBlockQuiet(b: Block, name: Name, to: Name)
    requires to != name && Renamable(b, name)
    ensures Quiet(RenameBlock(b, name, to), {name})
    decreases b
  {
    match b
    case State(_, stmts) =>
      RenameStmts(stmts, name, to);
      var t := StmtEvents(RenameBlock(b, name, to).stmts);
      forall e | e in t ensures !Mentions(e, name) {
        var i :| 0 <= i < |t| && t[i] == e;
        assert e == RenameEvent(StmtEvents(stmts)[i], name, to);
      }
      QuietEvents(t, name);
    case Cond(_, branches) =>
      forall i | 0 <= i < |branches| ensures RegionQuiet(RenameRegion(branches[i].body, name, to), {name}) {
        RenamedQuiet(branches[i].body, name, to);
      }
    case Loop(_, body) => RenamedQuiet(body, name, to);
    case Jump(_) =>
  }

  lemma {:induction false} RenamedQuiet(rg: Region, name: Name, to: Name)
    requires to != name && RegionRenamable(rg, name)
    ensures RegionQuiet(RenameRegion(rg, name, to), {name})
    decreases rg
  {
    var rg' := RenameRegion(rg, name, to);
    forall i | 0 <= i < |rg'.blocks| ensures Quiet(rg'.blocks[i], {name}) {
      RenamedBlockQuiet(rg.blocks[i], name, to);
    }
    forall i | 0 <= i < |rg'.edges| ensures SilentAll(rg'.edges[i].acts, {name}) {
      var acts := rg'.edges[i].acts;
      forall a | a in acts ensures !Mentions(a, name) {
        var j :| 0 <= j < |acts| && acts[j] == a;
        assert a == RenameAct(rg.edges[i].acts[j], name, to);
      }
      QuietEvents(acts, name);
    }
  }

  /** The loop may be renamed away, or does not mention the container. */
  ghost predicate Renames(l: Block, name: Name, copy: nat -> Name) {
    l.Loop? ==> RegionRenamable(l.body, name) && (copy(l.body.id) != name || RegionQuiet(l.body, {name}))
  }

  /** Nothing mentions the container any more. */
  lemma {:induction false} SplitBlockQuiet(b: Block, name: Name, copy: nat -> Name)
    requires LoopsOnly(b, name, {name}) && forall l :: l in LoopsOf(b) ==> Renames(l, name, copy)
    ensures Quiet(SplitBlock(b, name, copy), {name})
    decreases b
  {
    match b
    case Cond(_, branches) =>
      forall i | 0 <= i < |branches| ensures RegionQuiet(SplitRegion(branches[i].body, name, copy), {name}) {
        forall l | l in RegionLoops(branches[i].body, 0) ensures Renames(l, name, copy) {
          BranchLoopsHold(b, 0, i, l);
        }
        SplitQuiet(branches[i].body, name, copy);
      }
    case Loop(_, body) =>
      assert b in LoopsOf(b);
      if copy(body.id) == name {
        RenameSelf(body, name);
      } else {
        RenamedQuiet(body, name, copy(body.id));
      }
    case _ =>
  }

  lemma {:induction false} SplitQuiet(rg: Region, name: Name, copy: nat -> Name)
    requires RegionLoopsOnly(rg, name, {name}) && forall l :: l in RegionLoops(rg, 0) ==> Renames(l, name, copy)
    ensures RegionQuiet(SplitRegion(rg, name, copy), {name})
    decreases rg
  {
    forall i | 0 <= i < |rg.blocks| ensures Quiet(SplitBlock(rg.blocks[i], name, copy), {name}) {
      forall l | l in LoopsOf(rg.blocks[i]) ensures Renames(l, name, copy) {
        RegionLoopsHold(rg, 0, i, l);
      }
      SplitBlockQuiet(rg.blocks[i], name, copy);
    }
  }

  lemma {:induction false} RenamedBlockKeepsQuiet(b: Block, name: Name, to: Name, xs: set<Name>)
    requires Quiet(b, xs) && to !in xs
    ensures Quiet(RenameBlock(b, name, to), xs)
    decreases b
  {
    match b
    case State(_, stmts) =>
      RenameStmts(stmts, name, to);
      RenamedEventsKeepQuiet(StmtEvents(stmts), RenameTrace(StmtEvents(stmts), name, to), name, to, xs);
    case Cond(_, branches) =>
      forall i | 0 <= i < |branches| ensures RegionQuiet(RenameRegion(branches[i].body, name, to), xs) {
        RenamedKeepsQuiet(branches[i].body, name, to, xs);
      }
    case Loop(_, body) => RenamedKeepsQuiet(body, name, to, xs);
    case Jump(_) =>
  }

  lemma RenamedEventsKeepQuiet(t: seq<Event>, t': seq<Event>, name: Name, to: Name, xs: set<Name>)
    requires SilentAll(t, xs) && to !in xs && |t'| == |t|
    requires forall i :: 0 <= i < |t| ==> t'[i] == RenameEvent(t[i], name, to) || t'[i] == RenameAct(t[i], name, to)
    ensures SilentAll(t', xs)
  {
    forall x, e | x in xs && e in t' ensures !Mentions(e, x) {
      var i :| 0 <= i < |t'| && t'[i] == e;
      assert t[i] in t && Silent(t, x) && !Mentions(t[i], x);
    }
  }

  lemma {:induction false} RenamedKeepsQuiet(rg: Region, name: Name, to: Name, xs: set<Name>)
    requires RegionQuiet(rg, xs) && to !in xs
    ensures RegionQuiet(RenameRegion(rg, name, to), xs)
    decreases rg
  {
    var rg' := RenameRegion(rg, name, to);
    forall i | 0 <= i < |rg'.blocks| ensures Quiet(rg'.blocks[i], xs) {
      RenamedBlockKeepsQuiet(rg.blocks[i], name, to, xs);
    }
    forall i | 0 <= i < |rg'.edges| ensures SilentAll(rg'.edges[i].acts, xs) {
      RenamedEventsKeepQuiet(rg.edges[i].acts, rg'.edges[i].acts, name, to, xs);
    }
  }

  /** Names that were not mentioned, and are not given, are not mentioned afterwards. */
  lemma {:induction false} SplitBlockKeepsQuiet(b: Block, name: Name, copy: nat -> Name, xs: set<Name>)
    requires Quiet(b, xs) && forall id :: copy(id) !in xs
    ensures Quiet(SplitBlock(b, name, copy), xs)
    decreases b
  {
    match b
    case Cond(_, branches) =>
      forall i | 0 <= i < |branches| ensures RegionQuiet(SplitRegion(branches[i].body, name, copy), xs) {
        SplitKeepsQuiet(branches[i].body, name, copy, xs);
      }
    case Loop(_, body) => RenamedKeepsQuiet(body, name, copy(body.id), xs);
    case _ =>
  }

  lemma {:induction false} SplitKeepsQuiet(rg: Region, name: Name, copy: nat -> Name, xs: set<Name>)
    requires RegionQuiet(rg, xs) && forall id :: copy(id) !in xs
    ensures RegionQuiet(SplitRegion(rg, name, copy), xs)
    decreases rg
  {
    forall i | 0 <= i < |rg.blocks| ensures Quiet(SplitBlock(rg.blocks[i], name, copy), xs) {
      SplitBlockKeepsQuiet(rg.blocks[i], name, copy, xs);
    }
  }

  lemma {:induction false} QuietUnionBlock(b: Block, xs: set<Name>, ys: set<Name>, zs: set<Name>)
    requires Quiet(b, xs) && Quiet(b, ys) && zs <= xs + ys
    ensures Quiet(b, zs)
    decreases b
  {
    match b
    case Cond(_, branches) =>
      forall i | 0 <= i < |branches| ensures CondQuiet(branches[i].cond, zs) && RegionQuiet(branches[i].body, zs) {
        QuietUnion(branches[i].body, xs, ys, zs);
      }
    case Loop(_, body) => QuietUnion(body, xs, ys, zs);
    case _ =>
  }

  lemma {:induction false} QuietUnion(rg: Region, xs: set<Name>, ys: set<Name>, zs: set<Name>)
    requires RegionQuiet(rg, xs) && RegionQuiet(rg, ys) && zs <= xs + ys
    ensures RegionQuiet(rg, zs)
    decreases rg
  {
    forall i | 0 <= i < |rg.blocks| ensures Quiet(rg.blocks[i], zs) {
      QuietUnionBlock(rg.blocks[i], xs, ys, zs);
    }
    forall i | 0 <= i < |rg.edges| ensures SilentAll(rg.edges[i].acts, zs) {
      assert SilentAll(rg.edges[i].acts, xs) && SilentAll(rg.edges[i].acts, ys);
    }
  }
}
