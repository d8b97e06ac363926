/** Renaming a container inside part of a program: it commutes with taking the events of a run, and a run whose reads
    are all covered by its own writes does not notice. */
module Renaming {
  import opened ControlFlow
  import opened Options

  // ---------------------------------------------------------------- coverage

  /** Defined before, or written by one of the events. */
  ghost predicate Defined(trace: seq<Event>, name: Name, before: bool) {
    before || exists i :: 0 <= i < |trace| && Writes(trace[i], name)
  }

  /** Every read of the container has a write earlier among the events, unless it was defined before them. */
  ghost predicate Covered(trace: seq<Event>, name: Name, before: bool) {
    forall i :: 0 <= i < |trace| && name in trace[i].uses ==> Defined(trace[..i], name, before)
  }

  /** In every run of the region each read has an earlier write. */
  ghost predicate CoveredInRuns(rg: Region, name: Name) {
    forall r :: ValidRegion(rg, r) ==> Covered(RegionTrace(rg, r), name, false)
  }

  ghost predicate DefinedInRuns(rg: Region, name: Name) {
    forall r :: ValidRegion(rg, r) ==> Defined(RegionTrace(rg, r), name, false)
  }

  lemma DefinedConcat(a: seq<Event>, b: seq<Event>, name: Name, before: bool)
    ensures Defined(a + b, name, before) <==> Defined(b, name, Defined(a, name, before))
  {
    var c := a + b;
    if i :| 0 <= i < |a| && Writes(a[i], name) {
      assert Writes(c[i], name);
    }
    if i :| 0 <= i < |b| && Writes(b[i], name) {
      assert Writes(c[|a| + i], name);
    }
    if i :| 0 <= i < |c| && Writes(c[i], name) {
      assert if i < |a| then Writes(a[i], name) else Writes(b[i - |a|], name);
    }
  }

  lemma CoveredConcat(a: seq<Event>, b: seq<Event>, name: Name, before: bool)
    requires Covered(a, name, before) && Covered(b, name, Defined(a, name, before))
    ensures Covered(a + b, name, before)
  {
    var c := a + b;
    forall i | 0 <= i < |c| && name in c[i].uses ensures Defined(c[..i], name, before) {
      if i < |a| {
        assert c[..i] == a[..i];
      } else {
        assert c[..i] == a + b[..i - |a|];
        assert name in b[i - |a|].uses;
        DefinedConcat(a, b[..i - |a|], name, before);
      }
    }
  }

  lemma CoveredTail(trace: seq<Event>, name: Name, before: bool)
    requires trace != [] && Covered(trace, name, before)
    ensures name in trace[0].uses ==> before
    ensures Covered(trace[1..], name, before || Writes(trace[0], name))
  {
    assert trace[..0] == [];
    var rest, first := trace[1..], before || Writes(trace[0], name);
    forall i | 0 <= i < |rest| && name in rest[i].uses ensures Defined(rest[..i], name, first) {
      assert Defined(trace[..i + 1], name, before);
      assert trace[..i + 1] == [trace[0]] + rest[..i];
      DefinedConcat([trace[0]], rest[..i], name, before);
      if Defined([trace[0]], name, before) && !before {
        assert Writes([trace[0]][0], name);
      }
    }
  }

  lemma SilentCovered(trace: seq<Event>, name: Name, before: bool)
    requires Silent(trace, name)
    ensures Covered(trace, name, before)
  {
    forall i | 0 <= i < |trace| ensures name !in trace[i].uses {
      assert trace[i] in trace;
    }
  }

  // ---------------------------------------------------------------- stores

  /** Equal outside the hidden containers. */
  ghost predicate Agree(s: Store, s': Store, hidden: set<Name>) {
    forall x :: x !in hidden ==> Get(s, x) == Get(s', x)
  }

  ghost predicate AgreeResults(r: Option<Store>, r': Option<Store>, hidden: set<Name>) {
    match (r, r')
    case (None, None) => true
    case (Some(s), Some(s')) => Agree(s, s', hidden)
    case _ => false
  }

  ghost predicate SilentAll(trace: seq<Event>, names: set<Name>) {
    forall x :: x in names ==> Silent(trace, x)
  }

  /** Events that mention no hidden container do the same to both stores. */
  lemma {:induction false} SilentSame(m: Meaning, trace: seq<Event>, s: Store, s': Store, hidden: set<Name>)
    requires Agree(s, s', hidden) && SilentAll(trace, hidden)
    ensures AgreeResults(Exec(m, trace, s), Exec(m, trace, s'), hidden)
    decreases |trace|
  {
    if trace != [] {
      var e := trace[0];
      assert e in trace;
      forall x | x in e.uses ensures x !in hidden {
        assert x in hidden ==> Silent(trace, x) && !Mentions(e, x);
      }
      assert Values(s, e.uses) == Values(s', e.uses);
      SilentAllTail(trace, hidden);
      match e
      case Do(uses, target, op) =>
        var v := m.apply(op, Values(s, uses));
        SilentSame(m, trace[1..], s[target := v], s'[target := v], hidden);
      case Check(_, _, _) => SilentSame(m, trace[1..], s, s', hidden);
    }
  }

  lemma SilentAllTail(trace: seq<Event>, names: set<Name>)
    requires trace != [] && SilentAll(trace, names)
    ensures SilentAll(trace[1..], names)
  {
    forall x | x in names ensures Silent(trace[1..], x) {
      assert Silent(trace, x);
    }
  }

  lemma SilentAllConcat(a: seq<Event>, b: seq<Event>, names: set<Name>)
    ensures SilentAll(a + b, names) <==> SilentAll(a, names) && SilentAll(b, names)
  {
    forall x | x in names ensures Silent(a + b, x) <==> Silent(a, x) && Silent(b, x) {
      assert forall e :: e in a + b <==> e in a || e in b;
    }
  }

  /** Both stores hold the same value for the container, one of them under its new name. */
  ghost predicate Carried(s: Store, s': Store, name: Name, to: Name, defined: bool) {
    defined ==> Get(s, name) == Get(s', to)
  }

  ghost predicate CarriedResults(r: Option<Store>, r': Option<Store>, name: Name, to: Name, defined: bool) {
    r.Some? && r'.Some? ==> Carried(r.value, r'.value, name, to, defined)
  }

  lemma RenamedValues(s: Store, s': Store, hidden: set<Name>, uses: seq<Name>, name: Name, to: Name)
    requires Agree(s, s', hidden) && (forall x :: x in uses && x in hidden ==> x == name)
    requires name in uses ==> Get(s, name) == Get(s', to)
    ensures Values(s, uses) == Values(s', RenameReads(uses, name, to))
  {
    forall i | 0 <= i < |uses| ensures Get(s, uses[i]) == Get(s', Swap(uses[i], name, to)) {
      assert uses[i] in uses;
    }
  }

  /** Covered events perform the same under the new name, whatever the copy held before. */
  lemma {:induction false} RenamedSame(m: Meaning, trace: seq<Event>, name: Name, to: Name, hidden: set<Name>,
                                       s: Store, s': Store, before: bool)
    requires Covered(trace, name, before) && name in hidden && to in hidden && SilentAll(trace, hidden - {name})
    requires Agree(s, s', hidden) && Carried(s, s', name, to, before)
    ensures AgreeResults(Exec(m, trace, s), Exec(m, RenameTrace(trace, name, to), s'), hidden)
    ensures CarriedResults(Exec(m, trace, s), Exec(m, RenameTrace(trace, name, to), s'), name, to,
                           Defined(trace, name, before))
    decreases |trace|
  {
    if trace != [] {
      var e, renamed := trace[0], RenameTrace(trace, name, to);
      assert renamed[0] == RenameEvent(e, name, to) && renamed[1..] == RenameTrace(trace[1..], name, to);
      CoveredTail(trace, name, before);
      SilentAllTail(trace, hidden - {name});
      assert e in trace;
      forall x | Mentions(e, x) && x in hidden ensures x == name {
        assert x != name ==> Silent(trace, x);
      }
      RenamedValues(s, s', hidden, e.uses, name, to);
      match e
      case Do(uses, target, op) =>
        var v := m.apply(op, Values(s, uses));
        RenamedSame(m, trace[1..], name, to, hidden, s[target := v], s'[Swap(target, name, to) := v],
                    before || Writes(e, name));
      case Check(_, _, _) => RenamedSame(m, trace[1..], name, to, hidden, s, s', before);
    }
  }

  // ---------------------------------------------------------------- renaming commutes with running

  /** Interstate edges assign symbols, not the container, and no loop header names it. */
  ghost predicate Renamable(b: Block, name: Name)
    decreases b
  {
    match b
    case Cond(_, branches) => forall i :: 0 <= i < |branches| ==> RegionRenamable(branches[i].body, name)
    case Loop(h, body) => HeaderSilent(h, name) && RegionRenamable(body, name)
    case _ => true
  }

  ghost predicate RegionRenamable(rg: Region, name: Name)
    decreases rg
  {
    && (forall i :: 0 <= i < |rg.blocks| ==> Renamable(rg.blocks[i], name))
    && (forall i :: 0 <= i < |rg.edges| ==> SetsSymbols(rg.edges[i].acts, name))
  }

  ghost predicate SetsSymbols(acts: seq<Event>, name: Name) {
    forall i :: 0 <= i < |acts| ==> !Writes(acts[i], name)
  }

  ghost predicate HeaderSilent(h: Header, name: Name) {
    Silent(h.init, name) && Silent(h.update, name) && name !in h.cond.uses
  }

  lemma RenameConcat(a: seq<Event>, b: seq<Event>, from: Name, to: Name)
    ensures RenameTrace(a + b, from, to) == RenameTrace(a, from, to) + RenameTrace(b, from, to)
  {}

  lemma RenameSilent(trace: seq<Event>, from: Name, to: Name)
    requires Silent(trace, from)
    ensures RenameTrace(trace, from, to) == trace
  {
    forall i | 0 <= i < |trace| ensures RenameEvent(trace[i], from, to) == trace[i] {
      assert trace[i] in trace && !Mentions(trace[i], from);
      assert RenameReads(trace[i].uses, from, to) == trace[i].uses;
    }
  }

  lemma RenameStmts(stmts: seq<Stmt>, from: Name, to: Name)
    ensures StmtEvents(seq(|stmts|, i requires 0 <= i < |stmts| => RenameStmt(stmts[i], from, to))) ==
            RenameTrace(StmtEvents(stmts), from, to)
  {
    forall i | 0 <= i < |stmts|
      ensures StmtEvent(RenameStmt(stmts[i], from, to)) == RenameEvent(StmtEvent(stmts[i]), from, to)
    {
      var s := stmts[i];
      assert Names(RenameStmt(s, from, to).inputs) == RenameReads(Names(s.inputs), from, to);
    }
  }

  lemma RenameActs(e: Edge, from: Name, to: Name)
    requires SetsSymbols(e.acts, from)
    ensures RenameEdge(e, from, to).acts == RenameTrace(e.acts, from, to)
  {}

  lemma {:induction false} RenameRefused(branches: seq<Branch>, renamed: seq<Branch>, from: Name, to: Name)
    requires |branches| == |renamed|
    requires forall i :: 0 <= i < |branches| ==> renamed[i].cond == RenameCond(branches[i].cond, from, to)
    ensures Refused(renamed) == RenameTrace(Refused(branches), from, to)
    decreases |branches|
  {
    if branches != [] {
      RenameRefused(branches[1..], renamed[1..], from, to);
      var head := if branches[0].cond.Some? then [Asked(branches[0].cond.value, false)] else [];
      RenameConcat(head, Refused(branches[1..]), from, to);
    }
  }

  /** A valid run of a block is a valid run of the renamed block, and its events are the renamed events. */
  lemma {:induction false} RenameBlockTrace(b: Block, r: BlockRun, from: Name, to: Name)
    requires ValidBlock(b, r) && Renamable(b, from)
    ensures ValidBlock(RenameBlock(b, from, to), r)
    ensures BlockTrace(RenameBlock(b, from, to), r) == RenameTrace(BlockTrace(b, r), from, to)
    decreases r, 0
  {
    match b
    case State(_, stmts) => RenameStmts(stmts, from, to);
    case Jump(_) =>
    case Cond(_, _) => RenameCondTrace(b, r, from, to);
    case Loop(h, body) =>
      RenameLoopTrace(h, body, r.iters, from, to);
      RenameConcat(h.init, LoopTrace(h, body, r.iters), from, to);
      RenameConcat(h.init + LoopTrace(h, body, r.iters), [Asked(h.cond, false)], from, to);
      RenameSilent(h.init, from, to);
      RenameSilent([Asked(h.cond, false)], from, to);
  }

  lemma {:induction false} RenameCondTrace(b: Block, r: BlockRun, from: Name, to: Name)
    requires b.Cond? && ValidBlock(b, r) && Renamable(b, from)
    ensures ValidBlock(RenameBlock(b, from, to), r)
    ensures BlockTrace(RenameBlock(b, from, to), r) == RenameTrace(BlockTrace(b, r), from, to)
    decreases r, 0, 0
  {
    var branches, branches' := b.branches, RenameBlock(b, from, to).branches;
    if r.Taken? {
      var i := r.branch;
      RenameRegionTrace(branches[i].body, r.inner, from, to);
      RenameRefused(branches[..i], branches'[..i], from, to);
      RenameConcat(Refused(branches[..i]), Entered(branches[i]), from, to);
      RenameConcat(Refused(branches[..i]) + Entered(branches[i]), RegionTrace(branches[i].body, r.inner), from, to);
      assert Entered(branches'[i]) == RenameTrace(Entered(branches[i]), from, to);
    } else {
      RenameRefused(branches, branches', from, to);
      SameElse(branches, branches');
    }
  }

  lemma {:induction false} RenameLoopTrace(h: Header, body: Region, iters: seq<RegionRun>, from: Name, to: Name)
    requires HeaderSilent(h, from) && RegionRenamable(body, from)
    requires forall i :: 0 <= i < |iters| ==> ValidRegion(body, iters[i])
    ensures forall i :: 0 <= i < |iters| ==> ValidRegion(RenameRegion(body, from, to), iters[i])
    ensures LoopTrace(h, RenameRegion(body, from, to), iters) == RenameTrace(LoopTrace(h, body, iters), from, to)
    decreases iters
  {
    if iters != [] {
      RenameRegionTrace(body, iters[0], from, to);
      RenameLoopTrace(h, body, iters[1..], from, to);
      forall i | 0 <= i < |iters| ensures ValidRegion(RenameRegion(body, from, to), iters[i]) {
        assert i > 0 ==> iters[i] == iters[1..][i - 1];
      }
      var t := RegionTrace(body, iters[0]);
      var first := [Asked(h.cond, true)];
      RenameSilent(first, from, to);
      RenameSilent(h.update, from, to);
      RenameConcat(first, t, from, to);
      RenameConcat(first + t, h.update, from, to);
      RenameConcat(first + t + h.update, LoopTrace(h, body, iters[1..]), from, to);
    }
  }

  lemma {:induction false} RenameRegionTrace(rg: Region, r: RegionRun, from: Name, to: Name)
    requires ValidRegion(rg, r) && RegionRenamable(rg, from)
    ensures ValidRegion(RenameRegion(rg, from, to), r)
    ensures RegionTrace(RenameRegion(rg, from, to), r) == RenameTrace(RegionTrace(rg, r), from, to)
    decreases r, 2
  {
    if rg.blocks != [] {
      RenamePathTrace(rg, r, from, to);
    }
  }

  lemma {:induction false} RenamePathTrace(rg: Region, r: RegionRun, from: Name, to: Name)
    requires ValidPath(rg, r) && RegionRenamable(rg, from)
    ensures ValidPath(RenameRegion(rg, from, to), r)
    ensures PathTrace(RenameRegion(rg, from, to), r) == RenameTrace(PathTrace(rg, r), from, to)
    decreases r, 1
  {
    var rg' := RenameRegion(rg, from, to);
    RenameBlockTrace(rg.blocks[r.block], r.run, from, to);
    var t := BlockTrace(rg.blocks[r.block], r.run);
    if r.Last? {
      forall e | e in rg'.edges ensures e.src != r.block {
        var i :| 0 <= i < |rg'.edges| && rg'.edges[i] == e;
        assert rg.edges[i] in rg.edges;
      }
      assert t + [] == t;
    } else {
      RenamePathTrace(rg, r.rest, from, to);
      RenameActs(rg.edges[r.via], from, to);
      RenameConcat(rg.edges[r.via].acts, PathTrace(rg, r.rest), from, to);
      RenameConcat(t, rg.edges[r.via].acts + PathTrace(rg, r.rest), from, to);
    }
  }

  // ---------------------------------------------------------------- the same runs

  /** Renaming changes neither the shape of a block nor, therefore, which runs it has. */
  lemma {:induction false} RenameBlockRuns(b: Block, r: BlockRun, from: Name, to: Name)
    ensures ValidBlock(RenameBlock(b, from, to), r) <==> ValidBlock(b, r)
    decreases r, 0
  {
    match b
    case Cond(_, branches) =>
      var branches' := RenameBlock(b, from, to).branches;
      if r.Taken? && r.branch < |branches| {
        RenameRegionRuns(branches[r.branch].body, r.inner, from, to);
      }
      SameElse(branches, branches');
    case Loop(h, body) =>
      if r.Iterations? {
        forall i | 0 <= i < |r.iters|
          ensures ValidRegion(RenameRegion(body, from, to), r.iters[i]) <==> ValidRegion(body, r.iters[i])
        {
          RenameRegionRuns(body, r.iters[i], from, to);
        }
      }
    case _ =>
  }

  lemma SameElse(branches: seq<Branch>, branches': seq<Branch>)
    requires |branches| == |branches'|
    requires forall i :: 0 <= i < |branches| ==> (branches[i].cond.Some? <==> branches'[i].cond.Some?)
    ensures (forall br :: br in branches ==> br.cond.Some?) <==> (forall br :: br in branches' ==> br.cond.Some?)
  {
    if forall br :: br in branches ==> br.cond.Some? {
      forall br | br in branches' ensures br.cond.Some? {
        var i :| 0 <= i < |branches'| && branches'[i] == br;
        assert branches[i] in branches;
      }
    }
    if forall br :: br in branches' ==> br.cond.Some? {
      forall br | br in branches ensures br.cond.Some? {
        var i :| 0 <= i < |branches| && branches[i] == br;
        assert branches'[i] in branches';
      }
    }
  }

  lemma {:induction false} RenameRegionRuns(rg: Region, r: RegionRun, from: Name, to: Name)
    ensures ValidRegion(RenameRegion(rg, from, to), r) <==> ValidRegion(rg, r)
    decreases r, 2
  {
    if rg.blocks != [] {
      RenamePathRuns(rg, r, from, to);
    }
  }

  lemma {:induction false} RenamePathRuns(rg: Region, r: RegionRun, from: Name, to: Name)
    ensures ValidPath(RenameRegion(rg, from, to), r) <==> ValidPath(rg, r)
    decreases r, 1
  {
    if !r.Empty? && r.block < |rg.blocks| {
      RenameBlockRuns(rg.blocks[r.block], r.run, from, to);
      SameSinks(rg, RenameRegion(rg, from, to), r.block);
      if r.Then? {
        RenamePathRuns(rg, r.rest, from, to);
      }
    }
  }

  lemma SameSinks(rg: Region, rg': Region, b: nat)
    requires |rg.edges| == |rg'.edges| && forall i :: 0 <= i < |rg.edges| ==> rg.edges[i].src == rg'.edges[i].src
    ensures Sink(rg, b) <==> Sink(rg', b)
  {
    if Sink(rg, b) {
      forall e | e in rg'.edges ensures e.src != b {
        var i :| 0 <= i < |rg'.edges| && rg'.edges[i] == e;
        assert rg.edges[i] in rg.edges;
      }
    }
    if Sink(rg', b) {
      forall e | e in rg.edges ensures e.src != b {
        var i :| 0 <= i < |rg.edges| && rg.edges[i] == e;
        assert rg'.edges[i] in rg'.edges;
      }
    }
  }
}
