/** Programs the fission pass accepts though a loop reads what its iteration has not written, one for each thing the
    analysis takes for granted; and one that the pass makes compute something else. */
module FissionBreaks {
  import opened ControlFlow
  import opened MustDefined
  import opened MustDefinedMemo
  import opened ExactScan
  import opened Renaming
  import opened LoopCopies
  import opened LoopRenames
  import opened ScalarFission
  import opened ScanOrder
  import opened Options

  // ---------------------------------------------------------------- programs of one loop

  ghost function OneLoop(body: Region): Region {
    Region(20, [Loop(Header([], Test([], 0), []), body)], [], 0)
  }

  /** What the pass asks of such a program. */
  lemma OneLoopAccepted(body: Region, name: Name)
    requires Scan(body, name, false).ok && Touches(body, name)
    requires forall e :: e in body.edges ==> !ActsRead(e.acts, name)
    ensures Accepts(OneLoop(body), name)
  {
    var rg := OneLoop(body);
    var l := rg.blocks[0];
    assert LoopsOf(l) == [l] && RegionLoops(rg, 1) == [];
    assert RegionLoops(rg, 0) == [l];
    assert [l][1..] == [] && Groups([], name) == [];
    assert Groups([l], name) == [l];
  }

  lemma ReadsFirst(rg: Region, s: Name, r: RegionRun, e: Event)
    requires ValidRegion(rg, r) && RegionTrace(rg, r) != [] && RegionTrace(rg, r)[0] == e && s in e.uses
    ensures !CoveredInRuns(rg, s)
  {
    var t := RegionTrace(rg, r);
    assert s in t[0].uses && !Defined(t[..0], s, false);
  }

  lemma ScanOne(id: nat, b: Block, s: Name, entry: bool)
    ensures Scan(Region(id, [b], [], 0), s, entry) == BlockExit(b, s, entry)
  {
    var rg, top, out := Region(id, [b], [], 0), AllTrue(1), [BlockExit(b, s, entry).exit];
    TopologicalSettles(rg, s, entry, top, ROUNDS);
    assert top[0 := out[0]] == out && IsSink(rg, 0);
    assert EntryOf(rg, entry, top, 0) == entry && EntryOf(rg, entry, out, 0) == entry;
    assert Sweep(rg, s, entry, top, 0) == Sweep(rg, s, entry, out, 1) == out;
    assert BlocksOk(rg, s, entry, out, 1);
    assert BlocksOk(rg, s, entry, out, 0) == BlockExit(b, s, entry).ok;
  }

  // ---------------------------------------------------------------- a loop that may run no iteration

  /** A loop over the values 0 only of its variable. */
  ghost function Once(i: Name, body: Region): Block {
    Loop(Header([Do([], i, 0)], Test([i], 0), [Do([], i, 1)]), body)
  }

  ghost function OnceTrace(i: Name, t: seq<Event>): seq<Event> {
    [Do([], i, 0)] + ([Check([i], 0, true)] + t + [Do([], i, 1)] + []) + [Check([i], 0, false)]
  }

  lemma OnceRun(i: Name, body: Region, r: RegionRun)
    requires ValidRegion(body, r)
    ensures ValidBlock(Once(i, body), Iterations([r]))
    ensures BlockTrace(Once(i, body), Iterations([r])) == OnceTrace(i, RegionTrace(body, r))
  {
    var h := Once(i, body).header;
    assert [r][1..] == [];
    assert LoopTrace(h, body, [r]) == [Asked(h.cond, true)] + RegionTrace(body, r) + h.update + [];
  }

  lemma OnceNames(i: Name, body: Region, s: Name)
    requires s != i
    ensures !HeaderNames(Once(i, body).header, s)
  {
  }

  ghost function CopyRun(): RegionRun {
    Then(0, Plain, 0, Last(1, Plain))
  }

  lemma CopyTrace(s: Name)
    ensures ValidRegion(ReadThenWrite(s), CopyRun())
    ensures RegionTrace(ReadThenWrite(s), CopyRun()) == [Do([s], "t", 0), Do([], s, 0)]
  {
    var rg := ReadThenWrite(s);
    assert Names([Node(0, s)]) == [s] && Names([]) == [];
    assert StmtEvents(rg.blocks[0].stmts) == [Do([s], "t", 0)];
    assert StmtEvents(rg.blocks[1].stmts) == [Do([], s, 0)];
    StateTrace(rg, 1, [Do([], s, 0)]);
    assert ValidVia(rg, 0, 0, 1);
    assert PathTrace(rg, CopyRun()) == [Do([s], "t", 0)] + ([] + [Do([], s, 0)]);
  }

  lemma StateTrace(rg: Region, b: nat, t: seq<Event>)
    requires b < |rg.blocks| && rg.blocks[b].State? && StmtEvents(rg.blocks[b].stmts) == t && Sink(rg, b)
    ensures ValidPath(rg, Last(b, Plain)) && PathTrace(rg, Last(b, Plain)) == t
  {
    assert t + [] == t;
  }

  /** A body whose only block is a loop that reads the scalar before writing it. */
  ghost function Nest(s: Name): Region {
    Region(3, [Once("j", ReadThenWrite(s))], [], 0)
  }

  ghost function NestRun(): RegionRun {
    Last(0, Iterations([CopyRun()]))
  }

  lemma NestTrace(s: Name)
    ensures ValidRegion(Nest(s), NestRun())
    ensures RegionTrace(Nest(s), NestRun()) == OnceTrace("j", [Do([s], "t", 0), Do([], s, 0)])
  {
    CopyTrace(s);
    OnceRun("j", ReadThenWrite(s), CopyRun());
    var t := OnceTrace("j", [Do([s], "t", 0), Do([], s, 0)]);
    assert t + [] == t;
    assert ValidPath(Nest(s), NestRun());
  }

  lemma NestAccepted(s: Name)
    requires s !in {"j", "t"}
    ensures Scan(Nest(s), s, false).ok && BlockTouches(Nest(s).blocks[0], s) && Touches(Nest(s), s)
  {
    var body := ReadThenWrite(s);
    OnceNames("j", body, s);
    FalseSlotsDiffer(Once("j", body).header, s);
    ScanOne(3, Once("j", body), s, false);
    assert Stmt([], Node(2, s), 0) in body.blocks[1].stmts;
    assert BlockTouches(body.blocks[1], s);
    assert Touches(body, s);
    assert BlockTouches(Nest(s).blocks[0], s);
  }

  /** The loop case lets the inner loop define the scalar on its exit: the pass accepts, and one iteration of the inner
      loop reads what nothing has written. */
  lemma NestedLoopNotCovered(s: Name)
    requires s !in {"j", "t"}
    ensures Accepts(OneLoop(Nest(s)), s) && !CoveredInRuns(Nest(s), s)
  {
    NestAccepted(s);
    OneLoopAccepted(Nest(s), s);
    NestTrace(s);
    var t := RegionTrace(Nest(s), NestRun());
    assert t[2] == Do([s], "t", 0) && s in t[2].uses;
    assert t[0] == Do([], "j", 0) && t[1] == Check(["j"], 0, true);
    assert !Defined(t[..2], s, false);
  }

  // ---------------------------------------------------------------- a test of a branch

  ghost function Writer(s: Name): Block {
    State(10, [Stmt([], Node(0, s), 0)])
  }

  lemma WriterVerdict(s: Name, entry: bool)
    ensures BlockExit(Writer(s), s, entry) == Verdict(true, true)
    ensures BlockTouches(Writer(s), s)
  {
    assert Stmt([], Node(0, s), 0) in Writer(s).stmts;
  }

  /** A conditional whose test reads the scalar. */
  ghost function Tester(s: Name): Block {
    Cond(8, [Branch(Some(Test([s], 0)), Region(9, [], [], 0))])
  }

  lemma TesterVerdict(s: Name)
    ensures BlockExit(Tester(s), s, false) == Verdict(true, false)
    ensures ValidBlock(Tester(s), NoneTaken) && BlockTrace(Tester(s), NoneTaken) == [Check([s], 0, false)]
  {
    var b := Tester(s);
    assert !HasElse(b.branches) && Scan(b.branches[0].body, s, false) == Verdict(true, false);
    assert Branches(b, s, false, 1) == Verdict(true, true);
    assert Branches(b, s, false, 0) == Verdict(true, false);
    assert b.branches[1..] == [];
    assert Refused(b.branches) == [Asked(Test([s], 0), false)] + [];
  }

  /** And then a write of it. */
  ghost function TestReader(s: Name): Region {
    Region(7, [Tester(s), Writer(s)], [Edge(0, 1, [])], 0)
  }

  lemma TestReaderAccepted(s: Name)
    ensures Scan(TestReader(s), s, false).ok
  {
    var rg, top, out := TestReader(s), AllTrue(2), [false, true];
    assert Edge(0, 1, []) in rg.edges;
    TopologicalSettles(rg, s, false, top, ROUNDS);
    TesterVerdict(s);
    WriterVerdict(s, false);
    assert !EntryOf(rg, false, top, 0);
    assert top[0 := false] == out && !EntryOf(rg, false, out, 0) && !EntryOf(rg, false, out, 1);
    assert out[1 := true] == out;
    assert Sweep(rg, s, false, out, 1) == Sweep(rg, s, false, out, 2) == out;
    assert Sweep(rg, s, false, top, 0) == out;
    assert BlocksOk(rg, s, false, out, 2) && BlocksOk(rg, s, false, out, 1) && BlocksOk(rg, s, false, out, 0);
  }

  lemma TestReaderRun(s: Name)
    ensures !CoveredInRuns(TestReader(s), s)
  {
    var rg, r := TestReader(s), Then(0, NoneTaken, 0, Last(1, Plain));
    TesterVerdict(s);
    assert ValidPath(rg, Last(1, Plain)) && ValidVia(rg, 0, 0, 1);
    assert ValidRegion(rg, r);
    ReadsFirst(rg, s, r, Check([s], 0, false));
  }

  /** The analysis does not look at the tests of branches: the pass accepts the loop, and each iteration of it reads the
      scalar first. */
  lemma TestNotSeen(s: Name)
    ensures Accepts(OneLoop(TestReader(s)), s) && !CoveredInRuns(TestReader(s), s)
  {
    TestReaderAccepted(s);
    TestReaderRun(s);
    WriterVerdict(s, false);
    assert BlockTouches(TestReader(s).blocks[1], s);
    OneLoopAccepted(TestReader(s), s);
  }

  // ---------------------------------------------------------------- a start block with predecessors

  /** The start block reads the scalar, the next writes it, and an edge leads back. */
  ghost function ReadAtStart(s: Name): Region {
    Region(7, [Reader(s), Writer(s), Jump(11)], [Edge(0, 1, []), Edge(1, 0, []), Edge(1, 2, [])], 0)
  }

  lemma ReadAtStartAccepted(s: Name)
    requires s != "t"
    ensures Scan(ReadAtStart(s), s, false).ok
  {
    var rg := ReadAtStart(s);
    EnteredAfter(s, AllTrue(3));
    ReaderVerdict(s, true);
    WriterVerdict(s, true);
    NeverUndefined(rg, s);
  }

  /** The rounds start with every block defined, and stay there if each block then is entered defined. */
  lemma NeverUndefined(rg: Region, s: Name)
    requires rg.blocks != [] && forall i :: 0 <= i < |rg.blocks| ==> BlockExit(rg.blocks[i], s, true).ok
    requires forall i :: 0 <= i < |rg.blocks| ==> EntryOf(rg, false, AllTrue(|rg.blocks|), i)
    ensures Scan(rg, s, false).ok
  {
    var top := AllTrue(|rg.blocks|);
    TopSweep(rg, s, top, 0);
    RoundsAreSweeps(rg, s, false, top, ROUNDS);
    SweepsAtFixpoint(rg, s, false, top, ROUNDS);
  }

  lemma {:induction false} TopSweep(rg: Region, s: Name, top: seq<bool>, i: nat)
    requires top == AllTrue(|rg.blocks|) && i <= |top|
    requires forall i :: 0 <= i < |top| ==> BlockExit(rg.blocks[i], s, true).ok && EntryOf(rg, false, top, i)
    ensures Sweep(rg, s, false, top, i) == top && BlocksOk(rg, s, false, top, i)
    decreases |top| - i
  {
    if i < |top| {
      TrueStays(rg.blocks[i], s);
      assert top[i := true] == top;
      TopSweep(rg, s, top, i + 1);
    }
  }

  lemma EnteredAfter(s: Name, out: seq<bool>)
    requires |out| == 3 && out[0] && out[1]
    ensures forall i :: 0 <= i < 3 ==> EntryOf(ReadAtStart(s), false, out, i)
  {
    var rg := ReadAtStart(s);
    assert rg.edges[0] in rg.edges && rg.edges[1] in rg.edges && rg.edges[2] in rg.edges;
  }

  lemma ReadAtStartRun(s: Name)
    ensures !CoveredInRuns(ReadAtStart(s), s)
  {
    var rg, r := ReadAtStart(s), Then(0, Plain, 0, Then(1, Plain, 2, Last(2, Plain)));
    assert ValidPath(rg, Last(2, Plain)) && ValidVia(rg, 1, 2, 2) && ValidVia(rg, 0, 0, 1);
    assert ValidPath(rg, r.rest);
    assert ValidRegion(rg, r);
    assert Names([Node(0, s)]) == [s];
    assert StmtEvents(Reader(s).stmts) == [Do([s], "t", 0)];
    ReadsFirst(rg, s, r, Do([s], "t", 0));
  }

  /** The analysis asks the predecessors only, also of the block the region is entered at. */
  lemma StartNotSeen(s: Name)
    requires s != "t"
    ensures Accepts(OneLoop(ReadAtStart(s)), s) && !CoveredInRuns(ReadAtStart(s), s)
  {
    ReadAtStartAccepted(s);
    ReadAtStartRun(s);
    WriterVerdict(s, true);
    assert BlockTouches(ReadAtStart(s).blocks[1], s);
    OneLoopAccepted(ReadAtStart(s), s);
  }

  // ---------------------------------------------------------------- more blocks in a row than rounds

  /** Ten blocks or more listed backwards: the rounds end before what the first leaves has come to the last. */
  lemma RoundsRunOut(n: nat, s: Name)
    requires s != "t" && n >= ROUNDS + 2
    ensures Accepts(OneLoop(Backwards(n, s)), s) && !CoveredInRuns(Backwards(n, s), s)
  {
    var rg := Backwards(n, s);
    LongPathAccepted(n, s);
    LongPathNotCovered(n, s);
    var copy := Stmt([Node(0, s)], Node(1, "t"), 0);
    assert copy in Reader(s).stmts && Names(copy.inputs)[0] == s;
    assert rg.blocks[0] == Reader(s) && BlockTouches(rg.blocks[0], s);
    OneLoopAccepted(rg, s);
  }

  // ---------------------------------------------------------------- what the program computes changes

  ghost function WriteOnce(s: Name): Region {
    Region(1, [State(2, [Stmt([], Node(0, s), 5)])], [], 0)
  }

  /** The first loop writes one name; in the second an inner loop copies the other into "t", and then writes it. */
  ghost function TwoLoops(s1: Name, s2: Name): Region {
    Region(9, [Once("i", WriteOnce(s1)), Once("i", Nest(s2))], [Edge(0, 1, [])], 0)
  }

  /** One iteration of each loop. */
  ghost function OnceEach(): RegionRun {
    Then(0, Iterations([Last(0, Plain)]), 0, Last(1, Iterations([NestRun()])))
  }

  ghost function Whole(s1: Name, s2: Name): seq<Event> {
    OnceTrace("i", [Do([], s1, 5)]) + OnceTrace("i", OnceTrace("j", [Do([s2], "t", 0), Do([], s2, 0)]))
  }

  lemma WriteTrace(s: Name)
    ensures ValidRegion(WriteOnce(s), Last(0, Plain)) && RegionTrace(WriteOnce(s), Last(0, Plain)) == [Do([], s, 5)]
  {
    assert Names([]) == [];
    assert StmtEvents(WriteOnce(s).blocks[0].stmts) == [Do([], s, 5)];
    StateTrace(WriteOnce(s), 0, [Do([], s, 5)]);
  }

  lemma WholeTrace(s1: Name, s2: Name)
    ensures ValidRegion(TwoLoops(s1, s2), OnceEach())
    ensures RegionTrace(TwoLoops(s1, s2), OnceEach()) == Whole(s1, s2)
  {
    var rg := TwoLoops(s1, s2);
    WriteTrace(s1);
    OnceRun("i", WriteOnce(s1), Last(0, Plain));
    NestTrace(s2);
    OnceRun("i", Nest(s2), NestRun());
    TwoBlocks(rg, Iterations([Last(0, Plain)]), Iterations([NestRun()]));
  }

  lemma TwoBlocks(rg: Region, r1: BlockRun, r2: BlockRun)
    requires |rg.blocks| == 2 && rg.edges == [Edge(0, 1, [])] && rg.start == 0
    requires ValidBlock(rg.blocks[0], r1) && ValidBlock(rg.blocks[1], r2)
    ensures ValidRegion(rg, Then(0, r1, 0, Last(1, r2)))
    ensures RegionTrace(rg, Then(0, r1, 0, Last(1, r2))) ==
            BlockTrace(rg.blocks[0], r1) + BlockTrace(rg.blocks[1], r2)
  {
    var t1, t2 := BlockTrace(rg.blocks[0], r1), BlockTrace(rg.blocks[1], r2);
    assert Sink(rg, 1) && ValidPath(rg, Last(1, r2)) && PathTrace(rg, Last(1, r2)) == t2 + [];
    assert ValidVia(rg, 0, 0, 1);
    assert t1 + ([] + (t2 + [])) == t1 + t2;
  }

  /** Computations give their number, or their operand; tests ask for 0. */
  ghost function Plainly(): Meaning {
    Meaning((op, vals: seq<int>) => if vals == [] then op else vals[0], (op, vals: seq<int>) => vals == [0])
  }

  /** Performing a loop that runs once: its variable goes from 0 to 1. */
  lemma OnceExec(i: Name, t: seq<Event>, s: Store, s': Store)
    requires Exec(Plainly(), t, s[i := 0]) == Some(s')
    ensures Exec(Plainly(), OnceTrace(i, t), s) == Some(s'[i := 1])
  {
    var m := Plainly();
    var first, last := [Do([], i, 0)] + [Check([i], 0, true)], [Do([], i, 1)] + [Check([i], 0, false)];
    assert OnceTrace(i, t) == first + (t + last);
    ExecConcat(m, first, t + last, s);
    ExecConcat(m, t, last, s[i := 0]);
    FirstExec(i, 0, true, s);
    FirstExec(i, 1, false, s');
  }

  lemma FirstExec(i: Name, n: int, outcome: bool, s: Store)
    requires outcome == (n == 0)
    ensures Exec(Plainly(), [Do([], i, n)] + [Check([i], 0, outcome)], s) == Some(s[i := n])
  {
    var m, t := Plainly(), [Do([], i, n)] + [Check([i], 0, outcome)];
    assert t[1..] == [Check([i], 0, outcome)] && t[1..][1..] == [];
    assert Values(s, []) == [] && m.apply(n, []) == n;
    assert Values(s[i := n], [i]) == [n] && (n == 0 <==> [n] == [0]);
    assert Exec(m, t[1..], s[i := n]) == Some(s[i := n]);
  }

  lemma CopyExec(s2: Name, s: Store)
    ensures Exec(Plainly(), [Do([s2], "t", 0), Do([], s2, 0)], s) == Some(s["t" := Get(s, s2)][s2 := 0])
  {
    var t := [Do([s2], "t", 0), Do([], s2, 0)];
    var s' := s["t" := Get(s, s2)];
    assert Values(s, [s2]) == [Get(s, s2)] && Values(s', []) == [];
    assert t[1..] == [Do([], s2, 0)] && t[1..][1..] == [];
    assert Exec(Plainly(), t, s) == Exec(Plainly(), t[1..], s');
  }

  /** "t" holds in the end what the first loop wrote, if both names are one, and else what the second name held at the
      start. */
  lemma WholeExec(s1: Name, s2: Name, s: Store)
    requires s1 !in {"i", "j", "t"} && s2 !in {"i", "j", "t"}
    ensures var r := Exec(Plainly(), Whole(s1, s2), s);
            r.Some? && Get(r.value, "t") == if s1 == s2 then 5 else Get(s, s2)
  {
    var m, w := Plainly(), [Do([], s1, 5)];
    var a := s["i" := 0][s1 := 5];
    assert Values(s["i" := 0], []) == [] && w[1..] == [];
    assert Exec(m, w, s["i" := 0]) == Some(a);
    OnceExec("i", w, s, a);
    var b := a["i" := 1];
    var c := b["i" := 0]["j" := 0];
    CopyExec(s2, c);
    OnceExec("j", [Do([s2], "t", 0), Do([], s2, 0)], b["i" := 0], c["t" := Get(c, s2)][s2 := 0]);
    var d := c["t" := Get(c, s2)][s2 := 0]["j" := 1];
    OnceExec("i", OnceTrace("j", [Do([s2], "t", 0), Do([], s2, 0)]), b, d);
    ExecConcat(m, OnceTrace("i", w), OnceTrace("i", OnceTrace("j", [Do([s2], "t", 0), Do([], s2, 0)])), s);
  }

  lemma BothGroups(s: Name)
    requires s !in {"i", "j", "t"}
    ensures var rg := TwoLoops(s, s); Groups(RegionLoops(rg, 0), s) == RegionLoops(rg, 0) == rg.blocks
  {
    var rg := TwoLoops(s, s);
    var a, b := rg.blocks[0], rg.blocks[1];
    assert RegionLoops(rg, 2) == [] && LoopsOf(a) == [a] && LoopsOf(b) == [b];
    assert RegionLoops(rg, 1) == [b] && RegionLoops(rg, 0) == [a, b];
    NestAccepted(s);
    assert Stmt([], Node(0, s), 5) in WriteOnce(s).blocks[0].stmts;
    assert BlockTouches(WriteOnce(s).blocks[0], s);
    assert BlockTouches(a, s) && BlockTouches(b, s);
    assert Groups([], s) == [] && [b][1..] == [];
    assert Groups([b], s) == [b] && [a, b][1..] == [b];
  }

  lemma TwoLoopsShaped(s: Name)
    ensures RegionShaped(WriteOnce(s), s) && RegionShaped(Nest(s), s)
  {
    assert SetsSymbols([], s);
    assert RegionShaped(ReadThenWrite(s), s);
    assert Shaped(Once("j", ReadThenWrite(s)), s);
  }

  lemma TwoLoopsAccepted(s: Name)
    requires s !in {"i", "j", "t"}
    ensures Accepts(TwoLoops(s, s), s) && Supported(TwoLoops(s, s), s)
  {
    var rg := TwoLoops(s, s);
    BothGroups(s);
    forall l | l in RegionLoops(rg, 0)
      ensures l.Loop? && RegionShaped(l.body, s) && BlockTouches(l, s)
      ensures !HeaderNames(l.header, s) && Scan(l.body, s, false).ok
    {
      GroupsAre(RegionLoops(rg, 0), s, l);
      TwoLoopsShaped(s);
      EachAccepted(s, l);
    }
    assert !BlockTouchedOutside(rg.blocks[0], s) && !BlockTouchedOutside(rg.blocks[1], s);
    assert !TouchedOutside(rg, s) && TopTests(rg, s);
  }

  lemma EachAccepted(s: Name, l: Block)
    requires s !in {"i", "j", "t"} && (l == Once("i", WriteOnce(s)) || l == Once("i", Nest(s)))
    ensures !HeaderNames(l.header, s) && Scan(l.body, s, false).ok
  {
    OnceNames("i", l.body, s);
    NestAccepted(s);
    ScanOne(1, WriteOnce(s).blocks[0], s, false);
  }

  lemma RenameState(id: nat, stmt: Stmt, s: Name, c: Name)
    ensures RenameBlock(State(id, [stmt]), s, c) == State(id, [RenameStmt(stmt, s, c)])
  {
  }

  lemma RenameReadThenWrite(s: Name, c: Name)
    requires s != "t"
    ensures RenameRegion(ReadThenWrite(s), s, c) == ReadThenWrite(c)
  {
    var read, write := Stmt([Node(0, s)], Node(1, "t"), 0), Stmt([], Node(2, s), 0);
    RenameState(1, read, s, c);
    RenameState(2, write, s, c);
    assert RenameStmt(read, s, c).inputs == [Node(0, c)] && RenameStmt(write, s, c).inputs == [];
    var rg, rg' := RenameRegion(ReadThenWrite(s), s, c), ReadThenWrite(c);
    assert rg.blocks == rg'.blocks;
    assert rg.edges[0].acts == [] && rg.edges == rg'.edges;
  }

  lemma RenameWriteOnce(s: Name, c: Name)
    ensures RenameRegion(WriteOnce(s), s, c) == WriteOnce(c)
  {
    var write := Stmt([], Node(0, s), 5);
    RenameState(2, write, s, c);
    assert RenameStmt(write, s, c).inputs == [];
    assert RenameRegion(WriteOnce(s), s, c).blocks == WriteOnce(c).blocks;
  }

  lemma RenameNest(s: Name, c: Name)
    requires s != "t"
    ensures RenameRegion(Nest(s), s, c) == Nest(c)
  {
    RenameReadThenWrite(s, c);
    assert RenameBlock(Once("j", ReadThenWrite(s)), s, c) == Once("j", ReadThenWrite(c));
    assert RenameRegion(Nest(s), s, c).blocks == Nest(c).blocks;
  }

  lemma SplitTwoLoops(s: Name, copy: nat -> Name)
    requires s != "t"
    ensures SplitRegion(TwoLoops(s, s), s, copy) == TwoLoops(copy(1), copy(3))
  {
    RenameWriteOnce(s, copy(1));
    RenameNest(s, copy(3));
    assert SplitBlock(Once("i", WriteOnce(s)), s, copy) == Once("i", WriteOnce(copy(1)));
    assert SplitBlock(Once("i", Nest(s)), s, copy) == Once("i", Nest(copy(3)));
    assert SplitRegion(TwoLoops(s, s), s, copy).blocks == TwoLoops(copy(1), copy(3)).blocks;
  }

  /** What one run of the two loops leaves in "t". */
  ghost predicate Leaves(s1: Name, s2: Name, st: Store, v: int) {
    ValidRegion(TwoLoops(s1, s2), OnceEach()) &&
    var r := Exec(Plainly(), RegionTrace(TwoLoops(s1, s2), OnceEach()), st);
    r.Some? && Get(r.value, "t") == v
  }

  lemma TwoLoopsLeave(s1: Name, s2: Name, st: Store)
    requires s1 !in {"i", "j", "t"} && s2 !in {"i", "j", "t"}
    ensures Leaves(s1, s2, st, if s1 == s2 then 5 else Get(st, s2))
  {
    WholeTrace(s1, s2);
    WholeExec(s1, s2, st);
  }

  lemma LeavesDiffer(s: Name, c1: Name, c3: Name, st: Store, hidden: set<Name>)
    requires Leaves(s, s, st, 5) && Leaves(c1, c3, st, 0) && "t" !in hidden
    ensures !SameProgram(TwoLoops(s, s), TwoLoops(c1, c3), hidden)
  {
    var rg, rg', r := TwoLoops(s, s), TwoLoops(c1, c3), OnceEach();
    var m, t, t' := Plainly(), RegionTrace(rg, r), RegionTrace(rg', r);
    assert Agree(st, st, hidden) && !AgreeResults(Exec(m, t, st), Exec(m, t', st), hidden);
    assert !SameEffect(m, t, t', hidden) && !SameRun(m, rg, rg', r, hidden);
  }

  /** The pass accepts the program, and then it computes something else: one run of it left in "t" what the first loop
      had written, whatever the containers held before; with a copy for each loop it leaves what the second copy
      held. */
  lemma FissionChanges(s: Name, copy: nat -> Name, hidden: set<Name>)
    requires s !in {"i", "j", "t"} && "t" !in hidden
    requires copy(1) !in {"i", "j", "t"} && copy(3) !in {"i", "j", "t"} && copy(1) != copy(3)
    ensures Accepts(TwoLoops(s, s), s) && Supported(TwoLoops(s, s), s)
    ensures forall st :: Leaves(s, s, st, 5) && Leaves(copy(1), copy(3), st, Get(st, copy(3)))
    ensures SplitRegion(TwoLoops(s, s), s, copy) == TwoLoops(copy(1), copy(3))
    ensures !SameProgram(TwoLoops(s, s), SplitRegion(TwoLoops(s, s), s, copy), hidden)
  {
    TwoLoopsAccepted(s);
    SplitTwoLoops(s, copy);
    forall st ensures Leaves(s, s, st, 5) && Leaves(copy(1), copy(3), st, Get(st, copy(3))) {
      TwoLoopsLeave(s, s, st);
      TwoLoopsLeave(copy(1), copy(3), st);
    }
    LeavesDiffer(s, copy(1), copy(3), map[], hidden);
  }
}
